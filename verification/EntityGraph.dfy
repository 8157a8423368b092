/**
 The walk that turns an entity graph, cycles and shared entities included, into a plain object.
 Entities are named by the keys of a graph; the list of visited entities is shared by the whole walk.
 */
module EntityGraph {
  import opened Sequences
  import opened Values
  import opened EntityTrees
  import opened EntityDiff

  datatype Prop<E> = Data(v: Value) | Ref(e: E) | Refs(es: seq<E>)

  /** An entity: its property keys in order, their values, and its custom fields. */
  datatype Node<E> = Node(keys: seq<string>, props: map<string, Prop<E>>, custom: map<string, Value>)

  type Graph<E> = map<E, Node<E>>

  /** The nested record of a walk: which entity was expanded where, and which of its keys were kept. */
  datatype Shot<E> = Shot(e: E, custom: map<string, Value>, keys: seq<string>, cells: map<string, Cell<E>>)
  datatype Cell<E> = DataCell(v: Value) | ShotCell(shot: Shot<E>) | ShotsCell(shots: seq<Shot<E>>)

  function Targets<E>(p: Prop<E>): seq<E> {
    match p
    case Data(_) => []
    case Ref(e) => [e]
    case Refs(es) => es
  }

  ghost predicate WellFormed<E>(g: Graph<E>) {
    forall e | e in g ::
      && NoDuplicates(g[e].keys)
      && (forall k | k in g[e].keys :: k in g[e].props)
      && (forall k | k in g[e].props :: k in g[e].keys)
      && forall k, t | k in g[e].props && t in Targets(g[e].props[k]) :: t in g
  }

  /** A link is left out if any entity it leads to was visited; an array of links is left out as a whole. */
  predicate IsVisited<E(==)>(p: Prop<E>, visited: seq<E>) {
    exists t | t in Targets(p) :: t in visited
  }

  function Kept<E(==)>(ks: seq<string>, props: map<string, Prop<E>>, visited: seq<E>): (r: seq<string>)
    requires forall k | k in ks :: k in props
    ensures forall k :: k in r <==> k in ks && !IsVisited(props[k], visited)
    ensures |r| <= |ks|
    ensures NoDuplicates(ks) ==> NoDuplicates(r)
  {
    if ks == [] then []
    else (if IsVisited(props[ks[0]], visited) then [] else [ks[0]]) + Kept(ks[1..], props, visited)
  }

  /** The entities on the call path are entities of the graph, and visited. */
  ghost predicate OnPath<E>(g: Graph<E>, path: set<E>, visited: seq<E>) {
    path <= g.Keys && forall p | p in path :: p in visited
  }

  ghost predicate MayWalk<E>(g: Graph<E>, e: E, visited: seq<E>, path: set<E>) {
    WellFormed(g) && OnPath(g, path, visited) && e in g && e !in path
  }

  ghost predicate MayWalkList<E>(g: Graph<E>, es: seq<E>, visited: seq<E>, path: set<E>) {
    WellFormed(g) && OnPath(g, path, visited) && forall e | e in es :: e in g && e !in path
  }

  ghost predicate MayWalkKeys<E>(g: Graph<E>, e: E, ks: seq<string>, visited: seq<E>, path: set<E>) {
    && WellFormed(g) && OnPath(g, path, visited) && e in g
    && forall k | k in ks :: k in g[e].props && forall t | t in Targets(g[e].props[k]) :: t !in path
  }

  /**
   The walk from e, given the entities visited so far; it returns the record and the entities visited then.
   It terminates because an entity is never expanded below itself: the entities on the call path all are
   visited, and a key is only kept if it leads to no visited entity at the time the keys are filtered.
   */
  ghost function Walk<E>(g: Graph<E>, e: E, visited: seq<E>, path: set<E>): (r: (Shot<E>, seq<E>))
    requires MayWalk(g, e, visited, path)
    ensures r.0.e == e && visited <= r.1 && e in r.1
    decreases g.Keys - path, 0, 0
  {
    var now := visited + [e];
    var kept := Kept(g[e].keys, g[e].props, now);
    var (cells, after) := WalkKeys(g, e, kept, now, path + {e});
    (Shot(e, g[e].custom, kept, cells), after)
  }

  ghost function WalkKeys<E>(g: Graph<E>, e: E, ks: seq<string>, visited: seq<E>, path: set<E>)
    : (r: (map<string, Cell<E>>, seq<E>))
    requires MayWalkKeys(g, e, ks, visited, path)
    ensures visited <= r.1
    ensures forall k :: k in r.0 <==> k in ks
    decreases g.Keys - path, 2, |ks|
  {
    if ks == [] then (map[], visited)
    else
      var (cell, between) := WalkProp(g, g[e].props[ks[0]], visited, path);
      var (rest, after) := WalkKeys(g, e, ks[1..], between, path);
      (rest[ks[0] := cell], after)
  }

  ghost function WalkProp<E>(g: Graph<E>, p: Prop<E>, visited: seq<E>, path: set<E>): (r: (Cell<E>, seq<E>))
    requires MayWalkList(g, Targets(p), visited, path)
    ensures visited <= r.1
    decreases g.Keys - path, 2, 0
  {
    match p
    case Data(v) => (DataCell(v), visited)
    case Ref(c) =>
      assert c in Targets(p);
      var (shot, after) := Walk(g, c, visited, path);
      (ShotCell(shot), after)
    case Refs(cs) =>
      var (shots, after) := WalkList(g, cs, visited, path);
      (ShotsCell(shots), after)
  }

  ghost function WalkList<E>(g: Graph<E>, cs: seq<E>, visited: seq<E>, path: set<E>): (r: (seq<Shot<E>>, seq<E>))
    requires MayWalkList(g, cs, visited, path)
    ensures visited <= r.1 && |r.0| == |cs|
    decreases g.Keys - path, 1, |cs|
  {
    if cs == [] then ([], visited)
    else
      var (shot, between) := Walk(g, cs[0], visited, path);
      var (rest, after) := WalkList(g, cs[1..], between, path);
      ([shot] + rest, after)
  }

  // ---- What a walk gives ----

  function EraseCell<E>(cell: Cell<E>): Value
    decreases cell
  {
    match cell
    case DataCell(v) => v
    case ShotCell(s) => Obj(Erase(s))
    case ShotsCell(ss) => Arr(seq(|ss|, i requires 0 <= i < |ss| => Obj(Erase(ss[i]))))
  }

  /** The plain object: custom fields, overridden by the properties kept. */
  function Erase<E>(s: Shot<E>): (m: map<string, Value>)
    ensures m.Keys == s.custom.Keys + s.cells.Keys
    decreases s
  {
    s.custom + map k | k in s.cells :: EraseCell(s.cells[k])
  }

  /** An object overlaid by what the cells erase to. */
  ghost predicate Overlaid<E>(below: map<string, Value>, cells: map<string, Cell<E>>, m: map<string, Value>) {
    && m.Keys == below.Keys + cells.Keys
    && (forall k | k in cells :: m[k] == EraseCell(cells[k]))
    && (forall k | k in below && k !in cells :: m[k] == below[k])
  }

  lemma OverlaidIsErased<E>(s: Shot<E>, m: map<string, Value>)
    requires Overlaid(s.custom, s.cells, m)
    ensures m == Erase(s)
  {
  }

  lemma OverlaidStep<E>(below: map<string, Value>, k: string, cell: Cell<E>, rest: map<string, Cell<E>>,
                        m: map<string, Value>)
    requires k !in rest && Overlaid(below[k := EraseCell(cell)], rest, m)
    ensures Overlaid(below, rest[k := cell], m)
  {
  }

  /** The objects are what the shots erase to. */
  ghost predicate ErasedTo<E>(ss: seq<Shot<E>>, objs: seq<Value>) {
    |ss| == |objs| && forall i | 0 <= i < |ss| :: objs[i] == Obj(Erase(ss[i]))
  }

  lemma ErasedToStep<E>(s: Shot<E>, ss: seq<Shot<E>>, objs: seq<Value>)
    requires ErasedTo(ss, objs)
    ensures ErasedTo([s] + ss, [Obj(Erase(s))] + objs)
  {
  }

  lemma ErasedToArray<E>(ss: seq<Shot<E>>, objs: seq<Value>)
    requires ErasedTo(ss, objs)
    ensures EraseCell(ShotsCell(ss)) == Arr(objs)
  {
  }

  /** The first step of a walk. */
  lemma WalkStarts<E>(g: Graph<E>, e: E, visited: seq<E>, path: set<E>)
    requires MayWalk(g, e, visited, path)
    ensures var now := visited + [e];
            var kept := Kept(g[e].keys, g[e].props, now);
            && MayWalkKeys(g, e, kept, now, path + {e})
            && var (cells, after) := WalkKeys(g, e, kept, now, path + {e});
            Walk(g, e, visited, path) == (Shot(e, g[e].custom, kept, cells), after)
  {
  }

  /** And of a walk of a list. */
  lemma WalkListStarts<E>(g: Graph<E>, cs: seq<E>, visited: seq<E>, path: set<E>)
    requires MayWalkList(g, cs, visited, path) && cs != []
    ensures MayWalk(g, cs[0], visited, path)
    ensures var (shot, between) := Walk(g, cs[0], visited, path);
            && MayWalkList(g, cs[1..], between, path)
            && var (shots, after) := WalkList(g, cs[1..], between, path);
            WalkList(g, cs, visited, path) == ([shot] + shots, after)
  {
  }

  /** No entity occurs below itself, nor any of `above` anywhere. */
  ghost predicate Unnested<E>(s: Shot<E>, above: set<E>)
    decreases s
  {
    && s.e !in above
    && forall k | k in s.cells :: UnnestedCell(s.cells[k], above + {s.e})
  }

  ghost predicate UnnestedCell<E>(cell: Cell<E>, above: set<E>)
    decreases cell
  {
    match cell
    case DataCell(_) => true
    case ShotCell(s) => Unnested(s, above)
    case ShotsCell(ss) => forall i | 0 <= i < |ss| :: Unnested(ss[i], above)
  }

  lemma {:induction false} WalkIsUnnested<E>(g: Graph<E>, e: E, visited: seq<E>, path: set<E>)
    requires MayWalk(g, e, visited, path)
    ensures Unnested(Walk(g, e, visited, path).0, path)
    decreases g.Keys - path, 0, 0
  {
    var now := visited + [e];
    WalkKeysUnnested(g, e, Kept(g[e].keys, g[e].props, now), now, path + {e});
  }

  lemma {:induction false} WalkKeysUnnested<E>(g: Graph<E>, e: E, ks: seq<string>, visited: seq<E>, path: set<E>)
    requires MayWalkKeys(g, e, ks, visited, path)
    ensures forall k | k in WalkKeys(g, e, ks, visited, path).0 ::
            UnnestedCell(WalkKeys(g, e, ks, visited, path).0[k], path)
    decreases g.Keys - path, 2, |ks|
  {
    if ks != [] {
      var (cell, between) := WalkProp(g, g[e].props[ks[0]], visited, path);
      WalkPropUnnested(g, g[e].props[ks[0]], visited, path);
      WalkKeysUnnested(g, e, ks[1..], between, path);
    }
  }

  lemma {:induction false} WalkPropUnnested<E>(g: Graph<E>, p: Prop<E>, visited: seq<E>, path: set<E>)
    requires MayWalkList(g, Targets(p), visited, path)
    ensures UnnestedCell(WalkProp(g, p, visited, path).0, path)
    decreases g.Keys - path, 2, 0
  {
    match p {
      case Data(_) =>
      case Ref(c) => assert c in Targets(p); WalkIsUnnested(g, c, visited, path);
      case Refs(cs) => WalkListUnnested(g, cs, visited, path);
    }
  }

  lemma {:induction false} WalkListUnnested<E>(g: Graph<E>, cs: seq<E>, visited: seq<E>, path: set<E>)
    requires MayWalkList(g, cs, visited, path)
    ensures forall i | 0 <= i < |cs| :: Unnested(WalkList(g, cs, visited, path).0[i], path)
    decreases g.Keys - path, 1, |cs|
  {
    if cs != [] {
      WalkIsUnnested(g, cs[0], visited, path);
      WalkListUnnested(g, cs[1..], Walk(g, cs[0], visited, path).1, path);
    }
  }

  // ---- Trees: nothing is left out ----

  ghost predicate Represents<E>(g: Graph<E>, e: E, t: Tree)
    decreases t
  {
    && e in g
    && g[e].custom == t.custom
    && g[e].props.Keys == t.props.Keys
    && forall k | k in t.props :: RepresentsProp(g, g[e].props[k], t.props[k])
  }

  ghost predicate RepresentsProp<E>(g: Graph<E>, p: Prop<E>, tp: TreeProp)
    decreases tp
  {
    match (p, tp)
    case (Data(v), Plain(w)) => v == w
    case (Ref(c), One(t)) => Represents(g, c, t)
    case (Refs(cs), Many(ts)) => |cs| == |ts| && forall i | 0 <= i < |ts| :: Represents(g, cs[i], ts[i])
    case _ => false
  }

  /** The entities of a tree in the order a full expansion meets them. */
  ghost function Footprint<E>(g: Graph<E>, e: E, t: Tree): (es: seq<E>)
    requires WellFormed(g) && Represents(g, e, t)
    ensures e in es
    decreases t, 1, 0
  {
    [e] + FootprintKeys(g, e, t, g[e].keys)
  }

  ghost function FootprintKeys<E>(g: Graph<E>, e: E, t: Tree, ks: seq<string>): seq<E>
    requires WellFormed(g) && Represents(g, e, t) && forall k | k in ks :: k in t.props
    decreases t, 0, |ks|
  {
    if ks == [] then []
    else FootprintProp(g, g[e].props[ks[0]], t.props[ks[0]]) + FootprintKeys(g, e, t, ks[1..])
  }

  ghost function FootprintProp<E>(g: Graph<E>, p: Prop<E>, tp: TreeProp): seq<E>
    requires WellFormed(g) && RepresentsProp(g, p, tp)
    decreases tp, 0, 0
  {
    match (p, tp)
    case (Data(_), Plain(_)) => []
    case (Ref(c), One(t)) => Footprint(g, c, t)
    case (Refs(cs), Many(ts)) => FootprintList(g, cs, ts)
  }

  ghost function FootprintList<E>(g: Graph<E>, cs: seq<E>, ts: seq<Tree>): seq<E>
    requires WellFormed(g) && |cs| == |ts| && forall i | 0 <= i < |ts| :: Represents(g, cs[i], ts[i])
    decreases ts, 2, 0
  {
    if ts == [] then [] else Footprint(g, cs[0], ts[0]) + FootprintList(g, cs[1..], ts[1..])
  }

  /** None of the entities was visited, and none occurs twice. */
  predicate Unseen<E(==)>(es: seq<E>, visited: seq<E>) {
    NoDuplicates(es) && forall x | x in es :: x !in visited
  }

  lemma UnseenSplit<E>(a: seq<E>, b: seq<E>, visited: seq<E>)
    requires Unseen(a + b, visited)
    ensures Unseen(a, visited) && Unseen(b, visited + a)
  {
    var c := a + b;
    forall i, j | 0 <= i < j < |a| ensures a[i] != a[j] { assert c[i] != c[j]; }
    forall i, j | 0 <= i < j < |b| ensures b[i] != b[j] { assert c[|a| + i] != c[|a| + j]; }
    forall i, j | 0 <= i < |a| && 0 <= j < |b| ensures a[i] != b[j] { assert c[i] != c[|a| + j]; }
    forall x | x in b ensures x !in visited { assert x in c; }
    forall x | x in a ensures x !in visited { assert x in c; }
  }

  lemma {:induction false} TargetsInFootprint<E>(g: Graph<E>, e: E, t: Tree, ks: seq<string>, k: string, c: E)
    requires WellFormed(g) && Represents(g, e, t) && forall k | k in ks :: k in t.props
    requires k in ks && c in Targets(g[e].props[k])
    ensures c in FootprintKeys(g, e, t, ks)
    decreases |ks|
  {
    if k == ks[0] {
      var p, tp := g[e].props[k], t.props[k];
      if p.Refs? {
        var i :| 0 <= i < |p.es| && p.es[i] == c;
        ListedInFootprint(g, p.es, tp.trees, i);
      }
      assert c in FootprintProp(g, p, tp);
    } else {
      TargetsInFootprint(g, e, t, ks[1..], k, c);
    }
  }

  lemma {:induction false} ListedInFootprint<E>(g: Graph<E>, cs: seq<E>, ts: seq<Tree>, j: nat)
    requires WellFormed(g) && |cs| == |ts| && j < |ts| && forall i | 0 <= i < |ts| :: Represents(g, cs[i], ts[i])
    ensures cs[j] in FootprintList(g, cs, ts)
    decreases j
  {
    if j > 0 { ListedInFootprint(g, cs[1..], ts[1..], j - 1); }
  }

  lemma {:induction false} KeptAll<E>(ks: seq<string>, props: map<string, Prop<E>>, visited: seq<E>)
    requires forall k | k in ks :: k in props && !IsVisited(props[k], visited)
    ensures Kept(ks, props, visited) == ks
  {
    if ks != [] { KeptAll(ks[1..], props, visited); }
  }

  lemma NothingSkipped<E>(g: Graph<E>, e: E, t: Tree, visited: seq<E>, path: set<E>)
    requires WellFormed(g) && Represents(g, e, t) && OnPath(g, path, visited)
    requires Unseen(FootprintKeys(g, e, t, g[e].keys), visited)
    ensures Kept(g[e].keys, g[e].props, visited) == g[e].keys
    ensures MayWalkKeys(g, e, g[e].keys, visited, path)
  {
    forall k | k in g[e].keys ensures !IsVisited(g[e].props[k], visited) {
      forall c | c in Targets(g[e].props[k]) ensures c !in visited {
        TargetsInFootprint(g, e, t, g[e].keys, k, c);
      }
    }
    KeptAll(g[e].keys, g[e].props, visited);
  }

  ghost predicate SameCells<E>(cells: map<string, Cell<E>>, ks: seq<string>, props: map<string, TreeProp>) {
    && (forall k :: k in cells <==> k in ks)
    && forall k | k in ks :: k in props && EraseCell(cells[k]) == SnapshotProp(props[k])
  }

  lemma ErasedShot<E>(s: Shot<E>, t: Tree)
    requires s.custom == t.custom && SameCells(s.cells, s.keys, t.props)
    requires forall k :: k in s.keys <==> k in t.props
    ensures Erase(s) == Snapshot(t)
  {
    assert s.cells.Keys == t.props.Keys;
    ErasedCells(s, t);
  }

  lemma ErasedCells<E>(s: Shot<E>, t: Tree)
    requires s.custom == t.custom && s.cells.Keys == t.props.Keys
    requires forall k | k in t.props :: EraseCell(s.cells[k]) == SnapshotProp(t.props[k])
    ensures Erase(s) == Snapshot(t)
  {
  }

  ghost predicate SameShots<E>(ss: seq<Shot<E>>, ts: seq<Tree>) {
    |ss| == |ts| && forall i | 0 <= i < |ts| :: Erase(ss[i]) == Snapshot(ts[i])
  }

  lemma MoreShots<E>(s: Shot<E>, ss: seq<Shot<E>>, ts: seq<Tree>)
    requires ts != [] && Erase(s) == Snapshot(ts[0]) && SameShots(ss, ts[1..])
    ensures SameShots([s] + ss, ts)
  {
  }

  lemma ErasedShots<E>(ss: seq<Shot<E>>, ts: seq<Tree>)
    requires SameShots(ss, ts)
    ensures EraseCell(ShotsCell(ss)) == SnapshotProp(Many(ts))
  {
  }

  lemma {:induction false} KeptNone<E>(ks: seq<string>, props: map<string, Prop<E>>, visited: seq<E>)
    requires forall k | k in ks :: k in props && IsVisited(props[k], visited)
    ensures Kept(ks, props, visited) == []
  {
    if ks != [] { KeptNone(ks[1..], props, visited); }
  }

  /** On entities that form a tree, the walk leaves nothing out: it gives the full expansion. */
  lemma {:induction false} WalkOfTree<E>(g: Graph<E>, e: E, t: Tree, visited: seq<E>, path: set<E>)
    requires MayWalk(g, e, visited, path) && Represents(g, e, t)
    requires Unseen(Footprint(g, e, t), visited)
    ensures var (shot, after) := Walk(g, e, visited, path);
            && shot.keys == g[e].keys
            && Erase(shot) == Snapshot(t)
            && after == visited + Footprint(g, e, t)
    decreases t, 1, 0
  {
    var now, ks, foot := visited + [e], g[e].keys, FootprintKeys(g, e, t, g[e].keys);
    UnseenSplit([e], foot, visited);
    NothingSkipped(g, e, t, now, path + {e});
    WalkKeysOfTree(g, e, t, ks, now, path + {e});
    Assoc(visited, [e], foot);
    WalkedTree(g, e, t, visited, path);
  }

  lemma WalkedTree<E>(g: Graph<E>, e: E, t: Tree, visited: seq<E>, path: set<E>)
    requires MayWalk(g, e, visited, path) && MayWalkKeys(g, e, g[e].keys, visited + [e], path + {e})
    requires Kept(g[e].keys, g[e].props, visited + [e]) == g[e].keys
    requires g[e].custom == t.custom && forall k :: k in g[e].keys <==> k in t.props
    requires SameCells(WalkKeys(g, e, g[e].keys, visited + [e], path + {e}).0, g[e].keys, t.props)
    ensures Walk(g, e, visited, path).0.keys == g[e].keys && Erase(Walk(g, e, visited, path).0) == Snapshot(t)
  {
    WalkOfAll(g, e, visited, path);
    ErasedShot(Walk(g, e, visited, path).0, t);
  }

  lemma WalkOfAll<E>(g: Graph<E>, e: E, visited: seq<E>, path: set<E>)
    requires MayWalk(g, e, visited, path) && MayWalkKeys(g, e, g[e].keys, visited + [e], path + {e})
    requires Kept(g[e].keys, g[e].props, visited + [e]) == g[e].keys
    ensures var (cells, after) := WalkKeys(g, e, g[e].keys, visited + [e], path + {e});
            Walk(g, e, visited, path) == (Shot(e, g[e].custom, g[e].keys, cells), after)
  {
  }

  lemma {:induction false} WalkKeysOfTree<E>(g: Graph<E>, e: E, t: Tree, ks: seq<string>, visited: seq<E>, path: set<E>)
    requires MayWalkKeys(g, e, ks, visited, path) && Represents(g, e, t)
    requires Unseen(FootprintKeys(g, e, t, ks), visited)
    ensures var (cells, after) := WalkKeys(g, e, ks, visited, path);
            SameCells(cells, ks, t.props) && after == visited + FootprintKeys(g, e, t, ks)
    decreases t, 0, |ks|
  {
    if ks != [] {
      var p, tp := g[e].props[ks[0]], t.props[ks[0]];
      UnseenSplit(FootprintProp(g, p, tp), FootprintKeys(g, e, t, ks[1..]), visited);
      WalkPropOfTree(g, p, tp, visited, path);
      WalkKeysOfTree(g, e, t, ks[1..], visited + FootprintProp(g, p, tp), path);
      Assoc(visited, FootprintProp(g, p, tp), FootprintKeys(g, e, t, ks[1..]));
    }
  }

  lemma {:induction false} WalkPropOfTree<E>(g: Graph<E>, p: Prop<E>, tp: TreeProp, visited: seq<E>, path: set<E>)
    requires MayWalkList(g, Targets(p), visited, path) && RepresentsProp(g, p, tp)
    requires Unseen(FootprintProp(g, p, tp), visited)
    ensures var (cell, after) := WalkProp(g, p, visited, path);
            EraseCell(cell) == SnapshotProp(tp) && after == visited + FootprintProp(g, p, tp)
    decreases tp, 0, 0
  {
    match (p, tp)
    case (Data(_), Plain(_)) =>
    case (Ref(c), One(t)) => assert c in Targets(p); WalkOfTree(g, c, t, visited, path);
    case (Refs(cs), Many(ts)) =>
      WalkListOfTree(g, cs, ts, visited, path);
      ErasedShots(WalkList(g, cs, visited, path).0, ts);
  }

  lemma {:induction false} WalkListOfTree<E>(g: Graph<E>, cs: seq<E>, ts: seq<Tree>, visited: seq<E>, path: set<E>)
    requires MayWalkList(g, cs, visited, path)
    requires |cs| == |ts| && forall i | 0 <= i < |ts| :: Represents(g, cs[i], ts[i])
    requires Unseen(FootprintList(g, cs, ts), visited)
    ensures var (shots, after) := WalkList(g, cs, visited, path);
            && SameShots(shots, ts)
            && after == visited + FootprintList(g, cs, ts)
    decreases ts, 2, 0
  {
    if ts != [] {
      var foot, rest := Footprint(g, cs[0], ts[0]), FootprintList(g, cs[1..], ts[1..]);
      UnseenSplit(foot, rest, visited);
      WalkOfTree(g, cs[0], ts[0], visited, path);
      WalkListOfTree(g, cs[1..], ts[1..], visited + foot, path);
      Assoc(visited, foot, rest);
      var (shot, between) := Walk(g, cs[0], visited, path);
      MoreShots(shot, WalkList(g, cs[1..], between, path).0, ts);
    }
  }

  // ---- Coverage ----

  /** The property k of e leads to c. */
  ghost predicate LeadsTo<E>(g: Graph<E>, e: E, k: string, c: E) {
    e in g && k in g[e].props && c in Targets(g[e].props[k])
  }

  /** Properties that share an entity lead to the same entities. */
  ghost predicate SharedAlike<E(!new)>(g: Graph<E>) {
    forall e, k, f, l, c, d | LeadsTo(g, e, k, c) && LeadsTo(g, f, l, c) && LeadsTo(g, e, k, d) :: LeadsTo(g, f, l, d)
  }

  /** A property that leads to the entity leads to nothing else. */
  ghost predicate HeldAlone<E(!new)>(g: Graph<E>, root: E) {
    forall e, k, c | LeadsTo(g, e, k, root) && LeadsTo(g, e, k, c) :: c == root
  }

  /** A property that leads to a visited entity leads to visited entities and to some that are about to be. */
  ghost predicate Settled<E(!new)>(g: Graph<E>, visited: seq<E>, pending: set<E>) {
    forall e, k, c, d | LeadsTo(g, e, k, c) && c in visited && LeadsTo(g, e, k, d) :: d in visited || d in pending
  }

  /** The entities from position `from` on lead to nothing but entities in the list and some about to be. */
  ghost predicate ClosedFrom<E(!new)>(g: Graph<E>, vs: seq<E>, from: nat, pending: set<E>) {
    forall i, k, c | from <= i < |vs| && LeadsTo(g, vs[i], k, c) :: c in vs || c in pending
  }

  /** Walking an entity settles what it settled before, and closes what it adds. */
  lemma {:induction false} WalkCloses<E(!new)>(g: Graph<E>, e: E, visited: seq<E>, path: set<E>, pending: set<E>)
    requires SharedAlike(g) && MayWalk(g, e, visited, path) && Settled(g, visited + [e], pending)
    ensures var after := Walk(g, e, visited, path).1;
            Settled(g, after, pending) && ClosedFrom(g, after, |visited|, pending)
    decreases g.Keys - path, 0, 0
  {
    var now := visited + [e];
    var kept := Kept(g[e].keys, g[e].props, now);
    WalkKeysCloses(g, e, kept, now, path + {e}, pending);
    FirstCloses(g, e, visited, WalkKeys(g, e, kept, now, path + {e}).1, pending);
  }

  lemma FirstCloses<E(!new)>(g: Graph<E>, e: E, visited: seq<E>, after: seq<E>, pending: set<E>)
    requires WellFormed(g) && e in g && visited + [e] <= after && Settled(g, visited + [e], pending)
    requires ClosedFrom(g, after, |visited| + 1, pending)
    requires forall k, c | k in Kept(g[e].keys, g[e].props, visited + [e]) && LeadsTo(g, e, k, c) :: c in after
    ensures ClosedFrom(g, after, |visited|, pending)
  {
    var now := visited + [e];
    forall k, c | LeadsTo(g, e, k, c) ensures c in after || c in pending {
      if k !in Kept(g[e].keys, g[e].props, now) { SkippedIsSettled(g, e, k, c, now, pending); }
    }
    assert after[|visited|] == e;
  }

  lemma SkippedIsSettled<E(!new)>(g: Graph<E>, e: E, k: string, c: E, visited: seq<E>, pending: set<E>)
    requires LeadsTo(g, e, k, c) && IsVisited(g[e].props[k], visited) && Settled(g, visited, pending)
    ensures c in visited || c in pending
  {
    var t :| t in Targets(g[e].props[k]) && t in visited;
    assert LeadsTo(g, e, k, t);
  }

  lemma {:induction false} WalkKeysCloses<E(!new)>(
    g: Graph<E>, e: E, ks: seq<string>, visited: seq<E>, path: set<E>, pending: set<E>)
    requires SharedAlike(g) && MayWalkKeys(g, e, ks, visited, path) && Settled(g, visited, pending)
    ensures var after := WalkKeys(g, e, ks, visited, path).1;
            && Settled(g, after, pending) && ClosedFrom(g, after, |visited|, pending)
            && forall k, c | k in ks && LeadsTo(g, e, k, c) :: c in after
    decreases g.Keys - path, 2, |ks|
  {
    if ks != [] {
      var between := WalkProp(g, g[e].props[ks[0]], visited, path).1;
      WalkPropCloses(g, e, ks[0], visited, path, pending);
      WalkKeysCloses(g, e, ks[1..], between, path, pending);
      ClosedExtends(g, between, WalkKeys(g, e, ks, visited, path).1, |visited|, pending, pending);
    }
  }

  lemma {:induction false} WalkPropCloses<E(!new)>(
    g: Graph<E>, e: E, k: string, visited: seq<E>, path: set<E>, pending: set<E>)
    requires e in g && k in g[e].props && MayWalkList(g, Targets(g[e].props[k]), visited, path)
    requires SharedAlike(g) && Settled(g, visited, pending)
    ensures var after := WalkProp(g, g[e].props[k], visited, path).1;
            && Settled(g, after, pending) && ClosedFrom(g, after, |visited|, pending)
            && forall c | LeadsTo(g, e, k, c) :: c in after
    decreases g.Keys - path, 2, 0
  {
    match g[e].props[k] {
      case Data(_) =>
      case Ref(c) =>
        assert c in Targets(g[e].props[k]) && LeadsTo(g, e, k, c);
        WalkCloses(g, c, visited, path, pending);
      case Refs(cs) =>
        WalkListCloses(g, e, k, cs, visited, path, pending);
    }
  }

  /** While one entity of a list is walked, the ones after it are about to be visited. */
  lemma {:induction false} WalkListCloses<E(!new)>(
    g: Graph<E>, e: E, k: string, cs: seq<E>, visited: seq<E>, path: set<E>, pending: set<E>)
    requires SharedAlike(g) && MayWalkList(g, cs, visited, path)
    requires forall c | c in cs :: LeadsTo(g, e, k, c)
    requires forall c | LeadsTo(g, e, k, c) :: c in visited || c in cs
    requires Settled(g, visited, pending + ToSet(cs))
    ensures var after := WalkList(g, cs, visited, path).1;
            && Settled(g, after, pending) && ClosedFrom(g, after, |visited|, pending)
            && forall c | c in cs :: c in after
    decreases g.Keys - path, 1, |cs|
  {
    if cs != [] {
      var between := Walk(g, cs[0], visited, path).1;
      var later := pending + ToSet(cs[1..]);
      FirstIsSettled(g, e, k, cs, visited, pending);
      WalkCloses(g, cs[0], visited, path, later);
      WalkListCloses(g, e, k, cs[1..], between, path, pending);
      ClosedExtends(g, between, WalkList(g, cs, visited, path).1, |visited|, later, pending);
    }
  }

  ghost function ToSet<E>(s: seq<E>): set<E> {
    set x | x in s
  }

  lemma FirstIsSettled<E(!new)>(
    g: Graph<E>, e: E, k: string, cs: seq<E>, visited: seq<E>, pending: set<E>)
    requires SharedAlike(g) && cs != [] && LeadsTo(g, e, k, cs[0])
    requires forall c | LeadsTo(g, e, k, c) :: c in visited || c in cs
    requires Settled(g, visited, pending + ToSet(cs))
    ensures Settled(g, visited + [cs[0]], pending + ToSet(cs[1..]))
    ensures forall c :: c in cs <==> c == cs[0] || c in ToSet(cs[1..])
  {
    assert forall c :: c in cs <==> c == cs[0] || c in cs[1..];
  }

  lemma ClosedExtends<E(!new)>(
    g: Graph<E>, between: seq<E>, after: seq<E>, from: nat, later: set<E>, pending: set<E>)
    requires between <= after && from <= |between| && forall c | c in later :: c in after || c in pending
    requires ClosedFrom(g, between, from, later) && ClosedFrom(g, after, |between|, pending)
    ensures ClosedFrom(g, after, from, pending)
  {
    forall i, k, c | from <= i < |after| && LeadsTo(g, after[i], k, c) ensures c in after || c in pending {
      if i < |between| {
        assert after[i] == between[i];
        assert c in between || c in later;
      }
    }
  }

  ghost predicate LinksTo<E>(g: Graph<E>, e: E, c: E) {
    exists k :: LeadsTo(g, e, k, c)
  }

  /** A chain of links, each entity linking to the next. */
  ghost predicate Chain<E>(g: Graph<E>, c: seq<E>) {
    forall i | 0 < i < |c| :: LinksTo(g, c[i - 1], c[i])
  }

  /**
   Where properties that share an entity lead to the same entities, and what leads to the root leads to it alone, every
   entity that can be reached is visited, through lists as well: nothing is lost.
   */
  lemma {:induction false} ReachableIsVisited<E(!new)>(g: Graph<E>, root: E, c: seq<E>)
    requires WellFormed(g) && root in g && SharedAlike(g) && HeldAlone(g, root)
    requires Chain(g, c) && c != [] && c[0] == root
    ensures c[|c| - 1] in Walk(g, root, [], {}).1
  {
    if |c| > 1 {
      var from, to := c[|c| - 2], c[|c| - 1];
      ReachableIsVisited(g, root, c[..|c| - 1]);
      assert LinksTo(g, c[|c| - 2], c[|c| - 1]);
      var k :| LeadsTo(g, from, k, to);
      WalkCloses(g, root, [], {}, {});
      var after := Walk(g, root, [], {}).1;
      var i :| 0 <= i < |after| && after[i] == from;
    }
  }

  /** The condition holds in particular if no list has more than one entity. */
  lemma SingleLinksAreShared<E(!new)>(g: Graph<E>, root: E)
    requires forall e, k | e in g && k in g[e].props :: |Targets(g[e].props[k])| <= 1
    ensures SharedAlike(g) && HeldAlone(g, root)
  {
    forall e, k, c, d | LeadsTo(g, e, k, c) && LeadsTo(g, e, k, d) ensures c == d {
      var ts := Targets(g[e].props[k]);
      assert c == ts[0] && d == ts[0];
    }
  }

  lemma DeadEnd<E>(g: Graph<E>, e: E, visited: seq<E>, path: set<E>)
    requires MayWalk(g, e, visited, path)
    requires forall k | k in g[e].keys :: IsVisited(g[e].props[k], visited + [e])
    ensures Walk(g, e, visited, path).1 == visited + [e]
  {
    KeptNone(g[e].keys, g[e].props, visited + [e]);
  }

  lemma OnlyLink<E>(g: Graph<E>, e: E, k: string, c: E, visited: seq<E>, path: set<E>)
    requires MayWalk(g, e, visited, path)
    requires g[e].keys == [k] && g[e].props[k] == Ref(c) && c !in visited + [e]
    ensures c in g && c !in path
    ensures Walk(g, e, visited, path).1 == Walk(g, c, visited + [e], path + {e}).1
  {
    assert Targets(g[e].props[k]) == [c];
    assert c in Targets(g[e].props[k]);
    KeptAll([k], g[e].props, visited + [e]);
    assert WalkKeys(g, e, [k], visited + [e], path + {e}).1 == WalkProp(g, Ref(c), visited + [e], path + {e}).1;
  }

  lemma LinkToDeadEnd<E>(g: Graph<E>, e: E, k: string, c: E, visited: seq<E>, path: set<E>)
    requires MayWalk(g, e, visited, path) && g[e].keys == [k] && g[e].props[k] == Ref(c)
    requires c in g && c !in visited + [e]
    requires forall k | k in g[c].keys :: IsVisited(g[c].props[k], visited + [e] + [c])
    ensures Walk(g, e, visited, path).1 == visited + [e] + [c]
  {
    OnlyLink(g, e, k, c, visited, path);
    DeadEnd(g, c, visited + [e], path + {e});
  }

  lemma HoldsVisited<E>(a: E, b: E, c: E)
    ensures IsVisited(Refs([a, c]), [a] + [b])
  {
    var es := [a] + [b];
    assert es[0] == a && [a, c][0] == a;
    assert a in Targets(Refs([a, c])) && a in es;
  }

  /** An entity 0 with a link to 1, which links back to 0 in an array that also holds 2. */
  ghost const LOSSY: Graph<nat> := map[
    0 := Node(["one"], map["one" := Ref(1)], map[]),
    1 := Node(["many"], map["many" := Refs([0, 2])], map[]),
    2 := Node([], map[], map[])]

  lemma LossyIsWellFormed()
    ensures WellFormed(LOSSY)
  {
    assert Targets(LOSSY[0].props["one"]) == [1] && Targets(LOSSY[1].props["many"]) == [0, 2];
    forall e, k, c | e in LOSSY && k in LOSSY[e].props && c in Targets(LOSSY[e].props[k]) ensures c in LOSSY {}
  }

  lemma LossyReturns()
    ensures LOSSY[0].keys == ["one"] && LOSSY[0].props["one"] == Ref(1)
    ensures forall k | k in LOSSY[1].keys :: IsVisited(LOSSY[1].props[k], [0] + [1])
  {
    HoldsVisited(0, 1, 2);
    assert forall k | k in LOSSY[1].keys :: k == "many";
  }

  lemma LossyLinks()
    ensures LinksTo(LOSSY, 0, 1) && LinksTo(LOSSY, 1, 2)
    ensures LeadsTo(LOSSY, 1, "many", 0) && LeadsTo(LOSSY, 1, "many", 2)
  {
    assert Targets(LOSSY[0].props["one"]) == [1] && Targets(LOSSY[1].props["many"]) == [0, 2];
    assert [0, 2][0] == 0 && [0, 2][1] == 2;
    assert LeadsTo(LOSSY, 0, "one", 1) && LeadsTo(LOSSY, 1, "many", 2);
  }

  /** With such arrays it is not so: entity 2 can be reached, and appears nowhere in the object. */
  lemma ReachableMayBeLost()
    ensures WellFormed(LOSSY) && Chain(LOSSY, [0, 1, 2]) && !HeldAlone(LOSSY, 0)
    ensures Walk(LOSSY, 0, [], {}).1 == [0, 1]
  {
    LossyLinks();
    LossyWalk();
    TwoSteps(LOSSY, 0, 1, 2);
    NotHeldAlone(LOSSY, 0, 1, "many", 2);
  }

  lemma TwoSteps<E>(g: Graph<E>, a: E, b: E, c: E)
    requires LinksTo(g, a, b) && LinksTo(g, b, c)
    ensures Chain(g, [a, b, c])
  {
  }

  lemma NotHeldAlone<E(!new)>(g: Graph<E>, root: E, e: E, k: string, c: E)
    requires LeadsTo(g, e, k, root) && LeadsTo(g, e, k, c) && c != root
    ensures !HeldAlone(g, root)
  {
  }

  lemma LossyWalk()
    ensures WellFormed(LOSSY) && Walk(LOSSY, 0, [], {}).1 == [0, 1]
  {
    LossyIsWellFormed();
    LossyReturns();
    var none: seq<nat> := [];
    assert none + [0] == [0];
    LinkToDeadEnd(LOSSY, 0, "one", 1, none, {});
  }

  // ---- Why the condition on the links alone cannot be exact ----

  /**
   Five entities: the root links to `lister`, which has the list [first, second], and to `linker`, which links to
   `first`.
   */
  datatype Corners<E> = Corners(root: E, lister: E, linker: E, first: E, second: E) {
    ghost predicate Apart() { NoDuplicates([root, lister, linker, first, second]) }
  }

  /** The root links by a to the lister and by b to the linker, and has the properties in the given order. */
  ghost predicate Diamond<E>(g: Graph<E>, c: Corners<E>, a: string, b: string, order: seq<string>) {
    && a != b && (order == [a, b] || order == [b, a])
    && g.Keys == {c.root, c.lister, c.linker, c.first, c.second}
    && g[c.root].keys == order && g[c.root].props == map[a := Ref(c.lister), b := Ref(c.linker)]
    && g[c.lister].keys == [a] && g[c.lister].props == map[a := Refs([c.first, c.second])]
    && g[c.linker].keys == [a] && g[c.linker].props == map[a := Ref(c.first)]
    && g[c.first].keys == g[c.second].keys == [] && g[c.first].props == g[c.second].props == map[]
  }

  lemma CornersApart<E>(c: Corners<E>)
    requires c.Apart()
    ensures c.root != c.lister && c.root != c.linker && c.root != c.first && c.root != c.second
    ensures c.lister != c.linker && c.lister != c.first && c.lister != c.second
    ensures c.linker != c.first && c.linker != c.second && c.first != c.second
  {
    var all := [c.root, c.lister, c.linker, c.first, c.second];
    assert all[0] == c.root && all[1] == c.lister && all[2] == c.linker && all[3] == c.first && all[4] == c.second;
  }

  /** The second of two links is walked after the first. */
  lemma TwoLinks<E>(g: Graph<E>, e: E, k: string, l: string, c: E, d: E)
    requires WellFormed(g) && e in g && g[e].keys == [k, l] && g[e].props[k] == Ref(c) && g[e].props[l] == Ref(d)
    requires c != e && d != e
    ensures c in g && d in g
    ensures var between := Walk(g, c, [e], {e}).1;
            e in between && Walk(g, e, [], {}).1 == Walk(g, d, between, {e}).1
  {
    assert Targets(g[e].props[k]) == [c] && Targets(g[e].props[l]) == [d] && [c][0] == c && [d][0] == d;
    assert c in Targets(g[e].props[k]) && d in Targets(g[e].props[l]);
    assert [] + [e] == [e] && {} + {e} == {e};
    KeptAll([k, l], g[e].props, [e]);
    assert [k, l][1..] == [l] && [l][1..] == [];
    var between := Walk(g, c, [e], {e}).1;
    assert WalkProp(g, Ref(c), [e], {e}).1 == between;
    assert WalkKeys(g, e, [l], between, {e}).1 == WalkProp(g, Ref(d), between, {e}).1;
  }

  /** A list none of which is visited is walked to its end. */
  lemma ListIsWalked<E>(g: Graph<E>, e: E, k: string, cs: seq<E>, c: E, visited: seq<E>, path: set<E>)
    requires MayWalk(g, e, visited, path) && g[e].keys == [k] && g[e].props[k] == Refs(cs) && c in cs
    requires !IsVisited(g[e].props[k], visited + [e])
    ensures c in Walk(g, e, visited, path).1
  {
    assert Targets(g[e].props[k]) == cs;
    KeptAll([k], g[e].props, visited + [e]);
    assert [k][1..] == [];
    assert WalkKeys(g, e, [k], visited + [e], path + {e}).1 == WalkProp(g, Refs(cs), visited + [e], path + {e}).1;
    MembersVisited(g, cs, c, visited + [e], path + {e});
  }

  lemma {:induction false} MembersVisited<E>(g: Graph<E>, cs: seq<E>, c: E, visited: seq<E>, path: set<E>)
    requires MayWalkList(g, cs, visited, path) && c in cs
    ensures c in WalkList(g, cs, visited, path).1
    decreases |cs|
  {
    var between := Walk(g, cs[0], visited, path).1;
    if c != cs[0] {
      assert cs == [cs[0]] + cs[1..];
      MembersVisited(g, cs[1..], c, between, path);
    }
  }

  lemma DiamondIsWellFormed<E>(g: Graph<E>, c: Corners<E>, a: string, b: string, order: seq<string>)
    requires Diamond(g, c, a, b, order)
    ensures WellFormed(g)
  {
    forall e | e in g ensures NoDuplicates(g[e].keys) && forall k :: k in g[e].keys <==> k in g[e].props {}
    forall e, k, t | e in g && k in g[e].props && t in Targets(g[e].props[k]) ensures t in g {}
  }

  lemma UnvisitedList<E>(p: Prop<E>, c: E, d: E, visited: seq<E>)
    requires p == Refs([c, d]) && c !in visited && d !in visited
    ensures !IsVisited(p, visited)
  {
    assert Targets(p) == [c, d];
  }

  /** With the list first, everything is visited. */
  lemma ListFirst<E>(g: Graph<E>, c: Corners<E>, a: string, b: string)
    requires Diamond(g, c, a, b, [a, b]) && WellFormed(g) && c.Apart()
    ensures c.second in Walk(g, c.root, [], {}).1
  {
    CornersApart(c);
    TwoLinks(g, c.root, a, b, c.lister, c.linker);
    ListVisited(g, c.root, c.lister, a, c.first, c.second);
  }

  lemma ListVisited<E>(g: Graph<E>, root: E, e: E, k: string, c: E, d: E)
    requires WellFormed(g) && root in g && e in g && e != root && g[e].keys == [k] && g[e].props[k] == Refs([c, d])
    requires c != root && c != e && d != root && d != e
    ensures d in Walk(g, e, [root], {root}).1
  {
    UnvisitedList(g[e].props[k], c, d, [root] + [e]);
    assert [c, d][1] == d;
    ListIsWalked(g, e, k, [c, d], d, [root], {root});
  }

  /** With the link first, the list holds a visited entity when it is filtered, and its other entity is lost. */
  lemma LinkFirst<E>(g: Graph<E>, c: Corners<E>, a: string, b: string)
    requires Diamond(g, c, a, b, [b, a]) && WellFormed(g) && c.Apart()
    ensures Walk(g, c.root, [], {}).1 == [c.root] + [c.linker, c.first] + [c.lister]
  {
    CornersApart(c);
    TwoLinks(g, c.root, b, a, c.linker, c.lister);
    LinkThenSkip(g, c.root, c.linker, c.lister, a, c.first, c.second);
  }

  lemma SecondIsLost<E>(c: Corners<E>, after: seq<E>)
    requires c.Apart() && after == [c.root] + [c.linker, c.first] + [c.lister]
    ensures c.second !in after
  {
    CornersApart(c);
  }

  lemma SameProperties<E(!new)>(g: Graph<E>, h: Graph<E>, c: Corners<E>, a: string, b: string)
    requires Diamond(g, c, a, b, [a, b]) && Diamond(h, c, a, b, [b, a])
    ensures forall e, k, t :: LeadsTo(g, e, k, t) <==> LeadsTo(h, e, k, t)
  {
    forall e | e in g ensures g[e].props == h[e].props {}
  }

  lemma LinkThenSkip<E>(g: Graph<E>, root: E, linker: E, lister: E, k: string, c: E, d: E)
    requires WellFormed(g) && root in g && linker in g && lister in g && linker != root && lister != root
    requires g[linker].keys == [k] && g[linker].props[k] == Ref(c) && c in g && g[c].keys == []
    requires c != root && c != linker
    requires g[lister].keys == [k] && g[lister].props[k] == Refs([c, d])
    ensures var between := Walk(g, linker, [root], {root}).1;
            root in between && Walk(g, lister, between, {root}).1 == [root] + [linker, c] + [lister]
  {
    LinkToDeadEnd(g, linker, k, c, [root], {root});
    assert [root] + [linker] + [c] == [root] + [linker, c];
    SkippedList(g, lister, k, c, d, [root] + [linker, c], {root});
  }

  lemma SkippedList<E>(g: Graph<E>, e: E, k: string, c: E, d: E, visited: seq<E>, path: set<E>)
    requires MayWalk(g, e, visited, path) && c in visited && g[e].keys == [k] && g[e].props[k] == Refs([c, d])
    ensures Walk(g, e, visited, path).1 == visited + [e]
  {
    assert [c, d][0] == c && c in Targets(g[e].props[k]) && c in visited + [e];
    DeadEnd(g, e, visited, path);
  }

  /**
   Two graphs whose entities have the same properties, the root's in another order: an entity that can be reached in
   both is visited in one and lost in the other. So no condition on what leads to what says exactly when nothing is
   lost.
   */
  lemma OrderDecides<E(!new)>(g: Graph<E>, h: Graph<E>, c: Corners<E>, a: string, b: string)
    requires Diamond(g, c, a, b, [a, b]) && Diamond(h, c, a, b, [b, a]) && c.Apart()
    ensures WellFormed(g) && WellFormed(h)
    ensures forall e, k, t :: LeadsTo(g, e, k, t) <==> LeadsTo(h, e, k, t)
    ensures Chain(g, [c.root, c.lister, c.second]) && Chain(h, [c.root, c.lister, c.second])
    ensures c.second in Walk(g, c.root, [], {}).1 && c.second !in Walk(h, c.root, [], {}).1
  {
    DiamondIsWellFormed(g, c, a, b, [a, b]);
    DiamondIsWellFormed(h, c, a, b, [b, a]);
    SameProperties(g, h, c, a, b);
    DiamondChain(g, c, a, b, [a, b]);
    DiamondChain(h, c, a, b, [b, a]);
    ListFirst(g, c, a, b);
    LinkFirst(h, c, a, b);
    SecondIsLost(c, Walk(h, c.root, [], {}).1);
  }

  lemma DiamondChain<E>(g: Graph<E>, c: Corners<E>, a: string, b: string, order: seq<string>)
    requires Diamond(g, c, a, b, order)
    ensures Chain(g, [c.root, c.lister, c.second])
  {
    assert [c.first, c.second][1] == c.second;
    assert LeadsTo(g, c.root, a, c.lister) && LeadsTo(g, c.lister, a, c.second);
  }

  /** There are such graphs. */
  lemma DiamondsExist()
    ensures exists g: Graph<nat>, h, c, a, b :: Diamond(g, c, a, b, [a, b]) && Diamond(h, c, a, b, [b, a]) && c.Apart()
  {
    var c: Corners<nat> := Corners(0, 1, 2, 3, 4);
    var lister: Node<nat> := Node(["a"], map["a" := Refs([3, 4])], map[]);
    var linker: Node<nat> := Node(["a"], map["a" := Ref(3)], map[]);
    var leaf: Node<nat> := Node([], map[], map[]);
    var props: map<string, Prop<nat>> := map["a" := Ref(1), "b" := Ref(2)];
    var g: Graph<nat> := map[0 := Node(["a", "b"], props, map[]), 1 := lister, 2 := linker, 3 := leaf, 4 := leaf];
    var h: Graph<nat> := map[0 := Node(["b", "a"], props, map[]), 1 := lister, 2 := linker, 3 := leaf, 4 := leaf];
    assert "a"[0] != "b"[0];
    assert Diamond(g, c, "a", "b", ["a", "b"]) && Diamond(h, c, "a", "b", ["b", "a"]);
  }
}
