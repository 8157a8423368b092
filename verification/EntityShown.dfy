/** What the object of an entity shows, stated entity by entity and without the walk that makes it. */
module EntityShown {
  import opened Sequences
  import opened Values
  import opened EntityGraph

  /** None of the entities that the property leads to was visited. */
  predicate Untouched<E(==)>(p: Prop<E>, visited: seq<E>) {
    match p
    case Data(_) => true
    case Ref(c) => c !in visited
    case Refs(cs) => forall c | c in cs :: c !in visited
  }

  /** Some of the texts, in the same order. */
  predicate InOrder(some: seq<string>, all: seq<string>) {
    if some == [] then true
    else if all == [] then false
    else if some[0] == all[0] then InOrder(some[1..], all[1..])
    else InOrder(some, all[1..])
  }

  // ---- Records ----

  /** The entities of a record in the order they were entered. */
  ghost function Entered<E>(s: Shot<E>): seq<E>
    decreases s, |s.keys| + 1
  {
    [s.e] + EnteredBelow(s, s.keys)
  }

  ghost function EnteredBelow<E>(s: Shot<E>, ks: seq<string>): seq<E>
    decreases s, |ks|
  {
    if ks == [] then []
    else (if ks[0] in s.cells then EnteredCell(s.cells[ks[0]]) else []) + EnteredBelow(s, ks[1..])
  }

  ghost function EnteredCell<E>(cell: Cell<E>): seq<E>
    decreases cell, 0
  {
    match cell
    case DataCell(_) => []
    case ShotCell(s) => Entered(s)
    case ShotsCell(ss) => EnteredAll(ss)
  }

  ghost function EnteredAll<E>(ss: seq<Shot<E>>): seq<E>
    decreases ss, 0
  {
    if ss == [] then [] else Entered(ss[0]) + EnteredAll(ss[1..])
  }

  /**
   The record shows its entity as the graph has it: all custom fields, and in order the properties that lead to no
   entity visited before it or to itself, each of them in full, whatever the ones before it have entered.
   */
  ghost predicate Shows<E>(g: Graph<E>, s: Shot<E>, visited: seq<E>)
    decreases s, |s.keys| + 1
  {
    && s.e in g && s.custom == g[s.e].custom
    && (forall k :: k in s.keys <==>
          k in g[s.e].keys && k in g[s.e].props && Untouched(g[s.e].props[k], visited + [s.e]))
    && InOrder(s.keys, g[s.e].keys)
    && (forall k :: k in s.cells <==> k in s.keys)
    && ShowsBelow(g, s, s.keys, visited + [s.e])
  }

  ghost predicate ShowsBelow<E>(g: Graph<E>, s: Shot<E>, ks: seq<string>, visited: seq<E>)
    decreases s, |ks|
  {
    ks == [] ||
    (&& s.e in g && ks[0] in g[s.e].props && ks[0] in s.cells
     && ShowsCell(g, g[s.e].props[ks[0]], s.cells[ks[0]], visited)
     && ShowsBelow(g, s, ks[1..], visited + EnteredCell(s.cells[ks[0]])))
  }

  ghost predicate ShowsCell<E>(g: Graph<E>, p: Prop<E>, cell: Cell<E>, visited: seq<E>)
    decreases cell, 0
  {
    match (p, cell)
    case (Data(v), DataCell(w)) => v == w
    case (Ref(c), ShotCell(s)) => s.e == c && Shows(g, s, visited)
    case (Refs(cs), ShotsCell(ss)) => ShowsAll(g, cs, ss, visited)
    case _ => false
  }

  ghost predicate ShowsAll<E>(g: Graph<E>, cs: seq<E>, ss: seq<Shot<E>>, visited: seq<E>)
    decreases ss, 0
  {
    && |cs| == |ss|
    && (ss == [] ||
        (&& ss[0].e == cs[0] && Shows(g, ss[0], visited)
         && ShowsAll(g, cs[1..], ss[1..], visited + Entered(ss[0]))))
  }

  // ---- The walk gives such a record ----

  lemma {:induction false} KeptInOrder<E>(ks: seq<string>, props: map<string, Prop<E>>, visited: seq<E>)
    requires forall k | k in ks :: k in props
    ensures InOrder(Kept(ks, props, visited), ks)
    ensures forall k :: k in Kept(ks, props, visited) <==> k in ks && Untouched(props[k], visited)
  {
    forall k | k in ks ensures IsVisited(props[k], visited) <==> !Untouched(props[k], visited) {
      TouchedIsVisited(props[k], visited);
    }
    if ks != [] {
      var rest := Kept(ks[1..], props, visited);
      KeptInOrder(ks[1..], props, visited);
      if IsVisited(props[ks[0]], visited) {
        assert Kept(ks, props, visited) == rest;
        SkipOne(rest, ks);
      } else {
        assert Kept(ks, props, visited) == [ks[0]] + rest;
        assert ([ks[0]] + rest)[1..] == rest;
      }
    }
  }

  lemma TouchedIsVisited<E>(p: Prop<E>, visited: seq<E>)
    ensures IsVisited(p, visited) <==> !Untouched(p, visited)
  {
    match p
    case Data(_) =>
    case Ref(c) => assert Targets(p)[0] == c;
    case Refs(cs) =>
  }

  /** What is in order in the rest is in order in the whole. */
  lemma {:induction false} SkipOne(some: seq<string>, all: seq<string>)
    requires all != [] && InOrder(some, all[1..])
    ensures InOrder(some, all)
    decreases |all|, 0
  {
    if some != [] && some[0] == all[0] { InOrderTail(some, all[1..]); }
  }

  lemma {:induction false} InOrderTail(some: seq<string>, all: seq<string>)
    requires some != [] && InOrder(some, all)
    ensures InOrder(some[1..], all)
    decreases |all|, 1
  {
    if some[0] != all[0] { InOrderTail(some, all[1..]); }
    SkipOne(some[1..], all);
  }

  lemma {:induction false} InOrderAppended(some: seq<string>, all: seq<string>, x: string)
    requires InOrder(some, all)
    ensures InOrder(some, all + [x]) && InOrder(some + [x], all + [x])
    decreases |all|
  {
    if all == [] {
      assert [] + [x] == [x] && [x][1..] == [];
    } else {
      assert (all + [x])[1..] == all[1..] + [x];
      if some == [] {
        InOrderAppended(some, all[1..], x);
        SkipOne([] + [x], all + [x]);
      } else if some[0] == all[0] {
        assert (some + [x])[1..] == some[1..] + [x];
        InOrderAppended(some[1..], all[1..], x);
      } else {
        InOrderAppended(some, all[1..], x);
      }
    }
  }

  lemma OneMoreInOrder(some: seq<string>, all: seq<string>, i: nat)
    requires i < |all| && InOrder(some, all[..i])
    ensures InOrder(some, all[..i + 1]) && InOrder(some + [all[i]], all[..i + 1])
  {
    InOrderAppended(some, all[..i], all[i]);
    assert all[..i + 1] == all[..i] + [all[i]];
  }

  /** For every graph and every list of visited entities, shared entities and back links included. */
  lemma {:induction false} WalkShows<E>(g: Graph<E>, e: E, visited: seq<E>, path: set<E>)
    requires MayWalk(g, e, visited, path)
    ensures var (s, after) := Walk(g, e, visited, path);
            s.e == e && Shows(g, s, visited) && after == visited + Entered(s)
    decreases g.Keys - path, 0, 0
  {
    var now := visited + [e];
    var kept := Kept(g[e].keys, g[e].props, now);
    var s := Walk(g, e, visited, path).0;
    KeptInOrder(g[e].keys, g[e].props, now);
    WalkStarts(g, e, visited, path);
    WalkKeysShow(g, s, kept, now, path + {e});
    Assoc(visited, [e], EnteredBelow(s, kept));
  }

  lemma {:induction false} WalkKeysShow<E>(g: Graph<E>, s: Shot<E>, ks: seq<string>, visited: seq<E>, path: set<E>)
    requires MayWalkKeys(g, s.e, ks, visited, path) && NoDuplicates(ks)
    requires var cells := WalkKeys(g, s.e, ks, visited, path).0;
             forall k | k in ks :: k in s.cells && s.cells[k] == cells[k]
    ensures ShowsBelow(g, s, ks, visited)
    ensures WalkKeys(g, s.e, ks, visited, path).1 == visited + EnteredBelow(s, ks)
    decreases g.Keys - path, 2, |ks|
  {
    if ks == [] {
      assert visited + [] == visited;
    } else {
      var p := g[s.e].props[ks[0]];
      var (cell, between) := WalkProp(g, p, visited, path);
      WalkPropShows(g, p, visited, path);
      WalkKeysShow(g, s, ks[1..], between, path);
      Assoc(visited, EnteredCell(cell), EnteredBelow(s, ks[1..]));
    }
  }

  lemma {:induction false} WalkPropShows<E>(g: Graph<E>, p: Prop<E>, visited: seq<E>, path: set<E>)
    requires MayWalkList(g, Targets(p), visited, path)
    ensures var (cell, after) := WalkProp(g, p, visited, path);
            ShowsCell(g, p, cell, visited) && after == visited + EnteredCell(cell)
    decreases g.Keys - path, 2, 0
  {
    match p {
      case Data(_) => assert visited + [] == visited;
      case Ref(c) => assert c in Targets(p); WalkShows(g, c, visited, path);
      case Refs(cs) => WalkListShows(g, cs, visited, path);
    }
  }

  lemma {:induction false} WalkListShows<E>(g: Graph<E>, cs: seq<E>, visited: seq<E>, path: set<E>)
    requires MayWalkList(g, cs, visited, path)
    ensures var (ss, after) := WalkList(g, cs, visited, path);
            ShowsAll(g, cs, ss, visited) && after == visited + EnteredAll(ss)
    decreases g.Keys - path, 1, |cs|
  {
    if cs == [] {
      assert visited + [] == visited;
    } else {
      var (s, between) := Walk(g, cs[0], visited, path);
      var rest := WalkList(g, cs[1..], between, path).0;
      WalkShows(g, cs[0], visited, path);
      WalkListShows(g, cs[1..], between, path);
      assert ([s] + rest)[1..] == rest;
      Assoc(visited, Entered(s), EnteredAll(rest));
    }
  }

  // ---- And there is only one ----

  lemma {:induction false} InOrderIn(some: seq<string>, all: seq<string>)
    requires InOrder(some, all)
    ensures forall k | k in some :: k in all
    decreases |all|
  {
    if some != [] {
      if some[0] == all[0] {
        InOrderIn(some[1..], all[1..]);
        assert some == [some[0]] + some[1..];
      } else {
        InOrderIn(some, all[1..]);
      }
    }
  }

  lemma FirstOnce(all: seq<string>)
    requires NoDuplicates(all) && all != []
    ensures NoDuplicates(all[1..]) && all[0] !in all[1..]
  {
    forall i | 0 <= i < |all[1..]| ensures all[1..][i] != all[0] { assert all[1..][i] == all[i + 1]; }
  }

  /** The first text of all is first, or not there. */
  lemma FirstOrNowhere(some: seq<string>, all: seq<string>)
    requires NoDuplicates(all) && all != [] && InOrder(some, all)
    ensures all[0] in some <==> some != [] && some[0] == all[0]
    ensures all[0] in some ==> InOrder(some[1..], all[1..]) && all[0] !in some[1..] && some == [all[0]] + some[1..]
    ensures all[0] !in some ==> InOrder(some, all[1..])
  {
    FirstOnce(all);
    if some != [] && some[0] == all[0] { InOrderIn(some[1..], all[1..]); }
    if some != [] && some[0] != all[0] { InOrderIn(some, all[1..]); }
  }

  lemma {:induction false} OrderedOnce(a: seq<string>, b: seq<string>, all: seq<string>)
    requires NoDuplicates(all) && InOrder(a, all) && InOrder(b, all) && forall k :: k in a <==> k in b
    ensures a == b
    decreases |all|
  {
    if all != [] {
      FirstOnce(all);
      FirstOrNowhere(a, all);
      FirstOrNowhere(b, all);
      if all[0] in a {
        forall k ensures k in a[1..] <==> k in b[1..] { assert k in a <==> k in b; }
        OrderedOnce(a[1..], b[1..], all[1..]);
      } else {
        OrderedOnce(a, b, all[1..]);
      }
    }
  }

  /** A record that shows an entity is the only one that does. */
  lemma {:induction false} ShownOnce<E>(g: Graph<E>, s: Shot<E>, r: Shot<E>, visited: seq<E>)
    requires WellFormed(g) && s.e == r.e && Shows(g, s, visited) && Shows(g, r, visited)
    ensures s == r
    decreases s, |s.keys| + 1
  {
    OrderedOnce(s.keys, r.keys, g[s.e].keys);
    ShownBelowOnce(g, s, r, s.keys, visited + [s.e]);
    assert s.cells == r.cells;
  }

  lemma {:induction false} ShownBelowOnce<E>(g: Graph<E>, s: Shot<E>, r: Shot<E>, ks: seq<string>, visited: seq<E>)
    requires WellFormed(g) && s.e == r.e && ShowsBelow(g, s, ks, visited) && ShowsBelow(g, r, ks, visited)
    ensures forall k | k in ks :: k in s.cells && k in r.cells && s.cells[k] == r.cells[k]
    decreases s, |ks|
  {
    if ks != [] {
      ShownCellOnce(g, g[s.e].props[ks[0]], s.cells[ks[0]], r.cells[ks[0]], visited);
      ShownBelowOnce(g, s, r, ks[1..], visited + EnteredCell(s.cells[ks[0]]));
      assert ks == [ks[0]] + ks[1..];
    }
  }

  lemma {:induction false} ShownCellOnce<E>(g: Graph<E>, p: Prop<E>, a: Cell<E>, b: Cell<E>, visited: seq<E>)
    requires WellFormed(g) && ShowsCell(g, p, a, visited) && ShowsCell(g, p, b, visited)
    ensures a == b
    decreases a, 0
  {
    match p {
      case Data(_) =>
      case Ref(_) => ShownOnce(g, a.shot, b.shot, visited);
      case Refs(cs) => ShownAllOnce(g, cs, a.shots, b.shots, visited);
    }
  }

  lemma {:induction false} ShownAllOnce<E>(g: Graph<E>, cs: seq<E>, ss: seq<Shot<E>>, rs: seq<Shot<E>>, visited: seq<E>)
    requires WellFormed(g) && ShowsAll(g, cs, ss, visited) && ShowsAll(g, cs, rs, visited)
    ensures ss == rs
    decreases ss, 0
  {
    if ss != [] {
      ShownOnce(g, ss[0], rs[0], visited);
      ShownAllOnce(g, cs[1..], ss[1..], rs[1..], visited + Entered(ss[0]));
      assert ss == [ss[0]] + ss[1..] && rs == [rs[0]] + rs[1..];
    }
  }

  /** So the walk is the one record that shows the entity, and visits the entities that it holds, in order. */
  lemma WalkIsTheRecord<E>(g: Graph<E>, e: E, visited: seq<E>, path: set<E>, s: Shot<E>)
    requires MayWalk(g, e, visited, path)
    ensures s.e == e && Shows(g, s, visited) <==> s == Walk(g, e, visited, path).0
    ensures Walk(g, e, visited, path).1 == visited + Entered(Walk(g, e, visited, path).0)
  {
    WalkShows(g, e, visited, path);
    if s.e == e && Shows(g, s, visited) { ShownOnce(g, s, Walk(g, e, visited, path).0, visited); }
  }

  // ---- Plain objects ----

  /** The object has the custom fields, overridden by what the cells of the record hold, and nothing else. */
  ghost predicate IsObjectOf<E>(m: map<string, Value>, s: Shot<E>)
    decreases s
  {
    && (forall k :: k in m <==> k in s.custom || k in s.cells)
    && (forall k | k in s.cells :: k in m && IsValueOf(m[k], s.cells[k]))
    && (forall k | k in s.custom && k !in s.cells :: k in m && m[k] == s.custom[k])
  }

  ghost predicate IsValueOf<E>(v: Value, cell: Cell<E>)
    decreases cell
  {
    match cell
    case DataCell(w) => v == w
    case ShotCell(s) => v.Obj? && IsObjectOf(v.fields, s)
    case ShotsCell(ss) =>
      v.Arr? && |v.items| == |ss| && forall i | 0 <= i < |ss| :: v.items[i].Obj? && IsObjectOf(v.items[i].fields, ss[i])
  }

  lemma {:induction false} ErasedIsObject<E>(s: Shot<E>)
    ensures IsObjectOf(Erase(s), s)
    decreases s
  {
    forall k | k in s.cells ensures IsValueOf(Erase(s)[k], s.cells[k]) { ErasedIsValue(s.cells[k]); }
  }

  lemma {:induction false} ErasedIsValue<E>(cell: Cell<E>)
    ensures IsValueOf(EraseCell(cell), cell)
    decreases cell
  {
    match cell {
      case DataCell(_) =>
      case ShotCell(s) => ErasedIsObject(s);
      case ShotsCell(ss) =>
        forall i | 0 <= i < |ss| ensures IsObjectOf(Erase(ss[i]), ss[i]) { ErasedIsObject(ss[i]); }
    }
  }

  /** The record shows the entity, given what was visited before; it holds what was visited since, and the object. */
  ghost predicate IsShownBy<E>(g: Graph<E>, e: E, before: seq<E>, after: seq<E>, m: map<string, Value>, s: Shot<E>) {
    s.e == e && Shows(g, s, before) && after == before + Entered(s) && IsObjectOf(m, s)
  }

  /** The same for the value of a property. */
  ghost predicate IsCellOf<E>(g: Graph<E>, p: Prop<E>, before: seq<E>, after: seq<E>, v: Value, cell: Cell<E>) {
    ShowsCell(g, p, cell, before) && after == before + EnteredCell(cell) && IsValueOf(v, cell)
  }

  lemma WalkIsShown<E>(g: Graph<E>, e: E, visited: seq<E>, path: set<E>, after: seq<E>, m: map<string, Value>)
    requires MayWalk(g, e, visited, path)
    requires after == Walk(g, e, visited, path).1 && m == Erase(Walk(g, e, visited, path).0)
    ensures exists s :: IsShownBy(g, e, visited, after, m, s)
  {
    var s := Walk(g, e, visited, path).0;
    WalkShows(g, e, visited, path);
    ErasedIsObject(s);
    assert IsShownBy(g, e, visited, after, m, s);
  }

  lemma WalkPropIsShown<E>(g: Graph<E>, p: Prop<E>, visited: seq<E>, path: set<E>)
    requires MayWalkList(g, Targets(p), visited, path)
    ensures var (cell, after) := WalkProp(g, p, visited, path); IsCellOf(g, p, visited, after, EraseCell(cell), cell)
  {
    WalkPropShows(g, p, visited, path);
    ErasedIsValue(WalkProp(g, p, visited, path).0);
  }

  /**
   A link that is kept shows an object with all custom fields and all data of the entity it leads to, also if another
   property of the same entity leads there too.
   */
  lemma KeptLinkIsShown<E>(g: Graph<E>, e: E, before: seq<E>, after: seq<E>, m: map<string, Value>, s: Shot<E>,
                           k: string, c: E)
    requires WellFormed(g) && IsShownBy(g, e, before, after, m, s)
    requires k in g[e].keys && g[e].props[k] == Ref(c) && c !in before + [e]
    ensures k in m && m[k].Obj? && c in g
    ensures forall d | d in g[c].custom && d !in g[c].keys :: d in m[k].fields && m[k].fields[d] == g[c].custom[d]
    ensures forall d | d in g[c].keys && g[c].props[d].Data? ::
              d in m[k].fields && m[k].fields[d] == g[c].props[d].v
  {
    assert k in s.keys;
    var before' := BelowAt(g, s, s.keys, before + [e], k);
    var r := s.cells[k].shot;
    forall d | d in g[c].keys && g[c].props[d].Data? ensures d in r.keys && r.cells[d] == DataCell(g[c].props[d].v) {
      assert d in r.keys;
      var v := BelowAt(g, r, r.keys, before' + [c], d);
    }
    assert IsValueOf(m[k], s.cells[k]);
    forall d | d in r.cells ensures d in m[k].fields && IsValueOf(m[k].fields[d], r.cells[d]) {}
  }

  lemma {:induction false} BelowAt<E>(g: Graph<E>, s: Shot<E>, ks: seq<string>, visited: seq<E>, k: string)
    returns (before: seq<E>)
    requires ShowsBelow(g, s, ks, visited) && k in ks
    ensures k in g[s.e].props && k in s.cells && ShowsCell(g, g[s.e].props[k], s.cells[k], before)
    decreases |ks|
  {
    if ks[0] == k {
      before := visited;
    } else {
      assert ks == [ks[0]] + ks[1..];
      before := BelowAt(g, s, ks[1..], visited + EnteredCell(s.cells[ks[0]]), k);
    }
  }
}
