/** Deserialisation as the code does it: instances are allocated and their properties assigned one by one. */
module EntityReading {
  import opened Sequences
  import opened Values
  import opened Schema
  import opened ComplexTypes
  import opened EntityTrees
  import opened EntityRoundTrip
  import opened EntityDiff
  import opened EntityGraph
  import opened Entities

  // ---- Graphs inside larger graphs ----

  ghost predicate Subgraph<E>(g: Graph<E>, h: Graph<E>) {
    forall e | e in g :: e in h && g[e] == h[e]
  }

  lemma {:induction false} RepresentsInSupergraph<E>(g: Graph<E>, h: Graph<E>, e: E, t: Tree)
    requires WellFormed(g) && WellFormed(h) && Subgraph(g, h) && Represents(g, e, t)
    ensures Represents(h, e, t) && Footprint(h, e, t) == Footprint(g, e, t)
    decreases t, 1, 0
  {
    forall k | k in t.props ensures RepresentsProp(h, h[e].props[k], t.props[k]) {
      PropInSupergraph(g, h, g[e].props[k], t.props[k]);
    }
    KeysInSupergraph(g, h, e, t, g[e].keys);
  }

  lemma {:induction false} KeysInSupergraph<E>(g: Graph<E>, h: Graph<E>, e: E, t: Tree, ks: seq<string>)
    requires WellFormed(g) && WellFormed(h) && Subgraph(g, h) && Represents(g, e, t) && Represents(h, e, t)
    requires forall k | k in ks :: k in t.props
    ensures FootprintKeys(h, e, t, ks) == FootprintKeys(g, e, t, ks)
    decreases t, 0, |ks|
  {
    if ks != [] {
      PropInSupergraph(g, h, g[e].props[ks[0]], t.props[ks[0]]);
      KeysInSupergraph(g, h, e, t, ks[1..]);
    }
  }

  lemma {:induction false} PropInSupergraph<E>(g: Graph<E>, h: Graph<E>, p: Prop<E>, tp: TreeProp)
    requires WellFormed(g) && WellFormed(h) && Subgraph(g, h) && RepresentsProp(g, p, tp)
    ensures RepresentsProp(h, p, tp) && FootprintProp(h, p, tp) == FootprintProp(g, p, tp)
    decreases tp, 0, 0
  {
    match (p, tp)
    case (Data(_), Plain(_)) =>
    case (Ref(c), One(t)) => RepresentsInSupergraph(g, h, c, t);
    case (Refs(cs), Many(ts)) => ListInSupergraph(g, h, cs, ts);
  }

  lemma {:induction false} ListInSupergraph<E>(g: Graph<E>, h: Graph<E>, cs: seq<E>, ts: seq<Tree>)
    requires WellFormed(g) && WellFormed(h) && Subgraph(g, h)
    requires |cs| == |ts| && forall i | 0 <= i < |ts| :: Represents(g, cs[i], ts[i])
    ensures forall i | 0 <= i < |ts| :: Represents(h, cs[i], ts[i])
    ensures FootprintList(h, cs, ts) == FootprintList(g, cs, ts)
    decreases ts, 2, 0
  {
    if ts != [] {
      RepresentsInSupergraph(g, h, cs[0], ts[0]);
      ListInSupergraph(g, h, cs[1..], ts[1..]);
      forall i | 0 <= i < |ts| ensures Represents(h, cs[i], ts[i]) {
        if i > 0 { assert cs[1..][i - 1] == cs[i] && ts[1..][i - 1] == ts[i]; }
      }
    }
  }

  /** A footprint stays inside the graph. */
  lemma {:induction false} FootprintInGraph<E>(g: Graph<E>, e: E, t: Tree)
    requires WellFormed(g) && Represents(g, e, t)
    ensures forall x | x in Footprint(g, e, t) :: x in g
    decreases t, 1, 0
  {
    FootprintKeysInGraph(g, e, t, g[e].keys);
  }

  lemma {:induction false} FootprintKeysInGraph<E>(g: Graph<E>, e: E, t: Tree, ks: seq<string>)
    requires WellFormed(g) && Represents(g, e, t) && forall k | k in ks :: k in t.props
    ensures forall x | x in FootprintKeys(g, e, t, ks) :: x in g
    decreases t, 0, |ks|
  {
    if ks != [] {
      FootprintPropInGraph(g, g[e].props[ks[0]], t.props[ks[0]]);
      FootprintKeysInGraph(g, e, t, ks[1..]);
    }
  }

  lemma {:induction false} FootprintPropInGraph<E>(g: Graph<E>, p: Prop<E>, tp: TreeProp)
    requires WellFormed(g) && RepresentsProp(g, p, tp)
    ensures forall x | x in FootprintProp(g, p, tp) :: x in g
    decreases tp, 0, 0
  {
    match (p, tp)
    case (Data(_), Plain(_)) =>
    case (Ref(c), One(t)) => FootprintInGraph(g, c, t);
    case (Refs(cs), Many(ts)) => FootprintListInGraph(g, cs, ts);
  }

  lemma {:induction false} FootprintListInGraph<E>(g: Graph<E>, cs: seq<E>, ts: seq<Tree>)
    requires WellFormed(g) && |cs| == |ts| && forall i | 0 <= i < |ts| :: Represents(g, cs[i], ts[i])
    ensures forall x | x in FootprintList(g, cs, ts) :: x in g
    decreases ts, 2, 0
  {
    if ts != [] {
      FootprintInGraph(g, cs[0], ts[0]);
      FootprintListInGraph(g, cs[1..], ts[1..]);
    }
  }

  /** Entities that share nothing: the parts of a graph under construction. */
  ghost predicate Apart<E>(g: Graph<E>, h: Graph<E>) {
    WellFormed(g) && WellFormed(h) && g.Keys !! h.Keys
  }

  lemma Union<E>(g: Graph<E>, h: Graph<E>)
    requires Apart(g, h)
    ensures WellFormed(g + h) && Subgraph(g, g + h) && Subgraph(h, g + h)
  {
  }

  lemma UnseenJoin<E>(a: seq<E>, b: seq<E>)
    requires Unseen(a, []) && Unseen(b, []) && forall x | x in a :: x !in b
    ensures Unseen(a + b, [])
  {
    var c := a + b;
    forall i, j | 0 <= i < j < |c| ensures c[i] != c[j] {
      if i < |a| <= j { assert a[i] in a && b[j - |a|] in b; }
    }
  }

  /** The entity stands for the tree: nothing is shared. */
  ghost predicate StandsFor(g: Graph<Entity>, e: Entity, t: Tree)
    reads g.Keys
  {
    Mirrors(g) && Represents(g, e, t) && Unseen(Footprint(g, e, t), [])
  }

  ghost predicate PropStandsFor(g: Graph<Entity>, p: Prop<Entity>, tp: TreeProp)
    reads g.Keys
  {
    Mirrors(g) && RepresentsProp(g, p, tp) && Unseen(FootprintProp(g, p, tp), [])
  }

  ghost predicate ListStandsFor(g: Graph<Entity>, es: seq<Entity>, ts: seq<Tree>)
    reads g.Keys
  {
    && Mirrors(g) && |es| == |ts|
    && (forall i | 0 <= i < |ts| :: Represents(g, es[i], ts[i]))
    && Unseen(FootprintList(g, es, ts), [])
  }

  lemma ListStandsForMore(g: Graph<Entity>, e: Entity, t: Tree, h: Graph<Entity>, es: seq<Entity>, ts: seq<Tree>)
    requires Apart(g, h) && StandsFor(g, e, t) && ListStandsFor(h, es, ts)
    ensures ListStandsFor(g + h, [e] + es, [t] + ts)
  {
    Union(g, h);
    RepresentsInSupergraph(g, g + h, e, t);
    ListInSupergraph(h, g + h, es, ts);
    RepresentsMore(g + h, e, t, es, ts);
    FootprintListMore(g + h, e, t, es, ts);
    FootprintsApart(g, e, t, h, es, ts);
  }

  lemma FootprintsApart(g: Graph<Entity>, e: Entity, t: Tree, h: Graph<Entity>, es: seq<Entity>, ts: seq<Tree>)
    requires Apart(g, h) && StandsFor(g, e, t) && ListStandsFor(h, es, ts)
    ensures Unseen(Footprint(g, e, t) + FootprintList(h, es, ts), [])
  {
    FootprintInGraph(g, e, t);
    FootprintListInGraph(h, es, ts);
    UnseenJoin(Footprint(g, e, t), FootprintList(h, es, ts));
  }

  lemma FootprintListMore(g: Graph<Entity>, e: Entity, t: Tree, es: seq<Entity>, ts: seq<Tree>)
    requires WellFormed(g) && |es| == |ts| && Represents(g, e, t)
    requires forall i | 0 <= i < |ts| :: Represents(g, es[i], ts[i])
    requires forall i | 0 <= i < |[t] + ts| :: Represents(g, ([e] + es)[i], ([t] + ts)[i])
    ensures FootprintList(g, [e] + es, [t] + ts) == Footprint(g, e, t) + FootprintList(g, es, ts)
  {
    assert ([e] + es)[1..] == es && ([t] + ts)[1..] == ts;
  }

  lemma RepresentsMore(g: Graph<Entity>, e: Entity, t: Tree, es: seq<Entity>, ts: seq<Tree>)
    requires |es| == |ts| && Represents(g, e, t) && forall i | 0 <= i < |ts| :: Represents(g, es[i], ts[i])
    ensures forall i | 0 <= i < |[t] + ts| :: Represents(g, ([e] + es)[i], ([t] + ts)[i])
  {
  }

  ghost predicate AllRead(svc: Service, items: seq<Value>, api: string)
    requires svc.SchemasCoherent()
  {
    forall i | 0 <= i < |items| :: DeserializeTree(svc, items[i], api).Ok?
  }

  ghost predicate AllReadAs(svc: Service, items: seq<Value>, api: string, ts: seq<Tree>)
    requires svc.SchemasCoherent()
  {
    |ts| == |items| && forall i | 0 <= i < |items| :: DeserializeTree(svc, items[i], api) == Ok(ts[i])
  }

  lemma AllReadStep(svc: Service, items: seq<Value>, api: string)
    requires svc.SchemasCoherent() && items != []
    ensures AllRead(svc, items, api) <==> DeserializeTree(svc, items[0], api).Ok? && AllRead(svc, items[1..], api)
  {
    forall i | 0 < i < |items| ensures items[i] == items[1..][i - 1] {}
  }

  lemma AllReadAsStep(svc: Service, items: seq<Value>, api: string, t: Tree, us: seq<Tree>)
    requires svc.SchemasCoherent() && items != []
    requires DeserializeTree(svc, items[0], api) == Ok(t) && AllReadAs(svc, items[1..], api, us)
    ensures AllReadAs(svc, items, api, [t] + us)
  {
    forall i | 0 < i < |items| ensures items[i] == items[1..][i - 1] && ([t] + us)[i] == us[i - 1] {}
  }

  // ---- Assembling an entity ----

  ghost predicate PropsMatch(g: Graph<Entity>, ks: seq<string>, props: map<string, Prop<Entity>>,
                             tps: map<string, TreeProp>)
  {
    forall k | k in ks :: k in props && k in tps && RepresentsProp(g, props[k], tps[k])
  }

  ghost function FootprintAll(g: Graph<Entity>, ks: seq<string>, props: map<string, Prop<Entity>>,
                              tps: map<string, TreeProp>)
    : seq<Entity>
    requires WellFormed(g) && PropsMatch(g, ks, props, tps)
  {
    if ks == [] then [] else FootprintProp(g, props[ks[0]], tps[ks[0]]) + FootprintAll(g, ks[1..], props, tps)
  }

  /** Properties assigned so far, and the graph of the entities they lead to. */
  ghost predicate Assembled(kids: Graph<Entity>, ks: seq<string>, props: map<string, Prop<Entity>>,
                            tps: map<string, TreeProp>)
    reads kids.Keys
  {
    && Mirrors(kids) && PropsMatch(kids, ks, props, tps)
    && (forall k :: k in ks <==> k in props) && props.Keys == tps.Keys
    && (forall k, c | k in props && c in Targets(props[k]) :: c in kids)
    && Unseen(FootprintAll(kids, ks, props, tps), [])
  }

  lemma {:induction false} FootprintAllInGraph(g: Graph<Entity>, ks: seq<string>, props: map<string, Prop<Entity>>,
                                               tps: map<string, TreeProp>)
    requires WellFormed(g) && PropsMatch(g, ks, props, tps)
    ensures forall x | x in FootprintAll(g, ks, props, tps) :: x in g
  {
    if ks != [] {
      FootprintPropInGraph(g, props[ks[0]], tps[ks[0]]);
      FootprintAllInGraph(g, ks[1..], props, tps);
    }
  }

  lemma {:induction false} FootprintAllJoin(g: Graph<Entity>, ks: seq<string>, ls: seq<string>,
                                            props: map<string, Prop<Entity>>, tps: map<string, TreeProp>)
    requires WellFormed(g) && PropsMatch(g, ks + ls, props, tps) && PropsMatch(g, ks, props, tps) &&
             PropsMatch(g, ls, props, tps)
    ensures FootprintAll(g, ks + ls, props, tps) == FootprintAll(g, ks, props, tps) + FootprintAll(g, ls, props, tps)
    decreases |ks|
  {
    if ks == [] {
      assert ks + ls == ls;
    } else {
      assert (ks + ls)[1..] == ks[1..] + ls;
      FootprintAllJoin(g, ks[1..], ls, props, tps);
      Assoc(FootprintProp(g, props[ks[0]], tps[ks[0]]),
            FootprintAll(g, ks[1..], props, tps), FootprintAll(g, ls, props, tps));
    }
  }

  /** Other properties may be added, and the graph may grow. */
  lemma {:induction false} FootprintAllKept(g: Graph<Entity>, h: Graph<Entity>, ks: seq<string>,
                                            props: map<string, Prop<Entity>>, tps: map<string, TreeProp>,
                                            props': map<string, Prop<Entity>>, tps': map<string, TreeProp>)
    requires WellFormed(g) && WellFormed(h) && Subgraph(g, h) && PropsMatch(g, ks, props, tps)
    requires forall k | k in ks :: k in props' && k in tps' && props'[k] == props[k] && tps'[k] == tps[k]
    ensures PropsMatch(h, ks, props', tps') && FootprintAll(h, ks, props', tps') == FootprintAll(g, ks, props, tps)
    decreases |ks|
  {
    if ks != [] {
      PropInSupergraph(g, h, props[ks[0]], tps[ks[0]]);
      FootprintAllKept(g, h, ks[1..], props, tps, props', tps');
    }
  }

  /** Another property and its graph put to the end. */
  lemma FootprintAllAppend(g: Graph<Entity>, h: Graph<Entity>, ks: seq<string>,
                           props: map<string, Prop<Entity>>, tps: map<string, TreeProp>,
                           k: string, p: Prop<Entity>, tp: TreeProp)
    requires Apart(g, h) && PropsMatch(g, ks, props, tps) && RepresentsProp(h, p, tp) && k !in ks
    ensures WellFormed(g + h) && PropsMatch(g + h, ks + [k], props[k := p], tps[k := tp])
    ensures FootprintAll(g + h, ks + [k], props[k := p], tps[k := tp]) ==
            FootprintAll(g, ks, props, tps) + FootprintProp(h, p, tp)
  {
    Union(g, h);
    PropInSupergraph(h, g + h, p, tp);
    FootprintAllKept(g, g + h, ks, props, tps, props[k := p], tps[k := tp]);
    FootprintAllJoin(g + h, ks, [k], props[k := p], tps[k := tp]);
    assert [k][1..] == [] && FootprintProp(h, p, tp) + [] == FootprintProp(h, p, tp);
  }

  lemma TargetsInGraph<E>(g: Graph<E>, p: Prop<E>, tp: TreeProp)
    requires RepresentsProp(g, p, tp)
    ensures forall c | c in Targets(p) :: c in g
  {
  }

  lemma AssembledMore(kids: Graph<Entity>, h: Graph<Entity>, ks: seq<string>, props: map<string, Prop<Entity>>,
                      tps: map<string, TreeProp>, k: string, p: Prop<Entity>, tp: TreeProp)
    requires Assembled(kids, ks, props, tps) && PropStandsFor(h, p, tp) && kids.Keys !! h.Keys && k !in props
    ensures Assembled(kids + h, ks + [k], props[k := p], tps[k := tp])
  {
    Union(kids, h);
    TargetsInGraph(h, p, tp);
    FootprintAllAppend(kids, h, ks, props, tps, k, p, tp);
    FootprintAllInGraph(kids, ks, props, tps);
    FootprintPropInGraph(h, p, tp);
    UnseenJoin(FootprintAll(kids, ks, props, tps), FootprintProp(h, p, tp));
  }

  /** With its properties and custom fields set, the entity stands for the tree. */
  lemma EntityComplete(kids: Graph<Entity>, e: Entity, tps: map<string, TreeProp>)
    requires Assembled(kids, e.keys, e.props, tps) && e !in kids && e.Valid()
    ensures StandsFor(kids[e := e.AsNode()], e, Tree(tps, e.customFields))
  {
    var g, t := kids[e := e.AsNode()], Tree(tps, e.customFields);
    assert WellFormed(g) && Subgraph(kids, g);
    forall k | k in tps ensures RepresentsProp(g, g[e].props[k], t.props[k]) {
      PropInSupergraph(kids, g, e.props[k], tps[k]);
    }
    FootprintKeysAll(kids, g, e, t, e.keys);
    FootprintAllInGraph(kids, e.keys, e.props, tps);
    UnseenJoin([e], FootprintAll(kids, e.keys, e.props, tps));
  }

  lemma {:induction false} FootprintKeysAll(kids: Graph<Entity>, g: Graph<Entity>, e: Entity, t: Tree, ks: seq<string>)
    requires WellFormed(kids) && WellFormed(g) && Subgraph(kids, g) && Represents(g, e, t)
    requires PropsMatch(kids, ks, g[e].props, t.props)
    ensures FootprintKeys(g, e, t, ks) == FootprintAll(kids, ks, g[e].props, t.props)
    decreases |ks|
  {
    if ks != [] {
      PropInSupergraph(kids, g, g[e].props[ks[0]], t.props[ks[0]]);
      FootprintKeysAll(kids, g, e, t, ks[1..]);
    }
  }

  /** The selected properties among those named by the given static names. */
  ghost function SelectedAmong(svc: Service, json: Value, api: string, names: set<string>): set<string> {
    var schema := svc.SchemaOf(api);
    set s | s in names && s in SelectedFields(svc, json, api) :: svc.PropName(schema[s])
  }

  lemma SelectedOneMore(svc: Service, json: Value, api: string, names: set<string>, s: string)
    requires svc.SchemasCoherent() && s in svc.SchemaOf(api) && s !in names && names <= svc.SchemaOf(api).Keys
    ensures svc.snake(svc.PropName(svc.SchemaOf(api)[s])) == s
    ensures svc.PropName(svc.SchemaOf(api)[s]) !in SelectedAmong(svc, json, api, names)
    ensures SelectedAmong(svc, json, api, names + {s}) == SelectedAmong(svc, json, api, names)
            + if s in SelectedFields(svc, json, api) then {svc.PropName(svc.SchemaOf(api)[s])} else {}
  {
    var schema, k := svc.SchemaOf(api), svc.PropName(svc.SchemaOf(api)[s]);
    forall r | r in names ensures svc.PropName(schema[r]) != k {
      assert svc.snake(svc.PropName(schema[r])) == r;
    }
  }

  /** The properties assigned so far are those selected among the names, each as it is read from the payload. */
  ghost predicate ReadSoFar(svc: Service, json: Value, api: string, names: set<string>, tps: map<string, TreeProp>)
    requires svc.SchemasCoherent()
  {
    && tps.Keys == SelectedAmong(svc, json, api, names)
    && forall k | k in tps :: k in SelectedProps(svc, json, api) && PropFrom(svc, json, api, k) == Ok(tps[k])
  }

  lemma ReadOneMore(svc: Service, json: Value, api: string, names: set<string>, s: string, tps: map<string, TreeProp>,
                    tp: TreeProp)
    requires svc.SchemasCoherent() && s in svc.SchemaOf(api) && s !in names && names <= svc.SchemaOf(api).Keys
    requires ReadSoFar(svc, json, api, names, tps)
    requires var f := svc.SchemaOf(api)[s];
             f.fieldName in OwnFields(json) && DeserializeField(svc, OwnFields(json)[f.fieldName], f) == Ok(tp)
    ensures var k := svc.PropName(svc.SchemaOf(api)[s]);
            k !in tps && ReadSoFar(svc, json, api, names + {s}, tps[k := tp])
  {
    SelectedOneMore(svc, json, api, names, s);
    assert s in SelectedFields(svc, json, api);
  }

  lemma ReadSkipped(svc: Service, json: Value, api: string, names: set<string>, s: string, tps: map<string, TreeProp>)
    requires svc.SchemasCoherent() && s in svc.SchemaOf(api) && s !in names && names <= svc.SchemaOf(api).Keys
    requires svc.SchemaOf(api)[s].fieldName !in OwnFields(json) && ReadSoFar(svc, json, api, names, tps)
    ensures ReadSoFar(svc, json, api, names + {s}, tps)
  {
    SelectedOneMore(svc, json, api, names, s);
  }

  /** Assigning a property changes nothing in the entities that the properties lead to. */
  method SetPropertyApart(e: Entity, k: string, p: Prop<Entity>, ghost kids: Graph<Entity>,
                          ghost tps: map<string, TreeProp>)
    requires e.Valid() && e !in kids && k !in e.props
    requires if e.svc.IsNavigationProperty(k, e.api) then p.Data? ==> IsNullish(p.v) else p.Data?
    requires Assembled(kids, e.keys + [k], e.props[k := p], tps)
    modifies e`keys, e`props
    ensures e.Valid() && Assembled(kids, e.keys, e.props, tps)
  {
    e.SetProperty(k, p);
    forall x | x in kids ensures x.Valid() && kids[x] == x.AsNode() {
      assert old(x.Valid()) && kids[x] == old(x.AsNode());
    }
  }

  /** Assigns the value of one field, if it is selected. */
  method AssignField(e: Entity, json: Value, s: string, ghost names: set<string>,
                     ghost before: Graph<Entity>, ghost had: map<string, TreeProp>)
    returns (ok: bool, ghost kids: Graph<Entity>, ghost tps: map<string, TreeProp>)
    requires e.svc.SchemasCoherent() && e.Valid() && e !in before
    requires s in e.svc.SchemaOf(e.api) && s !in names && names <= e.svc.SchemaOf(e.api).Keys
    requires Assembled(before, e.keys, e.props, had) && ReadSoFar(e.svc, json, e.api, names, had)
    modifies e`keys, e`props
    ensures !ok ==> exists k | k in SelectedProps(e.svc, json, e.api) :: PropFrom(e.svc, json, e.api, k).Thrown?
    ensures ok ==> e.Valid() && fresh(kids.Keys - before.Keys) && e !in kids
    ensures ok ==> Assembled(kids, e.keys, e.props, tps) && ReadSoFar(e.svc, json, e.api, names + {s}, tps)
    decreases json, 1
  {
    if e.svc.SchemaOf(e.api)[s].fieldName in OwnFields(json) {
      ok, kids, tps := AssignSelected(e, json, s, names, before, had);
    } else {
      ok, kids, tps := true, before, had;
      ReadSkipped(e.svc, json, e.api, names, s, had);
    }
  }

  method AssignSelected(e: Entity, json: Value, s: string, ghost names: set<string>,
                        ghost before: Graph<Entity>, ghost had: map<string, TreeProp>)
    returns (ok: bool, ghost kids: Graph<Entity>, ghost tps: map<string, TreeProp>)
    requires e.svc.SchemasCoherent() && e.Valid() && e !in before
    requires s in e.svc.SchemaOf(e.api) && s !in names && names <= e.svc.SchemaOf(e.api).Keys
    requires e.svc.SchemaOf(e.api)[s].fieldName in OwnFields(json)
    requires Assembled(before, e.keys, e.props, had) && ReadSoFar(e.svc, json, e.api, names, had)
    modifies e`keys, e`props
    ensures !ok ==> exists k | k in SelectedProps(e.svc, json, e.api) :: PropFrom(e.svc, json, e.api, k).Thrown?
    ensures ok ==> e.Valid() && fresh(kids.Keys - before.Keys) && e !in kids
    ensures ok ==> Assembled(kids, e.keys, e.props, tps) && ReadSoFar(e.svc, json, e.api, names + {s}, tps)
    decreases json, 0
  {
    ok, kids, tps := true, before, had;
    var f, k := e.svc.SchemaOf(e.api)[s], e.svc.PropName(e.svc.SchemaOf(e.api)[s]);
    OwnFieldIsSmaller(json, f.fieldName);
    var r, h, tp := GetFieldValue(e.svc, OwnFields(json)[f.fieldName], f);
    if r.Ok? {
      ReadOneMore(e.svc, json, e.api, names, s, had, tp);
      AssembledMore(before, h, e.keys, e.props, had, k, r.value, tp);
      kids, tps := before + h, had[k := tp];
      SetPropertyApart(e, k, r.value, kids, tps);
    } else {
      Unreadable(e.svc, json, e.api, s);
      ok := false;
    }
  }

  lemma OneTaken(names: set<string>, todo: set<string>, s: string)
    requires s in todo && todo <= names
    ensures names - (todo - {s}) == names - todo + {s}
  {
  }

  lemma AllTaken(names: set<string>)
    ensures names - {} == names
  {
  }

  lemma SelectedAmongAll(svc: Service, json: Value, api: string)
    ensures SelectedAmong(svc, json, api, svc.SchemaOf(api).Keys) == SelectedProps(svc, json, api)
  {
  }

  /** Assigns the value of every selected field, in some order, or stops at one that cannot be read. */
  method AssignFields(e: Entity, json: Value)
    returns (ok: bool, ghost kids: Graph<Entity>, ghost tps: map<string, TreeProp>)
    requires e.svc.SchemasCoherent() && e.Valid() && e.keys == [] && e.props == map[]
    modifies e`keys, e`props
    ensures ok <==> forall k | k in SelectedProps(e.svc, json, e.api) :: PropFrom(e.svc, json, e.api, k).Ok?
    ensures ok ==> e.Valid() && fresh(kids.Keys) && Assembled(kids, e.keys, e.props, tps)
    ensures ok ==> tps.Keys == SelectedProps(e.svc, json, e.api)
    ensures ok ==> ReadSoFar(e.svc, json, e.api, e.svc.SchemaOf(e.api).Keys, tps)
    decreases json, 2
  {
    var names := e.svc.SchemaOf(e.api).Keys;
    var todo := names;
    kids, tps := map[], map[];
    while todo != {}
      invariant todo <= names && e.Valid() && fresh(kids.Keys) && e !in kids
      invariant Assembled(kids, e.keys, e.props, tps) && ReadSoFar(e.svc, json, e.api, names - todo, tps)
      decreases todo
    {
      var s :| s in todo;
      OneTaken(names, todo, s);
      ok, kids, tps := AssignField(e, json, s, names - todo, kids, tps);
      if !ok { return; }
      todo := todo - {s};
    }
    AllTaken(names);
    SelectedAmongAll(e.svc, json, e.api);
    ok := true;
  }

  lemma Unreadable(svc: Service, json: Value, api: string, s: string)
    requires svc.SchemasCoherent() && s in SelectedFields(svc, json, api)
    requires DeserializeField(svc, OwnFields(json)[svc.SchemaOf(api)[s].fieldName], svc.SchemaOf(api)[s]).Thrown?
    ensures exists k | k in SelectedProps(svc, json, api) :: PropFrom(svc, json, api, k).Thrown?
  {
    var k := svc.PropName(svc.SchemaOf(api)[s]);
    assert k in SelectedProps(svc, json, api) && svc.snake(k) == s;
  }

  lemma OverwrittenMore(all: map<string, Value>, entries: seq<(string, Value)>, todo: set<string>, c: string)
    requires Overwritten(map[], entries) == all - todo && c in todo && c in all
    ensures Overwritten(map[], entries + [(c, all[c])]) == all - (todo - {c})
  {
    assert (entries + [(c, all[c])])[..|entries|] == entries;
    assert (all - todo)[c := all[c]] == all - (todo - {c});
  }

  lemma {:induction false} EntryIsWritten(entries: seq<(string, Value)>, i: nat)
    requires i < |entries|
    ensures entries[i].0 in Overwritten(map[], entries)
  {
    var last := |entries| - 1;
    if i < last { EntryIsWritten(entries[..last], i); }
  }

  /** The members that no field claims, in some order. */
  method ExtractCustomFields(svc: Service, json: Value, api: string) returns (entries: seq<(string, Value)>)
    ensures Overwritten(map[], entries) == CustomFieldsOf(svc, json, api)
  {
    var all := CustomFieldsOf(svc, json, api);
    var todo := all.Keys;
    entries := [];
    assert all - todo == map[];
    while todo != {}
      invariant todo <= all.Keys && Overwritten(map[], entries) == all - todo
      decreases todo
    {
      var c :| c in todo;
      OverwrittenMore(all, entries, todo, c);
      entries, todo := entries + [(c, all[c])], todo - {c};
    }
    assert all - todo == all;
  }

  /** The version the payload carries, by the protocol's own convention. */
  function ExtractEtag(svc: Service, json: Value): Value {
    if svc.version.V2? then Member(Member(json, METADATA), "etag") else Member(json, "@odata.etag")
  }

  function EtagOf(svc: Service, json: Value, headerEtag: Value): Value {
    if Truthy(ExtractEtag(svc, json)) then ExtractEtag(svc, json) else headerEtag
  }

  /** A text that is not empty. */
  function VersionOf(etag: Value): Option<string> {
    if etag.Str? && etag.s != "" then Some(etag.s) else None
  }

  /**
   The version in the payload, in the metadata or in an annotation by protocol, counts before the one in the header.
   */
  lemma VersionOfPayload(svc: Service, fields: map<string, Value>, etag: Value, headerEtag: Value)
    ensures svc.version.V2? && "__metadata" in fields && fields["__metadata"].Obj?
            && "etag" in fields["__metadata"].fields && fields["__metadata"].fields["etag"] == etag ==>
              EtagOf(svc, Obj(fields), headerEtag) == if Truthy(etag) then etag else headerEtag
    ensures svc.version.V4? && "@odata.etag" in fields && fields["@odata.etag"] == etag ==>
              EtagOf(svc, Obj(fields), headerEtag) == if Truthy(etag) then etag else headerEtag
    ensures svc.version.V2? && ("__metadata" in fields ==> "etag" !in OwnFields(fields["__metadata"])) ==>
              EtagOf(svc, Obj(fields), headerEtag) == headerEtag
    ensures svc.version.V4? && "@odata.etag" !in fields ==> EtagOf(svc, Obj(fields), headerEtag) == headerEtag
  {
    assert METADATA == "__metadata";
  }

  /** The entity has the version, and its own current state as remote state. */
  ghost predicate FreshlyRead(e: Entity, g: Graph<Entity>, t: Tree, etag: Value)
    requires WellFormed(g) && e in g
    reads e
  {
    && e.versionIdentifier == VersionOf(etag)
    && var truthy := TruthyMembers(t, MembersOfVersion(e.versionIdentifier));
       e.remoteState == Some(RemoteState(e.svc, truthy, EntriesOf(e.CurrentState(g))))
  }

  method DeserializeEntity(svc: Service, json: Value, api: string, headerEtag: Value)
    returns (r: Outcome<Entity>, ghost g: Graph<Entity>, ghost t: Tree)
    requires svc.SchemasCoherent()
    ensures DeserializeTree(svc, json, api) == if r.Ok? then Ok(t) else Thrown
    ensures r.Ok? ==> fresh(g.Keys) && StandsFor(g, r.value, t)
    ensures r.Ok? ==> FreshlyRead(r.value, g, t, EtagOf(svc, json, headerEtag))
    ensures r.Ok? ==> r.value.svc == svc && r.value.api == api
    decreases json, 3
  {
    g, t := map[], Tree(map[], map[]);
    if IsNullish(json) { return Thrown, g, t; }
    var e := new Entity(svc, api);
    var ok, kids, tps := AssignFields(e, json);
    TreeIsRead(svc, json, api);
    if !ok { return Thrown, g, t; }
    assert e !in kids;
    g, t := FinishEntity(e, json, headerEtag, kids, tps);
    DeserializedFromParts(svc, json, api, t);
    FreshWith(kids, e, g);
    r := Ok(e);
  }

  twostate lemma FreshWith(new kids: Graph<Entity>, new e: Entity, new g: Graph<Entity>)
    requires fresh(kids.Keys) && fresh(e) && g.Keys == kids.Keys + {e}
    ensures fresh(g.Keys)
  {
  }

  /** What follows the fields: custom fields, version and remote state. */
  method FinishEntity(e: Entity, json: Value, headerEtag: Value, ghost kids: Graph<Entity>,
                      ghost tps: map<string, TreeProp>)
    returns (ghost g: Graph<Entity>, ghost t: Tree)
    requires e.Valid() && e.customFields == map[] && e.versionIdentifier == None && e.remoteState == None
    requires e !in kids && Assembled(kids, e.keys, e.props, tps)
    modifies e`customKeys, e`customFields, e`versionIdentifier, e`remoteState
    ensures t == Tree(tps, CustomFieldsOf(e.svc, json, e.api)) && g.Keys == kids.Keys + {e}
    ensures StandsFor(g, e, t) && FreshlyRead(e, g, t, EtagOf(e.svc, json, headerEtag))
  {
    CompleteEntity(e, json, kids, tps);
    t := Tree(tps, e.customFields);
    g := kids[e := e.AsNode()];
    SetVersionAndRemoteState(e, g, t, EtagOf(e.svc, json, headerEtag));
  }

  method CompleteEntity(e: Entity, json: Value, ghost kids: Graph<Entity>, ghost tps: map<string, TreeProp>)
    requires e.Valid() && e.customFields == map[] && e !in kids && Assembled(kids, e.keys, e.props, tps)
    modifies e`customKeys, e`customFields
    ensures e.customFields == CustomFieldsOf(e.svc, json, e.api)
    ensures StandsFor(kids[e := e.AsNode()], e, Tree(tps, e.customFields))
  {
    SetCustomFieldsFrom(e, json);
    forall x | x in kids ensures x.Valid() && kids[x] == x.AsNode() {
      assert old(x.Valid()) && kids[x] == old(x.AsNode());
    }
    EntityComplete(kids, e, tps);
  }

  /** The version is no part of the graph. */
  method SetVersion(e: Entity, ghost g: Graph<Entity>, etag: Value)
    requires Mirrors(g) && e in g && e.versionIdentifier == None
    modifies e`versionIdentifier
    ensures Mirrors(g) && e.versionIdentifier == VersionOf(etag)
  {
    e.SetVersionIdentifier(etag);
  }

  /** And it decides which names are members of the entity. */
  method SetVersionOf(e: Entity, ghost g: Graph<Entity>, ghost t: Tree, etag: Value)
    requires StandsFor(g, e, t) && e.versionIdentifier == None && e.remoteState == None
    modifies e`versionIdentifier
    ensures StandsFor(g, e, t) && e.versionIdentifier == VersionOf(etag)
    ensures e.TruthyNames() == TruthyMembers(t, MembersOfVersion(e.versionIdentifier))
  {
    SetVersion(e, g, etag);
    TruthyNamesMatch(g, e, t);
    assert e.InheritedMembers() == MembersOfVersion(e.versionIdentifier);
  }

  /** Nor is the remote state part of it. */
  method InitializeRemoteState(e: Entity, ghost g: Graph<Entity>, ghost t: Tree, ghost truthy: set<string>)
    requires StandsFor(g, e, t) && e.TruthyNames() == truthy
    modifies e`remoteState
    ensures StandsFor(g, e, t)
    ensures e.remoteState == Some(RemoteState(e.svc, truthy, EntriesOf(e.CurrentState(g))))
  {
    e.SetOrInitializeRemoteState(None, g);
  }

  method SetVersionAndRemoteState(e: Entity, ghost g: Graph<Entity>, ghost t: Tree, etag: Value)
    requires StandsFor(g, e, t) && e.versionIdentifier == None && e.remoteState == None
    modifies e`versionIdentifier, e`remoteState
    ensures StandsFor(g, e, t) && FreshlyRead(e, g, t, etag)
  {
    SetVersionOf(e, g, t, etag);
    InitializeRemoteState(e, g, t, TruthyMembers(t, MembersOfVersion(e.versionIdentifier)));
  }

  lemma TreeIsRead(svc: Service, json: Value, api: string)
    requires svc.SchemasCoherent() && !IsNullish(json)
    ensures DeserializeTree(svc, json, api).Ok? <==>
            forall k | k in SelectedProps(svc, json, api) :: PropFrom(svc, json, api, k).Ok?
  {
  }

  lemma TruthyNamesMatch(g: Graph<Entity>, e: Entity, t: Tree)
    requires Mirrors(g) && Represents(g, e, t)
    ensures e.TruthyNames() == TruthyMembers(t, e.InheritedMembers())
  {
    forall k | k in t.props
      ensures (e.props[k].Data? <==> t.props[k].Plain?) && (e.props[k].Data? ==> e.props[k].v == t.props[k].v)
    {
      assert RepresentsProp(g, g[e].props[k], t.props[k]);
    }
  }

  /** No custom field of a payload conflicts with a field, so setting them all succeeds. */
  method SetCustomFieldsFrom(e: Entity, json: Value)
    requires e.Valid() && e.customFields == map[]
    modifies e`customKeys, e`customFields
    ensures e.Valid() && e.customFields == CustomFieldsOf(e.svc, json, e.api)
  {
    var entries := ExtractCustomFields(e.svc, json, e.api);
    forall i | 0 <= i < |entries| ensures entries[i].0 in CustomFieldsOf(e.svc, json, e.api) {
      EntryIsWritten(entries, i);
    }
    var done := e.SetCustomFields(entries);
    assert done.Ok?;
  }

  /** A linked entity has its own version and remote state, and none from the header of the response. */
  method DeserializeLinked(svc: Service, json: Value, api: string)
    returns (r: Outcome<Entity>, ghost g: Graph<Entity>, ghost t: Tree)
    requires svc.SchemasCoherent()
    ensures DeserializeTree(svc, json, api) == if r.Ok? then Ok(t) else Thrown
    ensures r.Ok? ==> fresh(g.Keys) && StandsFor(g, r.value, t)
    ensures r.Ok? ==> r.value.remoteState.Some? && r.value.versionIdentifier == VersionOf(EtagOf(svc, json, Undefined))
    decreases json, 4
  {
    r, g, t := DeserializeEntity(svc, json, api, Undefined);
  }

  method ReadLinkedEntities(svc: Service, items: seq<Value>, api: string, ghost json: Value)
    returns (r: Outcome<seq<Entity>>, ghost g: Graph<Entity>, ghost ts: seq<Tree>)
    requires svc.SchemasCoherent() && forall i | 0 <= i < |items| :: items[i] < json
    ensures r.Ok? <==> AllRead(svc, items, api)
    ensures r.Ok? ==> AllReadAs(svc, items, api, ts)
    ensures r.Ok? ==> fresh(g.Keys) && ListStandsFor(g, r.value, ts)
    decreases json, 5, |items|
  {
    g, ts := map[], [];
    if items == [] { return Ok([]), map[], []; }
    AllReadStep(svc, items, api);
    var first, h, t := DeserializeLinked(svc, items[0], api);
    if first.Thrown? { return Thrown, map[], []; }
    var rest, hs, us := ReadLinkedEntities(svc, items[1..], api, json);
    if rest.Thrown? { return Thrown, map[], []; }
    ReadTogether(svc, items, api, h, first.value, t, hs, rest.value, us);
    FreshTogether(h, hs);
    r, g, ts := Ok([first.value] + rest.value), h + hs, [t] + us;
  }

  /** The first entity and the others, in graphs apart from one another, put together. */
  lemma ReadTogether(svc: Service, items: seq<Value>, api: string, g: Graph<Entity>, e: Entity, t: Tree,
                     h: Graph<Entity>, es: seq<Entity>, ts: seq<Tree>)
    requires svc.SchemasCoherent() && items != [] && DeserializeTree(svc, items[0], api) == Ok(t)
    requires AllReadAs(svc, items[1..], api, ts)
    requires StandsFor(g, e, t) && ListStandsFor(h, es, ts) && g.Keys !! h.Keys
    ensures AllReadAs(svc, items, api, [t] + ts) && ListStandsFor(g + h, [e] + es, [t] + ts)
  {
    AllReadAsStep(svc, items, api, t, ts);
    ListStandsForMore(g, e, t, h, es, ts);
  }

  /** Two fresh graphs are fresh together. */
  twostate lemma FreshTogether(new g: Graph<Entity>, new h: Graph<Entity>)
    requires fresh(g.Keys) && fresh(h.Keys)
    ensures fresh((g + h).Keys)
  {
  }

  method GetSingleLinkFromJson(svc: Service, v: Value, linkedApi: string)
    returns (r: Outcome<Prop<Entity>>, ghost g: Graph<Entity>, ghost tp: TreeProp)
    requires svc.SchemasCoherent()
    ensures DeserializeSingleLink(svc, v, linkedApi) == if r.Ok? then Ok(tp) else Thrown
    ensures r.Ok? ==> fresh(g.Keys) && PropStandsFor(g, r.value, tp)
    ensures r.Ok? && r.value.Data? ==> IsNullish(r.value.v)
    decreases v, 6
  {
    r, g, tp := Thrown, map[], Plain(Null);
    if v.Null? || (!v.Undefined? && DEFERRED in OwnFields(v)) {
      r := Ok(Data(Null));
      DataStandsFor(Null);
    } else if !v.Undefined? {
      var e, h, t := DeserializeLinked(svc, v, linkedApi);
      if e.Ok? {
        LinkStandsFor(h, e.value, t);
        r, g, tp := Ok(Ref(e.value)), h, One(t);
      }
    }
  }

  lemma LinkStandsFor(g: Graph<Entity>, e: Entity, t: Tree)
    requires StandsFor(g, e, t)
    ensures PropStandsFor(g, Ref(e), One(t))
  {
  }

  lemma LinksStandFor(g: Graph<Entity>, es: seq<Entity>, ts: seq<Tree>)
    requires ListStandsFor(g, es, ts)
    ensures PropStandsFor(g, Refs(es), Many(ts))
  {
  }

  lemma DataStandsFor(v: Value)
    ensures PropStandsFor(map[], Data(v), Plain(v))
  {
  }

  method GetMultiLinkFromJson(svc: Service, v: Value, linkedApi: string)
    returns (r: Outcome<Prop<Entity>>, ghost g: Graph<Entity>, ghost tp: TreeProp)
    requires svc.SchemasCoherent()
    ensures DeserializeMultiLink(svc, v, linkedApi) == if r.Ok? then Ok(tp) else Thrown
    ensures r.Ok? ==> fresh(g.Keys) && PropStandsFor(g, r.value, tp)
    ensures r.Ok? ==> !r.value.Data?
    decreases v, 6
  {
    r, g, tp := Thrown, map[], Plain(Null);
    var items := LinkedResults(svc.version, v);
    var es, h, ts := ReadLinkedEntities(svc, items, linkedApi, v);
    if es.Ok? {
      MultiLinkIs(svc, v, linkedApi, ts);
      LinksStandFor(h, es.value, ts);
      r, g, tp := Ok(Refs(es.value)), h, Many(ts);
    }
  }

  lemma MultiLinkIs(svc: Service, v: Value, linkedApi: string, ts: seq<Tree>)
    requires svc.SchemasCoherent()
    requires AllReadAs(svc, LinkedResults(svc.version, v), linkedApi, ts)
    ensures DeserializeMultiLink(svc, v, linkedApi) == Ok(Many(ts))
  {
    var d := DeserializeMultiLink(svc, v, linkedApi);
    assert d.Ok? && d.value.Many? && |d.value.trees| == |ts|;
    assert d.value.trees == ts;
  }

  method GetFieldValue(svc: Service, v: Value, f: Field)
    returns (r: Outcome<Prop<Entity>>, ghost g: Graph<Entity>, ghost tp: TreeProp)
    requires svc.SchemasCoherent()
    ensures DeserializeField(svc, v, f) == if r.Ok? then Ok(tp) else Thrown
    ensures r.Ok? ==> fresh(g.Keys) && PropStandsFor(g, r.value, tp)
    ensures r.Ok? ==> if f.IsLink() then r.value.Data? ==> IsNullish(r.value.v) else r.value.Data?
    decreases v, 7
  {
    if f.OneToOneLink? {
      r, g, tp := GetSingleLinkFromJson(svc, v, f.linkedApi);
    } else if f.ManyLink? {
      r, g, tp := GetMultiLinkFromJson(svc, v, f.linkedApi);
    } else {
      var d := match f
        case EdmField(_, edm) => svc.toTs(v, edm)
        case ComplexField(_, typeName) => if Truthy(v) then DeserializeComplex(svc, v, typeName) else Ok(v)
        case CollectionField(_, ty) => DeserializeCollection(svc, v, ty)
        case _ => Ok(v);
      r, g, tp := Thrown, map[], Plain(Null);
      if d.Ok? {
        r, tp := Ok(Data(d.value)), Plain(d.value);
        DataStandsFor(d.value);
      }
    }
  }

  // ---- A freshly read entity ----

  lemma {:induction false} ListedKeysShape(listed: seq<string>, ks: seq<string>)
    requires NoDuplicates(listed)
    ensures var r := ListedKeys(listed, ks);
            && listed <= r && NoDuplicates(r)
            && forall i | |listed| <= i < |r| :: r[i] !in listed
    decreases ks
  {
    if ks != [] {
      ListedKeysShape(if ks[0] in listed then listed else listed + [ks[0]], ks[1..]);
    }
  }

  /** Where the entity stands for a tree, its current state is the snapshot, listed with the custom fields first. */
  lemma CurrentStateOfTree(g: Graph<Entity>, e: Entity, t: Tree)
    requires StandsFor(g, e, t)
    ensures e.CurrentState(g).obj == Snapshot(t)
    ensures Lists(EntriesOf(e.CurrentState(g)), t)
  {
    WalkOfTree(g, e, t, [], {});
    ListedKeysShape(e.customKeys, e.keys);
    ListedKeysCover(e.customKeys, e.keys);
    EntriesList(e.CurrentState(g), e.customKeys, t);
  }

  lemma EntriesList(l: Listing, customKeys: seq<string>, t: Tree)
    requires l.obj == Snapshot(t) && NoDuplicates(l.keys) && customKeys <= l.keys
    requires forall k :: k in l.keys <==> k in Snapshot(t)
    requires forall c :: c in customKeys <==> c in t.custom
    requires forall i | |customKeys| <= i < |l.keys| :: l.keys[i] !in customKeys
    ensures Lists(EntriesOf(l), t)
  {
    EntriesShow(l);
    CustomFieldsFirst(l, customKeys);
  }

  lemma EntriesShow(l: Listing)
    requires NoDuplicates(l.keys) && forall k :: k in l.keys <==> k in l.obj
    ensures forall i | 0 <= i < |EntriesOf(l)| ::
            EntriesOf(l)[i].0 in l.obj && EntriesOf(l)[i].1 == l.obj[EntriesOf(l)[i].0]
    ensures forall k | k in l.obj :: exists i | 0 <= i < |EntriesOf(l)| :: EntriesOf(l)[i].0 == k
    ensures forall i, j | 0 <= i < j < |EntriesOf(l)| :: EntriesOf(l)[i].0 != EntriesOf(l)[j].0
  {
    forall k | k in l.obj ensures exists i | 0 <= i < |EntriesOf(l)| :: EntriesOf(l)[i].0 == k {
      var i :| 0 <= i < |l.keys| && l.keys[i] == k;
      assert EntriesOf(l)[i].0 == k;
    }
    forall i | 0 <= i < |EntriesOf(l)| ensures EntriesOf(l)[i].0 in l.obj {
      assert l.keys[i] in l.keys;
    }
  }

  lemma CustomFieldsFirst(l: Listing, customKeys: seq<string>)
    requires customKeys <= l.keys
    requires forall i | |customKeys| <= i < |l.keys| :: l.keys[i] !in customKeys
    ensures forall i, j | 0 <= i < j < |EntriesOf(l)| && EntriesOf(l)[j].0 in customKeys ::
            EntriesOf(l)[i].0 in customKeys
  {
    forall i, j | 0 <= i < j < |EntriesOf(l)| && EntriesOf(l)[j].0 in customKeys
      ensures EntriesOf(l)[i].0 in customKeys
    {
      assert l.keys[i] == customKeys[i];
    }
  }

  /** The entity was read from the payload and not changed since. */
  ghost predicate ReadFrom(e: Entity, g: Graph<Entity>, t: Tree, json: Value, headerEtag: Value)
    requires e.svc.SchemasCoherent()
    reads g.Keys, e
  {
    && !IsNullish(json) && DeserializeTree(e.svc, json, e.api) == Ok(t)
    && StandsFor(g, e, t) && FreshlyRead(e, g, t, EtagOf(e.svc, json, headerEtag))
  }

  /**
   No custom field of the entity is renamed in the remote state, and none shares it with a property of another value.
   */
  ghost predicate KeepsCustomFields(e: Entity, t: Tree)
    reads e
  {
    forall c | c in t.custom :: KeepsCustomField(e.svc, t, TruthyMembers(t, MembersOfVersion(e.versionIdentifier)), c)
  }

  /**
   An entity that was just read has no updated property; and it has no updated custom field, so that a request with its
   changes sends the empty object, exactly if each custom field keeps its name and value in the remote state.
   */
  lemma FreshlyReadHasNoChangesExactly(e: Entity, g: Graph<Entity>, t: Tree, json: Value, headerEtag: Value)
    requires e.svc.SchemasCoherent() && e.svc.CamelIdempotent() && NothingUndefined(json)
    requires ReadFrom(e, g, t, json, headerEtag)
    ensures forall k :: !e.IsUpdated(e.CurrentState(g).obj, k)
    ensures UpdatedCustomFields(t, e.remoteState.value) == map[] <==> KeepsCustomFields(e, t)
    ensures SerializeTree(e.svc, Changes(t, e.remoteState.value), e.api) == Ok(Obj(map[])) <==> KeepsCustomFields(e, t)
  {
    var truthy, entries := TruthyMembers(t, MembersOfVersion(e.versionIdentifier)), EntriesOf(e.CurrentState(g));
    CurrentStateOfTree(g, e, t);
    ReadNamesAreSettled(e.svc, json, e.api, t);
    FreshEntityHasNoUpdatedProperty(e.svc, t, truthy, entries);
    FreshEntityHasNoUpdatedCustomFieldExactly(e.svc, t, truthy, entries);
    FreshDiffIsEmptyExactly(e.svc, t, truthy, entries, e.api);
    UpdatedNamesAgree(g, e, t);
  }

  /**
   From reading to patching: whatever the client makes of the entity, the payload it was read from, patched with the
   changes against the remote state that reading has set, is read as the patched entity; and where the custom fields
   kept their names, that remote state is the server's snapshot, so PatchedMatchesClient says what got through.
   */
  lemma PatchAfterReading(e: Entity, g: Graph<Entity>, server: Tree, json: Value, headerEtag: Value, client: Tree)
    requires e.svc.SchemasCoherent() && e.svc.CamelIdempotent() && e.svc.TypesCoherent() && NothingUndefined(json)
    requires json.Obj? && ReadFrom(e, g, server, json, headerEtag)
    requires TreeReturns(e.svc, client, e.api)
    ensures var remote := e.remoteState.value; var sent := SerializeTree(e.svc, Changes(client, remote), e.api);
            && sent.Ok?
            && DeserializeTree(e.svc, Obj(json.fields + sent.value.fields), e.api)
               == Ok(Patched(server, client, remote))
            && (KeepsCustomFields(e, server) ==> remote == Snapshot(server))
            && (KeepsCustomFields(e, server) ==>
                  (Matches(Patched(server, client, remote), client) <==> EverythingPasses(server, client)))
  {
    var remote := e.remoteState.value;
    var truthy, entries := TruthyMembers(server, MembersOfVersion(e.versionIdentifier)), EntriesOf(e.CurrentState(g));
    PatchedPayload(e.svc, json, e.api, server, client, remote);
    CurrentStateOfTree(g, e, server);
    ReadNamesAreSettled(e.svc, json, e.api, server);
    if KeepsCustomFields(e, server) {
      RemoteIsSnapshot(e.svc, server, truthy, entries);
      PatchedMatchesClient(server, client);
    }
  }

  /** With or without a remote state, the updated properties of the entity are those that are sent of the tree. */
  lemma UpdatedNamesAgree(g: Graph<Entity>, e: Entity, t: Tree)
    requires Mirrors(g) && Represents(g, e, t)
    ensures forall k :: e.IsUpdated(Snapshot(t), k) <==> k in ChangesSince(t, e.remoteState).props
  {
    forall k | k in t.props ensures Snapshot(t)[k] == SnapshotProp(t.props[k]) {}
  }
}
