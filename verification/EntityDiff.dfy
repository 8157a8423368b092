/** The remote state of an entity, what counts as changed against it, and what sending the changes achieves. */
module EntityDiff {
  import opened Values
  import opened Equality
  import opened Schema
  import opened ComplexTypes
  import opened EntityTrees
  import opened EntityRoundTrip

  function SnapshotProp(p: TreeProp): Value
    decreases p
  {
    match p
    case Plain(v) => v
    case One(t) => Obj(Snapshot(t))
    case Many(ts) => Arr(seq(|ts|, i requires 0 <= i < |ts| => Obj(Snapshot(ts[i]))))
  }

  /** The entity as a plain object: its custom fields, overridden by its properties. */
  function Snapshot(t: Tree): (m: map<string, Value>)
    ensures m.Keys == t.custom.Keys + t.props.Keys
    decreases t
  {
    t.custom + map k | k in t.props :: SnapshotProp(t.props[k])
  }

  /** The names that `this[name]` is truthy for: inherited members unless shadowed, and truthy properties. */
  function TruthyMembers(t: Tree, inherited: set<string>): set<string> {
    (inherited - t.props.Keys) + set k | k in t.props && (t.props[k].Plain? ==> Truthy(t.props[k].v))
  }

  function Renamed(svc: Service, truthy: set<string>, name: string): string {
    if svc.camel(name) in truthy then svc.camel(name) else name
  }

  /** The remote state that a list of entries gives: each under its renamed key, later ones on top. */
  function RemoteState(svc: Service, truthy: set<string>, entries: seq<(string, Value)>): map<string, Value> {
    if entries == [] then map[]
    else
      var last := entries[|entries| - 1];
      RemoteState(svc, truthy, entries[..|entries| - 1])[Renamed(svc, truthy, last.0) := last.1]
  }

  /** The entries of a snapshot in an order an entity lists them: no property goes before a custom field. */
  ghost predicate Lists(entries: seq<(string, Value)>, t: Tree) {
    && (forall i | 0 <= i < |entries| :: entries[i].0 in Snapshot(t) && entries[i].1 == Snapshot(t)[entries[i].0])
    && (forall k | k in Snapshot(t) :: exists i | 0 <= i < |entries| :: entries[i].0 == k)
    && (forall i, j | 0 <= i < j < |entries| :: entries[i].0 != entries[j].0)
    && (forall i, j | 0 <= i < j < |entries| && entries[j].0 in t.custom :: entries[i].0 in t.custom)
  }

  /** Property names that differ from the remote state; a custom field of that name hides the property. */
  function UpdatedNames(t: Tree, remote: map<string, Value>): set<string> {
    set k | k in t.props && !(k in t.custom && !t.custom[k].Undefined?)
            && !Equal(Member(Obj(remote), k), SnapshotProp(t.props[k]))
  }

  function UpdatedCustomFields(t: Tree, remote: map<string, Value>): map<string, Value> {
    map c | c in t.custom && Member(Obj(remote), c) != t.custom[c] :: t.custom[c]
  }

  /** The part of the entity that a request with changes only sends. */
  function Changes(t: Tree, remote: map<string, Value>): Tree {
    Tree(map k | k in UpdatedNames(t, remote) :: t.props[k], UpdatedCustomFields(t, remote))
  }

  /** And the part that it sends of an entity with or without a remote state: without one, all that is not hidden. */
  function ChangesSince(t: Tree, remote: Option<map<string, Value>>): Tree {
    if remote.Some? then Changes(t, remote.value)
    else Tree(map k | k in t.props && !(k in t.custom && !t.custom[k].Undefined?) :: t.props[k], t.custom)
  }

  /** So an entity that was never read is sent as a whole exactly if no custom field hides one of its properties. */
  lemma NewEntityIsSentWhole(svc: Service, t: Tree, api: string)
    ensures ChangesSince(t, None) == t <==> forall k | k in t.props && k in t.custom :: t.custom[k] == Undefined
    ensures (forall k | k in t.props && k in t.custom :: t.custom[k] == Undefined) ==>
              SerializeTree(svc, ChangesSince(t, None), api) == SerializeTree(svc, t, api)
  {
    var d := ChangesSince(t, None);
    assert d.custom == t.custom;
    if forall k | k in t.props && k in t.custom :: t.custom[k] == Undefined {
      assert d.props == t.props;
    } else {
      var k :| k in t.props && k in t.custom && t.custom[k] != Undefined;
      assert k !in d.props;
    }
  }

  lemma {:induction false} LastEntryWins(svc: Service, truthy: set<string>, entries: seq<(string, Value)>, i: nat)
    requires i < |entries|
    requires forall j | i < j < |entries| :: Renamed(svc, truthy, entries[j].0) != Renamed(svc, truthy, entries[i].0)
    ensures var key, remote := Renamed(svc, truthy, entries[i].0), RemoteState(svc, truthy, entries);
            key in remote && remote[key] == entries[i].1
  {
    var last := |entries| - 1;
    if i < last {
      LastEntryWins(svc, truthy, entries[..last], i);
    }
  }

  lemma {:induction false} RemoteKeys(svc: Service, truthy: set<string>, entries: seq<(string, Value)>, key: string)
    ensures key in RemoteState(svc, truthy, entries) <==>
            exists i | 0 <= i < |entries| :: Renamed(svc, truthy, entries[i].0) == key
  {
    if entries != [] {
      var last := |entries| - 1;
      RemoteKeys(svc, truthy, entries[..last], key);
      if exists i | 0 <= i < |entries| :: Renamed(svc, truthy, entries[i].0) == key {
        var i :| 0 <= i < |entries| && Renamed(svc, truthy, entries[i].0) == key;
        assert i < last ==> entries[..last][i] == entries[i];
      }
    }
  }

  /** Camel-casing settles on the names in the entity: property names are in camel case already. */
  predicate CamelSettled(svc: Service, t: Tree) {
    && (forall k | k in t.props :: svc.camel(k) == k)
    && (forall c | c in t.custom :: svc.camel(svc.camel(c)) == svc.camel(c))
  }

  /** A custom field keeps its name in the remote state and is not hidden there by a property. */
  predicate KeepsCustomField(svc: Service, t: Tree, truthy: set<string>, c: string)
    requires c in t.custom
  {
    && (svc.camel(c) == c || svc.camel(c) !in truthy)
    && (c in t.props ==> SnapshotProp(t.props[c]) == t.custom[c])
  }

  /** An entity whose remote state is its own snapshot, as after reading it, has no updated property. */
  lemma FreshEntityHasNoUpdatedProperty(svc: Service, t: Tree, truthy: set<string>, entries: seq<(string, Value)>)
    requires Lists(entries, t) && CamelSettled(svc, t)
    requires forall c | c in t.custom :: !t.custom[c].Undefined?
    ensures UpdatedNames(t, RemoteState(svc, truthy, entries)) == {}
  {
    var remote := RemoteState(svc, truthy, entries);
    forall k | k in t.props && k !in t.custom ensures Equal(Member(Obj(remote), k), SnapshotProp(t.props[k])) {
      PropertyInRemote(svc, t, truthy, entries, k);
      Reflexive(SnapshotProp(t.props[k]));
    }
  }

  /** And it has no updated custom field exactly if each of them keeps its name and its value. */
  lemma FreshEntityHasNoUpdatedCustomFieldExactly(svc: Service, t: Tree, truthy: set<string>,
                                                  entries: seq<(string, Value)>)
    requires Lists(entries, t) && CamelSettled(svc, t)
    requires forall c | c in t.custom :: !t.custom[c].Undefined?
    ensures UpdatedCustomFields(t, RemoteState(svc, truthy, entries)) == map[] <==>
            forall c | c in t.custom :: KeepsCustomField(svc, t, truthy, c)
  {
    if forall c | c in t.custom :: KeepsCustomField(svc, t, truthy, c) {
      RemoteIsSnapshot(svc, t, truthy, entries);
      NoneUpdated(svc, t, truthy);
    } else {
      var c :| c in t.custom && !KeepsCustomField(svc, t, truthy, c);
      SomeUpdated(svc, t, truthy, entries, c);
    }
  }

  lemma NoneUpdated(svc: Service, t: Tree, truthy: set<string>)
    requires forall c | c in t.custom :: KeepsCustomField(svc, t, truthy, c)
    ensures UpdatedCustomFields(t, Snapshot(t)) == map[]
  {
    forall c | c in t.custom ensures Member(Obj(Snapshot(t)), c) == t.custom[c] {
      assert KeepsCustomField(svc, t, truthy, c);
    }
  }

  lemma SomeUpdated(svc: Service, t: Tree, truthy: set<string>, entries: seq<(string, Value)>, c: string)
    requires Lists(entries, t) && CamelSettled(svc, t)
    requires forall d | d in t.custom :: !t.custom[d].Undefined?
    requires c in t.custom && !KeepsCustomField(svc, t, truthy, c)
    ensures UpdatedCustomFields(t, RemoteState(svc, truthy, entries)) != map[]
  {
    var remote := RemoteState(svc, truthy, entries);
    CustomFieldLost(svc, t, truthy, entries, c);
    var d :| d in t.custom && Member(Obj(remote), d) != t.custom[d];
    assert d in UpdatedCustomFields(t, remote);
  }

  /** So right after reading, a request with changes only sends nothing exactly then. */
  lemma FreshDiffIsEmptyExactly(svc: Service, t: Tree, truthy: set<string>, entries: seq<(string, Value)>, api: string)
    requires Lists(entries, t) && CamelSettled(svc, t)
    requires forall c | c in t.custom :: !t.custom[c].Undefined?
    ensures SerializeTree(svc, Changes(t, RemoteState(svc, truthy, entries)), api) == Ok(Obj(map[])) <==>
            forall c | c in t.custom :: KeepsCustomField(svc, t, truthy, c)
  {
    var d := Changes(t, RemoteState(svc, truthy, entries));
    FreshEntityHasNoUpdatedProperty(svc, t, truthy, entries);
    FreshEntityHasNoUpdatedCustomFieldExactly(svc, t, truthy, entries);
    assert d.props == map[];
    OnlyCustomFieldsSent(svc, d, api);
  }

  lemma OnlyCustomFieldsSent(svc: Service, d: Tree, api: string)
    requires d.props == map[]
    ensures SerializeTree(svc, d, api) == Ok(Obj(d.custom))
  {
    assert SentFields(svc, d, api) + d.custom == d.custom;
  }

  lemma PropertyInRemote(svc: Service, t: Tree, truthy: set<string>, entries: seq<(string, Value)>, k: string)
    requires Lists(entries, t) && CamelSettled(svc, t)
    requires k in t.props && k !in t.custom
    ensures var remote := RemoteState(svc, truthy, entries);
            k in remote && remote[k] == SnapshotProp(t.props[k])
  {
    assert k in Snapshot(t);
    var i :| 0 <= i < |entries| && entries[i].0 == k;
    forall j | i < j < |entries| ensures Renamed(svc, truthy, entries[j].0) != k {
      assert entries[j].0 !in t.custom;
    }
    LastEntryWins(svc, truthy, entries, i);
  }

  /** If every custom field keeps its name, the remote state is the snapshot itself. */
  lemma RemoteIsSnapshot(svc: Service, t: Tree, truthy: set<string>, entries: seq<(string, Value)>)
    requires Lists(entries, t) && CamelSettled(svc, t)
    requires forall c | c in t.custom :: svc.camel(c) == c || svc.camel(c) !in truthy
    ensures RemoteState(svc, truthy, entries) == Snapshot(t)
  {
    var all := Snapshot(t);
    forall i | 0 <= i < |entries| ensures Renamed(svc, truthy, entries[i].0) == entries[i].0 {
      assert entries[i].0 in all;
    }
    UnrenamedEntries(svc, truthy, entries, all);
  }

  lemma UnrenamedEntries(svc: Service, truthy: set<string>, entries: seq<(string, Value)>, all: map<string, Value>)
    requires forall i | 0 <= i < |entries| :: Renamed(svc, truthy, entries[i].0) == entries[i].0
    requires forall i | 0 <= i < |entries| :: entries[i].0 in all && entries[i].1 == all[entries[i].0]
    requires forall i, j | 0 <= i < j < |entries| :: entries[i].0 != entries[j].0
    requires forall k | k in all :: exists i | 0 <= i < |entries| :: entries[i].0 == k
    ensures RemoteState(svc, truthy, entries) == all
  {
    var remote := RemoteState(svc, truthy, entries);
    forall k | k in all ensures k in remote && remote[k] == all[k] {
      var i :| 0 <= i < |entries| && entries[i].0 == k;
      LastEntryWins(svc, truthy, entries, i);
    }
    forall k | k in remote ensures k in all {
      RemoteKeys(svc, truthy, entries, k);
    }
  }

  lemma CustomFieldLost(svc: Service, t: Tree, truthy: set<string>, entries: seq<(string, Value)>, c: string)
    requires Lists(entries, t) && CamelSettled(svc, t)
    requires forall d | d in t.custom :: !t.custom[d].Undefined?
    requires c in t.custom && !KeepsCustomField(svc, t, truthy, c)
    ensures exists d | d in t.custom :: Member(Obj(RemoteState(svc, truthy, entries)), d) != t.custom[d]
  {
    var remote := RemoteState(svc, truthy, entries);
    if d :| d in t.custom && svc.camel(d) != d && svc.camel(d) in truthy {
      forall i | 0 <= i < |entries| ensures Renamed(svc, truthy, entries[i].0) != d {
        assert entries[i].0 in t.props || entries[i].0 in t.custom;
      }
      RemoteKeys(svc, truthy, entries, d);
      assert Member(Obj(remote), d) != t.custom[d];
    } else {
      RemoteIsSnapshot(svc, t, truthy, entries);
      assert Member(Obj(remote), c) != t.custom[c];
    }
  }

  // ---- Sending the changes ----

  /** Reading a payload laid over another one gives the entity laid over the other one. */
  lemma OverlaidPayload(svc: Service, below: Value, above: Value, api: string, t: Tree, d: Tree)
    requires svc.SchemasCoherent() && below.Obj? && above.Obj?
    requires DeserializeTree(svc, below, api) == Ok(t) && DeserializeTree(svc, above, api) == Ok(d)
    ensures DeserializeTree(svc, Obj(below.fields + above.fields), api) ==
            Ok(Tree(t.props + d.props, t.custom + d.custom))
  {
    var json, r := Obj(below.fields + above.fields), Tree(t.props + d.props, t.custom + d.custom);
    DeserializedFromParts(svc, below, api, t);
    DeserializedFromParts(svc, above, api, d);
    OverlaidSelection(svc, below, above, api);
    forall k | k in SelectedProps(svc, json, api)
      ensures k in r.props && PropFrom(svc, json, api, k) == Ok(r.props[k])
    {
      OverlaidProp(svc, below, above, api, k);
    }
    DeserializedFromParts(svc, json, api, r);
  }

  lemma OverlaidSelection(svc: Service, below: Value, above: Value, api: string)
    requires svc.SchemasCoherent() && below.Obj? && above.Obj?
    ensures var json := Obj(below.fields + above.fields);
            && SelectedProps(svc, json, api) == SelectedProps(svc, below, api) + SelectedProps(svc, above, api)
            && CustomFieldsOf(svc, json, api) == CustomFieldsOf(svc, below, api) + CustomFieldsOf(svc, above, api)
  {
    var json := Obj(below.fields + above.fields);
    assert SelectedFields(svc, json, api) == SelectedFields(svc, below, api) + SelectedFields(svc, above, api);
  }

  lemma OverlaidProp(svc: Service, below: Value, above: Value, api: string, k: string)
    requires svc.SchemasCoherent() && below.Obj? && above.Obj?
    requires k in SelectedProps(svc, Obj(below.fields + above.fields), api)
    ensures var json := Obj(below.fields + above.fields);
            if k in SelectedProps(svc, above, api) then PropFrom(svc, json, api, k) == PropFrom(svc, above, api, k)
            else k in SelectedProps(svc, below, api) && PropFrom(svc, json, api, k) == PropFrom(svc, below, api, k)
  {
    OverlaidSelection(svc, below, above, api);
    if svc.SchemaOf(api)[svc.snake(k)].fieldName in above.fields {
      assert svc.snake(k) in SelectedFields(svc, above, api);
    }
  }

  /** What the client changed returns, if the client's entity does. */
  lemma ChangesReturn(svc: Service, t: Tree, remote: map<string, Value>, api: string)
    requires TreeReturns(svc, t, api)
    ensures TreeReturns(svc, Changes(t, remote), api)
  {
    var d := Changes(t, remote);
    forall k | k in d.props ensures k in t.props && d.props[k] == t.props[k] {}
    assert TreeReturns(svc, d, api);
  }

  /** The entity that `server` is turned into by the changes of `client` against a remote state. */
  function Patched(server: Tree, client: Tree, remote: map<string, Value>): Tree {
    var d := Changes(client, remote);
    Tree(server.props + d.props, server.custom + d.custom)
  }

  /**
   The client read `server` from the payload `json` and turned it into `client`. Whatever the remote state is, patching
   the payload with the serialised changes gives a payload that is read as the patched entity.
   */
  lemma PatchedPayload(svc: Service, json: Value, api: string, server: Tree, client: Tree, remote: map<string, Value>)
    requires svc.SchemasCoherent() && svc.TypesCoherent() && json.Obj?
    requires DeserializeTree(svc, json, api) == Ok(server)
    requires TreeReturns(svc, client, api)
    ensures var d := Changes(client, remote);
            && SerializeTree(svc, d, api).Ok?
            && DeserializeTree(svc, Obj(json.fields + SerializeTree(svc, d, api).value.fields), api)
               == Ok(Patched(server, client, remote))
  {
    var d := Changes(client, remote);
    ChangesReturn(svc, client, remote, api);
    TreeRoundTrip(svc, d, api);
    OverlaidPayload(svc, json, SerializeTree(svc, d, api).value, api, server, d);
  }

  /** A custom field of the entity hides the property of that name. */
  predicate IsHidden(t: Tree, k: string) {
    k in t.custom && !t.custom[k].Undefined?
  }

  predicate HasProperty(t: Tree, k: string, p: TreeProp) {
    k in t.props && Equal(SnapshotProp(t.props[k]), SnapshotProp(p))
  }

  predicate HasCustomField(t: Tree, c: string, v: Value) {
    c in t.custom && t.custom[c] == v
  }

  /**
   Not hidden, and the server has no equal custom field in place of the property; or hidden, but the server has it.
   */
  predicate PropertyPasses(server: Tree, client: Tree, k: string)
    requires k in client.props
  {
    if IsHidden(client, k) then HasProperty(server, k, client.props[k])
    else k in server.props || !(k in server.custom && Equal(server.custom[k], SnapshotProp(client.props[k])))
  }

  /** The server has no property of that name and value instead. */
  predicate CustomFieldPasses(server: Tree, client: Tree, c: string)
    requires c in client.custom
  {
    c in server.props && SnapshotProp(server.props[c]) == client.custom[c] ==>
      HasCustomField(server, c, client.custom[c])
  }

  /** Which properties of the client get through a patch against the server's snapshot. */
  lemma PropertyGetsThroughExactly(server: Tree, client: Tree, k: string)
    requires k in client.props && !SnapshotProp(client.props[k]).Undefined?
    ensures HasProperty(Patched(server, client, Snapshot(server)), k, client.props[k]) <==>
            PropertyPasses(server, client, k)
  {
    Reflexive(SnapshotProp(client.props[k]));
  }

  /** And which custom fields. */
  lemma CustomFieldGetsThroughExactly(server: Tree, client: Tree, c: string)
    requires c in client.custom && !client.custom[c].Undefined?
    ensures HasCustomField(Patched(server, client, Snapshot(server)), c, client.custom[c]) <==>
            CustomFieldPasses(server, client, c)
  {
  }

  /** Of everything else the patched entity has what was there before, and every property in the patch did differ. */
  lemma PatchIsMinimal(server: Tree, client: Tree)
    ensures var after, d := Patched(server, client, Snapshot(server)), Changes(client, Snapshot(server));
            && (forall k | k !in client.props ::
                  (k in after.props <==> k in server.props) && (k in after.props ==> after.props[k] == server.props[k]))
            && (forall c | c !in client.custom ::
                  && (c in after.custom <==> c in server.custom)
                  && (c in after.custom ==> after.custom[c] == server.custom[c]))
            && (forall k | k in d.props && k in server.props :: !HasProperty(server, k, client.props[k]))
  {
  }

  /** The entity has all properties of the other one, up to `equal`, and all its custom fields. */
  predicate Matches(after: Tree, client: Tree) {
    && (forall k | k in client.props && !SnapshotProp(client.props[k]).Undefined? ::
          HasProperty(after, k, client.props[k]))
    && (forall c | c in client.custom && !client.custom[c].Undefined? :: HasCustomField(after, c, client.custom[c]))
  }

  predicate EverythingPasses(server: Tree, client: Tree) {
    && (forall k | k in client.props && !SnapshotProp(client.props[k]).Undefined? :: PropertyPasses(server, client, k))
    && (forall c | c in client.custom && !client.custom[c].Undefined? :: CustomFieldPasses(server, client, c))
  }

  /**
   The patched entity matches the client exactly if no name is a property here and an equal custom field there, and
   no changed property is hidden; in particular if no custom field bears the name of a property.
   */
  lemma PatchedMatchesClient(server: Tree, client: Tree)
    ensures Matches(Patched(server, client, Snapshot(server)), client) <==> EverythingPasses(server, client)
    ensures server.custom.Keys + client.custom.Keys !! server.props.Keys + client.props.Keys ==>
              Matches(Patched(server, client, Snapshot(server)), client)
  {
    forall k | k in client.props && !SnapshotProp(client.props[k]).Undefined?
      ensures HasProperty(Patched(server, client, Snapshot(server)), k, client.props[k]) <==>
              PropertyPasses(server, client, k)
    {
      PropertyGetsThroughExactly(server, client, k);
    }
    forall c | c in client.custom && !client.custom[c].Undefined?
      ensures HasCustomField(Patched(server, client, Snapshot(server)), c, client.custom[c]) <==>
              CustomFieldPasses(server, client, c)
    {
      CustomFieldGetsThroughExactly(server, client, c);
    }
    NamesApartPass(server, client);
  }

  lemma NamesApartPass(server: Tree, client: Tree)
    ensures server.custom.Keys + client.custom.Keys !! server.props.Keys + client.props.Keys ==>
              EverythingPasses(server, client)
  {
    if server.custom.Keys + client.custom.Keys !! server.props.Keys + client.props.Keys {
      forall k | k in client.props ensures k !in server.custom && k !in client.custom {
        assert k in server.props.Keys + client.props.Keys;
      }
      forall c | c in client.custom ensures c !in server.props {
        assert c in server.custom.Keys + client.custom.Keys;
      }
    }
  }

  // ---- Entities read from a payload ----

  /** JSON has no undefined. */
  ghost predicate NothingUndefined(json: Value) {
    forall k | k in OwnFields(json) :: !OwnFields(json)[k].Undefined?
  }

  /** What is read from a payload has settled names and no undefined custom field. */
  lemma ReadNamesAreSettled(svc: Service, json: Value, api: string, t: Tree)
    requires svc.SchemasCoherent() && svc.CamelIdempotent() && NothingUndefined(json)
    requires !IsNullish(json) && DeserializeTree(svc, json, api) == Ok(t)
    ensures CamelSettled(svc, t) && forall c | c in t.custom :: !t.custom[c].Undefined?
  {
    DeserializedFromParts(svc, json, api, t);
    forall k | k in t.props ensures svc.camel(k) == k {
      var s :| s in SelectedFields(svc, json, api) && svc.PropName(svc.SchemaOf(api)[s]) == k;
    }
  }
}
