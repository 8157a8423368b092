/** The entity class: its mutable state, the operations that change it, and the walk over an entity graph. */
module Entities {
  import opened Sequences
  import opened Values
  import opened Equality
  import opened Schema
  import opened ComplexTypes
  import opened EntityTrees
  import opened EntityDiff
  import opened EntityGraph
  import opened EntityShown

  /** Members that every entity has besides its properties and that are always truthy. */
  function BaseMembers(): set<string> {
    {
      "_customFields", "_entityApi", "_oDataVersion",
      "getCustomFields", "getCustomField", "setCustomField", "hasCustomField", "setCustomFields",
      "setVersionIdentifier", "setOrInitializeRemoteState", "getUpdatedCustomFields", "getUpdatedProperties",
      "getUpdatedPropertyNames", "toJSON", "isVisitedEntity", "getCurrentStateForKey", "isConflictingCustomField",
      "asObject", "constructor", "hasOwnProperty", "isPrototypeOf", "propertyIsEnumerable", "toLocaleString",
      "toString", "valueOf"
    }
  }

  function MembersOfVersion(version: Option<string>): set<string> {
    BaseMembers() + (if version.Some? then {"versionIdentifier", "_versionIdentifier"} else {})
  }

  /** The list of visited entities that all calls of one walk share. */
  class VisitedList {
    var entities: seq<Entity>

    constructor ()
      ensures entities == []
    {
      entities := [];
    }

    method Push(e: Entity)
      modifies this
      ensures entities == old(entities) + [e]
    {
      entities := entities + [e];
    }
  }

  class Entity {
    const svc: Service
    const api: string
    var keys: seq<string>
    var props: map<string, Prop<Entity>>
    var customKeys: seq<string>
    var customFields: map<string, Value>
    var remoteState: Option<map<string, Value>>
    var versionIdentifier: Option<string>

    /** Keys list the properties and custom fields once each; only navigation properties hold entities. */
    ghost predicate Valid()
      reads `keys, `props, `customKeys, `customFields
    {
      && NoDuplicates(keys) && (forall k :: k in keys <==> k in props)
      && NoDuplicates(customKeys) && (forall c :: c in customKeys <==> c in customFields)
      && forall k | k in props ::
           if svc.IsNavigationProperty(k, api) then props[k].Data? ==> IsNullish(props[k].v) else props[k].Data?
    }

    ghost function AsNode(): Node<Entity>
      reads `keys, `props, `customFields
    {
      Node(keys, props, customFields)
    }

    constructor (svc: Service, api: string)
      ensures Valid() && this.svc == svc && this.api == api
      ensures keys == [] && props == map[] && customKeys == [] && customFields == map[]
      ensures remoteState == None && versionIdentifier == None
    {
      this.svc, this.api := svc, api;
      keys, props, customKeys, customFields := [], map[], [], map[];
      remoteState, versionIdentifier := None, None;
    }

    /** Assigning to a property of the instance. */
    method SetProperty(key: string, p: Prop<Entity>)
      requires Valid()
      requires if svc.IsNavigationProperty(key, api) then p.Data? ==> IsNullish(p.v) else p.Data?
      modifies this`keys, this`props
      ensures Valid()
      ensures props == old(props)[key := p]
      ensures keys == if key in old(props) then old(keys) else old(keys) + [key]
    {
      if key !in props { keys := keys + [key]; }
      props := props[key := p];
    }

    predicate IsConflictingCustomField(name: string) {
      name in svc.FieldNames(api)
    }

    predicate HasCustomField(name: string)
      reads this
    {
      name in customFields && !customFields[name].Undefined?
    }

    method SetCustomField(name: string, value: Value) returns (r: Outcome<()>)
      requires Valid()
      modifies this`customKeys, this`customFields
      ensures Valid()
      ensures r.Ok? <==> forall s | s in svc.SchemaOf(api) :: svc.SchemaOf(api)[s].fieldName != name
      ensures customFields == if r.Ok? then old(customFields)[name := value] else old(customFields)
      ensures customKeys == if r.Ok? && name !in old(customFields) then old(customKeys) + [name] else old(customKeys)
    {
      if IsConflictingCustomField(name) { return Thrown; }
      if name !in customFields { customKeys := customKeys + [name]; }
      customFields := customFields[name := value];
      r := Ok(());
    }

    /** Sets the fields one after the other; a conflicting name stops it and leaves the earlier ones set. */
    method SetCustomFields(entries: seq<(string, Value)>) returns (r: Outcome<()>)
      requires Valid()
      modifies this`customKeys, this`customFields
      ensures Valid()
      ensures r.Ok? <==> forall i | 0 <= i < |entries| :: !IsConflictingCustomField(entries[i].0)
      ensures r.Ok? ==> customFields == Overwritten(old(customFields), entries)
      ensures r.Thrown? ==> exists i | 0 <= i < |entries| ::
                && IsConflictingCustomField(entries[i].0)
                && (forall j | 0 <= j < i :: !IsConflictingCustomField(entries[j].0))
                && customFields == Overwritten(old(customFields), entries[..i])
    {
      var i := 0;
      while i < |entries|
        invariant 0 <= i <= |entries| && Valid()
        invariant forall j | 0 <= j < i :: !IsConflictingCustomField(entries[j].0)
        invariant customFields == Overwritten(old(customFields), entries[..i])
      {
        var set_ := SetCustomField(entries[i].0, entries[i].1);
        if set_.Thrown? { return Thrown; }
        OverwrittenStep(old(customFields), entries, i);
        i := i + 1;
      }
      assert entries[..i] == entries;
      r := Ok(());
    }

    method SetVersionIdentifier(etag: Value)
      modifies this`versionIdentifier
      ensures versionIdentifier == if etag.Str? && etag.s != "" then Some(etag.s) else old(versionIdentifier)
    {
      if Truthy(etag) && etag.Str? {
        versionIdentifier := Some(etag.s);
      }
    }

    function InheritedMembers(): set<string>
      reads `versionIdentifier, `remoteState
    {
      MembersOfVersion(versionIdentifier) + (if remoteState.Some? then {"remoteState"} else {})
    }

    /** The names for which `this[name]` is truthy. */
    function TruthyNames(): set<string>
      reads `versionIdentifier, `remoteState, `props
    {
      (InheritedMembers() - props.Keys) + set k | k in props && (props[k].Data? ==> Truthy(props[k].v))
    }

    /** An own property counts by its value, links always do; any other name has to be a member of the class. */
    lemma TruthyNamesExactly(name: string)
      ensures name in props && props[name].Data? ==>
                (name in TruthyNames() <==> props[name].v !in {Undefined, Null, Bool(false), Num(0.0), Str("")})
      ensures name in props && !props[name].Data? ==> name in TruthyNames()
      ensures name !in props ==>
                (name in TruthyNames() <==>
                  || name in BaseMembers()
                  || (versionIdentifier.Some? && (name == "versionIdentifier" || name == "_versionIdentifier"))
                  || (remoteState.Some? && name == "remoteState"))
    {
    }

    /** `isVisitedEntity` on the value of a property. */
    method IsVisitedEntity(p: Prop<Entity>, visited: VisitedList) returns (r: bool)
      ensures r == IsVisited(p, visited.entities)
    {
      match p
      case Data(_) => r := false;
      case Ref(e) => r := e in visited.entities; assert Targets(p)[0] == e;
      case Refs(es) => r := exists t | t in es :: t in visited.entities;
    }

    method AsObject(visited: VisitedList, ghost g: Graph<Entity>, ghost path: set<Entity>) returns (r: Listing)
      requires Mirrors(g) && MayWalk(g, this, visited.entities, path)
      modifies visited
      ensures var (shot, after) := Walk(g, this, old(visited.entities), path);
              && r.obj == Erase(shot)
              && r.keys == ListedKeys(customKeys, shot.keys)
              && visited.entities == after
      ensures exists s :: IsShownBy(g, this, old(visited.entities), visited.entities, r.obj, s)
      decreases g.Keys - path, 0, 0
    {
      ghost var shot := Walk(g, this, visited.entities, path).0;
      WalkStarts(g, this, visited.entities, path);
      visited.Push(this);
      r := KeptState(visited, g, path + {this});
      OverlaidIsErased(shot, r.obj);
      WalkIsShown(g, this, old(visited.entities), path, visited.entities, r.obj);
    }

    /** The keys that are kept, over the custom fields. */
    method KeptState(visited: VisitedList, ghost g: Graph<Entity>, ghost path: set<Entity>) returns (r: Listing)
      requires Mirrors(g) && this in g
      requires MayWalkKeys(g, this, Kept(g[this].keys, g[this].props, visited.entities), visited.entities, path)
      modifies visited
      ensures var kept := Kept(g[this].keys, g[this].props, old(visited.entities));
              var (cells, after) := WalkKeys(g, this, kept, old(visited.entities), path);
              && Overlaid(customFields, cells, r.obj)
              && r.keys == ListedKeys(customKeys, kept)
              && visited.entities == after
      decreases g.Keys - path, 4, 0
    {
      var kept := KeysToKeep(visited, g);
      r := AddKeys(kept, Listing(customKeys, customFields), visited, g, path);
    }

    /** The own keys whose links, if they are links, lead to no visited entity. */
    method KeysToKeep(visited: VisitedList, ghost g: Graph<Entity>) returns (kept: seq<string>)
      requires Mirrors(g) && this in g
      ensures kept == Kept(g[this].keys, g[this].props, visited.entities) && NoDuplicates(kept)
    {
      kept := [];
      var i := 0;
      while i < |keys|
        invariant 0 <= i <= |keys|
        invariant Kept(keys, props, visited.entities) == kept + Kept(keys[i..], props, visited.entities)
      {
        var k := keys[i];
        var seen := IsVisitedEntity(props[k], visited);
        KeptStep(kept, keys, i, props, visited.entities);
        if !svc.IsNavigationProperty(k, api) || !seen {
          kept := kept + [k];
        }
        i := i + 1;
      }
    }

    /** Adds the current state of one key after the other to the object. */
    method AddKeys(ks: seq<string>, acc: Listing, visited: VisitedList, ghost g: Graph<Entity>, ghost path: set<Entity>)
      returns (r: Listing)
      requires Mirrors(g) && MayWalkKeys(g, this, ks, visited.entities, path) && NoDuplicates(ks)
      modifies visited
      ensures var (cells, after) := WalkKeys(g, this, ks, old(visited.entities), path);
              && Overlaid(acc.obj, cells, r.obj)
              && r.keys == ListedKeys(acc.keys, ks)
              && visited.entities == after
      decreases g.Keys - path, 3, |ks|
    {
      if ks == [] { return acc; }
      ghost var (cell, between) := WalkProp(g, g[this].props[ks[0]], visited.entities, path);
      var v := GetCurrentStateForKey(ks[0], visited, g, path);
      var added := Listing(if ks[0] in acc.keys then acc.keys else acc.keys + [ks[0]], acc.obj[ks[0] := v]);
      r := AddKeys(ks[1..], added, visited, g, path);
      OverlaidStep(acc.obj, ks[0], cell, WalkKeys(g, this, ks[1..], between, path).0, r.obj);
    }

    method GetCurrentStateForKey(k: string, visited: VisitedList, ghost g: Graph<Entity>, ghost path: set<Entity>)
      returns (v: Value)
      requires Mirrors(g) && this in g && k in g[this].props &&
               MayWalkList(g, Targets(g[this].props[k]), visited.entities, path)
      modifies visited
      ensures var (cell, after) := WalkProp(g, g[this].props[k], old(visited.entities), path);
              v == EraseCell(cell) && visited.entities == after
      ensures exists cell :: IsCellOf(g, g[this].props[k], old(visited.entities), visited.entities, v, cell)
      decreases g.Keys - path, 2, 0
    {
      if svc.IsNavigationProperty(k, api) {
        match props[k] {
          case Data(nullish) => v := nullish;
          case Ref(c) =>
            assert c in Targets(g[this].props[k]);
            var r := c.AsObject(visited, g, path);
            v := Obj(r.obj);
          case Refs(cs) =>
            var objs := LinkedObjects(cs, visited, g, path);
            ErasedToArray(WalkList(g, cs, old(visited.entities), path).0, objs);
            v := Arr(objs);
        }
      } else {
        v := props[k].v;
      }
      ghost var cell := WalkProp(g, g[this].props[k], old(visited.entities), path).0;
      WalkPropIsShown(g, g[this].props[k], old(visited.entities), path);
      assert IsCellOf(g, g[this].props[k], old(visited.entities), visited.entities, v, cell);
    }

    method LinkedObjects(cs: seq<Entity>, visited: VisitedList, ghost g: Graph<Entity>, ghost path: set<Entity>)
      returns (objs: seq<Value>)
      requires Mirrors(g) && MayWalkList(g, cs, visited.entities, path)
      modifies visited
      ensures var (shots, after) := WalkList(g, cs, old(visited.entities), path);
              ErasedTo(shots, objs) && visited.entities == after
      decreases g.Keys - path, 1, |cs|
    {
      if cs == [] { return []; }
      ghost var (shot, between) := Walk(g, cs[0], visited.entities, path);
      WalkListStarts(g, cs, visited.entities, path);
      var r := cs[0].AsObject(visited, g, path);
      var rest := LinkedObjects(cs[1..], visited, g, path);
      ErasedToStep(shot, WalkList(g, cs[1..], between, path).0, rest);
      objs := [Obj(r.obj)] + rest;
    }

    /** What a walk that starts here gives. */
    ghost function CurrentState(g: Graph<Entity>): (l: Listing)
      requires WellFormed(g) && this in g
      reads `customKeys
    {
      var shot := Walk(g, this, [], {}).0;
      Listing(ListedKeys(customKeys, shot.keys), Erase(shot))
    }

    method AsObjectFromHere(ghost g: Graph<Entity>) returns (r: Listing)
      requires Mirrors(g) && this in g
      ensures r == CurrentState(g)
      ensures forall k | k in r.obj :: k in r.keys
    {
      var visited := new VisitedList();
      r := AsObject(visited, g, {});
      ListedKeysCover(customKeys, Walk(g, this, [], {}).0.keys);
    }

    /** The entries under their names in the remote state. */
    method RenameEntries(entries: seq<(string, Value)>) returns (remote: map<string, Value>)
      ensures remote == RemoteState(svc, TruthyNames(), entries)
    {
      remote := map[];
      var i := 0;
      while i < |entries|
        invariant 0 <= i <= |entries|
        invariant remote == RemoteState(svc, TruthyNames(), entries[..i])
      {
        var name := if svc.camel(entries[i].0) in TruthyNames() then svc.camel(entries[i].0) else entries[i].0;
        remote := remote[name := entries[i].1];
        assert entries[..i + 1][..i] == entries[..i];
        i := i + 1;
      }
      assert entries[..i] == entries;
    }

    /** Takes the given entries, or else the current state, as the last state known to the service. */
    method SetOrInitializeRemoteState(state: Option<seq<(string, Value)>>, ghost g: Graph<Entity>)
      requires Mirrors(g) && this in g
      modifies this`remoteState
      ensures var entries := if state.Some? then state.value else EntriesOf(CurrentState(g));
              remoteState == Some(RemoteState(svc, old(TruthyNames()), entries))
    {
      var entries := [];
      if state.Some? {
        entries := state.value;
      } else {
        var r := AsObjectFromHere(g);
        entries := EntriesOf(r);
      }
      var remote := RenameEntries(entries);
      remoteState := Some(remote);
    }

    /** Own property, not hidden by a custom field, and different from the remote state if there is one. */
    predicate IsUpdated(obj: map<string, Value>, k: string)
      reads this
    {
      && k in obj && k in props && !HasCustomField(k)
      && (remoteState.Some? ==> !Equal(Member(Obj(remoteState.value), k), obj[k]))
    }

    ghost predicate ListsUpdated(names: seq<string>, among: seq<string>, obj: map<string, Value>)
      reads this
    {
      (forall k :: k in names <==> k in among && IsUpdated(obj, k)) && InOrder(names, among)
    }

    lemma UpdatedStep(names: seq<string>, r: Listing, i: nat)
      requires i < |r.keys| && ListsUpdated(names, r.keys[..i], r.obj)
      ensures ListsUpdated(if IsUpdated(r.obj, r.keys[i]) then names + [r.keys[i]] else names, r.keys[..i + 1], r.obj)
    {
      assert r.keys[..i + 1] == r.keys[..i] + [r.keys[i]];
      OneMoreInOrder(names, r.keys, i);
    }

    lemma UpdatedAre(names: seq<string>, r: Listing)
      requires ListsUpdated(names, r.keys, r.obj) && forall k | k in r.obj :: k in r.keys
      ensures forall k :: k in names <==>
                && k in r.obj && k in props && !(k in customFields && customFields[k] != Undefined)
                && (remoteState.Some? ==>
                      !Equal(if k in remoteState.value then remoteState.value[k] else Undefined, r.obj[k]))
    {
    }

    method UpdatedIn(r: Listing) returns (names: seq<string>)
      ensures ListsUpdated(names, r.keys, r.obj)
    {
      names := [];
      var i := 0;
      while i < |r.keys|
        invariant 0 <= i <= |r.keys|
        invariant ListsUpdated(names, r.keys[..i], r.obj)
      {
        UpdatedStep(names, r, i);
        if IsUpdated(r.obj, r.keys[i]) { names := names + [r.keys[i]]; }
        i := i + 1;
      }
      assert r.keys[..i] == r.keys;
    }

    /** Without a remote state these are all own properties that no custom field hides. */
    method GetUpdatedPropertyNames(ghost g: Graph<Entity>) returns (names: seq<string>)
      requires Mirrors(g) && this in g
      ensures forall k :: k in names <==>
                && k in CurrentState(g).obj && k in props && !(k in customFields && customFields[k] != Undefined)
                && (remoteState.Some? ==>
                      var known := if k in remoteState.value then remoteState.value[k] else Undefined;
                      !Equal(known, CurrentState(g).obj[k]))
      ensures InOrder(names, CurrentState(g).keys)
    {
      var r := AsObjectFromHere(g);
      names := UpdatedIn(r);
      UpdatedAre(names, r);
    }

    method GetUpdatedProperties(ghost g: Graph<Entity>) returns (patch: map<string, Value>)
      requires Mirrors(g) && this in g
      ensures forall k :: k in patch <==>
                && k in CurrentState(g).obj && k in props && !(k in customFields && customFields[k] != Undefined)
                && (remoteState.Some? ==>
                      var known := if k in remoteState.value then remoteState.value[k] else Undefined;
                      !Equal(known, CurrentState(g).obj[k]))
      ensures forall k | k in patch :: k in CurrentState(g).obj && patch[k] == CurrentState(g).obj[k]
    {
      var current := AsObjectFromHere(g);
      var names := GetUpdatedPropertyNames(g);
      patch := map k | k in names :: current.obj[k];
    }

    /** Custom fields among the given ones that differ from those of the remote state. */
    static function ChangedFields(remote: map<string, Value>, fields: map<string, Value>, among: seq<string>)
      : map<string, Value>
    {
      map c | c in fields && c in among && Member(Obj(remote), c) != fields[c] :: fields[c]
    }

    static lemma ChangedMore(remote: map<string, Value>, fields: map<string, Value>, among: seq<string>, i: nat)
      requires i < |among| && among[i] in fields
      ensures var c := among[i];
              ChangedFields(remote, fields, among[..i + 1])
              == if Member(Obj(remote), c) == fields[c] then ChangedFields(remote, fields, among[..i])
                 else ChangedFields(remote, fields, among[..i])[c := fields[c]]
    {
      assert among[..i + 1] == among[..i] + [among[i]];
    }

    method GetUpdatedCustomFields() returns (fields: map<string, Value>)
      requires Valid()
      ensures remoteState == None ==> fields == customFields
      ensures remoteState.Some? ==>
                var known := remoteState.value;
                fields == map c | c in customFields && customFields[c] != (if c in known then known[c] else Undefined)
                            :: customFields[c]
    {
      if remoteState.None? { return customFields; }
      fields := map[];
      var i := 0;
      while i < |customKeys|
        invariant 0 <= i <= |customKeys|
        invariant fields == ChangedFields(remoteState.value, customFields, customKeys[..i])
      {
        var c := customKeys[i];
        ChangedMore(remoteState.value, customFields, customKeys, i);
        if Member(Obj(remoteState.value), c) != customFields[c] {
          fields := fields[c := customFields[c]];
        }
        i := i + 1;
      }
    }
  }

  /**
   The patch is correct and minimal, whatever was written to the entity since its remote state was set: with the patch
   over it, the remote state agrees with the current state on every property that no custom field hides, so nothing is
   left to send; and every property in the patch did differ.
   */
  lemma PatchIsCorrectAndMinimal(e: Entity, obj: map<string, Value>, patch: map<string, Value>)
    requires e.remoteState.Some?
    requires forall k :: k in patch <==> e.IsUpdated(obj, k)
    requires forall k | k in patch :: k in obj && patch[k] == obj[k]
    ensures forall k | k in obj && k in e.props && !e.HasCustomField(k) ::
              Equal(Member(Obj(e.remoteState.value + patch), k), obj[k])
    ensures forall k | k in patch ::
              !Equal(Member(Obj(e.remoteState.value), k), Member(Obj(e.remoteState.value + patch), k))
  {
    forall k | k in patch ensures Equal(patch[k], obj[k]) { Reflexive(patch[k]); }
  }

  function Overwritten(m: map<string, Value>, entries: seq<(string, Value)>): map<string, Value> {
    if entries == [] then m
    else
      var last := |entries| - 1;
      Overwritten(m, entries[..last])[entries[last].0 := entries[last].1]
  }

  lemma OverwrittenStep(m: map<string, Value>, entries: seq<(string, Value)>, i: nat)
    requires i < |entries|
    ensures Overwritten(m, entries[..i + 1]) == Overwritten(m, entries[..i])[entries[i].0 := entries[i].1]
  {
    assert entries[..i + 1][..i] == entries[..i];
  }

  /** The graph shows the entities in their current state, all of them valid. */
  ghost predicate Mirrors(g: Graph<Entity>)
    reads g.Keys`keys, g.Keys`props, g.Keys`customKeys, g.Keys`customFields
  {
    WellFormed(g) && forall e | e in g :: e.Valid() && g[e] == e.AsNode()
  }

  /** What `asObject` gives: the object, and its keys in order. */
  datatype Listing = Listing(keys: seq<string>, obj: map<string, Value>)

  /** The keys of an object that has some keys already and gets more. */
  function ListedKeys(listed: seq<string>, ks: seq<string>): seq<string>
    decreases ks
  {
    if ks == [] then listed
    else ListedKeys(if ks[0] in listed then listed else listed + [ks[0]], ks[1..])
  }

  /** New keys come after the listed ones, in their order; keys that are listed stay where they are. */
  lemma {:induction false} ListedKeysExactly(listed: seq<string>, ks: seq<string>)
    requires NoDuplicates(ks)
    ensures var r := ListedKeys(listed, ks);
            && listed <= r && InOrder(r[|listed|..], ks)
            && forall k :: k in r[|listed|..] <==> k in ks && k !in listed
    decreases ks
  {
    if ks != [] {
      var more := if ks[0] in listed then [] else [ks[0]];
      ListedKeysExactly(listed + more, ks[1..]);
      var rest := ListedKeys(listed + more, ks[1..])[|listed + more|..];
      assert listed + [] == listed;
      assert ListedKeys(listed, ks)[|listed|..] == more + rest;
      if more == [] {
        assert more + rest == rest;
        SkipOne(rest, ks);
      } else {
        assert (more + rest)[1..] == rest;
      }
      forall k ensures k in more + rest <==> k in ks && k !in listed { OneOf(ks, k); }
    }
  }

  lemma OneOf(ks: seq<string>, k: string)
    requires ks != [] && NoDuplicates(ks)
    ensures k in ks <==> k == ks[0] || k in ks[1..]
    ensures ks[0] !in ks[1..]
  {
    assert ks == [ks[0]] + ks[1..];
  }

  lemma KeptStep<E>(kept: seq<string>, ks: seq<string>, i: nat, props: map<string, Prop<E>>, visited: seq<E>)
    requires i < |ks| && forall k | k in ks :: k in props
    ensures kept + Kept(ks[i..], props, visited) ==
            (if IsVisited(props[ks[i]], visited) then kept else kept + [ks[i]]) + Kept(ks[i + 1..], props, visited)
  {
    assert ks[i..][1..] == ks[i + 1..];
    Assoc(kept, if IsVisited(props[ks[i]], visited) then [] else [ks[i]], Kept(ks[i + 1..], props, visited));
  }

  function EntriesOf(l: Listing): seq<(string, Value)> {
    seq(|l.keys|, i requires 0 <= i < |l.keys| => (l.keys[i], Member(Obj(l.obj), l.keys[i])))
  }

  lemma {:induction false} ListedKeysCover(listed: seq<string>, ks: seq<string>)
    ensures forall k :: k in ListedKeys(listed, ks) <==> k in listed || k in ks
    decreases ks
  {
    if ks != [] {
      ListedKeysCover(if ks[0] in listed then listed else listed + [ks[0]], ks[1..]);
    }
  }
}
