/** Conversion of complex type values and collections, and exactly when it loses nothing. */
module ComplexTypes {
  import opened Sequences
  import opened Values
  import opened Schema

  /** Merges one optional member per name, later ones over earlier ones; the first exception wins. */
  function Gather(names: seq<string>, cells: seq<Outcome<Option<Value>>>): Outcome<map<string, Value>>
    requires |names| == |cells|
  {
    if names == [] then Ok(map[])
    else
      var last := |names| - 1;
      var before :- Gather(names[..last], cells[..last]);
      var cell :- cells[last];
      Ok(if cell.Some? then before[names[last] := cell.value] else before)
  }

  lemma {:induction false} GatherCollects(names: seq<string>, cells: seq<Outcome<Option<Value>>>)
    requires |names| == |cells| && NoDuplicates(names)
    ensures Gather(names, cells).Ok? <==> forall i | 0 <= i < |cells| :: cells[i].Ok?
    ensures Gather(names, cells).Ok? ==>
              var m := Gather(names, cells).value;
              && (forall i | 0 <= i < |cells| :: names[i] in m <==> cells[i].value.Some?)
              && (forall i | 0 <= i < |cells| && names[i] in m :: m[names[i]] == cells[i].value.value)
              && (forall k | k in m :: k in names)
  {
    if names != [] {
      var last := |names| - 1;
      GatherCollects(names[..last], cells[..last]);
    }
  }

  function Names(meta: seq<PropertyMeta>): seq<string> {
    seq(|meta|, i requires 0 <= i < |meta| => meta[i].name)
  }

  function OriginalNames(meta: seq<PropertyMeta>): seq<string> {
    seq(|meta|, i requires 0 <= i < |meta| => meta[i].originalName)
  }

  /** Reading an own member; a missing one is undefined. */
  function Member(v: Value, key: string): Value {
    if key in OwnFields(v) then OwnFields(v)[key] else Undefined
  }

  function Sequence(cells: seq<Outcome<Value>>): Outcome<Value> {
    if forall i | 0 <= i < |cells| :: cells[i].Ok?
    then Ok(Arr(seq(|cells|, i requires 0 <= i < |cells| => cells[i].value)))
    else Thrown
  }

  function DeserializeProperty(svc: Service, v: Value, p: PropertyMeta): Outcome<Value>
    decreases v, 3
  {
    if p.isCollection then DeserializeCollection(svc, v, p.ty)
    else match p.ty
      case Complex(t) => DeserializeComplex(svc, v, t)
      case Edm(e) => svc.toTs(v, e)
      case Enum => Ok(v)
  }

  /** The member of the complex value that one property of the JSON gives, if any. */
  function Deserialized(svc: Service, json: Value, p: PropertyMeta): Outcome<Option<Value>>
    decreases json, 0
  {
    var raw := Member(json, p.originalName);
    if raw.Undefined? then Ok(None)
    else
      var v :- DeserializeProperty(svc, raw, p);
      Ok(Some(v))
  }

  function DeserializeComplex(svc: Service, json: Value, typeName: string): Outcome<Value>
    decreases json, 1
  {
    var meta := svc.MetaOf(typeName);
    if json.Null? then Ok(Null)
    else if json.Undefined? || meta == [] then Thrown
    else
      var fields :- Gather(Names(meta), seq(|meta|, i requires 0 <= i < |meta| => Deserialized(svc, json, meta[i])));
      Ok(Obj(fields))
  }

  function DeserializeCollection(svc: Service, json: Value, ty: TypeRef): Outcome<Value>
    decreases json, 2
  {
    if ty.Enum? then Ok(json)
    else if !json.Arr? then Thrown
    else Sequence(seq(|json.items|, i requires 0 <= i < |json.items| =>
      match ty
      case Edm(e) => svc.toTs(json.items[i], e)
      case Complex(t) => DeserializeComplex(svc, json.items[i], t)))
  }

  function SerializeProperty(svc: Service, v: Value, p: PropertyMeta): Outcome<Value>
    decreases v, 3
  {
    if p.isCollection then SerializeCollection(svc, v, p.ty)
    else match p.ty
      case Complex(t) => SerializeComplex(svc, v, t)
      case Edm(e) => svc.toEdm(v, e)
      case Enum => Ok(v)
  }

  /** The member of the JSON that one property of the complex value gives, if any. */
  function Serialized(svc: Service, v: Value, p: PropertyMeta): Outcome<Option<Value>>
    decreases v, 0
  {
    var raw := Member(v, p.name);
    if raw.Undefined? then Ok(None)
    else
      var j :- SerializeProperty(svc, raw, p);
      Ok(Some(j))
  }

  function SerializeComplex(svc: Service, v: Value, typeName: string): Outcome<Value>
    decreases v, 1
  {
    var meta := svc.MetaOf(typeName);
    if IsNullish(v) && meta != [] then Thrown
    else
      var fields :- Gather(OriginalNames(meta), seq(|meta|, i requires 0 <= i < |meta| => Serialized(svc, v, meta[i])));
      Ok(Obj(fields))
  }

  function SerializeCollection(svc: Service, v: Value, ty: TypeRef): Outcome<Value>
    decreases v, 2
  {
    if ty.Enum? then Ok(v)
    else if !v.Arr? then Thrown
    else Sequence(seq(|v.items|, i requires 0 <= i < |v.items| =>
      match ty
      case Edm(e) => svc.toEdm(v.items[i], e)
      case Complex(t) => SerializeComplex(svc, v.items[i], t)))
  }

  // ---- Which values survive serialisation and deserialisation ----

  /** The leaf itself comes back from the converters. */
  predicate LeafReturns(svc: Service, v: Value, edm: string) {
    svc.toEdm(v, edm).Ok? && svc.toTs(svc.toEdm(v, edm).value, edm) == Ok(v)
  }

  predicate PropertyReturns(svc: Service, v: Value, p: PropertyMeta)
    decreases v, 3
  {
    && !v.Undefined?
    && if p.isCollection then CollectionReturns(svc, v, p.ty)
       else match p.ty
         case Complex(t) => ComplexReturns(svc, v, t)
         case Edm(e) => LeafReturns(svc, v, e) && !svc.toEdm(v, e).value.Undefined?
         case Enum => true
  }

  /** An object with declared members only, each of which returns; neither null nor undefined inside. */
  predicate ComplexReturns(svc: Service, v: Value, typeName: string)
    decreases v, 1
  {
    var meta := svc.MetaOf(typeName);
    && v.Obj?
    && meta != []
    && (forall k | k in v.fields :: k in Names(meta))
    && forall i | 0 <= i < |meta| && meta[i].name in v.fields ::
         PropertyReturns(svc, v.fields[meta[i].name], meta[i])
  }

  predicate CollectionReturns(svc: Service, v: Value, ty: TypeRef)
    decreases v, 2
  {
    ty.Enum? ||
    (v.Arr? && forall i | 0 <= i < |v.items| ::
      match ty
      case Edm(e) => LeafReturns(svc, v.items[i], e)
      case Complex(t) => ComplexReturns(svc, v.items[i], t))
  }

  ghost predicate PropertyComesBack(svc: Service, v: Value, p: PropertyMeta) {
    var s := SerializeProperty(svc, v, p);
    !v.Undefined? && s.Ok? && !s.value.Undefined? && DeserializeProperty(svc, s.value, p) == Ok(v)
  }

  ghost predicate CollectionComesBack(svc: Service, v: Value, ty: TypeRef) {
    var s := SerializeCollection(svc, v, ty);
    s.Ok? && DeserializeCollection(svc, s.value, ty) == Ok(v)
  }

  ghost predicate ComplexComesBack(svc: Service, v: Value, typeName: string) {
    var s := SerializeComplex(svc, v, typeName);
    s.Ok? && DeserializeComplex(svc, s.value, typeName) == Ok(v)
  }

  lemma {:induction false} PropertyRoundTrip(svc: Service, v: Value, p: PropertyMeta)
    requires svc.TypesCoherent()
    ensures PropertyReturns(svc, v, p) <==> PropertyComesBack(svc, v, p)
    decreases v, 3
  {
    if p.isCollection { CollectionRoundTrip(svc, v, p.ty); }
    else if p.ty.Complex? { ComplexRoundTrip(svc, v, p.ty.typeName); }
  }

  lemma {:induction false} CollectionRoundTrip(svc: Service, v: Value, ty: TypeRef)
    requires svc.TypesCoherent()
    ensures CollectionReturns(svc, v, ty) <==> CollectionComesBack(svc, v, ty)
    decreases v, 2
  {
    if !ty.Enum? && v.Arr? {
      if ty.Complex? {
        forall i | 0 <= i < |v.items|
          ensures ComplexReturns(svc, v.items[i], ty.typeName) <==> ComplexComesBack(svc, v.items[i], ty.typeName)
        {
          ComplexRoundTrip(svc, v.items[i], ty.typeName);
        }
      }
      var s := SerializeCollection(svc, v, ty);
      if s.Ok? && DeserializeCollection(svc, s.value, ty).Ok? {
        var d := DeserializeCollection(svc, s.value, ty).value;
        assert d.Arr? && |d.items| == |v.items|;
        assert d == v <==> forall i | 0 <= i < |v.items| :: d.items[i] == v.items[i];
      }
      if CollectionReturns(svc, v, ty) {
        assert s.Ok?;
      }
    }
  }

  lemma {:induction false} ComplexRoundTrip(svc: Service, v: Value, typeName: string)
    requires svc.TypesCoherent()
    ensures ComplexReturns(svc, v, typeName) <==> ComplexComesBack(svc, v, typeName)
    decreases v, 1
  {
    var meta := svc.MetaOf(typeName);
    if v.Obj? && meta != [] {
      forall i | 0 <= i < |meta| && meta[i].name in v.fields
        ensures PropertyReturns(svc, v.fields[meta[i].name], meta[i]) <==>
                PropertyComesBack(svc, v.fields[meta[i].name], meta[i])
      {
        PropertyRoundTrip(svc, v.fields[meta[i].name], meta[i]);
      }
      MembersReturn(svc, v, typeName);
    }
  }

  function OrUndefined(o: Option<Value>): Value {
    if o.Some? then o.value else Undefined
  }

  /** Exactly the declared members that the value has are sent, under their original names; all else is left out. */
  lemma SerializedMembers(svc: Service, v: Value, typeName: string)
    requires svc.TypesCoherent() && (IsNullish(v) ==> svc.MetaOf(typeName) == [])
    ensures var meta, s := svc.MetaOf(typeName), SerializeComplex(svc, v, typeName);
            && (s.Ok? <==> forall i | 0 <= i < |meta| :: Serialized(svc, v, meta[i]).Ok?)
            && (s.Ok? ==>
                  && s.value.Obj?
                  && (forall k | k in s.value.fields :: k in OriginalNames(meta))
                  && (forall i | 0 <= i < |meta| ::
                        meta[i].originalName in s.value.fields <==> Serialized(svc, v, meta[i]).value.Some?)
                  && (forall i | 0 <= i < |meta| ::
                        Member(s.value, meta[i].originalName) == OrUndefined(Serialized(svc, v, meta[i]).value)))
  {
    var meta := svc.MetaOf(typeName);
    var cells := seq(|meta|, i requires 0 <= i < |meta| => Serialized(svc, v, meta[i]));
    GatherCollects(OriginalNames(meta), cells);
    forall i | 0 <= i < |meta| ensures cells[i] == Serialized(svc, v, meta[i]) {}
    forall i | 0 <= i < |meta| ensures OriginalNames(meta)[i] == meta[i].originalName {}
  }

  /** And exactly the declared members that the JSON has are read; a text or a number has none. */
  lemma DeserializedMembers(svc: Service, json: Value, typeName: string)
    requires svc.TypesCoherent() && !IsNullish(json) && svc.MetaOf(typeName) != []
    ensures var meta, d := svc.MetaOf(typeName), DeserializeComplex(svc, json, typeName);
            && (d.Ok? <==> forall i | 0 <= i < |meta| :: Deserialized(svc, json, meta[i]).Ok?)
            && (d.Ok? ==>
                  && d.value.Obj?
                  && (forall k | k in d.value.fields :: k in Names(meta))
                  && (forall i | 0 <= i < |meta| ::
                        meta[i].name in d.value.fields <==> Deserialized(svc, json, meta[i]).value.Some?)
                  && (forall i | 0 <= i < |meta| && meta[i].name in d.value.fields ::
                        d.value.fields[meta[i].name] == Deserialized(svc, json, meta[i]).value.value))
  {
    var meta := svc.MetaOf(typeName);
    var cells := seq(|meta|, i requires 0 <= i < |meta| => Deserialized(svc, json, meta[i]));
    GatherCollects(Names(meta), cells);
    forall i | 0 <= i < |meta| ensures cells[i] == Deserialized(svc, json, meta[i]) {}
    forall i | 0 <= i < |meta| ensures Names(meta)[i] == meta[i].name {}
  }

  lemma MembersReturn(svc: Service, v: Value, typeName: string)
    requires svc.TypesCoherent()
    requires v.Obj? && svc.MetaOf(typeName) != []
    requires var meta := svc.MetaOf(typeName);
             forall i | 0 <= i < |meta| && meta[i].name in v.fields ::
               PropertyReturns(svc, v.fields[meta[i].name], meta[i]) <==>
               PropertyComesBack(svc, v.fields[meta[i].name], meta[i])
    ensures ComplexReturns(svc, v, typeName) <==> ComplexComesBack(svc, v, typeName)
  {
    var meta, s := svc.MetaOf(typeName), SerializeComplex(svc, v, typeName);
    SerializedMembers(svc, v, typeName);
    if s.Ok? {
      DeserializedMembers(svc, s.value, typeName);
      var d := DeserializeComplex(svc, s.value, typeName);
      if ComplexReturns(svc, v, typeName) {
        forall i | 0 <= i < |meta| ensures Deserialized(svc, s.value, meta[i]) ==
          Ok(if meta[i].name in v.fields then Some(v.fields[meta[i].name]) else None)
        {
          assert Member(s.value, meta[i].originalName) == OrUndefined(Serialized(svc, v, meta[i]).value);
        }
        SameFields(meta, v.fields, d.value.fields);
      }
      if d == Ok(v) {
        forall i | 0 <= i < |meta| && meta[i].name in v.fields
          ensures PropertyComesBack(svc, v.fields[meta[i].name], meta[i])
        {
          assert Member(s.value, meta[i].originalName) == OrUndefined(Serialized(svc, v, meta[i]).value);
          assert Deserialized(svc, s.value, meta[i]) == Ok(Some(v.fields[meta[i].name]));
        }
      }
    }
  }

  /**
   A null in the JSON of a complex value is read as null where a complex value is expected, at the top and inside; such
   a value cannot be sent, so it is one of those that do not come back.
   */
  lemma NullComplexIsRead(svc: Service, json: Value, typeName: string, i: nat)
    requires svc.TypesCoherent() && json.Obj? && i < |svc.MetaOf(typeName)|
    requires var p := svc.MetaOf(typeName)[i];
             && p.ty.Complex? && !p.isCollection && svc.MetaOf(p.ty.typeName) != []
             && p.originalName in json.fields && json.fields[p.originalName] == Null
    ensures DeserializeComplex(svc, Null, typeName) == Ok(Null) && DeserializeComplex(svc, Undefined, typeName).Thrown?
    ensures var p, d := svc.MetaOf(typeName)[i], DeserializeComplex(svc, json, typeName);
            d.Ok? ==>
              && d.value.Obj? && p.name in d.value.fields && d.value.fields[p.name] == Null
              && SerializeComplex(svc, d.value, typeName).Thrown?
  {
    var p, d := svc.MetaOf(typeName)[i], DeserializeComplex(svc, json, typeName);
    assert Deserialized(svc, json, p) == Ok(Some(Null));
    DeserializedMembers(svc, json, typeName);
    if d.Ok? {
      assert Serialized(svc, d.value, p).Thrown?;
      SerializedMembers(svc, d.value, typeName);
    }
  }

  lemma SameFields(meta: seq<PropertyMeta>, m: map<string, Value>, n: map<string, Value>)
    requires forall k | k in m :: k in Names(meta)
    requires forall k | k in n :: k in Names(meta)
    requires forall i | 0 <= i < |meta| :: meta[i].name in m <==> meta[i].name in n
    requires forall i | 0 <= i < |meta| && meta[i].name in m :: m[meta[i].name] == n[meta[i].name]
    ensures m == n
  {
    forall k | k in m || k in n ensures k in m && k in n && m[k] == n[k] {
      var i :| 0 <= i < |meta| && Names(meta)[i] == k;
      assert meta[i].name == k;
    }
  }

  /**
   The default converters send a null inside a complex value as the text "null", so unless the converter back reads
   that text as null, a complex value with a null member does not come back.
   */
  lemma NullMemberIsLost(svc: Service, v: Value, typeName: string, i: nat,
                         rawToTs: (Value, string) -> Outcome<Value>, rawToEdm: (Value, string) -> Outcome<Value>)
    requires svc.TypesCoherent() && svc.toTs == WrapDeserialize(rawToTs) && svc.toEdm == WrapSerialize(rawToEdm)
    requires i < |svc.MetaOf(typeName)| && svc.MetaOf(typeName)[i].ty.Edm? && !svc.MetaOf(typeName)[i].isCollection
    requires v.Obj? && svc.MetaOf(typeName)[i].name in v.fields && v.fields[svc.MetaOf(typeName)[i].name].Null?
    requires rawToTs(Str("null"), svc.MetaOf(typeName)[i].ty.edm) != Ok(Null)
    ensures !ComplexComesBack(svc, v, typeName)
  {
    assert !PropertyReturns(svc, v.fields[svc.MetaOf(typeName)[i].name], svc.MetaOf(typeName)[i]);
    ComplexRoundTrip(svc, v, typeName);
  }
}
