/** The way back: exactly which JSON of complex types and collections is deserialised and serialised to itself. */
module ComplexJson {
  import opened Values
  import opened Schema
  import opened ComplexTypes

  predicate JsonLeafReturns(svc: Service, json: Value, edm: string) {
    svc.toTs(json, edm).Ok? && svc.toEdm(svc.toTs(json, edm).value, edm) == Ok(json)
  }

  predicate JsonPropertyReturns(svc: Service, json: Value, p: PropertyMeta)
    decreases json, 3
  {
    && !json.Undefined?
    && if p.isCollection then JsonCollectionReturns(svc, json, p.ty)
       else match p.ty
         case Complex(t) => JsonComplexReturns(svc, json, t)
         case Edm(e) => JsonLeafReturns(svc, json, e) && !svc.toTs(json, e).value.Undefined?
         case Enum => true
  }

  /** An object with declared members only, each of which returns; neither null nor undefined inside. */
  predicate JsonComplexReturns(svc: Service, json: Value, typeName: string)
    decreases json, 1
  {
    var meta := svc.MetaOf(typeName);
    && json.Obj?
    && meta != []
    && (forall k | k in json.fields :: k in OriginalNames(meta))
    && forall i | 0 <= i < |meta| && meta[i].originalName in json.fields ::
         JsonPropertyReturns(svc, json.fields[meta[i].originalName], meta[i])
  }

  predicate JsonCollectionReturns(svc: Service, json: Value, ty: TypeRef)
    decreases json, 2
  {
    ty.Enum? ||
    (json.Arr? && forall i | 0 <= i < |json.items| ::
      match ty
      case Edm(e) => JsonLeafReturns(svc, json.items[i], e)
      case Complex(t) => JsonComplexReturns(svc, json.items[i], t))
  }

  ghost predicate JsonPropertyComesBack(svc: Service, json: Value, p: PropertyMeta) {
    var d := DeserializeProperty(svc, json, p);
    !json.Undefined? && d.Ok? && !d.value.Undefined? && SerializeProperty(svc, d.value, p) == Ok(json)
  }

  ghost predicate JsonCollectionComesBack(svc: Service, json: Value, ty: TypeRef) {
    var d := DeserializeCollection(svc, json, ty);
    d.Ok? && SerializeCollection(svc, d.value, ty) == Ok(json)
  }

  ghost predicate JsonComplexComesBack(svc: Service, json: Value, typeName: string) {
    var d := DeserializeComplex(svc, json, typeName);
    d.Ok? && SerializeComplex(svc, d.value, typeName) == Ok(json)
  }

  lemma {:induction false} JsonPropertyRoundTrip(svc: Service, json: Value, p: PropertyMeta)
    requires svc.TypesCoherent()
    ensures JsonPropertyReturns(svc, json, p) <==> JsonPropertyComesBack(svc, json, p)
    decreases json, 3
  {
    if p.isCollection { JsonCollectionRoundTrip(svc, json, p.ty); }
    else if p.ty.Complex? { JsonComplexRoundTrip(svc, json, p.ty.typeName); }
  }

  lemma {:induction false} JsonCollectionRoundTrip(svc: Service, json: Value, ty: TypeRef)
    requires svc.TypesCoherent()
    ensures JsonCollectionReturns(svc, json, ty) <==> JsonCollectionComesBack(svc, json, ty)
    decreases json, 2
  {
    if !ty.Enum? && json.Arr? {
      if ty.Complex? {
        forall i | 0 <= i < |json.items|
          ensures JsonComplexReturns(svc, json.items[i], ty.typeName) <==>
                  JsonComplexComesBack(svc, json.items[i], ty.typeName)
        {
          JsonComplexRoundTrip(svc, json.items[i], ty.typeName);
        }
      }
      var d := DeserializeCollection(svc, json, ty);
      if d.Ok? && SerializeCollection(svc, d.value, ty).Ok? {
        var s := SerializeCollection(svc, d.value, ty).value;
        assert s.Arr? && |s.items| == |json.items|;
        assert s == json <==> forall i | 0 <= i < |json.items| :: s.items[i] == json.items[i];
      }
      if JsonCollectionReturns(svc, json, ty) {
        assert d.Ok?;
      }
    }
  }

  lemma {:induction false} JsonComplexRoundTrip(svc: Service, json: Value, typeName: string)
    requires svc.TypesCoherent()
    ensures JsonComplexReturns(svc, json, typeName) <==> JsonComplexComesBack(svc, json, typeName)
    decreases json, 1
  {
    var meta := svc.MetaOf(typeName);
    if json.Obj? && meta != [] {
      forall i | 0 <= i < |meta| && meta[i].originalName in json.fields
        ensures JsonPropertyReturns(svc, json.fields[meta[i].originalName], meta[i]) <==>
                JsonPropertyComesBack(svc, json.fields[meta[i].originalName], meta[i])
      {
        JsonPropertyRoundTrip(svc, json.fields[meta[i].originalName], meta[i]);
      }
      JsonMembersReturn(svc, json, typeName);
    }
  }

  lemma JsonMembersReturn(svc: Service, json: Value, typeName: string)
    requires svc.TypesCoherent()
    requires json.Obj? && svc.MetaOf(typeName) != []
    requires var meta := svc.MetaOf(typeName);
             forall i | 0 <= i < |meta| && meta[i].originalName in json.fields ::
               JsonPropertyReturns(svc, json.fields[meta[i].originalName], meta[i]) <==>
               JsonPropertyComesBack(svc, json.fields[meta[i].originalName], meta[i])
    ensures JsonComplexReturns(svc, json, typeName) <==> JsonComplexComesBack(svc, json, typeName)
  {
    var meta, d := svc.MetaOf(typeName), DeserializeComplex(svc, json, typeName);
    DeserializedMembers(svc, json, typeName);
    if d.Ok? {
      SerializedMembers(svc, d.value, typeName);
      var s := SerializeComplex(svc, d.value, typeName);
      if JsonComplexReturns(svc, json, typeName) {
        forall i | 0 <= i < |meta| ensures Serialized(svc, d.value, meta[i]) ==
          Ok(if meta[i].originalName in json.fields then Some(json.fields[meta[i].originalName]) else None)
        {
          assert Member(d.value, meta[i].name) == OrUndefined(Deserialized(svc, json, meta[i]).value);
        }
        SameOriginalFields(meta, json.fields, s.value.fields);
      }
      if s == Ok(json) {
        forall i | 0 <= i < |meta| && meta[i].originalName in json.fields
          ensures JsonPropertyComesBack(svc, json.fields[meta[i].originalName], meta[i])
        {
          assert Member(d.value, meta[i].name) == OrUndefined(Deserialized(svc, json, meta[i]).value);
          assert Serialized(svc, d.value, meta[i]) == Ok(Some(json.fields[meta[i].originalName]));
        }
      }
    }
  }

  lemma SameOriginalFields(meta: seq<PropertyMeta>, m: map<string, Value>, n: map<string, Value>)
    requires forall k | k in m :: k in OriginalNames(meta)
    requires forall k | k in n :: k in OriginalNames(meta)
    requires forall i | 0 <= i < |meta| :: meta[i].originalName in m <==> meta[i].originalName in n
    requires forall i | 0 <= i < |meta| && meta[i].originalName in m ::
             m[meta[i].originalName] == n[meta[i].originalName]
    ensures m == n
  {
    forall k | k in m || k in n ensures k in m && k in n && m[k] == n[k] {
      var i :| 0 <= i < |meta| && OriginalNames(meta)[i] == k;
      assert meta[i].originalName == k;
    }
  }
}
