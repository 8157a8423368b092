/** The way back: exactly which payloads of entities are sent as they were read. */
module EntityJson {
  import opened Values
  import opened Schema
  import opened ComplexTypes
  import opened ComplexJson
  import opened EntityTrees
  import opened EntityRoundTrip

  /** What comes of a field is sent back as it was; a null is, and of an undefined only a null can come back. */
  predicate JsonFieldReturns(svc: Service, f: Field, v: Value)
    decreases v, 2
  {
    match f
    case EdmField(_, edm) =>
      var d := svc.toTs(v, edm);
      d.Ok? && if IsNullish(d.value) then v.Null? else svc.toEdm(d.value, edm) == Ok(v) && !v.Undefined?
    case OneToOneLink(_, linked) => v.Null? || (v.Obj? && DEFERRED !in v.fields && JsonReturns(svc, v, linked))
    case ManyLink(_, linked) => v.Arr? && forall i | 0 <= i < |v.items| :: JsonReturns(svc, v.items[i], linked)
    case ComplexField(_, typeName) => v.Null? || JsonComplexReturns(svc, v, typeName)
    case CollectionField(_, ty) => if IsNullish(v) then ty.Enum? && v.Null? else JsonCollectionReturns(svc, v, ty)
    case EnumField(_) => !v.Undefined?
  }

  /** An object whose fields return, and without the entries of the protocol. */
  predicate JsonReturns(svc: Service, json: Value, api: string)
    decreases json, 1
  {
    && json.Obj?
    && (forall n | n in json.fields && n in {METADATA, DEFERRED} :: n in svc.FieldNames(api))
    && var schema := svc.SchemaOf(api);
       forall s | s in schema && schema[s].fieldName in json.fields ::
         JsonFieldReturns(svc, schema[s], json.fields[schema[s].fieldName])
  }

  ghost predicate JsonFieldComesBack(svc: Service, f: Field, v: Value)
    requires svc.SchemasCoherent()
  {
    var d := DeserializeField(svc, v, f);
    d.Ok? && SerializeField(svc, f, d.value) == Ok(v) && !v.Undefined?
  }

  ghost predicate JsonComesBack(svc: Service, json: Value, api: string)
    requires svc.SchemasCoherent()
  {
    var d := DeserializeTree(svc, json, api);
    d.Ok? && SerializeTree(svc, d.value, api) == Ok(json)
  }

  lemma {:induction false} JsonFieldRoundTrip(svc: Service, f: Field, v: Value)
    requires svc.SchemasCoherent() && svc.TypesCoherent()
    ensures JsonFieldReturns(svc, f, v) <==> JsonFieldComesBack(svc, f, v)
    decreases v, 4
  {
    match f {
      case OneToOneLink(_, linked) => JsonLinkRoundTrip(svc, f, v);
      case ManyLink(_, linked) => JsonListRoundTrip(svc, f, v);
      case ComplexField(_, typeName) =>
        if Truthy(v) { ComplexSent(svc, f, v); } else { FalsyComplexSent(svc, f, v); }
      case CollectionField(_, ty) => CollectionSent(svc, f, v);
      case _ =>
    }
  }

  lemma ComplexSent(svc: Service, f: Field, v: Value)
    requires svc.SchemasCoherent() && svc.TypesCoherent() && f.ComplexField? && Truthy(v)
    ensures JsonFieldComesBack(svc, f, v) <==> JsonComplexReturns(svc, v, f.typeName)
  {
    JsonComplexRoundTrip(svc, v, f.typeName);
    var d := DeserializeComplex(svc, v, f.typeName);
    assert DeserializeField(svc, v, f) == if d.Ok? then Ok(Plain(d.value)) else Thrown;
    if d.Ok? {
      assert d.value.Obj?;
      assert SerializeField(svc, f, Plain(d.value)) == SerializeComplex(svc, d.value, f.typeName);
    }
  }

  lemma CollectionSent(svc: Service, f: Field, v: Value)
    requires svc.SchemasCoherent() && svc.TypesCoherent() && f.CollectionField?
    ensures JsonFieldComesBack(svc, f, v) <==> JsonFieldReturns(svc, f, v)
  {
    JsonCollectionRoundTrip(svc, v, f.itemType);
    var d := DeserializeCollection(svc, v, f.itemType);
    assert DeserializeField(svc, v, f) == if d.Ok? then Ok(Plain(d.value)) else Thrown;
  }

  lemma FalsyComplexSent(svc: Service, f: Field, v: Value)
    requires svc.SchemasCoherent() && f.ComplexField? && !Truthy(v)
    ensures JsonFieldComesBack(svc, f, v) <==> v.Null?
  {
  }

  lemma {:induction false} JsonLinkRoundTrip(svc: Service, f: Field, v: Value)
    requires svc.SchemasCoherent() && svc.TypesCoherent() && f.OneToOneLink?
    ensures JsonFieldReturns(svc, f, v) <==> JsonFieldComesBack(svc, f, v)
    decreases v, 3
  {
    if v.Obj? { JsonTreeRoundTrip(svc, v, f.linkedApi); }
    LinkComesBack(svc, f, v);
  }

  lemma LinkComesBack(svc: Service, f: Field, v: Value)
    requires svc.SchemasCoherent() && f.OneToOneLink?
    ensures JsonFieldComesBack(svc, f, v) <==>
            v.Null? || (v.Obj? && DEFERRED !in v.fields && JsonComesBack(svc, v, f.linkedApi))
  {
    var d := DeserializeTree(svc, v, f.linkedApi);
    if IsNullish(v) || DEFERRED in OwnFields(v) {
      assert DeserializeField(svc, v, f) == if v.Undefined? then Thrown else Ok(Plain(Null));
    } else {
      assert DeserializeField(svc, v, f) == if d.Ok? then Ok(One(d.value)) else Thrown;
      if d.Ok? { assert SerializeField(svc, f, One(d.value)) == SerializeTree(svc, d.value, f.linkedApi); }
    }
  }

  lemma {:induction false} JsonListRoundTrip(svc: Service, f: Field, v: Value)
    requires svc.SchemasCoherent() && svc.TypesCoherent() && f.ManyLink?
    ensures JsonFieldReturns(svc, f, v) <==> JsonFieldComesBack(svc, f, v)
    decreases v, 3
  {
    if v.Arr? {
      forall i | 0 <= i < |v.items|
        ensures JsonReturns(svc, v.items[i], f.linkedApi) <==> JsonComesBack(svc, v.items[i], f.linkedApi)
      {
        JsonTreeRoundTrip(svc, v.items[i], f.linkedApi);
      }
      JsonItemsRoundTrip(svc, f, v);
    }
  }

  lemma JsonItemsRoundTrip(svc: Service, f: Field, v: Value)
    requires svc.SchemasCoherent() && f.ManyLink? && v.Arr?
    requires forall i | 0 <= i < |v.items| ::
               JsonReturns(svc, v.items[i], f.linkedApi) <==> JsonComesBack(svc, v.items[i], f.linkedApi)
    ensures JsonFieldReturns(svc, f, v) <==> JsonFieldComesBack(svc, f, v)
  {
    var d := DeserializeField(svc, v, f);
    assert d == DeserializeMultiLink(svc, v, f.linkedApi);
    assert LinkedResults(svc.version, v) == v.items;
    if d.Ok? {
      var ts := d.value.trees;
      assert |ts| == |v.items|;
      assert forall i | 0 <= i < |ts| :: DeserializeTree(svc, v.items[i], f.linkedApi) == Ok(ts[i]);
      var cells := seq(|ts|, i requires 0 <= i < |ts| => SerializeTree(svc, ts[i], f.linkedApi));
      assert SerializeField(svc, f, Many(ts)) == Sequence(cells);
      if Sequence(cells).Ok? {
        var items := Sequence(cells).value.items;
        assert items == v.items <==> forall i | 0 <= i < |items| :: items[i] == v.items[i];
      }
    }
  }

  /** What is read of the fields, field by field. */
  lemma FieldIsRead(svc: Service, json: Value, api: string, t: Tree, s: string)
    requires svc.SchemasCoherent() && !IsNullish(json) && DeserializeTree(svc, json, api) == Ok(t)
    requires s in SelectedFields(svc, json, api)
    ensures var f := svc.SchemaOf(api)[s];
            && svc.PropName(f) in t.props && svc.snake(svc.PropName(f)) == s
            && DeserializeField(svc, OwnFields(json)[f.fieldName], f) == Ok(t.props[svc.PropName(f)])
  {
    DeserializedFromParts(svc, json, api, t);
    assert svc.PropName(svc.SchemaOf(api)[s]) in SelectedProps(svc, json, api);
  }

  lemma ReadIsKeyed(svc: Service, json: Value, api: string, t: Tree)
    requires svc.SchemasCoherent() && !IsNullish(json) && DeserializeTree(svc, json, api) == Ok(t)
    ensures Keyed(svc, t, api)
    ensures forall k | k in t.props :: svc.snake(k) in SelectedFields(svc, json, api)
  {
    DeserializedFromParts(svc, json, api, t);
    SelectedIsKeyed(svc, json, t, api);
    forall k | k in t.props ensures svc.snake(k) in SelectedFields(svc, json, api) {
      var s :| s in SelectedFields(svc, json, api) && svc.PropName(svc.SchemaOf(api)[s]) == k;
    }
  }

  /** Every field of the payload comes back. */
  ghost predicate FieldsComeBack(svc: Service, json: Value, api: string)
    requires svc.SchemasCoherent()
  {
    forall s | s in SelectedFields(svc, json, api) ::
      JsonFieldComesBack(svc, svc.SchemaOf(api)[s], OwnFields(json)[svc.SchemaOf(api)[s].fieldName])
  }

  ghost predicate NoProtocolEntries(svc: Service, json: Value, api: string) {
    forall n | n in OwnFields(json) && n in {METADATA, DEFERRED} :: n in svc.FieldNames(api)
  }

  lemma FieldsAreRead(svc: Service, json: Value, api: string)
    requires svc.SchemasCoherent() && json.Obj? && FieldsComeBack(svc, json, api)
    ensures DeserializeTree(svc, json, api).Ok?
  {
    forall k | k in SelectedProps(svc, json, api) ensures PropFrom(svc, json, api, k).Ok? {
      var s :| s in SelectedFields(svc, json, api) && svc.PropName(svc.SchemaOf(api)[s]) == k;
    }
  }

  lemma ReadKeysSerialize(svc: Service, json: Value, api: string, t: Tree)
    requires svc.SchemasCoherent() && json.Obj? && FieldsComeBack(svc, json, api)
    requires DeserializeTree(svc, json, api) == Ok(t)
    ensures KeysSerialize(svc, t, api)
  {
    ReadIsKeyed(svc, json, api, t);
    forall k | k in t.props ensures SerializeKey(svc, t, k, api).Ok? { FieldIsRead(svc, json, api, t, svc.snake(k)); }
  }

  /** A field of the payload is sent under its name if it comes back, and only then with its value. */
  lemma SentAgain(svc: Service, json: Value, api: string, t: Tree, n: string)
    requires svc.SchemasCoherent() && json.Obj? && DeserializeTree(svc, json, api) == Ok(t)
    requires KeysSerialize(svc, t, api) && n in json.fields && n in svc.FieldNames(api)
    ensures var s := svc.snake(svc.camel(n));
            && s in SelectedFields(svc, json, api) && svc.SchemaOf(api)[s].fieldName == n
            && (JsonFieldComesBack(svc, svc.SchemaOf(api)[s], json.fields[n]) <==>
                n in SentFields(svc, t, api) && SentFields(svc, t, api)[n] == json.fields[n])
  {
    var s :| s in svc.SchemaOf(api) && svc.SchemaOf(api)[s].fieldName == n;
    assert s in SelectedFields(svc, json, api);
    FieldIsRead(svc, json, api, t, s);
    ReadIsKeyed(svc, json, api, t);
    SentField(svc, t, svc.camel(n), api);
  }

  lemma SentIsPayload(svc: Service, json: Value, api: string, t: Tree)
    requires svc.SchemasCoherent() && json.Obj? && DeserializeTree(svc, json, api) == Ok(t)
    requires KeysSerialize(svc, t, api)
    ensures SentFields(svc, t, api) + t.custom == json.fields <==>
            FieldsComeBack(svc, json, api) && NoProtocolEntries(svc, json, api)
  {
    var known := svc.FieldNames(api);
    DeserializedFromParts(svc, json, api, t);
    SentWasRead(svc, json, api, t);
    Recomposed(SentFields(svc, t, api), t.custom, json.fields, known, {METADATA, DEFERRED});
    SentIfComesBack(svc, json, api, t);
  }

  lemma Recomposed(sent: map<string, Value>, custom: map<string, Value>, all: map<string, Value>, known: set<string>,
                   dropped: set<string>)
    requires sent.Keys <= all.Keys * known && custom == all - (known + dropped)
    ensures sent + custom == all <==>
            && (forall n | n in all && n in known :: n in sent && sent[n] == all[n])
            && (forall n | n in all && n in dropped :: n in known)
  {
    var sum := sent + custom;
    forall n | n in all ensures n in sum && sum[n] == all[n] <==>
      if n in known then n in sent && sent[n] == all[n] else n !in dropped
    {
    }
    if forall n | n in all :: n in sum && sum[n] == all[n] { assert sum == all; }
  }

  lemma SentIfComesBack(svc: Service, json: Value, api: string, t: Tree)
    requires svc.SchemasCoherent() && json.Obj? && DeserializeTree(svc, json, api) == Ok(t)
    requires KeysSerialize(svc, t, api)
    ensures var sent := SentFields(svc, t, api);
            FieldsComeBack(svc, json, api) <==>
            forall n | n in json.fields && n in svc.FieldNames(api) :: n in sent && sent[n] == json.fields[n]
  {
    var schema, sent := svc.SchemaOf(api), SentFields(svc, t, api);
    forall n | n in json.fields && n in svc.FieldNames(api)
      ensures var s := svc.snake(svc.camel(n));
              s in SelectedFields(svc, json, api) && schema[s].fieldName == n &&
              (JsonFieldComesBack(svc, schema[s], json.fields[n]) <==> n in sent && sent[n] == json.fields[n])
    {
      SentAgain(svc, json, api, t, n);
    }
    forall s | s in SelectedFields(svc, json, api)
      ensures schema[s].fieldName in svc.FieldNames(api) && svc.snake(svc.camel(schema[s].fieldName)) == s
    {
    }
  }

  lemma SentWasRead(svc: Service, json: Value, api: string, t: Tree)
    requires svc.SchemasCoherent() && json.Obj? && DeserializeTree(svc, json, api) == Ok(t)
    requires KeysSerialize(svc, t, api)
    ensures SentFields(svc, t, api).Keys <= json.fields.Keys * svc.FieldNames(api)
  {
    ReadIsKeyed(svc, json, api, t);
    SentNamesAreFieldNames(svc, t, api);
    forall n | n in SentFields(svc, t, api) ensures n in json.fields {
      assert svc.snake(Sender(svc, t, n, api)) in SelectedFields(svc, json, api);
    }
  }

  lemma {:induction false} JsonTreeRoundTrip(svc: Service, json: Value, api: string)
    requires svc.SchemasCoherent() && svc.TypesCoherent()
    ensures JsonReturns(svc, json, api) <==> JsonComesBack(svc, json, api)
    decreases json, 2
  {
    if json.Obj? {
      var schema := svc.SchemaOf(api);
      forall s | s in SelectedFields(svc, json, api)
        ensures JsonFieldReturns(svc, schema[s], json.fields[schema[s].fieldName]) <==>
                JsonFieldComesBack(svc, schema[s], json.fields[schema[s].fieldName])
      {
        JsonFieldRoundTrip(svc, schema[s], json.fields[schema[s].fieldName]);
      }
      JsonReturnsByFields(svc, json, api);
    }
  }

  lemma JsonReturnsByFields(svc: Service, json: Value, api: string)
    requires svc.SchemasCoherent() && json.Obj?
    ensures JsonComesBack(svc, json, api) <==> FieldsComeBack(svc, json, api) && NoProtocolEntries(svc, json, api)
  {
    if FieldsComeBack(svc, json, api) {
      FieldsAreRead(svc, json, api);
      ReadKeysSerialize(svc, json, api, DeserializeTree(svc, json, api).value);
    }
    var d := DeserializeTree(svc, json, api);
    if d.Ok? && KeysSerialize(svc, d.value, api) { SentIsPayload(svc, json, api, d.value); }
  }
}
