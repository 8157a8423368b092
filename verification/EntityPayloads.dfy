/** The forms in which a service sends linked entities, and what they are read as. */
module EntityPayloads {
  import opened Values
  import opened Schema
  import opened ComplexTypes
  import opened EntityTrees
  import opened EntityRoundTrip

  // ---- Lists ----

  /** A list is read entity by entity, in order; it throws exactly if one of them cannot be read. */
  lemma ListIsRead(svc: Service, items: seq<Value>, linked: string, ts: seq<Tree>)
    requires svc.SchemasCoherent()
    ensures DeserializeMultiLink(svc, Arr(items), linked) == Ok(Many(ts)) <==>
            |ts| == |items| && forall i | 0 <= i < |items| :: DeserializeTree(svc, items[i], linked) == Ok(ts[i])
    ensures DeserializeMultiLink(svc, Arr(items), linked).Thrown? <==>
            exists i | 0 <= i < |items| :: DeserializeTree(svc, items[i], linked).Thrown?
  {
    var r := DeserializeMultiLink(svc, Arr(items), linked);
    if r.Ok? && |ts| == |items| {
      var read := r.value.trees;
      assert read == ts <==> forall i | 0 <= i < |items| :: read[i] == ts[i];
    }
  }

  /** In version 2 the results of an object are the list, whatever else the object has. */
  lemma WrappedListIsRead(svc: Service, fields: map<string, Value>, items: seq<Value>, linked: string)
    requires svc.SchemasCoherent() && svc.version.V2?
    requires "results" in fields && fields["results"] == Arr(items)
    ensures DeserializeMultiLink(svc, Obj(fields), linked) == DeserializeMultiLink(svc, Arr(items), linked)
  {
    assert LinkedResults(svc.version, Obj(fields)) == LinkedResults(svc.version, Arr(items));
  }

  /** Nothing else is a list: it is read as an empty one, in version 4 also the object with results. */
  lemma OtherIsEmptyList(svc: Service, v: Value, linked: string)
    requires svc.SchemasCoherent() && !v.Arr?
    requires svc.version.V2? && v.Obj? && "results" in v.fields ==> !v.fields["results"].Arr?
    ensures DeserializeMultiLink(svc, v, linked) == Ok(Many([]))
  {
    assert LinkedResults(svc.version, v) == LinkedResults(svc.version, Arr([]));
    ListIsRead(svc, [], linked, []);
  }

  // ---- Single links ----

  /** A link that is neither null nor deferred is read as the entity, or throws if that does. */
  lemma ExpandedIsRead(svc: Service, v: Value, linked: string, t: Tree)
    requires svc.SchemasCoherent() && v != Null && "__deferred" !in OwnFields(v)
    ensures DeserializeSingleLink(svc, v, linked) == Ok(One(t)) <==> DeserializeTree(svc, v, linked) == Ok(t)
    ensures DeserializeSingleLink(svc, v, linked).Thrown? <==> DeserializeTree(svc, v, linked).Thrown?
    ensures DeserializeSingleLink(svc, v, linked) != Ok(Plain(Null))
  {
    var r := DeserializeTree(svc, v, linked);
    assert DeserializeSingleLink(svc, v, linked) == if r.Ok? then Ok(One(r.value)) else Thrown;
  }

  /** And exactly one that is null or deferred is read as null. */
  lemma DeferredIsNull(svc: Service, v: Value, linked: string)
    requires svc.SchemasCoherent()
    ensures DeserializeSingleLink(svc, v, linked) == Ok(Plain(Null)) <==> v == Null || "__deferred" in OwnFields(v)
  {
    assert DEFERRED == "__deferred";
  }

  // ---- Complex fields ----

  /** Of a complex field, null, undefined, false, zero and the empty text are kept, and all else is converted. */
  lemma FalsyComplexIsKept(svc: Service, v: Value, f: Field)
    requires svc.SchemasCoherent() && f.ComplexField?
    ensures v in {Undefined, Null, Bool(false), Num(0.0), Str("")} ==> DeserializeField(svc, v, f) == Ok(Plain(v))
    ensures v !in {Undefined, Null, Bool(false), Num(0.0), Str("")} ==>
              forall d ::
                DeserializeField(svc, v, f) == Ok(Plain(d)) <==> DeserializeComplex(svc, v, f.typeName) == Ok(d)
  {
    var c := DeserializeComplex(svc, v, f.typeName);
    if Truthy(v) { assert DeserializeField(svc, v, f) == if c.Ok? then Ok(Plain(c.value)) else Thrown; }
  }

  // ---- Whole payloads of version 2 ----

  /** The field that is sent by the name, if there is one. */
  function FieldNamed(svc: Service, api: string, n: string): Option<Field> {
    var schema, s := svc.SchemaOf(api), svc.snake(svc.camel(n));
    if s in schema && schema[s].fieldName == n then Some(schema[s]) else None
  }

  /** The payload with every list of linked entities, at any depth, inside the results of an object. */
  function Served(svc: Service, json: Value, api: string): Value
    decreases json, 1
  {
    if json.Obj? then Obj(map n | n in json.fields :: ServedMember(svc, FieldNamed(svc, api, n), json.fields[n]))
    else json
  }

  function ServedMember(svc: Service, f: Option<Field>, v: Value): Value
    decreases v, 2
  {
    match (f, v)
    case (Some(OneToOneLink(_, linked)), _) => Served(svc, v, linked)
    case (Some(ManyLink(_, linked)), Arr(items)) =>
      Obj(map["results" := Arr(seq(|items|, i requires 0 <= i < |items| => Served(svc, items[i], linked)))])
    case _ => v
  }

  /** Wrapping the lists changes nothing of what is read. */
  lemma {:induction false} ServedIsRead(svc: Service, json: Value, api: string)
    requires svc.SchemasCoherent() && svc.version.V2?
    ensures DeserializeTree(svc, Served(svc, json, api), api) == DeserializeTree(svc, json, api)
    decreases json, 1
  {
    if json.Obj? {
      var served := Served(svc, json, api);
      SameSelection(svc, json, api);
      forall k | k in SelectedProps(svc, json, api)
        ensures PropFrom(svc, served, api, k) == PropFrom(svc, json, api, k)
      {
        ServedPropIsRead(svc, json, api, k);
      }
      assert SelectedCells(svc, served, api) == SelectedCells(svc, json, api);
    }
  }

  lemma SameSelection(svc: Service, json: Value, api: string)
    requires svc.SchemasCoherent() && json.Obj?
    ensures SelectedProps(svc, Served(svc, json, api), api) == SelectedProps(svc, json, api)
    ensures CustomFieldsOf(svc, Served(svc, json, api), api) == CustomFieldsOf(svc, json, api)
  {
    var served := Served(svc, json, api);
    assert SelectedFields(svc, served, api) == SelectedFields(svc, json, api);
    forall n | n in json.fields && n !in svc.FieldNames(api) ensures served.fields[n] == json.fields[n] {
      FoundByName(svc, api, n);
      assert ServedMember(svc, None, json.fields[n]) == json.fields[n];
    }
  }

  lemma FoundByName(svc: Service, api: string, n: string)
    ensures FieldNamed(svc, api, n).Some? ==> n in svc.FieldNames(api)
  {
  }

  lemma {:induction false} ServedPropIsRead(svc: Service, json: Value, api: string, k: string)
    requires svc.SchemasCoherent() && svc.version.V2? && json.Obj? && k in SelectedProps(svc, json, api)
    requires k in SelectedProps(svc, Served(svc, json, api), api)
    ensures PropFrom(svc, Served(svc, json, api), api, k) == PropFrom(svc, json, api, k)
    decreases json, 0
  {
    var schema := svc.SchemaOf(api);
    var s :| s in SelectedFields(svc, json, api) && svc.PropName(schema[s]) == k;
    var f := schema[svc.snake(k)];
    assert FieldNamed(svc, api, f.fieldName) == Some(f);
    ServedFieldIsRead(svc, json.fields[f.fieldName], f);
  }

  lemma {:induction false} ServedFieldIsRead(svc: Service, v: Value, f: Field)
    requires svc.SchemasCoherent() && svc.version.V2?
    ensures DeserializeField(svc, ServedMember(svc, Some(f), v), f) == DeserializeField(svc, v, f)
    decreases v, 2
  {
    match (f, v) {
      case (OneToOneLink(_, linked), _) =>
        ServedIsRead(svc, v, linked);
      case (ManyLink(_, linked), Arr(items)) =>
        var served := ServedMember(svc, Some(f), v).fields["results"].items;
        forall i | 0 <= i < |items|
          ensures DeserializeTree(svc, served[i], linked) == DeserializeTree(svc, items[i], linked)
        {
          ServedIsRead(svc, items[i], linked);
        }
        SameList(svc, served, items, linked);
        WrappedListIsRead(svc, ServedMember(svc, Some(f), v).fields, served, linked);
      case _ =>
    }
  }

  lemma SameList(svc: Service, items: seq<Value>, others: seq<Value>, linked: string)
    requires svc.SchemasCoherent() && |items| == |others|
    requires forall i | 0 <= i < |items| ::
               DeserializeTree(svc, items[i], linked) == DeserializeTree(svc, others[i], linked)
    ensures DeserializeMultiLink(svc, Arr(items), linked) == DeserializeMultiLink(svc, Arr(others), linked)
  {
    var r := DeserializeMultiLink(svc, Arr(items), linked);
    if r.Ok? {
      ListIsRead(svc, items, linked, r.value.trees);
      ListIsRead(svc, others, linked, r.value.trees);
    } else {
      ListIsRead(svc, items, linked, []);
      ListIsRead(svc, others, linked, []);
    }
  }

  /** So exactly the trees that come back from their own JSON come back when a version 2 service wraps their lists. */
  lemma ServedTreeRoundTrip(svc: Service, t: Tree, api: string)
    requires svc.SchemasCoherent() && svc.TypesCoherent() && svc.version.V2?
    ensures TreeReturns(svc, t, api) <==>
            var s := SerializeTree(svc, t, api);
            s.Ok? && DeserializeTree(svc, Served(svc, s.value, api), api) == Ok(t)
  {
    TreeRoundTrip(svc, t, api);
    if SerializeTree(svc, t, api).Ok? { ServedIsRead(svc, SerializeTree(svc, t, api).value, api); }
  }
}
