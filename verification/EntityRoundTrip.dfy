/** Which entities come back from their own JSON, and what happens to every member of a JSON payload. */
module EntityRoundTrip {
  import opened Values
  import opened Schema
  import opened ComplexTypes
  import opened EntityTrees

  /** The null or undefined that a field brings back for the null it is sent as. */
  predicate NullishReturns(svc: Service, f: Field, v: Value)
    requires IsNullish(v)
  {
    match f
    case EdmField(_, edm) => svc.toTs(Null, edm) == Ok(v)
    case ManyLink(_, _) => false
    case CollectionField(_, ty) => ty.Enum? && v.Null?
    case _ => v.Null?
  }

  predicate FieldReturns(svc: Service, f: Field, p: TreeProp)
    decreases p, 0
  {
    if IsNullishProp(p) then NullishReturns(svc, f, p.v)
    else match (f, p)
      case (EdmField(_, edm), Plain(v)) => LeafReturns(svc, v, edm) && !svc.toEdm(v, edm).value.Undefined?
      case (OneToOneLink(_, linked), One(t)) => TreeReturns(svc, t, linked) && !SendsDeferred(svc, t, linked)
      case (ManyLink(_, linked), Many(ts)) => forall i | 0 <= i < |ts| :: TreeReturns(svc, ts[i], linked)
      case (ComplexField(_, typeName), Plain(v)) => ComplexReturns(svc, v, typeName)
      case (CollectionField(_, ty), Plain(v)) => CollectionReturns(svc, v, ty)
      case (EnumField(_), Plain(v)) => true
      case _ => false
  }

  /** Some property of the entity is sent under the name that marks a link as not expanded. */
  predicate SendsDeferred(svc: Service, t: Tree, api: string) {
    exists k | k in t.props && svc.snake(k) in svc.SchemaOf(api) ::
      svc.SchemaOf(api)[svc.snake(k)].fieldName == DEFERRED
  }

  /** Known keys with returning values; custom fields that clash with nothing. */
  predicate TreeReturns(svc: Service, t: Tree, api: string)
    decreases t, 1
  {
    var schema := svc.SchemaOf(api);
    && (forall k | k in t.props ::
          && svc.snake(k) in schema
          && svc.PropName(schema[svc.snake(k)]) == k
          && FieldReturns(svc, schema[svc.snake(k)], t.props[k]))
    && t.custom.Keys !! svc.FieldNames(api) + {METADATA, DEFERRED}
  }

  ghost predicate FieldComesBack(svc: Service, f: Field, p: TreeProp)
    requires svc.SchemasCoherent()
  {
    var s := SerializeField(svc, f, p);
    s.Ok? && !s.value.Undefined? && DeserializeField(svc, s.value, f) == Ok(p)
  }

  ghost predicate TreeComesBack(svc: Service, t: Tree, api: string)
    requires svc.SchemasCoherent()
  {
    var s := SerializeTree(svc, t, api);
    s.Ok? && DeserializeTree(svc, s.value, api) == Ok(t)
  }

  /** A key that finds a field finds the one it is the property name of. */
  ghost predicate Keyed(svc: Service, t: Tree, api: string) {
    var schema := svc.SchemaOf(api);
    forall k | k in t.props && svc.snake(k) in schema :: svc.PropName(schema[svc.snake(k)]) == k
  }

  /** A field is found again under the name it is sent by, so distinct keys are sent by distinct names. */
  lemma SentField(svc: Service, t: Tree, k: string, api: string)
    requires svc.SchemasCoherent() && Keyed(svc, t, api) && KeysSerialize(svc, t, api)
    requires k in t.props && svc.snake(k) in svc.SchemaOf(api)
    ensures var n, v := svc.SchemaOf(api)[svc.snake(k)].fieldName, SerializeKey(svc, t, k, api).value;
            && (v.Undefined? <==> n !in SentFields(svc, t, api))
            && (!v.Undefined? ==> SentFields(svc, t, api)[n] == v)
  {
    var schema := svc.SchemaOf(api);
    var n := schema[svc.snake(k)].fieldName;
    assert svc.camel(n) == k;
    if n in SentFields(svc, t, api) {
      assert svc.camel(n) == Sender(svc, t, n, api);
    }
  }

  lemma SentNamesAreFieldNames(svc: Service, t: Tree, api: string)
    requires svc.SchemasCoherent() && Keyed(svc, t, api) && KeysSerialize(svc, t, api)
    ensures SentFields(svc, t, api).Keys <= svc.FieldNames(api)
  {
  }

  lemma {:induction false} FieldRoundTrip(svc: Service, f: Field, p: TreeProp)
    requires svc.SchemasCoherent() && svc.TypesCoherent()
    ensures FieldReturns(svc, f, p) <==> FieldComesBack(svc, f, p)
    decreases p, 0
  {
    if !IsNullishProp(p) {
      match (f, p)
      case (OneToOneLink(_, linked), One(t)) =>
        TreeRoundTrip(svc, t, linked);
        SingleLinkRoundTrip(svc, t, linked);
      case (ManyLink(_, linked), Many(ts)) =>
        forall i | 0 <= i < |ts| ensures TreeReturns(svc, ts[i], linked) <==> TreeComesBack(svc, ts[i], linked) {
          TreeRoundTrip(svc, ts[i], linked);
        }
        MultiLinkRoundTrip(svc, f, ts);
      case (ComplexField(_, typeName), Plain(v)) => ComplexRoundTrip(svc, v, typeName);
      case (CollectionField(_, ty), Plain(v)) => CollectionRoundTrip(svc, v, ty);
      case _ =>
    }
  }

  lemma SingleLinkRoundTrip(svc: Service, t: Tree, linked: string)
    requires svc.SchemasCoherent()
    requires TreeReturns(svc, t, linked) <==> TreeComesBack(svc, t, linked)
    ensures TreeReturns(svc, t, linked) && !SendsDeferred(svc, t, linked) <==>
            var s := SerializeTree(svc, t, linked);
            s.Ok? && DeserializeSingleLink(svc, s.value, linked) == Ok(One(t))
  {
    var s := SerializeTree(svc, t, linked);
    if s.Ok? && TreeReturns(svc, t, linked) {
      var schema := svc.SchemaOf(linked);
      forall k | k in t.props ensures schema[svc.snake(k)].fieldName in SentFields(svc, t, linked) {
        SentField(svc, t, k, linked);
        PropertyIsSent(svc, t, k, linked);
      }
      var sent := SentFields(svc, t, linked);
      assert OwnFields(s.value) == sent + t.custom && DEFERRED !in t.custom;
      if DEFERRED in sent {
        var k :| k in t.props && schema[svc.snake(k)].fieldName == DEFERRED;
        assert SendsDeferred(svc, t, linked);
      }
    }
  }

  /** In an entity that comes back, every property is sent. */
  lemma PropertyIsSent(svc: Service, t: Tree, k: string, api: string)
    requires svc.SchemasCoherent() && Keyed(svc, t, api) && KeysSerialize(svc, t, api)
    requires TreeComesBack(svc, t, api) && TreeReturns(svc, t, api) && k in t.props
    ensures !SerializeKey(svc, t, k, api).value.Undefined?
  {
    SentField(svc, t, k, api);
  }

  lemma MultiLinkRoundTrip(svc: Service, f: Field, ts: seq<Tree>)
    requires svc.SchemasCoherent() && f.ManyLink?
    requires forall i | 0 <= i < |ts| :: TreeReturns(svc, ts[i], f.linkedApi) <==>
             TreeComesBack(svc, ts[i], f.linkedApi)
    ensures FieldReturns(svc, f, Many(ts)) <==> FieldComesBack(svc, f, Many(ts))
  {
    var linked := f.linkedApi;
    var s := SerializeField(svc, f, Many(ts));
    var cells := seq(|ts|, i requires 0 <= i < |ts| => SerializeTree(svc, ts[i], linked));
    assert s == Sequence(cells);
    assert forall i | 0 <= i < |ts| :: cells[i] == SerializeTree(svc, ts[i], linked);
    if s.Ok? {
      var items := s.value.items;
      assert |items| == |ts| && forall i | 0 <= i < |ts| :: items[i] == SerializeTree(svc, ts[i], linked).value;
      assert LinkedResults(svc.version, s.value) == items;
      var d := DeserializeMultiLink(svc, s.value, linked);
      assert DeserializeField(svc, s.value, f) == d;
      if d.Ok? {
        assert d.value.Many? && |d.value.trees| == |ts|;
        assert d.value.trees == ts <==> forall i | 0 <= i < |ts| :: d.value.trees[i] == ts[i];
      }
    }
  }

  lemma {:induction false} TreeRoundTrip(svc: Service, t: Tree, api: string)
    requires svc.SchemasCoherent() && svc.TypesCoherent()
    ensures TreeReturns(svc, t, api) <==> TreeComesBack(svc, t, api)
    decreases t, 1
  {
    var schema := svc.SchemaOf(api);
    forall k | k in t.props && svc.snake(k) in schema
      ensures FieldReturns(svc, schema[svc.snake(k)], t.props[k]) <==>
              FieldComesBack(svc, schema[svc.snake(k)], t.props[k])
    {
      FieldRoundTrip(svc, schema[svc.snake(k)], t.props[k]);
    }
    if TreeReturns(svc, t, api) { ReturningTreeComesBack(svc, t, api); }
    if TreeComesBack(svc, t, api) { ComingBackTreeReturns(svc, t, api); }
  }

  ghost predicate FieldsRoundTrip(svc: Service, t: Tree, api: string)
    requires svc.SchemasCoherent()
  {
    var schema := svc.SchemaOf(api);
    forall k | k in t.props && svc.snake(k) in schema ::
      FieldReturns(svc, schema[svc.snake(k)], t.props[k]) <==> FieldComesBack(svc, schema[svc.snake(k)], t.props[k])
  }

  lemma ReturningTreeComesBack(svc: Service, t: Tree, api: string)
    requires svc.SchemasCoherent() && Keyed(svc, t, api) && FieldsRoundTrip(svc, t, api)
    requires TreeReturns(svc, t, api)
    ensures TreeComesBack(svc, t, api)
  {
    AllKeysSerialize(svc, t, api);
    PartsComeBack(svc, t, api);
    DeserializedFromParts(svc, SerializeTree(svc, t, api).value, api, t);
  }

  lemma PartsComeBack(svc: Service, t: Tree, api: string)
    requires svc.SchemasCoherent() && Keyed(svc, t, api) && FieldsRoundTrip(svc, t, api)
    requires TreeReturns(svc, t, api) && KeysSerialize(svc, t, api)
    ensures var json := SerializeTree(svc, t, api).value;
            && SelectedProps(svc, json, api) == t.props.Keys && CustomFieldsOf(svc, json, api) == t.custom
            && forall k | k in t.props :: PropFrom(svc, json, api, k) == Ok(t.props[k])
  {
    EveryPropertyReadsBack(svc, t, api);
    SelectsOnlySent(svc, t, api);
    CustomFieldsSurvive(svc, t, api);
  }

  lemma EveryPropertyReadsBack(svc: Service, t: Tree, api: string)
    requires svc.SchemasCoherent() && Keyed(svc, t, api) && FieldsRoundTrip(svc, t, api)
    requires TreeReturns(svc, t, api) && KeysSerialize(svc, t, api)
    ensures var json := SerializeTree(svc, t, api).value;
            forall k | k in t.props ::
              k in SelectedProps(svc, json, api) && PropFrom(svc, json, api, k) == Ok(t.props[k])
  {
    var json := SerializeTree(svc, t, api).value;
    forall k | k in t.props
      ensures k in SelectedProps(svc, json, api) && PropFrom(svc, json, api, k) == Ok(t.props[k])
    {
      ReadsBack(svc, t, k, api);
    }
  }

  lemma AllKeysSerialize(svc: Service, t: Tree, api: string)
    requires svc.SchemasCoherent() && Keyed(svc, t, api) && FieldsRoundTrip(svc, t, api)
    requires TreeReturns(svc, t, api)
    ensures KeysSerialize(svc, t, api)
  {
    forall k | k in t.props ensures SerializeKey(svc, t, k, api).Ok? {
      assert FieldComesBack(svc, svc.SchemaOf(api)[svc.snake(k)], t.props[k]);
    }
  }

  lemma CustomFieldsSurvive(svc: Service, t: Tree, api: string)
    requires svc.SchemasCoherent() && Keyed(svc, t, api) && KeysSerialize(svc, t, api)
    requires t.custom.Keys !! svc.FieldNames(api) + {METADATA, DEFERRED}
    ensures CustomFieldsOf(svc, SerializeTree(svc, t, api).value, api) == t.custom
  {
    SentNamesAreFieldNames(svc, t, api);
  }

  /** Deserialisation goes wrong, or right, field by field. */
  lemma DeserializedFromParts(svc: Service, json: Value, api: string, t: Tree)
    requires svc.SchemasCoherent() && !IsNullish(json)
    ensures DeserializeTree(svc, json, api) == Ok(t) <==>
            && SelectedProps(svc, json, api) == t.props.Keys
            && CustomFieldsOf(svc, json, api) == t.custom
            && forall k | k in SelectedProps(svc, json, api) ::
                k in t.props && PropFrom(svc, json, api, k) == Ok(t.props[k])
  {
    var cells := SelectedCells(svc, json, api);
    CollectedIs(cells, t.props);
    assert DeserializeTree(svc, json, api) ==
      if Collected(cells).Ok? then Ok(Tree(Collected(cells).value, CustomFieldsOf(svc, json, api))) else Thrown;
  }

  lemma CollectedIs<T>(cells: map<string, Outcome<T>>, m: map<string, T>)
    ensures Collected(cells) == Ok(m) <==>
            cells.Keys == m.Keys && forall k | k in cells :: k in m && cells[k] == Ok(m[k])
  {
    if cells.Keys == m.Keys && forall k | k in cells :: k in m && cells[k] == Ok(m[k]) {
      assert Collected(cells).value == m;
    }
  }

  lemma SelectsOnlySent(svc: Service, t: Tree, api: string)
    requires svc.SchemasCoherent() && Keyed(svc, t, api) && KeysSerialize(svc, t, api)
    requires TreeReturns(svc, t, api)
    ensures SelectedProps(svc, SerializeTree(svc, t, api).value, api) <= t.props.Keys
  {
    var schema, json := svc.SchemaOf(api), SerializeTree(svc, t, api).value;
    forall s | s in SelectedFields(svc, json, api) ensures svc.PropName(schema[s]) in t.props {
      assert schema[s].fieldName in svc.FieldNames(api);
      assert schema[s].fieldName in SentFields(svc, t, api);
    }
  }

  lemma ReadsBack(svc: Service, t: Tree, k: string, api: string)
    requires svc.SchemasCoherent() && Keyed(svc, t, api) && KeysSerialize(svc, t, api)
    requires k in t.props && svc.snake(k) in svc.SchemaOf(api)
    requires FieldComesBack(svc, svc.SchemaOf(api)[svc.snake(k)], t.props[k])
    requires t.custom.Keys !! svc.FieldNames(api)
    ensures var f, json := svc.SchemaOf(api)[svc.snake(k)], SerializeTree(svc, t, api).value;
            && f.fieldName in OwnFields(json)
            && svc.snake(k) in SelectedFields(svc, json, api)
            && k in SelectedProps(svc, json, api)
            && PropFrom(svc, json, api, k) == Ok(t.props[k])
  {
    var f, json := svc.SchemaOf(api)[svc.snake(k)], SerializeTree(svc, t, api).value;
    SentField(svc, t, k, api);
    assert f.fieldName in svc.FieldNames(api);
    assert svc.snake(k) in SelectedFields(svc, json, api);
  }

  lemma ComingBackTreeReturns(svc: Service, t: Tree, api: string)
    requires svc.SchemasCoherent() && FieldsRoundTrip(svc, t, api)
    requires TreeComesBack(svc, t, api)
    ensures TreeReturns(svc, t, api)
  {
    var json := SerializeTree(svc, t, api).value;
    DeserializedFromParts(svc, json, api, t);
    forall k | k in t.props
      ensures k in SelectedProps(svc, json, api) && PropFrom(svc, json, api, k) == Ok(t.props[k])
    {
    }
    SelectedIsKeyed(svc, json, t, api);
    forall k | k in t.props
      ensures svc.snake(k) in svc.SchemaOf(api) && svc.PropName(svc.SchemaOf(api)[svc.snake(k)]) == k
      ensures FieldReturns(svc, svc.SchemaOf(api)[svc.snake(k)], t.props[k])
    {
      PropertyReturnsBack(svc, t, k, api);
    }
  }

  /** The properties read from a payload are named after their fields. */
  lemma SelectedIsKeyed(svc: Service, json: Value, t: Tree, api: string)
    requires svc.SchemasCoherent() && t.props.Keys <= SelectedProps(svc, json, api)
    ensures Keyed(svc, t, api)
  {
    var schema := svc.SchemaOf(api);
    forall k | k in t.props ensures svc.snake(k) in schema && svc.PropName(schema[svc.snake(k)]) == k {
      var s :| s in SelectedFields(svc, json, api) && svc.PropName(schema[s]) == k;
    }
  }

  lemma PropertyReturnsBack(svc: Service, t: Tree, k: string, api: string)
    requires svc.SchemasCoherent() && Keyed(svc, t, api) && FieldsRoundTrip(svc, t, api) && KeysSerialize(svc, t, api)
    requires var json := SerializeTree(svc, t, api).value;
             && CustomFieldsOf(svc, json, api) == t.custom
             && k in t.props && k in SelectedProps(svc, json, api) && PropFrom(svc, json, api, k) == Ok(t.props[k])
    ensures svc.snake(k) in svc.SchemaOf(api) && svc.PropName(svc.SchemaOf(api)[svc.snake(k)]) == k
    ensures FieldReturns(svc, svc.SchemaOf(api)[svc.snake(k)], t.props[k])
  {
    var schema, json := svc.SchemaOf(api), SerializeTree(svc, t, api).value;
    var s :| s in SelectedFields(svc, json, api) && svc.PropName(schema[s]) == k;
    var n := schema[s].fieldName;
    assert n in svc.FieldNames(api) && n !in t.custom;
    SentField(svc, t, k, api);
    assert OwnFields(json)[n] == SerializeKey(svc, t, k, api).value;
    assert FieldComesBack(svc, schema[s], t.props[k]);
  }

  // ---- Keys without a field, and nulls ----

  /** A property that no field is found for is skipped, but sending it throws if it is null or undefined. */
  lemma UnknownKeyIsSkipped(svc: Service, t: Tree, k: string, api: string)
    requires k in t.props && svc.snake(k) !in svc.SchemaOf(api)
    ensures var rest := Tree(t.props - {k}, t.custom);
            if t.props[k] in {Plain(Null), Plain(Undefined)} then SerializeTree(svc, t, api).Thrown?
            else
              && (KeysSerialize(svc, t, api) <==> KeysSerialize(svc, rest, api))
              && (KeysSerialize(svc, t, api) ==> SentNames(svc, t, api) == SentNames(svc, rest, api))
  {
    var rest := Tree(t.props - {k}, t.custom);
    forall j | j in rest.props ensures SerializeKey(svc, rest, j, api) == SerializeKey(svc, t, j, api) {}
    assert forall j | j in t.props :: j == k || j in rest.props;
    if IsNullishProp(t.props[k]) {
      assert SerializeKey(svc, t, k, api).Thrown?;
    } else {
      assert SerializeKey(svc, t, k, api) == Ok(Undefined);
    }
  }

  /** With the default converters a property that is null comes back, and one that is undefined comes back as null. */
  lemma NullPropertyComesBack(svc: Service, f: Field, raw: (Value, string) -> Outcome<Value>)
    requires svc.SchemasCoherent() && f.EdmField? && svc.toTs == WrapDeserialize(raw)
    ensures FieldComesBack(svc, f, Plain(Null)) && !FieldComesBack(svc, f, Plain(Undefined))
    ensures SerializeField(svc, f, Plain(Undefined)) == Ok(Null)
  {
  }

  // ---- Every member of a payload is accounted for ----

  lemma {:induction false} ImageSize(names: set<string>, f: string -> string)
    requires forall m, n | m in names && n in names && f(m) == f(n) :: m == n
    ensures |set n | n in names :: f(n)| == |names|
  {
    if names != {} {
      var n :| n in names;
      ImageSize(names - {n}, f);
      assert (set m | m in names :: f(m)) == (set m | m in names - {n} :: f(m)) + {f(n)};
    }
  }

  /**
   A member of the payload becomes exactly one property, or one unchanged custom field, or is one of the
   two protocol entries that are dropped; and nothing else appears in the entity.
   */
  lemma MembersConserved(svc: Service, json: Value, api: string)
    requires svc.SchemasCoherent() && DeserializeTree(svc, json, api).Ok?
    ensures var t, own, known := DeserializeTree(svc, json, api).value, OwnFields(json), svc.FieldNames(api);
            && (forall n | n in own && n in known :: svc.camel(n) in t.props && n !in t.custom)
            && (forall m, n | m in own && n in own && m in known && n in known && svc.camel(m) == svc.camel(n) ::
                  m == n)
            && (forall n | n in own && n !in known ::
                  if n == METADATA || n == DEFERRED then n !in t.custom else n in t.custom && t.custom[n] == own[n])
            && (forall k | k in t.props :: exists n | n in own && n in known :: svc.camel(n) == k)
            && (forall c | c in t.custom :: c in own && c !in known)
  {
    PropsFromNames(svc, json, api);
    DeserializedFromParts(svc, json, api, DeserializeTree(svc, json, api).value);
    var t, own, known := DeserializeTree(svc, json, api).value, OwnFields(json), svc.FieldNames(api);
    var names := own.Keys * known;
    assert t.props.Keys == set n | n in names :: svc.camel(n);
    forall k | k in t.props ensures exists n | n in own && n in known :: svc.camel(n) == k {
      var n :| n in names && svc.camel(n) == k;
    }
  }

  /** So no member is lost or made up: the counts agree. */
  lemma MembersCounted(svc: Service, json: Value, api: string)
    requires svc.SchemasCoherent() && DeserializeTree(svc, json, api).Ok?
    ensures var t, own := DeserializeTree(svc, json, api).value, OwnFields(json);
            |own| == |t.props| + |t.custom| + |own.Keys * ({METADATA, DEFERRED} - svc.FieldNames(api))|
  {
    PropsFromNames(svc, json, api);
    var t, own, known := DeserializeTree(svc, json, api).value, OwnFields(json), svc.FieldNames(api);
    DeserializedFromParts(svc, json, api, t);
    ImageSize(own.Keys * known, svc.camel);
    CountMembers(own.Keys, known, {METADATA, DEFERRED});
    assert t.custom.Keys == own.Keys - (known + {METADATA, DEFERRED});
    assert |own| == |own.Keys| && |t.props| == |t.props.Keys| && |t.custom| == |t.custom.Keys|;
  }

  lemma CountMembers(own: set<string>, known: set<string>, reserved: set<string>)
    ensures |own| == |own * known| + |own - (known + reserved)| + |own * (reserved - known)|
  {
    assert own == own * known + (own - (known + reserved)) + own * (reserved - known);
  }

  lemma PropsFromNames(svc: Service, json: Value, api: string)
    requires svc.SchemasCoherent()
    ensures var names := OwnFields(json).Keys * svc.FieldNames(api);
            && SelectedProps(svc, json, api) == (set n | n in names :: svc.camel(n))
            && forall m, n | m in names && n in names && svc.camel(m) == svc.camel(n) :: m == n
  {
    var names, schema := OwnFields(json).Keys * svc.FieldNames(api), svc.SchemaOf(api);
    forall n | n in svc.FieldNames(api)
      ensures svc.snake(svc.camel(n)) in schema && schema[svc.snake(svc.camel(n))].fieldName == n
    {
      var s :| s in schema && schema[s].fieldName == n;
    }
    forall n | n in names ensures svc.camel(n) in SelectedProps(svc, json, api) {
      assert svc.snake(svc.camel(n)) in SelectedFields(svc, json, api);
    }
    forall k | k in SelectedProps(svc, json, api) ensures exists n | n in names :: svc.camel(n) == k {
      var s :| s in SelectedFields(svc, json, api) && svc.PropName(schema[s]) == k;
      assert schema[s].fieldName in names;
    }
  }
}
