/**
 Entities without sharing, as trees: their JSON form, what deserialising it gives back, and which
 entities survive the round trip.
 */
module EntityTrees {
  import opened Values
  import opened Schema
  import opened ComplexTypes

  datatype TreeProp = Plain(v: Value) | One(tree: Tree) | Many(trees: seq<Tree>)

  /** The properties set on an entity, and its custom fields. */
  datatype Tree = Tree(props: map<string, TreeProp>, custom: map<string, Value>)

  const METADATA := "__metadata"
  const DEFERRED := "__deferred"

  // ---- Deserialisation ----

  /** The list of linked entities inside the JSON of a one-to-many link. */
  function LinkedResults(version: Version, data: Value): (items: seq<Value>)
    ensures forall i | 0 <= i < |items| :: items[i] < data
  {
    if version.V2? && data.Obj? && "results" in data.fields && data.fields["results"].Arr?
    then data.fields["results"].items
    else if data.Arr? then data.items
    else []
  }

  function SelectedFields(svc: Service, json: Value, api: string): set<string> {
    var schema := svc.SchemaOf(api);
    set s | s in schema && schema[s].fieldName in OwnFields(json)
  }

  function SelectedProps(svc: Service, json: Value, api: string): set<string> {
    var schema := svc.SchemaOf(api);
    set s | s in SelectedFields(svc, json, api) :: svc.PropName(schema[s])
  }

  /** Everything in the JSON that no field of the schema claims, except the protocol's own entries. */
  function CustomFieldsOf(svc: Service, json: Value, api: string): map<string, Value> {
    OwnFields(json) - (svc.FieldNames(api) + {METADATA, DEFERRED})
  }

  function DeserializeSingleLink(svc: Service, v: Value, linkedApi: string): Outcome<TreeProp>
    requires svc.SchemasCoherent()
    decreases v, 3
  {
    if v.Null? then Ok(Plain(Null))
    else if v.Undefined? then Thrown
    else if DEFERRED in OwnFields(v) then Ok(Plain(Null))
    else
      var t :- DeserializeTree(svc, v, linkedApi);
      Ok(One(t))
  }

  function DeserializeMultiLink(svc: Service, v: Value, linkedApi: string): Outcome<TreeProp>
    requires svc.SchemasCoherent()
    decreases v, 3
  {
    var items := LinkedResults(svc.version, v);
    if forall i | 0 <= i < |items| :: DeserializeTree(svc, items[i], linkedApi).Ok?
    then Ok(Many(seq(|items|, i requires 0 <= i < |items| => DeserializeTree(svc, items[i], linkedApi).value)))
    else Thrown
  }

  function DeserializeField(svc: Service, v: Value, f: Field): Outcome<TreeProp>
    requires svc.SchemasCoherent()
    decreases v, 4
  {
    match f
    case EdmField(_, edm) => var d :- svc.toTs(v, edm); Ok(Plain(d))
    case OneToOneLink(_, linked) => DeserializeSingleLink(svc, v, linked)
    case ManyLink(_, linked) => DeserializeMultiLink(svc, v, linked)
    case ComplexField(_, typeName) =>
      if Truthy(v) then var d :- DeserializeComplex(svc, v, typeName); Ok(Plain(d)) else Ok(Plain(v))
    case CollectionField(_, ty) => var d :- DeserializeCollection(svc, v, ty); Ok(Plain(d))
    case EnumField(_) => Ok(Plain(v))
  }

  /** What a selected property is read as. */
  function PropFrom(svc: Service, json: Value, api: string, k: string): Outcome<TreeProp>
    requires svc.SchemasCoherent() && k in SelectedProps(svc, json, api)
    decreases json, 0
  {
    var f := svc.SchemaOf(api)[svc.snake(k)];
    DeserializeField(svc, OwnFields(json)[f.fieldName], f)
  }

  /** All outcomes together, or the exception of one of them. */
  function Collected<T>(cells: map<string, Outcome<T>>): (r: Outcome<map<string, T>>)
    ensures r.Ok? <==> forall k | k in cells :: cells[k].Ok?
    ensures r.Ok? ==> r.value.Keys == cells.Keys && forall k | k in cells :: cells[k] == Ok(r.value[k])
  {
    if forall k | k in cells :: cells[k].Ok? then Ok(map k | k in cells :: cells[k].value) else Thrown
  }

  function SelectedCells(svc: Service, json: Value, api: string): (cells: map<string, Outcome<TreeProp>>)
    requires svc.SchemasCoherent()
    ensures cells.Keys == SelectedProps(svc, json, api)
    decreases json, 1
  {
    map k | k in SelectedProps(svc, json, api) :: PropFrom(svc, json, api, k)
  }

  function DeserializeTree(svc: Service, json: Value, api: string): Outcome<Tree>
    requires svc.SchemasCoherent()
    decreases json, 2
  {
    if IsNullish(json) then Thrown
    else
      var props :- Collected(SelectedCells(svc, json, api));
      Ok(Tree(props, CustomFieldsOf(svc, json, api)))
  }

  // ---- Serialisation ----

  predicate IsNullishProp(p: TreeProp) {
    p.Plain? && IsNullish(p.v)
  }

  ghost function SerializeField(svc: Service, f: Field, p: TreeProp): Outcome<Value>
    decreases p, 0
  {
    if IsNullishProp(p) then Ok(Null)
    else match (f, p)
      case (EdmField(_, edm), Plain(v)) => svc.toEdm(v, edm)
      case (OneToOneLink(_, linked), One(t)) => SerializeTree(svc, t, linked)
      case (ManyLink(_, linked), Many(ts)) =>
        Sequence(seq(|ts|, i requires 0 <= i < |ts| => SerializeTree(svc, ts[i], linked)))
      case (ComplexField(_, typeName), Plain(v)) => SerializeComplex(svc, v, typeName)
      case (CollectionField(_, ty), Plain(v)) => SerializeCollection(svc, v, ty)
      case (EnumField(_), Plain(v)) => Ok(v)
      case _ => Thrown
  }

  /** What one key contributes; undefined when it is skipped because no field has its name. */
  ghost function SerializeKey(svc: Service, t: Tree, k: string, api: string): Outcome<Value>
    requires k in t.props
    decreases t, 0
  {
    var schema := svc.SchemaOf(api);
    if svc.snake(k) in schema then SerializeField(svc, schema[svc.snake(k)], t.props[k])
    else if IsNullishProp(t.props[k]) then Thrown
    else Ok(Undefined)
  }

  ghost predicate KeysSerialize(svc: Service, t: Tree, api: string)
    decreases t, 1
  {
    forall k | k in t.props :: SerializeKey(svc, t, k, api).Ok?
  }

  ghost function SentNames(svc: Service, t: Tree, api: string): set<string>
    requires KeysSerialize(svc, t, api)
    decreases t, 2
  {
    set k | k in t.props && svc.snake(k) in svc.SchemaOf(api) && !SerializeKey(svc, t, k, api).value.Undefined?
      :: svc.SchemaOf(api)[svc.snake(k)].fieldName
  }

  /** Of several keys sent under one name the last counts, in an order that a tree does not have: any of them. */
  ghost function Sender(svc: Service, t: Tree, n: string, api: string): (k: string)
    requires KeysSerialize(svc, t, api) && n in SentNames(svc, t, api)
    ensures k in t.props && svc.snake(k) in svc.SchemaOf(api) && svc.SchemaOf(api)[svc.snake(k)].fieldName == n
    ensures !SerializeKey(svc, t, k, api).value.Undefined?
    decreases t, 3
  {
    var k :| k in t.props && svc.snake(k) in svc.SchemaOf(api) && !SerializeKey(svc, t, k, api).value.Undefined?
             && svc.SchemaOf(api)[svc.snake(k)].fieldName == n;
    k
  }

  /** The members sent for the properties, by the field name of the service. */
  ghost function SentFields(svc: Service, t: Tree, api: string): (m: map<string, Value>)
    requires KeysSerialize(svc, t, api)
    ensures m.Keys == SentNames(svc, t, api)
    decreases t, 4
  {
    map n | n in SentNames(svc, t, api) :: SerializeKey(svc, t, Sender(svc, t, n, api), api).value
  }

  ghost function SerializeTree(svc: Service, t: Tree, api: string): Outcome<Value>
    decreases t, 5
  {
    if KeysSerialize(svc, t, api) then Ok(Obj(SentFields(svc, t, api) + t.custom)) else Thrown
  }
}
