/** Entity schemas, complex type metadata and the converters a service is generated with. */
module Schema {
  import opened Values

  datatype Version = V2 | V4

  /** The type of a property value: an EDM primitive, a complex type of the service or an enumeration. */
  datatype TypeRef = Edm(edm: string) | Complex(typeName: string) | Enum

  datatype PropertyMeta = PropertyMeta(name: string, originalName: string, ty: TypeRef, isCollection: bool)

  datatype Field =
    | EdmField(fieldName: string, edm: string)
    | OneToOneLink(fieldName: string, linkedApi: string)
    | ManyLink(fieldName: string, linkedApi: string)
    | ComplexField(fieldName: string, typeName: string)
    | CollectionField(fieldName: string, itemType: TypeRef)
    | EnumField(fieldName: string)
  {
    predicate IsLink() { OneToOneLink? || ManyLink? }
  }

  /** Fields by static name, such as `STRING_PROPERTY`. */
  type Schema = map<string, Field>

  /**
   A service: its entity schemas and complex types refer to one another by name and may be cyclic.
   `camel` and `snake` are the case conversions, `toTs` and `toEdm` the value converters.
   */
  datatype Service = Service(
    version: Version,
    apis: map<string, Schema>,
    types: map<string, seq<PropertyMeta>>,
    camel: string -> string,
    snake: string -> string,
    toTs: (Value, string) -> Outcome<Value>,
    toEdm: (Value, string) -> Outcome<Value>)
  {
    function SchemaOf(api: string): Schema {
      if api in apis then apis[api] else map[]
    }

    function MetaOf(typeName: string): seq<PropertyMeta> {
      if typeName in types then types[typeName] else []
    }

    /** The property name an entity instance uses for a field. */
    function PropName(f: Field): string {
      camel(f.fieldName)
    }

    function FieldNames(api: string): set<string> {
      var schema := SchemaOf(api);
      set s | s in schema :: schema[s].fieldName
    }

    /** A navigation property is a key whose static name is that of a link. */
    predicate IsNavigationProperty(key: string, api: string) {
      snake(key) in SchemaOf(api) && SchemaOf(api)[snake(key)].IsLink()
    }

    /** The lookup of a field by a property name finds the field the property was named after. */
    ghost predicate SchemasCoherent() {
      forall api, s | api in apis && s in apis[api] :: snake(camel(apis[api][s].fieldName)) == s
    }

    /** Camel case applied twice is camel case applied once. */
    ghost predicate CamelIdempotent() {
      forall s :: camel(camel(s)) == camel(s)
    }

    /** Within a complex type, names and original names are unambiguous. */
    ghost predicate TypesCoherent() {
      forall t | t in types ::
        forall i, j | 0 <= i < j < |types[t]| ::
          types[t][i].name != types[t][j].name && types[t][i].originalName != types[t][j].originalName
    }
  }

  /** The null and undefined handling that the default deserializers are wrapped with. */
  function WrapDeserialize(raw: (Value, string) -> Outcome<Value>): (Value, string) -> Outcome<Value> {
    (v: Value, edm: string) => if IsNullish(v) then Ok(v) else raw(v, edm)
  }

  /** The null handling that the default serializers are wrapped with. */
  function WrapSerialize(raw: (Value, string) -> Outcome<Value>): (Value, string) -> Outcome<Value> {
    (v: Value, edm: string) => if v.Null? then Ok(Str("null")) else raw(v, edm)
  }
}
