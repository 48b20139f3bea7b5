/** The shapes of the resource browser's data: the JSON-Schema fragments of a
    CRD's spec and status, and the catalog of resources and their versions. */
module Structure {
  import opened Wrappers

  // ---------------------------------------------------------------- JSON values

  /** A JSON value, as found in a schema field's `default`. Numbers are
      integers here: the browser only displays them. */
  datatype Json =
    | JNull
    | JBool(b: bool)
    | JNumber(n: int)
    | JString(s: string)
    | JArray(elems: seq<Json>)
    | JObject(fields: map<string, Json>)

  // ---------------------------------------------------------------- schemas

  /** The `type` discriminant of a schema. */
  datatype JsonType = StringType | IntegerType | NumberType | BooleanType | ObjectType | ArrayType

  /** The types a primitive schema may have: every JSON type but object and array. */
  type PrimitiveType = t: JsonType | t != ObjectType && t != ArrayType witness StringType

  /** The `type` names as they appear in a schema document. */
  function TypeName(t: JsonType): (name: string)
    ensures name != ""
  {
    match t
    case StringType => "string"
    case IntegerType => "integer"
    case NumberType => "number"
    case BooleanType => "boolean"
    case ObjectType => "object"
    case ArrayType => "array"
  }

  /** The optional display metadata that every schema variant may carry. */
  datatype Meta = Meta(
    description: Option<string>,
    default: Option<Json>,
    format: Option<string>,
    enum: Option<seq<string>>,
    minimum: Option<int>,
    maximum: Option<int>)

  /** A schema is exactly one of an object (named properties and an optional
      list of required names), an array (one `items` schema, itself of any
      variant) or a primitive. */
  datatype Schema =
    | ObjectSchema(meta: Meta, properties: map<string, Schema>, required: Option<seq<string>>)
    | ArraySchema(meta: Meta, items: Schema)
    | PrimitiveSchema(meta: Meta, primitive: PrimitiveType)
  {
    /** The `type` field: it tells the three variants apart, and a primitive
        never has type object or array. */
    function Type(): (t: JsonType)
      ensures t == ObjectType <==> ObjectSchema?
      ensures t == ArrayType <==> ArraySchema?
      ensures PrimitiveSchema? ==> t == primitive
    {
      match this
      case ObjectSchema(_, _, _) => ObjectType
      case ArraySchema(_, _) => ArrayType
      case PrimitiveSchema(_, p) => p
    }
  }

  // ---------------------------------------------------------------- catalog

  /** One declared version of a resource. */
  datatype CrdVersion = CrdVersion(name: string, deprecated: bool, appVersion: string)

  /** A resource with its group, kind and declared versions. */
  datatype CrdResource = CrdResource(name: string, group: string, kind: string, versions: seq<CrdVersion>)

  /** The catalog: a group key to the resources of that group. */
  type CrdVersionsMap = map<string, seq<CrdResource>>
}
