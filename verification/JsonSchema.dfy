/** The JSON Schema values produced for message types. */
module JsonSchema {
  import opened Wrappers

  /**
   * `Ref(d)` stands for `{ $ref: '#/definitions/d' }`. An absent `required` list is the empty one:
   * the generator leaves the key out exactly when the list is empty.
   */
  datatype Schema =
    | Ref(definition: string, description: Option<string>)
    | ArrayOf(items: Schema, description: Option<string>)
    | Primitive(jsonType: string, format: Option<string>, enumValues: Option<seq<string>>,
                description: Option<string>, protoSource: Option<string>)
    | Object(properties: map<string, Schema>, required: seq<string>,
             description: Option<string>, protoSource: Option<string>)
    | MapOf(values: Schema, description: Option<string>)

  /** A generated root schema: the `definitions` key is left out when there are none. */
  datatype RootSchema = RootSchema(schema: Schema, definitions: Option<map<string, Schema>>) {
    function Definitions(): map<string, Schema> {
      if definitions.Some? then definitions.value else map[]
    }
  }

  const EMPTY_OBJECT := Object(map[], [], None, None)

  function Plain(jsonType: string): Schema {
    Primitive(jsonType, None, None, None, None)
  }

  function Described(jsonType: string, description: string): Schema {
    Primitive(jsonType, None, None, Some(description), None)
  }

  /** Scalar protobuf types and their JSON counterparts. */
  function ScalarSchema(ty: string): Option<Schema> {
    match ty
    case "double" => Some(Plain("number"))
    case "float" => Some(Plain("number"))
    case "int32" => Some(Plain("integer"))
    case "int64" => Some(Plain("integer"))
    case "uint32" => Some(Plain("integer"))
    case "uint64" => Some(Plain("integer"))
    case "sint32" => Some(Plain("integer"))
    case "sint64" => Some(Plain("integer"))
    case "fixed32" => Some(Plain("integer"))
    case "fixed64" => Some(Plain("integer"))
    case "sfixed32" => Some(Plain("integer"))
    case "sfixed64" => Some(Plain("integer"))
    case "bool" => Some(Plain("boolean"))
    case "string" => Some(Plain("string"))
    case "bytes" => Some(Primitive("string", Some("byte"), None, None, None))
    case _ => None
  }

  /** A schema without references and without much nesting. */
  predicate Flat(s: Schema) {
    match s
    case Primitive(_, _, _, _, _) => true
    case Object(properties, _, _, _) => forall k :: k in properties ==> properties[k].Primitive?
    case ArrayOf(items, _) => items == EMPTY_OBJECT
    case _ => false
  }

  /** Schemas for google types that no loaded file declares. */
  function WellKnownSchema(reference: string): (r: Option<Schema>)
    ensures r.Some? ==> Flat(r.value)
  {
    match reference
    case "google.protobuf.Timestamp" =>
      Some(Primitive("string", Some("date-time"), None, Some("RFC 3339 formatted timestamp"), None))
    case "google.protobuf.Duration" =>
      Some(Described("string", "Duration in seconds with up to 9 fractional digits, e.g. \"3.5s\""))
    case "google.protobuf.Empty" => Some(EMPTY_OBJECT)
    case "google.protobuf.Any" =>
      Some(Object(map["@type" := Described("string", "Type URL of the serialized message")], [],
                  Some("Arbitrary serialized protocol buffer message"), None))
    case "google.protobuf.Struct" => Some(Object(map[], [], Some("JSON object"), None))
    case "google.protobuf.Value" => Some(Object(map[], [], Some("Represents any JSON value"), None))
    case "google.protobuf.ListValue" => Some(ArrayOf(EMPTY_OBJECT, Some("JSON array")))
    case "google.protobuf.FieldMask" => Some(Described("string", "Comma-separated list of field paths"))
    case "google.protobuf.BoolValue" => Some(Described("boolean", "Nullable boolean"))
    case "google.protobuf.BytesValue" => Some(Primitive("string", Some("byte"), None, Some("Nullable bytes"), None))
    case "google.protobuf.DoubleValue" => Some(Described("number", "Nullable double"))
    case "google.protobuf.FloatValue" => Some(Described("number", "Nullable float"))
    case "google.protobuf.Int32Value" => Some(Described("integer", "Nullable int32"))
    case "google.protobuf.Int64Value" => Some(Described("integer", "Nullable int64"))
    case "google.protobuf.UInt32Value" => Some(Described("integer", "Nullable uint32"))
    case "google.protobuf.UInt64Value" => Some(Described("integer", "Nullable uint64"))
    case "google.protobuf.StringValue" => Some(Described("string", "Nullable string"))
    case _ => None
  }

  /** What an unresolvable reference becomes. */
  function Fallback(reference: string): Schema {
    WellKnownSchema(reference).GetOr(EMPTY_OBJECT)
  }

  function WithDescription(s: Schema, comment: Option<string>): Schema {
    if comment.Some? then s.(description := comment) else s
  }
}
