/** The parsed protobuf types that schema generation and the source printer read. */
module ProtoTypes {
  import opened Wrappers
  import opened Dotted

  /**
   * One field. `keyType` is present exactly for a map field. `partOf` is the oneof holding it.
   * `resolvedFullName` is the full name of the resolved type when the parser resolved one.
   */
  datatype Field = Field(
    name: string,
    ty: string,
    id: int,
    repeated: bool,
    keyType: Option<string>,
    partOf: Option<string>,
    resolvedFullName: Option<string>)

  datatype Oneof = Oneof(name: string, members: seq<string>)

  datatype Enum = Enum(name: string, values: seq<(string, int)>)

  datatype Message = Message(
    name: string,
    fullName: string,
    fields: seq<Field>,
    oneofs: seq<Oneof>,
    nested: seq<Decl>)

  /** A declaration nested in a message; other kinds of nested objects are never printed or resolved. */
  datatype Decl = MessageDecl(message: Message) | EnumDecl(enum: Enum) | OtherDecl(otherName: string)

  /**
   * The parsed root, seen through its lookups: `types` is `lookupType`, `enums` is `lookupEnum`,
   * and `insideMessage` holds the names for which the untyped `lookup` finds an object whose
   * parent is a message.
   */
  datatype Root = Root(types: map<string, Message>, enums: map<string, Enum>, insideMessage: set<string>)

  /** Comments collected from the sources; absent and empty comments are both falsy. */
  datatype Comments = Comments(fields: map<string, string>, messages: map<string, string>)

  function NonEmpty(m: map<string, string>, key: string): Option<string> {
    if key in m && m[key] != "" then Some(m[key]) else None
  }

  function FieldComment(comments: Comments, fieldName: string, parentName: string): Option<string> {
    var direct := NonEmpty(comments.fields, parentName + "." + fieldName);
    if direct.None? && HasDot(parentName)
    then NonEmpty(comments.fields, LastComponent(parentName) + "." + fieldName)
    else direct
  }

  function MessageComment(comments: Comments, name: string): Option<string> {
    NonEmpty(comments.messages, name)
  }

  // --- Scalar types ---

  predicate IsNumeric(ty: string) {
    ty in {"double", "float", "int32", "int64", "uint32", "uint64", "sint32", "sint64",
           "fixed32", "fixed64", "sfixed32", "sfixed64"}
  }

  predicate IsBuiltin(ty: string) {
    IsNumeric(ty) || ty in {"bool", "string", "bytes"}
  }

  // --- Lookups ---

  predicate StartsWith(s: string, prefix: string) {
    prefix <= s
  }

  /** A field written `optional`: proto3 puts it alone in a oneof whose name starts with an underscore. */
  predicate ExplicitlyOptional(f: Field) {
    f.partOf.Some? && StartsWith(f.partOf.value, "_")
  }

  function DeclName(d: Decl): string {
    match d
    case MessageDecl(m) => m.name
    case EnumDecl(e) => e.name
    case OtherDecl(n) => n
  }

  /** `nested[name]`: declarations are keyed by name, so the last one with that name is the one found. */
  function FindNested(nested: seq<Decl>, name: string): Option<Decl> {
    if nested == [] then None
    else
      var last := nested[|nested| - 1];
      if DeclName(last) == name then Some(last) else FindNested(nested[..|nested| - 1], name)
  }

  /** Fields are keyed by name: no two share one. */
  predicate KeyedByName(fields: seq<Field>) {
    forall i, j :: 0 <= i < j < |fields| ==> fields[i].name != fields[j].name
  }

  /** `type.fields[name]`: fields are keyed by name, so the last one with that name is the one found. */
  function FindField(fields: seq<Field>, name: string): Option<Field> {
    if fields == [] then None
    else if fields[|fields| - 1].name == name then Some(fields[|fields| - 1])
    else FindField(fields[..|fields| - 1], name)
  }

  function WithoutLeadingDot(s: string): string {
    if StartsWith(s, ".") then s[1..] else s
  }

  /** The reference string that schema generation resolves for a field of message `m`. */
  function ReferenceOf(m: Message, f: Field): string {
    var resolved := if f.resolvedFullName.Some? then WithoutLeadingDot(f.resolvedFullName.value) else "";
    var reference := if resolved != "" then resolved else f.ty;
    if f.resolvedFullName.None? && !HasDot(f.ty) then
      match FindNested(m.nested, f.ty)
      case Some(MessageDecl(inner)) => WithoutLeadingDot(inner.fullName)
      case _ => reference
    else reference
  }
}
