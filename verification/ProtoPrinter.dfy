/** Printing proto3 source back from parsed types, as `protoSource` of the generated schemas. */
module ProtoPrinter {
  import opened Wrappers
  import opened ProtoTypes
  import opened Text

  /** A field comment on one line: trimmed non-empty lines joined by a marker. */
  function CleanComment(comment: string): string {
    JoinMarked(TrimmedLines(SplitLines(comment)))
  }

  function TrimmedLines(lines: seq<string>): seq<string> {
    if lines == [] then []
    else (if Trim(lines[0]) != "" then [Trim(lines[0])] else []) + TrimmedLines(lines[1..])
  }

  function JoinMarked(lines: seq<string>): string {
    if |lines| == 0 then ""
    else if |lines| == 1 then lines[0]
    else lines[0] + "{{NL}}" + JoinMarked(lines[1..])
  }

  function CommentSuffix(comment: Option<string>): string {
    match comment
    case None => ""
    case Some(c) => " // " + CleanComment(c)
  }

  /** `map<K, V>` or the plain type. */
  function TypePart(f: Field): string {
    if f.keyType.Some? then "map<" + f.keyType.value + ", " + f.ty + ">" else f.ty
  }

  function Modifier(f: Field): string {
    if f.keyType.Some? then ""
    else if f.repeated then "repeated "
    else if ExplicitlyOptional(f) then "optional "
    else ""
  }

  function OneofFieldLine(comments: Comments, f: Field, parentName: string): string {
    TypePart(f) + " " + f.name + " = " + Number(f.id) + ";" + CommentSuffix(FieldComment(comments, f.name, parentName))
  }

  function FieldLine(comments: Comments, f: Field, parentName: string): string {
    Modifier(f) + OneofFieldLine(comments, f, parentName)
  }

  /** The oneofs of the source text: those not made up for the `optional` keyword. */
  function RealOneofs(oneofs: seq<Oneof>): seq<Oneof> {
    if oneofs == [] then []
    else
      var before := RealOneofs(oneofs[..|oneofs| - 1]);
      if StartsWith(oneofs[|oneofs| - 1].name, "_") then before else before + [oneofs[|oneofs| - 1]]
  }

  function InRealOneof(oneofs: seq<Oneof>): set<string> {
    set o, n | o in oneofs && !StartsWith(o.name, "_") && n in o.members :: n
  }

  function CommentLines(comments: Comments, name: string, indent: string): seq<string> {
    match MessageComment(comments, name)
    case None => []
    case Some(c) => [indent + "// " + Trim(c)]
  }

  /** Enum entries ordered by number, equal numbers keeping their order. */
  function SortByNumber(values: seq<(string, int)>): seq<(string, int)> {
    if values == [] then []
    else InsertByNumber(SortByNumber(values[..|values| - 1]), values[|values| - 1])
  }

  function InsertByNumber(sorted: seq<(string, int)>, v: (string, int)): seq<(string, int)> {
    if sorted == [] then [v]
    else if sorted[|sorted| - 1].1 <= v.1 then sorted + [v]
    else InsertByNumber(sorted[..|sorted| - 1], v) + [sorted[|sorted| - 1]]
  }

  function EnumValueLines(values: seq<(string, int)>, indent: string): seq<string> {
    if values == [] then []
    else
      EnumValueLines(values[..|values| - 1], indent)
      + [indent + values[|values| - 1].0 + " = " + Number(values[|values| - 1].1) + ";"]
  }

  function EnumLines(comments: Comments, e: Enum, indent: string): seq<string> {
    CommentLines(comments, e.name, indent)
    + [indent + "enum " + e.name + " {"]
    + EnumValueLines(SortByNumber(e.values), indent + "  ")
    + [indent + "}"]
  }

  function EnumSource(comments: Comments, e: Enum, indent: string): string {
    JoinLines(EnumLines(comments, e, indent))
  }

  function OneofMemberLines(comments: Comments, m: Message, members: seq<string>, indent: string): seq<string> {
    if members == [] then []
    else
      OneofMemberLines(comments, m, members[..|members| - 1], indent)
      + match FindField(m.fields, members[|members| - 1])
        case None => []
        case Some(f) => [indent + OneofFieldLine(comments, f, m.name)]
  }

  function OneofLines(comments: Comments, m: Message, oneofs: seq<Oneof>, indent: string): seq<string> {
    if oneofs == [] then []
    else
      var o := oneofs[|oneofs| - 1];
      OneofLines(comments, m, oneofs[..|oneofs| - 1], indent)
      + [indent + "oneof " + o.name + " {"]
      + OneofMemberLines(comments, m, o.members, indent + "  ")
      + [indent + "}"]
  }

  function PlainFieldLines(comments: Comments, m: Message, fields: seq<Field>, indent: string): seq<string> {
    if fields == [] then []
    else
      var f := fields[|fields| - 1];
      PlainFieldLines(comments, m, fields[..|fields| - 1], indent)
      + if f.name in InRealOneof(m.oneofs) then [] else [indent + FieldLine(comments, f, m.name)]
  }

  /** Nested declarations, each a block of text followed by an empty line. */
  function NestedLines(comments: Comments, nested: seq<Decl>, indent: string): seq<string>
    decreases nested, 0
  {
    if nested == [] then []
    else
      var d := nested[|nested| - 1];
      NestedLines(comments, nested[..|nested| - 1], indent)
      + match d
        case MessageDecl(m) => (assert m < d; [MessageSource(comments, m, indent), ""])
        case EnumDecl(e) => [EnumSource(comments, e, indent), ""]
        case OtherDecl(_) => []
  }

  function MessageLines(comments: Comments, m: Message, indent: string): seq<string>
    decreases m, 1
  {
    CommentLines(comments, m.name, indent)
    + [indent + "message " + m.name + " {"]
    + NestedLines(comments, m.nested, indent + "  ")
    + OneofLines(comments, m, RealOneofs(m.oneofs), indent + "  ")
    + PlainFieldLines(comments, m, m.fields, indent + "  ")
    + [indent + "}"]
  }

  function MessageSource(comments: Comments, m: Message, indent: string): string
    decreases m, 2
  {
    JoinLines(MessageLines(comments, m, indent))
  }
}
