/**
 * The printer in the form the service runs it: methods that push onto a list of lines, proved to
 * print the text of `ProtoPrinter`.
 */
module SourcePrinter {
  import opened ProtoTypes
  import opened Text
  import P = ProtoPrinter

  method GenerateMessageProtoSource(comments: Comments, ty: Message, indent: string) returns (source: string)
    ensures source == P.MessageSource(comments, ty, indent)
    decreases ty, 1
  {
    var innerIndent := indent + "  ";
    var lines := [];
    var messageComment := MessageComment(comments, ty.name);
    if messageComment.Some? {
      lines := lines + [indent + "// " + Trim(messageComment.value)];
    }
    assert lines == P.CommentLines(comments, ty.name, indent);
    lines := lines + [indent + "message " + ty.name + " {"];
    var nested := NestedDeclarations(comments, ty, innerIndent);
    lines := lines + nested;
    var realOneofs, fieldsInOneofs := CollectOneofs(ty.oneofs);
    var oneofs := OneofBlocks(comments, ty, realOneofs, innerIndent);
    lines := lines + oneofs;
    var fields := RegularFields(comments, ty, fieldsInOneofs, innerIndent);
    lines := lines + fields;
    lines := lines + [indent + "}"];
    source := JoinLines(lines);
  }

  method NestedDeclarations(comments: Comments, ty: Message, indent: string) returns (lines: seq<string>)
    ensures lines == P.NestedLines(comments, ty.nested, indent)
    decreases ty, 0
  {
    lines := [];
    for i := 0 to |ty.nested|
      invariant lines == P.NestedLines(comments, ty.nested[..i], indent)
    {
      assert ty.nested[..i + 1][..i] == ty.nested[..i];
      var d := ty.nested[i];
      match d
      case MessageDecl(m) =>
        assert m < d && d < ty;
        var nestedSource := GenerateMessageProtoSource(comments, m, indent);
        lines := lines + [nestedSource, ""];
      case EnumDecl(e) =>
        var nestedSource := GenerateEnumProtoSource(comments, e, indent);
        lines := lines + [nestedSource, ""];
      case OtherDecl(_) =>
    }
    assert ty.nested[..|ty.nested|] == ty.nested;
  }

  /** The oneofs to print, and the names of all fields they hold. */
  method CollectOneofs(oneofs: seq<Oneof>) returns (realOneofs: seq<Oneof>, fieldsInOneofs: set<string>)
    ensures realOneofs == P.RealOneofs(oneofs)
    ensures fieldsInOneofs == P.InRealOneof(oneofs)
  {
    hide P.InRealOneof, StartsWith;
    realOneofs, fieldsInOneofs := [], {};
    NoRealOneofs();
    for i := 0 to |oneofs|
      invariant realOneofs == P.RealOneofs(oneofs[..i])
      invariant fieldsInOneofs == P.InRealOneof(oneofs[..i])
    {
      assert oneofs[..i + 1] == oneofs[..i] + [oneofs[i]];
      OneMoreOneof(oneofs[..i], oneofs[i]);
      var o := oneofs[i];
      if !StartsWith(o.name, "_") {
        realOneofs := realOneofs + [o];
        fieldsInOneofs := fieldsInOneofs + (set n | n in o.members);
      }
    }
    assert oneofs[..|oneofs|] == oneofs;
  }

  lemma NoRealOneofs()
    ensures P.InRealOneof([]) == {}
  {
  }

  lemma OneMoreOneof(oneofs: seq<Oneof>, o: Oneof)
    ensures P.InRealOneof(oneofs + [o])
         == P.InRealOneof(oneofs) + if StartsWith(o.name, "_") then {} else set n | n in o.members
  {
    hide StartsWith;
  }

  method OneofBlocks(comments: Comments, ty: Message, realOneofs: seq<Oneof>,
                     indent: string) returns (lines: seq<string>)
    ensures lines == P.OneofLines(comments, ty, realOneofs, indent)
  {
    lines := [];
    for i := 0 to |realOneofs|
      invariant lines == P.OneofLines(comments, ty, realOneofs[..i], indent)
    {
      assert realOneofs[..i + 1][..i] == realOneofs[..i];
      var o := realOneofs[i];
      lines := lines + [indent + "oneof " + o.name + " {"];
      var members := OneofMembers(comments, ty, o.members, indent + "  ");
      lines := lines + members;
      lines := lines + [indent + "}"];
    }
    assert realOneofs[..|realOneofs|] == realOneofs;
  }

  method OneofMembers(comments: Comments, ty: Message, members: seq<string>,
                      indent: string) returns (lines: seq<string>)
    ensures lines == P.OneofMemberLines(comments, ty, members, indent)
  {
    lines := [];
    for i := 0 to |members|
      invariant lines == P.OneofMemberLines(comments, ty, members[..i], indent)
    {
      assert members[..i + 1][..i] == members[..i];
      var field := FindField(ty.fields, members[i]);
      if field.Some? {
        var fieldLine := GenerateOneofFieldProtoLine(comments, field.value, ty.name);
        lines := lines + [indent + fieldLine];
      }
    }
    assert members[..|members|] == members;
  }

  method RegularFields(comments: Comments, ty: Message, fieldsInOneofs: set<string>,
                       indent: string) returns (lines: seq<string>)
    requires fieldsInOneofs == P.InRealOneof(ty.oneofs)
    ensures lines == P.PlainFieldLines(comments, ty, ty.fields, indent)
  {
    lines := [];
    for i := 0 to |ty.fields|
      invariant lines == P.PlainFieldLines(comments, ty, ty.fields[..i], indent)
    {
      assert ty.fields[..i + 1][..i] == ty.fields[..i];
      var field := ty.fields[i];
      if field.name !in fieldsInOneofs {
        var fieldLine := GenerateFieldProtoLine(comments, field, ty.name);
        lines := lines + [indent + fieldLine];
      }
    }
    assert ty.fields[..|ty.fields|] == ty.fields;
  }

  method GenerateOneofFieldProtoLine(comments: Comments, field: Field, parentTypeName: string) returns (line: string)
    ensures line == P.OneofFieldLine(comments, field, parentTypeName)
  {
    var typePart := if field.keyType.Some? then "map<" + field.keyType.value + ", " + field.ty + ">" else field.ty;
    line := typePart + " " + field.name + " = " + Number(field.id) + ";";
    var comment := FieldComment(comments, field.name, parentTypeName);
    if comment.Some? {
      line := line + " // " + P.CleanComment(comment.value);
    }
  }

  method GenerateFieldProtoLine(comments: Comments, field: Field, parentTypeName: string) returns (line: string)
    ensures line == P.FieldLine(comments, field, parentTypeName)
  {
    var modifier, typePart := "", field.ty;
    if field.keyType.Some? {
      typePart := "map<" + field.keyType.value + ", " + field.ty + ">";
    } else if field.repeated {
      modifier := "repeated ";
    } else if ExplicitlyOptional(field) {
      modifier := "optional ";
    }
    line := modifier + (typePart + " " + field.name + " = " + Number(field.id) + ";");
    var comment := FieldComment(comments, field.name, parentTypeName);
    if comment.Some? {
      line := line + " // " + P.CleanComment(comment.value);
    }
  }

  method GenerateEnumProtoSource(comments: Comments, ty: Enum, indent: string) returns (source: string)
    ensures source == P.EnumSource(comments, ty, indent)
  {
    var lines := [];
    var enumComment := MessageComment(comments, ty.name);
    if enumComment.Some? {
      lines := lines + [indent + "// " + Trim(enumComment.value)];
    }
    assert lines == P.CommentLines(comments, ty.name, indent);
    lines := lines + [indent + "enum " + ty.name + " {"];
    var values := EnumValues(P.SortByNumber(ty.values), indent + "  ");
    lines := lines + values;
    source := JoinLines(lines + [indent + "}"]);
  }

  method EnumValues(entries: seq<(string, int)>, indent: string) returns (lines: seq<string>)
    ensures lines == P.EnumValueLines(entries, indent)
  {
    hide Number;
    lines := [];
    for i := 0 to |entries|
      invariant lines == P.EnumValueLines(entries[..i], indent)
    {
      assert entries[..i + 1][..i] == entries[..i];
      lines := lines + [indent + entries[i].0 + " = " + Number(entries[i].1) + ";"];
    }
    assert entries[..|entries|] == entries;
  }
}
