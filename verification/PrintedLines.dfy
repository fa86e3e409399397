/** Each line the printer emits is read back as what it was printed from. */
module PrintedLines {
  import opened Wrappers
  import opened Splitting
  import opened ProtoTypes
  import opened Text
  import opened ProtoPrinter
  import opened ProtoReader

  predicate TokenChar(c: char) {
    || 'a' <= c <= 'z' || 'A' <= c <= 'Z' || '0' <= c <= '9' || c == '_' || c == '.'
  }

  /** An identifier, or a dotted name of identifiers. */
  predicate Token(s: string) {
    s != "" && forall c :: c in s ==> TokenChar(c)
  }

  predicate Spaces(indent: string) {
    forall c :: c in indent ==> c == ' '
  }

  /** A field whose name and types are written as identifiers and dotted names. */
  predicate PlainField(f: Field) {
    && Token(f.name) && Token(f.ty) && (f.keyType.Some? ==> Token(f.keyType.value))
  }

  function ModifierWord(f: Field): string {
    if f.keyType.Some? then "" else if f.repeated then "repeated" else if ExplicitlyOptional(f) then "optional" else ""
  }

  /** A field as it should be read back: outside a oneof, and inside one. */
  function FieldTextOf(f: Field): FieldText {
    FieldText(ModifierWord(f), TypePart(f), f.name, f.id)
  }

  function MemberTextOf(f: Field): FieldText {
    FieldText("", TypePart(f), f.name, f.id)
  }

  lemma {:induction false} SkipIndent(indent: string, s: string)
    requires Spaces(indent) && (s != "" ==> s[0] != ' ')
    ensures SkipSpaces(indent + s) == s
  {
    if indent == "" {
      assert indent + s == s;
    } else {
      assert indent[0] in indent && forall c :: c in indent[1..] ==> c in indent;
      assert (indent + s)[1..] == indent[1..] + s;
      SkipIndent(indent[1..], s);
    }
  }

  /** What is read of a statement is what stands before its semicolon. */
  lemma StatementReads(indent: string, words: seq<string>, suffix: string)
    requires Spaces(indent) && |words| >= 2
    requires forall w :: w in words ==> w != "" && ' ' !in w && ';' !in w
    requires words[0] != "" && words[0][0] != '/' && words[0][0] != '}'
    ensures ReadLine(indent + JoinWith(' ', words) + ";" + suffix) == ReadStatement(words)
  {
    var s := JoinWith(' ', words) + ";" + suffix;
    StatementAnatomy(words, suffix);
    assert indent + JoinWith(' ', words) + ";" + suffix == indent + s;
    hide BeforeSemicolon, Words, ReadStatement;
    SkipIndent(indent, s);
  }

  /** The shape of a statement line without its indent. */
  lemma StatementAnatomy(words: seq<string>, suffix: string)
    requires |words| >= 2
    requires forall w :: w in words ==> w != "" && ' ' !in w && ';' !in w
    requires words[0] != "" && words[0][0] != '/' && words[0][0] != '}'
    ensures var s := JoinWith(' ', words) + ";" + suffix;
      && s != "" && s[0] != ' ' && !("//" <= s) && s != "}" && ';' in s
      && Words(BeforeSemicolon(s)) == words
  {
    var body := JoinWith(' ', words);
    var s := body + ";" + suffix;
    assert words[0] in words;
    JoinedHasNo(words, ';');
    assert s[0] == words[0][0] && words[0][0] in words[0];
    assert s == body + [';'] + suffix;
    SplitOfAppend(';', body, suffix);
    SplitOfPiece(';', body);
    SplitOfJoin(' ', words);
    assert s[|body|] == ';';
  }

  lemma {:induction false} JoinedHasNo(words: seq<string>, c: char)
    requires c != ' ' && forall w :: w in words ==> c !in w
    ensures c !in JoinWith(' ', words)
  {
    if |words| == 1 {
      assert words[0] in words;
    } else if |words| > 1 {
      assert words[0] in words && forall w :: w in words[1..] ==> w in words;
      JoinedHasNo(words[1..], c);
    }
  }

  lemma TokenIsWord(s: string)
    requires Token(s)
    ensures ' ' !in s && ';' !in s && '\n' !in s && s[0] != '/' && s[0] != '}' && s[0] != ' ' && '<' !in s
  {
    assert s[0] in s;
  }

  lemma NumberIsWord(n: int)
    ensures Number(n) != "" && ' ' !in Number(n) && ';' !in Number(n) && '\n' !in Number(n)
    ensures ReadNumber(Number(n)) == Some(n)
  {
    NumberReads(n);
  }

  // --- Fields ---

  function TypeWords(f: Field): seq<string> {
    if f.keyType.Some? then ["map<" + f.keyType.value + ",", f.ty + ">"] else [f.ty]
  }

  function StatementWords(before: seq<string>, name: string, id: int): seq<string> {
    before + [name, "=", Number(id)]
  }

  lemma TypeWordsAreWords(f: Field)
    requires PlainField(f)
    ensures forall w :: w in TypeWords(f) ==> w != "" && ' ' !in w && ';' !in w
    ensures TypeWords(f)[0][0] != '/' && TypeWords(f)[0][0] != '}'
    ensures TypeWords(f)[0] !in {"repeated", "optional"} || f.keyType.None?
    ensures JoinWith(' ', TypeWords(f)) == TypePart(f)
  {
    TokenIsWord(f.ty);
    if f.keyType.Some? {
      TokenIsWord(f.keyType.value);
      var first := "map<" + f.keyType.value + ",";
      assert first[0] == 'm' && first[3] == '<';
      assert "repeated"[3] == 'e' && "optional"[3] == 'i';
      assert TypeWords(f)[1..] == [f.ty + ">"];
      assert JoinWith(' ', TypeWords(f)) == first + [' '] + (f.ty + ">");
      assert TypePart(f) == first + [' '] + (f.ty + ">");
    }
  }

  lemma StatementJoined(before: seq<string>, name: string, id: int)
    requires |before| >= 1
    ensures JoinWith(' ', StatementWords(before, name, id)) == JoinWith(' ', before) + " " + name + " = " + Number(id)
  {
    TailJoined(name, Number(id));
    JoinOfAppend(' ', before, [name, "=", Number(id)]);
    Regroup(JoinWith(' ', before), name, Number(id));
  }

  lemma TailJoined(name: string, number: string)
    ensures JoinWith(' ', [name, "=", number]) == name + " = " + number
  {
    assert [name, "=", number][1..] == ["=", number] && ["=", number][1..] == [number];
    assert JoinWith(' ', ["=", number]) == "= " + number;
    assert name + [' '] + ("= " + number) == name + " = " + number;
  }

  lemma Regroup(before: string, name: string, number: string)
    ensures before + [' '] + (name + " = " + number) == before + " " + name + " = " + number
  {
  }

  /** A printed statement is read word by word. */
  lemma StatementLineReads(before: seq<string>, name: string, id: int, indent: string, suffix: string)
    requires |before| >= 1 && Token(name) && Spaces(indent)
    requires forall w :: w in before ==> w != "" && ' ' !in w && ';' !in w
    requires before[0] != "" && before[0][0] != '/' && before[0][0] != '}'
    ensures ReadLine(indent + (JoinWith(' ', before) + " " + name + " = " + Number(id) + ";" + suffix))
         == ReadStatement(StatementWords(before, name, id))
  {
    hide ReadLine, ReadStatement;
    StatementJoined(before, name, id);
    WordsOfStatement(before, name, id);
    var words := StatementWords(before, name, id);
    assert words[0] == before[0];
    StatementReads(indent, words, suffix);
    var body := JoinWith(' ', words);
    assert indent + body + ";" + suffix == indent + (body + ";" + suffix);
  }

  lemma WordsOfStatement(before: seq<string>, name: string, id: int)
    requires forall w :: w in before ==> w != "" && ' ' !in w && ';' !in w
    requires Token(name)
    ensures forall w :: w in StatementWords(before, name, id) ==> w != "" && ' ' !in w && ';' !in w
    ensures |StatementWords(before, name, id)| == |before| + 3
    ensures ReadStatement(StatementWords(before, name, id))
         == if |before| == 0 then ValueLine(name, id)
            else if |before| == 1 then Line.FieldLine(FieldText("", before[0], name, id))
            else if |before| == 2 && before[0] in {"repeated", "optional"} then
              Line.FieldLine(FieldText(before[0], before[1], name, id))
            else if |before| == 2 then Line.FieldLine(FieldText("", before[0] + " " + before[1], name, id))
            else Unreadable
  {
    TokenIsWord(name);
    NumberIsWord(id);
    var words := StatementWords(before, name, id);
    assert words[..|words| - 3] == before;
  }

  lemma MemberReads(comments: Comments, f: Field, parentName: string, indent: string)
    requires PlainField(f) && Spaces(indent)
    ensures ReadLine(indent + OneofFieldLine(comments, f, parentName)) == Line.FieldLine(MemberTextOf(f))
  {
    var before := TypeWords(f);
    TypeWordsAreWords(f);
    WordsOfStatement(before, f.name, f.id);
    StatementLineReads(before, f.name, f.id, indent, CommentSuffix(FieldComment(comments, f.name, parentName)));
  }

  lemma FieldReads(comments: Comments, f: Field, parentName: string, indent: string)
    requires PlainField(f) && Spaces(indent)
    ensures ReadLine(indent + ProtoPrinter.FieldLine(comments, f, parentName)) == Line.FieldLine(FieldTextOf(f))
  {
    if Modifier(f) == "" {
      MemberReads(comments, f, parentName, indent);
      assert Modifier(f) + OneofFieldLine(comments, f, parentName) == OneofFieldLine(comments, f, parentName);
    } else {
      TokenIsWord(f.ty);
      var before := [ModifierWord(f), f.ty];
      WordsOfStatement(before, f.name, f.id);
      var suffix := CommentSuffix(FieldComment(comments, f.name, parentName));
      StatementLineReads(before, f.name, f.id, indent, suffix);
      ModifiedLine(f, suffix);
    }
  }

  lemma ModifiedLine(f: Field, suffix: string)
    requires Modifier(f) != ""
    ensures JoinWith(' ', [ModifierWord(f), f.ty]) + " " + f.name + " = " + Number(f.id) + ";" + suffix
         == Modifier(f) + (TypePart(f) + " " + f.name + " = " + Number(f.id) + ";" + suffix)
  {
    hide Number, ExplicitlyOptional;
    assert [ModifierWord(f), f.ty][1..] == [f.ty];
    assert ModifierWord(f) + [' '] == Modifier(f);
    assert JoinWith(' ', [ModifierWord(f), f.ty]) == ModifierWord(f) + [' '] + f.ty;
  }

  lemma ValueReads(name: string, number: int, indent: string)
    requires Token(name) && Spaces(indent)
    ensures ReadLine(indent + name + " = " + Number(number) + ";") == ValueLine(name, number)
  {
    WordsOfStatement([], name, number);
    TokenIsWord(name);
    hide ReadLine, ReadStatement, Number, Token, ReadNumber;
    var words := StatementWords([], name, number);
    assert words == [name, "=", Number(number)];
    TailJoined(name, Number(number));
    NumberIsWord(number);
    StatementReads(indent, words, "");
    assert indent + name + " = " + Number(number) + ";" == indent + (name + " = " + Number(number)) + ";" + "";
  }

  // --- Other lines ---

  lemma OpeningReads(keyword: string, name: string, indent: string)
    requires Token(keyword) && Token(name) && Spaces(indent)
    ensures ReadLine(indent + keyword + " " + name + " {") == Opening(keyword, name)
  {
    TokenIsWord(keyword);
    TokenIsWord(name);
    var words := [keyword, name, "{"];
    assert words[1..] == [name, "{"] && words[1..][1..] == ["{"];
    assert JoinWith(' ', words[1..]) == name + [' '] + "{";
    assert JoinWith(' ', words) == keyword + [' '] + (name + [' '] + "{");
    var s := JoinWith(' ', words);
    assert indent + keyword + " " + name + " {" == indent + s;
    assert s[0] == keyword[0];
    SkipIndent(indent, s);
    SplitOfJoin(' ', words);
    JoinedHasNo(words, ';');
    assert s != "}" && !("//" <= s);
  }

  lemma ClosingReads(indent: string)
    requires Spaces(indent)
    ensures ReadLine(indent + "}") == Closing
  {
    SkipIndent(indent, "}");
  }

  lemma CommentReads(text: string, indent: string)
    requires Spaces(indent)
    ensures ReadLine(indent + "// " + text) == CommentLine
  {
    SkipIndent(indent, "// " + text);
    assert indent + "// " + text == indent + ("// " + text);
  }

  // --- No line break inside a printed line ---

  lemma {:induction false} TrimKeeps(s: string, c: char)
    requires c !in s
    ensures c !in Trim(s)
  {
    TrimStartKeeps(s, c);
    TrimEndKeeps(TrimStart(s), c);
  }

  lemma {:induction false} TrimStartKeeps(s: string, c: char)
    requires c !in s
    ensures c !in TrimStart(s)
  {
    if s != "" && IsSpace(s[0]) {
      TrimStartKeeps(s[1..], c);
    }
  }

  lemma {:induction false} TrimEndKeeps(s: string, c: char)
    requires c !in s
    ensures c !in TrimEnd(s)
  {
    if s != "" && IsSpace(s[|s| - 1]) {
      TrimEndKeeps(s[..|s| - 1], c);
    }
  }

  /** A field comment is printed on one line, however many lines it had. */
  lemma CleanCommentIsOneLine(comment: string)
    ensures '\n' !in CleanComment(comment)
  {
    PiecesHaveNoSeparator('\n', comment);
    TrimmedAreSingle(SplitLines(comment));
    MarkedAreSingle(TrimmedLines(SplitLines(comment)));
  }

  lemma {:induction false} TrimmedAreSingle(lines: seq<string>)
    requires forall l :: l in lines ==> '\n' !in l
    ensures forall l :: l in TrimmedLines(lines) ==> '\n' !in l
  {
    if lines != [] {
      assert lines[0] in lines && forall l :: l in lines[1..] ==> l in lines;
      TrimKeeps(lines[0], '\n');
      TrimmedAreSingle(lines[1..]);
    }
  }

  lemma {:induction false} MarkedAreSingle(lines: seq<string>)
    requires forall l :: l in lines ==> '\n' !in l
    ensures '\n' !in JoinMarked(lines)
  {
    if |lines| == 1 {
      assert lines[0] in lines;
    } else if |lines| > 1 {
      assert lines[0] in lines && forall l :: l in lines[1..] ==> l in lines;
      MarkedAreSingle(lines[1..]);
    }
  }

  lemma OneLineOfParts(ty: string, name: string, number: string, suffix: string)
    requires '\n' !in ty && '\n' !in name && '\n' !in number && '\n' !in suffix
    ensures '\n' !in ty + " " + name + " = " + number + ";" + suffix
  {
    assert '\n' !in ty + " " + name + " = ";
  }

  lemma FieldIsOneLine(comments: Comments, f: Field, parentName: string, indent: string)
    requires PlainField(f) && Spaces(indent)
    ensures '\n' !in indent + OneofFieldLine(comments, f, parentName)
    ensures '\n' !in indent + ProtoPrinter.FieldLine(comments, f, parentName)
  {
    TokenIsWord(f.name);
    TokenIsWord(f.ty);
    if f.keyType.Some? {
      TokenIsWord(f.keyType.value);
    }
    NumberIsWord(f.id);
    var comment := FieldComment(comments, f.name, parentName);
    if comment.Some? {
      CleanCommentIsOneLine(comment.value);
    }
    OneLineOfParts(TypePart(f), f.name, Number(f.id), CommentSuffix(comment));
    hide TypePart, CommentSuffix, Number;
    assert '\n' !in Modifier(f);
  }
}
