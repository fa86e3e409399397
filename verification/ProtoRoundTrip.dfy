/** Printing and reading back recovers the message. */
module ProtoRoundTrip {
  import opened Wrappers
  import opened Splitting
  import opened ProtoTypes
  import opened Text
  import opened ProtoPrinter
  import opened ProtoReader
  import opened PrintedLines

  // --- What is printable, and what should be read back ---

  /** A line that is empty or a comment itself. */
  predicate Ignorable(line: string) {
    SkipSpaces(line) == "" || "//" <= SkipSpaces(line)
  }

  /**
   * Only the first line of the comment of a message or enum is marked when it is printed: each
   * further line is empty or marked in the comment already.
   */
  predicate IgnorableComment(comments: Comments, name: string) {
    var comment := MessageComment(comments, name);
    comment.Some? ==> forall line :: line in SplitLines(Trim(comment.value))[1..] ==> Ignorable(line)
  }

  /** The lines that a comment is printed as, read back. */
  function CommentTokensOf(comments: Comments, name: string): seq<Line> {
    match MessageComment(comments, name)
    case None => []
    case Some(c) => [CommentLine] + ReadLines(SplitLines(Trim(c))[1..])
  }

  predicate PrintableEnum(comments: Comments, e: Enum) {
    Token(e.name) && IgnorableComment(comments, e.name) && forall v :: v in e.values ==> Token(v.0)
  }

  /** Names are identifiers or dotted names, and the further lines of message and enum comments can be ignored. */
  predicate Printable(comments: Comments, m: Message)
    decreases m, 1
  {
    && Token(m.name) && IgnorableComment(comments, m.name)
    && (forall f :: f in m.fields ==> PlainField(f))
    && (forall o :: o in m.oneofs ==> StartsWith(o.name, "_") || Token(o.name))
    && PrintableDecls(comments, m.nested)
  }

  predicate PrintableDecls(comments: Comments, nested: seq<Decl>)
    decreases nested, 0
  {
    nested != [] ==>
      var d := nested[|nested| - 1];
      && PrintableDecls(comments, nested[..|nested| - 1])
      && match d
         case MessageDecl(m) => (assert m < d; Printable(comments, m))
         case EnumDecl(e) => PrintableEnum(comments, e)
         case OtherDecl(_) => true
  }

  function ExpectedEnum(e: Enum): EnumText {
    EnumText(e.name, SortByNumber(e.values))
  }

  function ExpectedMembers(m: Message, members: seq<string>): seq<FieldText> {
    if members == [] then []
    else
      ExpectedMembers(m, members[..|members| - 1])
      + match FindField(m.fields, members[|members| - 1])
        case None => []
        case Some(f) => [MemberTextOf(f)]
  }

  function ExpectedOneofs(m: Message, oneofs: seq<Oneof>): seq<OneofText> {
    if oneofs == [] then []
    else
      var o := oneofs[|oneofs| - 1];
      ExpectedOneofs(m, oneofs[..|oneofs| - 1]) + [OneofText(o.name, ExpectedMembers(m, o.members))]
  }

  function ExpectedFields(m: Message, fields: seq<Field>): seq<FieldText> {
    if fields == [] then []
    else
      var f := fields[|fields| - 1];
      ExpectedFields(m, fields[..|fields| - 1]) + if f.name in InRealOneof(m.oneofs) then [] else [FieldTextOf(f)]
  }

  /** Nested declarations added to a text, in order. */
  function WithNested(t: MessageText, nested: seq<Decl>): MessageText
    decreases nested, 0
  {
    if nested == [] then t
    else
      var before := WithNested(t, nested[..|nested| - 1]);
      var d := nested[|nested| - 1];
      match d
      case MessageDecl(m) => (assert m < d; before.(messages := before.messages + [Expected(m)]))
      case EnumDecl(e) => before.(enums := before.enums + [ExpectedEnum(e)])
      case OtherDecl(_) => before
  }

  function EmptyText(name: string): MessageText {
    MessageText(name, [], [], [], [])
  }

  /**
   * The message as text: its nested messages and enums, its oneofs other than those made up for
   * `optional`, and its remaining fields.
   */
  function Expected(m: Message): MessageText
    decreases m, 1
  {
    WithNested(EmptyText(m.name), m.nested)
      .(oneofs := ExpectedOneofs(m, RealOneofs(m.oneofs)), fields := ExpectedFields(m, m.fields))
  }

  // --- Source text as lines ---

  /** The lines of a text that was joined from pieces, each of which may hold several lines. */
  function Flat(pieces: seq<string>): seq<string> {
    if pieces == [] then [] else Flat(pieces[..|pieces| - 1]) + SplitLines(pieces[|pieces| - 1])
  }

  function Tokens(pieces: seq<string>): seq<Line> {
    ReadLines(Flat(pieces))
  }

  lemma {:induction false} FlatAppend(a: seq<string>, b: seq<string>)
    ensures Flat(a + b) == Flat(a) + Flat(b)
  {
    hide SplitLines;
    if b == [] {
      assert a + b == a;
    } else {
      FlatAppend(a, b[..|b| - 1]);
      assert (a + b)[..|a + b| - 1] == a + b[..|b| - 1];
    }
  }

  lemma TokensAppend(a: seq<string>, b: seq<string>)
    ensures Tokens(a + b) == Tokens(a) + Tokens(b)
  {
    FlatAppend(a, b);
  }

  lemma {:induction false} LinesOfJoined(pieces: seq<string>)
    requires pieces != []
    ensures SplitLines(JoinLines(pieces)) == Flat(pieces)
  {
    var n := |pieces| - 1;
    if n == 0 {
      assert Flat(pieces[..0]) == [];
    } else {
      LinesOfJoined(pieces[..n]);
      assert pieces == pieces[..n] + [pieces[n]];
      JoinOfAppend('\n', pieces[..n], [pieces[n]]);
      SplitOfAppend('\n', JoinLines(pieces[..n]), pieces[n]);
    }
  }

  /** A piece that is one line. */
  lemma TokenOfLine(line: string)
    requires '\n' !in line
    ensures Tokens([line]) == [ReadLine(line)]
  {
    SplitOfPiece('\n', line);
    assert [line][..0] == [];
    assert Flat([line]) == Flat([line][..0]) + SplitLines(line);
  }

  // --- Segments ---

  lemma ClosingToken(indent: string)
    requires Spaces(indent)
    ensures Tokens([indent + "}"]) == [Closing]
  {
    TokenOfLine(indent + "}");
    ClosingReads(indent);
  }

  lemma OpeningToken(keyword: string, name: string, indent: string)
    requires Token(keyword) && Token(name) && Spaces(indent)
    ensures Tokens([indent + keyword + " " + name + " {"]) == [Opening(keyword, name)]
  {
    TokenIsWord(keyword);
    TokenIsWord(name);
    TokenOfLine(indent + keyword + " " + name + " {");
    OpeningReads(keyword, name, indent);
  }

  lemma CommentTokens(comments: Comments, name: string, indent: string)
    requires Spaces(indent)
    ensures Tokens(CommentLines(comments, name, indent)) == CommentTokensOf(comments, name)
  {
    match MessageComment(comments, name)
    case None =>
    case Some(c) =>
      CommentLinesRead(Trim(c), indent);
  }

  lemma CommentLinesRead(text: string, indent: string)
    requires Spaces(indent)
    ensures Tokens([indent + "// " + text]) == [CommentLine] + ReadLines(SplitLines(text)[1..])
  {
    var pieces := SplitLines(text);
    var prefix := indent + "// ";
    SplitOfPrefixed('\n', prefix, text);
    CommentReads(pieces[0], indent);
    FlatOne(prefix + text);
    hide ReadLine, SplitLines, Flat;
  }

  predicate Noise(lines: seq<Line>) {
    forall l :: l in lines ==> l == CommentLine || l == Blank
  }

  lemma CommentIsNoise(comments: Comments, name: string)
    ensures IgnorableComment(comments, name) <==> Noise(CommentTokensOf(comments, name))
  {
    var comment := MessageComment(comments, name);
    if comment.Some? {
      var pieces := SplitLines(Trim(comment.value))[1..];
      forall i | 0 <= i < |pieces|
        ensures Ignorable(pieces[i]) <==> ReadLine(pieces[i]) == CommentLine || ReadLine(pieces[i]) == Blank
      {
      }
      hide ReadLine, Ignorable, SplitLines, Trim;
      NoiseByLine(pieces);
    }
  }

  lemma NoiseByLine(pieces: seq<string>)
    requires forall i :: 0 <= i < |pieces| ==>
      (Ignorable(pieces[i]) <==> ReadLine(pieces[i]) == CommentLine || ReadLine(pieces[i]) == Blank)
    ensures (forall line :: line in pieces ==> Ignorable(line)) <==> Noise([CommentLine] + ReadLines(pieces))
  {
    hide ReadLine, Ignorable;
    var lines := [CommentLine] + ReadLines(pieces);
    if Noise(lines) {
      forall i | 0 <= i < |pieces| ensures Ignorable(pieces[i]) {
        assert lines[i + 1] in lines;
      }
    }
  }

  // --- What lines add to the text being read ---

  /** Reading `lines` inside a message turns `a` into `b`, whatever follows. */
  ghost predicate Adds(lines: seq<Line>, a: MessageText, b: MessageText) {
    forall rest :: ReadBody(lines + rest, a) == ReadBody(rest, b)
  }

  ghost predicate AddsValues(lines: seq<Line>, a: seq<(string, int)>, b: seq<(string, int)>) {
    forall rest :: ReadValues(lines + rest, a) == ReadValues(rest, b)
  }

  ghost predicate AddsMembers(lines: seq<Line>, a: seq<FieldText>, b: seq<FieldText>) {
    forall rest :: ReadMembers(lines + rest, a) == ReadMembers(rest, b)
  }

  lemma AddsNothing(a: MessageText)
    ensures Adds([], a, a)
  {
    forall rest ensures ReadBody([] + rest, a) == ReadBody(rest, a) {
      assert [] + rest == rest;
    }
  }

  lemma AddsThen(x: seq<Line>, y: seq<Line>, a: MessageText, b: MessageText, c: MessageText)
    requires Adds(x, a, b) && Adds(y, b, c)
    ensures Adds(x + y, a, c)
  {
    hide ReadBody;
    forall rest ensures ReadBody(x + y + rest, a) == ReadBody(rest, c) {
      assert x + y + rest == x + (y + rest);
    }
  }

  lemma AddsField(f: FieldText, a: MessageText)
    ensures Adds([Line.FieldLine(f)], a, a.(fields := a.fields + [f]))
  {
    forall rest ensures ReadBody([Line.FieldLine(f)] + rest, a) == ReadBody(rest, a.(fields := a.fields + [f])) {
      assert ([Line.FieldLine(f)] + rest)[1..] == rest;
    }
  }

  lemma AddsIgnored(line: Line, a: MessageText)
    requires line == CommentLine || line == Blank
    ensures Adds([line], a, a)
  {
    forall rest ensures ReadBody([line] + rest, a) == ReadBody(rest, a) {
      assert ([line] + rest)[1..] == rest;
    }
  }

  /** A block: an opening line, its body and the closing line. */
  function Block(keyword: string, name: string, body: seq<Line>): seq<Line> {
    [Opening(keyword, name)] + body + [Closing]
  }

  lemma BlockRest(keyword: string, name: string, body: seq<Line>, rest: seq<Line>)
    ensures var lines := Block(keyword, name, body) + rest;
      && lines[0] == Opening(keyword, name) && lines[1..] == body + ([Closing] + rest)
      && ([Closing] + rest)[1..] == rest
  {
  }

  lemma AddsMessage(name: string, body: seq<Line>, inner: MessageText, a: MessageText)
    requires Adds(body, EmptyText(name), inner)
    ensures Adds(Block("message", name, body), a, a.(messages := a.messages + [inner]))
  {
    forall rest
      ensures ReadBody(Block("message", name, body) + rest, a) == ReadBody(rest, a.(messages := a.messages + [inner]))
    {
      BlockRest("message", name, body, rest);
      assert ReadBody(body + ([Closing] + rest), EmptyText(name)) == Read(inner, rest);
      hide Block;
    }
  }

  lemma AddsEnum(name: string, body: seq<Line>, values: seq<(string, int)>, a: MessageText)
    requires AddsValues(body, [], values)
    ensures Adds(Block("enum", name, body), a, a.(enums := a.enums + [EnumText(name, values)]))
  {
    forall rest
      ensures ReadBody(Block("enum", name, body) + rest, a)
          == ReadBody(rest, a.(enums := a.enums + [EnumText(name, values)]))
    {
      BlockRest("enum", name, body, rest);
      assert ReadValues(body + ([Closing] + rest), []) == Read(values, rest);
      hide Block;
    }
  }

  lemma AddsOneof(name: string, body: seq<Line>, members: seq<FieldText>, a: MessageText)
    requires AddsMembers(body, [], members)
    ensures Adds(Block("oneof", name, body), a, a.(oneofs := a.oneofs + [OneofText(name, members)]))
  {
    forall rest
      ensures ReadBody(Block("oneof", name, body) + rest, a)
           == ReadBody(rest, a.(oneofs := a.oneofs + [OneofText(name, members)]))
    {
      BlockRest("oneof", name, body, rest);
      assert ReadMembers(body + ([Closing] + rest), []) == Read(members, rest);
      hide Block;
    }
  }

  lemma AddsValue(body: seq<Line>, values: seq<(string, int)>, v: (string, int))
    requires AddsValues(body, [], values)
    ensures AddsValues(body + [ValueLine(v.0, v.1)], [], values + [v])
  {
    var line := ValueLine(v.0, v.1);
    forall rest ensures ReadValues(body + [line] + rest, []) == ReadValues(rest, values + [v]) {
      assert body + [line] + rest == body + ([line] + rest);
      assert ([line] + rest)[1..] == rest;
    }
  }

  lemma AddsMember(body: seq<Line>, members: seq<FieldText>, f: FieldText)
    requires AddsMembers(body, [], members)
    ensures AddsMembers(body + [Line.FieldLine(f)], [], members + [f])
  {
    var line := Line.FieldLine(f);
    forall rest ensures ReadMembers(body + [line] + rest, []) == ReadMembers(rest, members + [f]) {
      assert body + [line] + rest == body + ([line] + rest);
      assert ([line] + rest)[1..] == rest;
    }
  }

  // --- Enums ---

  lemma ValueToken(v: (string, int), indent: string)
    requires Spaces(indent) && Token(v.0)
    ensures Tokens([indent + v.0 + " = " + Number(v.1) + ";"]) == [ValueLine(v.0, v.1)]
  {
    var line := indent + v.0 + " = " + Number(v.1) + ";";
    TokenIsWord(v.0);
    NumberIsWord(v.1);
    assert '\n' !in indent + v.0 + " = " && '\n' !in line;
    TokenOfLine(line);
    ValueReads(v.0, v.1, indent);
  }

  lemma {:induction false} ValuesRead(values: seq<(string, int)>, indent: string)
    requires Spaces(indent) && forall v :: v in values ==> Token(v.0)
    ensures AddsValues(Tokens(EnumValueLines(values, indent)), [], values)
  {
    hide ReadValues, ReadLine, Tokens, Token, Number;
    if values == [] {
      assert Tokens([]) == [] by { NoTokens(); }
      forall rest: seq<Line> ensures [] + rest == rest {}
      assert EnumValueLines(values, indent) == [];
    } else {
      var before, v := values[..|values| - 1], values[|values| - 1];
      assert v in values && forall x :: x in before ==> x in values;
      ValuesRead(before, indent);
      ValueToken(v, indent);
      TokensAppend(EnumValueLines(before, indent), [indent + v.0 + " = " + Number(v.1) + ";"]);
      AddsValue(Tokens(EnumValueLines(before, indent)), before, v);
      assert before + [v] == values;
    }
  }

  lemma NoTokens()
    ensures Tokens([]) == []
  {
  }

  lemma SortKeepsTokens(values: seq<(string, int)>)
    requires forall v :: v in values ==> Token(v.0)
    ensures forall v :: v in SortByNumber(values) ==> Token(v.0)
  {
    SortKeepsEntries(values);
    assert forall v :: v in SortByNumber(values) ==> v in multiset(SortByNumber(values));
  }

  lemma {:induction false} InsertKeepsEntries(sorted: seq<(string, int)>, v: (string, int))
    ensures multiset(InsertByNumber(sorted, v)) == multiset(sorted) + multiset{v}
  {
    if sorted != [] && sorted[|sorted| - 1].1 > v.1 {
      InsertKeepsEntries(sorted[..|sorted| - 1], v);
      assert sorted == sorted[..|sorted| - 1] + [sorted[|sorted| - 1]];
    }
  }

  /** Sorting enum entries by number loses none and adds none. */
  lemma {:induction false} SortKeepsEntries(values: seq<(string, int)>)
    ensures multiset(SortByNumber(values)) == multiset(values)
  {
    hide InsertByNumber;
    if values != [] {
      SortKeepsEntries(values[..|values| - 1]);
      InsertKeepsEntries(SortByNumber(values[..|values| - 1]), values[|values| - 1]);
      assert values == values[..|values| - 1] + [values[|values| - 1]];
    }
  }

  ghost predicate Ordered(values: seq<(string, int)>) {
    forall i, j :: 0 <= i < j < |values| ==> values[i].1 <= values[j].1
  }

  lemma {:induction false} InsertKeepsOrder(sorted: seq<(string, int)>, v: (string, int))
    requires Ordered(sorted)
    ensures Ordered(InsertByNumber(sorted, v))
  {
    if sorted != [] && sorted[|sorted| - 1].1 > v.1 {
      var before, last := sorted[..|sorted| - 1], sorted[|sorted| - 1];
      InsertKeepsOrder(before, v);
      InsertKeepsEntries(before, v);
      var inserted := InsertByNumber(before, v);
      forall x | x in inserted ensures x.1 <= last.1 {
        assert x in multiset(inserted);
        assert x in before || x == v;
      }
    }
  }

  /** The values with one number, in order. */
  function WithNumber(values: seq<(string, int)>, n: int): seq<(string, int)> {
    if values == [] then []
    else
      WithNumber(values[..|values| - 1], n)
      + if values[|values| - 1].1 == n then [values[|values| - 1]] else []
  }

  lemma {:induction false} InsertIsStable(sorted: seq<(string, int)>, v: (string, int), n: int)
    ensures WithNumber(InsertByNumber(sorted, v), n) == WithNumber(sorted, n) + if v.1 == n then [v] else []
  {
    if sorted == [] || sorted[|sorted| - 1].1 <= v.1 {
      assert (sorted + [v])[..|sorted|] == sorted;
    } else {
      var before, last := sorted[..|sorted| - 1], sorted[|sorted| - 1];
      InsertIsStable(before, v, n);
      var inserted := InsertByNumber(before, v);
      assert (inserted + [last])[..|inserted|] == inserted;
    }
  }

  /** Aliases, values with one number, keep the order in which they were declared. */
  lemma {:induction false} SortIsStable(values: seq<(string, int)>, n: int)
    ensures WithNumber(SortByNumber(values), n) == WithNumber(values, n)
  {
    if values != [] {
      SortIsStable(values[..|values| - 1], n);
      InsertIsStable(SortByNumber(values[..|values| - 1]), values[|values| - 1], n);
    }
  }

  /** Enum values are read back in ascending order of their numbers. */
  lemma {:induction false} SortOrders(values: seq<(string, int)>)
    ensures Ordered(SortByNumber(values))
  {
    if values != [] {
      SortOrders(values[..|values| - 1]);
      InsertKeepsOrder(SortByNumber(values[..|values| - 1]), values[|values| - 1]);
    }
  }

  /** The tokens of a commented block. */
  lemma BlockTokens(comments: Comments, keyword: string, name: string, indent: string, body: seq<string>)
    requires Spaces(indent) && Token(keyword) && Token(name)
    ensures Tokens(CommentLines(comments, name, indent) + [indent + keyword + " " + name + " {"]
                   + body + [indent + "}"])
         == CommentTokensOf(comments, name) + Block(keyword, name, Tokens(body))
  {
    CommentTokens(comments, name, indent);
    OpeningToken(keyword, name, indent);
    ClosingToken(indent);
    var comment := CommentLines(comments, name, indent);
    var opening, closing := [indent + keyword + " " + name + " {"], [indent + "}"];
    hide Tokens, CommentLines, Token, Spaces, CommentTokensOf;
    TokensAppend(comment + opening + body, closing);
    TokensAppend(comment + opening, body);
    TokensAppend(comment, opening);
  }

  lemma {:induction false} NoiseAddsNothing(noise: seq<Line>, a: MessageText)
    requires Noise(noise)
    ensures Adds(noise, a, a)
  {
    if noise == [] {
      AddsNothing(a);
    } else {
      var before, last := noise[..|noise| - 1], noise[|noise| - 1];
      assert last in noise && forall l :: l in before ==> l in noise;
      NoiseAddsNothing(before, a);
      AddsIgnored(last, a);
      hide Adds;
      AddsThen(before, [last], a, a, a);
      assert before + [last] == noise;
    }
  }

  lemma AddsCommented(noise: seq<Line>, lines: seq<Line>, a: MessageText, b: MessageText)
    requires Noise(noise) && Adds(lines, a, b)
    ensures Adds(noise + lines, a, b)
  {
    NoiseAddsNothing(noise, a);
    hide Adds, Noise;
    AddsThen(noise, lines, a, a, b);
  }

  lemma EnumTokens(comments: Comments, e: Enum, indent: string)
    requires Spaces(indent) && Token(e.name)
    ensures Tokens(EnumLines(comments, e, indent))
         == CommentTokensOf(comments, e.name)
            + Block("enum", e.name, Tokens(EnumValueLines(SortByNumber(e.values), indent + "  ")))
  {
    assert Token("enum");
    hide Tokens, EnumValueLines, SortByNumber, Token, Spaces, CommentLines, CommentTokensOf, Block;
    BlockTokens(comments, "enum", e.name, indent, EnumValueLines(SortByNumber(e.values), indent + "  "));
    assert indent + "enum" + " " + e.name + " {" == indent + "enum " + e.name + " {";
  }

  /** The enum block, comment included, adds the enum to what is being read. */
  lemma EnumReads(comments: Comments, e: Enum, indent: string, a: MessageText)
    requires Spaces(indent) && PrintableEnum(comments, e)
    ensures Adds(Tokens(EnumLines(comments, e, indent)), a, a.(enums := a.enums + [ExpectedEnum(e)]))
  {
    SortKeepsTokens(e.values);
    EnumTokens(comments, e, indent);
    hide Tokens, Adds, EnumLines, EnumValueLines, SortByNumber, Token, Spaces, CommentTokensOf, Block;
    var body := Tokens(EnumValueLines(SortByNumber(e.values), indent + "  "));
    ValuesRead(SortByNumber(e.values), indent + "  ");
    AddsEnum(e.name, body, SortByNumber(e.values), a);
    CommentIsNoise(comments, e.name);
    AddsCommented(CommentTokensOf(comments, e.name), Block("enum", e.name, body), a,
                  a.(enums := a.enums + [ExpectedEnum(e)]));
  }

  // --- Oneofs and fields ---

  lemma {:induction false} FoundIsField(fields: seq<Field>, name: string)
    requires FindField(fields, name).Some?
    ensures FindField(fields, name).value in fields && FindField(fields, name).value.name == name
  {
    if fields[|fields| - 1].name != name {
      FoundIsField(fields[..|fields| - 1], name);
    }
  }

  lemma MemberToken(comments: Comments, f: Field, parentName: string, indent: string)
    requires PlainField(f) && Spaces(indent)
    ensures Tokens([indent + OneofFieldLine(comments, f, parentName)]) == [Line.FieldLine(MemberTextOf(f))]
    ensures Tokens([indent + ProtoPrinter.FieldLine(comments, f, parentName)]) == [Line.FieldLine(FieldTextOf(f))]
  {
    hide ReadLine, OneofFieldLine, ProtoPrinter.FieldLine, PlainField, Spaces;
    FieldIsOneLine(comments, f, parentName, indent);
    TokenOfLine(indent + OneofFieldLine(comments, f, parentName));
    TokenOfLine(indent + ProtoPrinter.FieldLine(comments, f, parentName));
    MemberReads(comments, f, parentName, indent);
    FieldReads(comments, f, parentName, indent);
  }

  lemma {:induction false} MembersRead(comments: Comments, m: Message, members: seq<string>, indent: string)
    requires Spaces(indent) && forall f :: f in m.fields ==> PlainField(f)
    ensures AddsMembers(Tokens(OneofMemberLines(comments, m, members, indent)), [], ExpectedMembers(m, members))
  {
    hide ReadMembers, ReadLine, Tokens, PlainField, Spaces, OneofFieldLine, MemberTextOf;
    if members == [] {
      assert Tokens([]) == [] by { NoTokens(); }
      forall rest: seq<Line> ensures [] + rest == rest {}
      assert OneofMemberLines(comments, m, members, indent) == [];
    } else {
      var before, name := members[..|members| - 1], members[|members| - 1];
      var lines := OneofMemberLines(comments, m, before, indent);
      MembersRead(comments, m, before, indent);
      match FindField(m.fields, name)
      case None =>
        assert lines + [] == lines && ExpectedMembers(m, before) + [] == ExpectedMembers(m, before);
      case Some(f) =>
        FoundIsField(m.fields, name);
        MemberToken(comments, f, m.name, indent);
        TokensAppend(lines, [indent + OneofFieldLine(comments, f, m.name)]);
        AddsMember(Tokens(lines), ExpectedMembers(m, before), MemberTextOf(f));
    }
  }

  lemma OneofBlockReads(comments: Comments, m: Message, o: Oneof, indent: string, a: MessageText)
    requires Spaces(indent) && Token(o.name) && forall f :: f in m.fields ==> PlainField(f)
    ensures Adds(Tokens([indent + "oneof " + o.name + " {"] + OneofMemberLines(comments, m, o.members, indent + "  ")
                        + [indent + "}"]),
                 a, a.(oneofs := a.oneofs + [OneofText(o.name, ExpectedMembers(m, o.members))]))
  {
    var body := OneofMemberLines(comments, m, o.members, indent + "  ");
    assert Token("oneof");
    OpeningToken("oneof", o.name, indent);
    ClosingToken(indent);
    assert indent + "oneof" + " " + o.name + " {" == indent + "oneof " + o.name + " {";
    hide Tokens, Adds, AddsMembers, OneofMemberLines, Token, Spaces, PlainField;
    MembersRead(comments, m, o.members, indent + "  ");
    AddsOneof(o.name, Tokens(body), ExpectedMembers(m, o.members), a);
    TokensAppend([indent + "oneof " + o.name + " {"] + body, [indent + "}"]);
    TokensAppend([indent + "oneof " + o.name + " {"], body);
  }

  function WithOneofs(a: MessageText, more: seq<OneofText>): MessageText {
    a.(oneofs := a.oneofs + more)
  }

  function WithFields(a: MessageText, more: seq<FieldText>): MessageText {
    a.(fields := a.fields + more)
  }

  lemma {:induction false} OneofsRead(comments: Comments, m: Message, oneofs: seq<Oneof>, indent: string,
                                      a: MessageText)
    requires Spaces(indent) && forall f :: f in m.fields ==> PlainField(f)
    requires forall o :: o in oneofs ==> Token(o.name)
    ensures Adds(Tokens(OneofLines(comments, m, oneofs, indent)), a, WithOneofs(a, ExpectedOneofs(m, oneofs)))
  {
    hide Tokens, Adds, Token, Spaces, PlainField, OneofMemberLines, ExpectedMembers;
    if oneofs == [] {
      NoTokens();
      AddsNothing(a);
      assert a.oneofs + [] == a.oneofs;
    } else {
      var before, o := oneofs[..|oneofs| - 1], oneofs[|oneofs| - 1];
      assert o in oneofs && forall x :: x in before ==> x in oneofs;
      var lines := OneofLines(comments, m, before, indent);
      var block := [indent + "oneof " + o.name + " {"] + OneofMemberLines(comments, m, o.members, indent + "  ")
          + [indent + "}"];
      var text := OneofText(o.name, ExpectedMembers(m, o.members));
      var b := WithOneofs(a, ExpectedOneofs(m, before));
      OneofsRead(comments, m, before, indent, a);
      OneofBlockReads(comments, m, o, indent, b);
      AddsThen(Tokens(lines), Tokens(block), a, b, b.(oneofs := b.oneofs + [text]));
      TokensAppend(lines, block);
      assert OneofLines(comments, m, oneofs, indent) == lines + block;
      assert a.oneofs + ExpectedOneofs(m, before) + [text] == a.oneofs + ExpectedOneofs(m, oneofs);
    }
  }

  lemma {:induction false} FieldsRead(comments: Comments, m: Message, fields: seq<Field>, indent: string,
                                      a: MessageText)
    requires Spaces(indent) && forall f :: f in fields ==> PlainField(f)
    ensures Adds(Tokens(PlainFieldLines(comments, m, fields, indent)), a, WithFields(a, ExpectedFields(m, fields)))
  {
    hide Tokens, Adds, Spaces, PlainField, ProtoPrinter.FieldLine, InRealOneof, FieldTextOf;
    if fields == [] {
      NoTokens();
      AddsNothing(a);
      assert a.fields + [] == a.fields;
    } else {
      var before, f := fields[..|fields| - 1], fields[|fields| - 1];
      assert f in fields && forall x :: x in before ==> x in fields;
      var lines := PlainFieldLines(comments, m, before, indent);
      FieldsRead(comments, m, before, indent, a);
      if f.name in InRealOneof(m.oneofs) {
        assert lines + [] == lines && ExpectedFields(m, before) + [] == ExpectedFields(m, before);
      } else {
        var line := [indent + ProtoPrinter.FieldLine(comments, f, m.name)];
        var b := WithFields(a, ExpectedFields(m, before));
        MemberToken(comments, f, m.name, indent);
        AddsField(FieldTextOf(f), b);
        AddsThen(Tokens(lines), Tokens(line), a, b, b.(fields := b.fields + [FieldTextOf(f)]));
        TokensAppend(lines, line);
        assert a.fields + ExpectedFields(m, before) + [FieldTextOf(f)] == a.fields + ExpectedFields(m, fields);
      }
    }
  }

  lemma {:induction false} RealOneofsAreTokens(oneofs: seq<Oneof>)
    requires forall o :: o in oneofs ==> StartsWith(o.name, "_") || Token(o.name)
    ensures forall o :: o in RealOneofs(oneofs) ==> Token(o.name)
  {
    if oneofs != [] {
      assert forall o :: o in oneofs[..|oneofs| - 1] ==> o in oneofs;
      RealOneofsAreTokens(oneofs[..|oneofs| - 1]);
    }
  }

  // --- Messages ---

  /** A nested declaration printed as one block of text is read as its lines, then an empty line. */
  lemma DeclTokens(lines: seq<string>)
    requires lines != []
    ensures Tokens([JoinLines(lines), ""]) == Tokens(lines) + [Blank]
  {
    hide ReadLine;
    LinesOfJoined(lines);
    TokenOfLine("");
    BlankReads();
    FlatOne(JoinLines(lines));
    TokensAppend([JoinLines(lines)], [""]);
    assert [JoinLines(lines)] + [""] == [JoinLines(lines), ""];
  }

  lemma FlatOne(text: string)
    ensures Flat([text]) == SplitLines(text)
  {
    assert [text][..0] == [];
  }

  lemma BlankReads()
    ensures ReadLine("") == Blank
  {
  }

  lemma AddsThenBlank(lines: seq<Line>, a: MessageText, b: MessageText)
    requires Adds(lines, a, b)
    ensures Adds(lines + [Blank], a, b)
  {
    hide Adds;
    AddsIgnored(Blank, b);
    AddsThen(lines, [Blank], a, b, b);
  }

  function BodyLines(comments: Comments, m: Message, indent: string): seq<string> {
    NestedLines(comments, m.nested, indent)
    + OneofLines(comments, m, RealOneofs(m.oneofs), indent)
    + PlainFieldLines(comments, m, m.fields, indent)
  }

  /** Between its braces a message's text adds its nested declarations, its oneofs and its fields. */
  lemma {:induction false} BodyReads(comments: Comments, m: Message, indent: string)
    requires Spaces(indent) && Printable(comments, m)
    ensures Adds(Tokens(BodyLines(comments, m, indent)), EmptyText(m.name), Expected(m))
    decreases m, 1
  {
    hide Tokens, Adds, Spaces, PlainField, Token;
    hide NestedLines, OneofLines, PlainFieldLines, ExpectedFields, ExpectedOneofs;
    var nested := NestedLines(comments, m.nested, indent);
    var oneofs := OneofLines(comments, m, RealOneofs(m.oneofs), indent);
    var fields := PlainFieldLines(comments, m, m.fields, indent);
    var a := EmptyText(m.name);
    var b := WithNested(a, m.nested);
    var c := WithOneofs(b, ExpectedOneofs(m, RealOneofs(m.oneofs)));
    var d := WithFields(c, ExpectedFields(m, m.fields));
    NestedReads(comments, m.nested, indent, a);
    RealOneofsAreTokens(m.oneofs);
    OneofsRead(comments, m, RealOneofs(m.oneofs), indent, b);
    FieldsRead(comments, m, m.fields, indent, c);
    TokensAppend(nested, oneofs);
    TokensAppend(nested + oneofs, fields);
    AddsThen(Tokens(nested), Tokens(oneofs), a, b, c);
    AddsThen(Tokens(nested + oneofs), Tokens(fields), a, c, d);
    NestedKeepsRest(a, m.nested);
    assert [] + ExpectedOneofs(m, RealOneofs(m.oneofs)) == ExpectedOneofs(m, RealOneofs(m.oneofs));
    assert [] + ExpectedFields(m, m.fields) == ExpectedFields(m, m.fields);
  }

  lemma {:induction false} NestedKeepsRest(a: MessageText, nested: seq<Decl>)
    ensures var b := WithNested(a, nested); b.name == a.name && b.oneofs == a.oneofs && b.fields == a.fields
  {
    if nested != [] {
      NestedKeepsRest(a, nested[..|nested| - 1]);
    }
  }

  function WithMessage(a: MessageText, m: MessageText): MessageText {
    a.(messages := a.messages + [m])
  }

  lemma MessageTokens(comments: Comments, m: Message, indent: string)
    requires Spaces(indent) && Token(m.name)
    ensures Tokens(MessageLines(comments, m, indent))
         == CommentTokensOf(comments, m.name)
            + Block("message", m.name, Tokens(BodyLines(comments, m, indent + "  ")))
  {
    assert Token("message");
    hide Tokens, Spaces, Token, CommentLines, CommentTokensOf, NestedLines, OneofLines, PlainFieldLines, Block;
    BlockTokens(comments, "message", m.name, indent, BodyLines(comments, m, indent + "  "));
    assert indent + "message" + " " + m.name + " {" == indent + "message " + m.name + " {";
    Reassociate(CommentLines(comments, m.name, indent), [indent + "message " + m.name + " {"],
                NestedLines(comments, m.nested, indent + "  "),
                OneofLines(comments, m, RealOneofs(m.oneofs), indent + "  "),
                PlainFieldLines(comments, m, m.fields, indent + "  "), [indent + "}"]);
  }

  lemma Reassociate(a: seq<string>, b: seq<string>, c: seq<string>, d: seq<string>, e: seq<string>, f: seq<string>)
    ensures a + b + c + d + e + f == a + b + (c + d + e) + f
  {
  }

  /** A message's text, comment included, adds the message to what is being read. */
  lemma {:induction false} MessageReads(comments: Comments, m: Message, indent: string, a: MessageText)
    requires Spaces(indent) && Printable(comments, m)
    ensures Adds(Tokens(MessageLines(comments, m, indent)), a, WithMessage(a, Expected(m)))
    decreases m, 2
  {
    MessageTokens(comments, m, indent);
    BodyReads(comments, m, indent + "  ");
    hide Tokens, Adds, Spaces, Token, MessageLines, Expected, CommentTokensOf, Block, BodyLines;
    var body := Tokens(BodyLines(comments, m, indent + "  "));
    AddsMessage(m.name, body, Expected(m), a);
    CommentIsNoise(comments, m.name);
    AddsCommented(CommentTokensOf(comments, m.name), Block("message", m.name, body), a, WithMessage(a, Expected(m)));
  }

  lemma {:induction false} NestedReads(comments: Comments, nested: seq<Decl>, indent: string, a: MessageText)
    requires Spaces(indent) && PrintableDecls(comments, nested)
    ensures Adds(Tokens(NestedLines(comments, nested, indent)), a, WithNested(a, nested))
    decreases nested, 0
  {
    hide Tokens, Adds, Spaces, Printable, PrintableEnum, MessageLines, EnumLines, Expected, ExpectedEnum;
    if nested == [] {
      NoTokens();
      AddsNothing(a);
    } else {
      var before, d := nested[..|nested| - 1], nested[|nested| - 1];
      NestedReads(comments, before, indent, a);
      var lines := NestedLines(comments, before, indent);
      var b := WithNested(a, before);
      match d
      case MessageDecl(m) =>
        assert m < d;
        MessageReads(comments, m, indent, b);
        MessageHasLines(comments, m, indent);
        DeclReads(lines, MessageLines(comments, m, indent), a, b, WithMessage(b, Expected(m)));
      case EnumDecl(e) =>
        EnumReads(comments, e, indent, b);
        EnumHasLines(comments, e, indent);
        DeclReads(lines, EnumLines(comments, e, indent), a, b, b.(enums := b.enums + [ExpectedEnum(e)]));
      case OtherDecl(_) =>
        assert lines + [] == lines;
    }
  }

  lemma MessageHasLines(comments: Comments, m: Message, indent: string)
    ensures MessageLines(comments, m, indent) != []
  {
    var lines := MessageLines(comments, m, indent);
    assert lines[|lines| - 1] == indent + "}";
  }

  lemma EnumHasLines(comments: Comments, e: Enum, indent: string)
    ensures EnumLines(comments, e, indent) != []
  {
  }

  lemma DeclReads(lines: seq<string>, decl: seq<string>, a: MessageText, b: MessageText, c: MessageText)
    requires decl != [] && Adds(Tokens(lines), a, b) && Adds(Tokens(decl), b, c)
    ensures Adds(Tokens(lines + [JoinLines(decl), ""]), a, c)
  {
    hide Tokens, Adds;
    TokensAppend(lines, [JoinLines(decl), ""]);
    DeclTokens(decl);
    AddsThenBlank(Tokens(decl), b, c);
    AddsThen(Tokens(lines), Tokens(decl) + [Blank], a, b, c);
  }

  /**
   * Reading back what was printed for a message recovers it: every nested message and enum with its
   * values, every real oneof, and every field with its modifier, type, name, number and oneof.
   */
  lemma PrintedMessageReadsBack(comments: Comments, m: Message)
    requires Printable(comments, m)
    ensures ReadSource(MessageSource(comments, m, "")) == Some(Expected(m))
  {
    MessageHasLines(comments, m, "");
    LinesOfJoined(MessageLines(comments, m, ""));
    MessageTokens(comments, m, "");
    BodyReads(comments, m, "  ");
    assert "" + "  " == "  ";
    var body := Tokens(BodyLines(comments, m, "  "));
    hide ReadLines, ReadLine, Flat, BodyLines, Printable, MessageLines, Expected, CommentTokensOf, Token;
    CommentIsNoise(comments, m.name);
    WholeMessageReads(CommentTokensOf(comments, m.name), m.name, body, Expected(m));
  }

  lemma {:induction false} WholeMessageReads(noise: seq<Line>, name: string, body: seq<Line>, text: MessageText)
    requires Noise(noise) && Adds(body, EmptyText(name), text)
    ensures ReadMessage(noise + Block("message", name, body)) == Some(text)
  {
    var block := Block("message", name, body);
    if noise == [] {
      BlockRest("message", name, body, []);
      assert block + [] == block && [Closing] + [] == [Closing] && noise + block == block;
      assert ReadBody(body + [Closing], EmptyText(name)) == ReadBody([Closing], text) == Read(text, []);
    } else {
      assert noise[0] in noise && forall l :: l in noise[1..] ==> l in noise;
      WholeMessageReads(noise[1..], name, body, text);
      assert (noise + block)[1..] == noise[1..] + block;
    }
  }

  /** Reading back what was printed for an enum recovers its name and its values, sorted by number. */
  lemma PrintedEnumReadsBack(comments: Comments, e: Enum)
    requires PrintableEnum(comments, e)
    ensures ReadEnumSource(EnumSource(comments, e, "")) == Some(ExpectedEnum(e))
  {
    EnumHasLines(comments, e, "");
    LinesOfJoined(EnumLines(comments, e, ""));
    EnumTokens(comments, e, "");
    SortKeepsTokens(e.values);
    ValuesRead(SortByNumber(e.values), "  ");
    assert "" + "  " == "  ";
    var body := Tokens(EnumValueLines(SortByNumber(e.values), "  "));
    CommentIsNoise(comments, e.name);
    hide ReadLines, ReadLine, Flat, EnumLines, EnumValueLines, SortByNumber, CommentTokensOf, Token;
    WholeEnumReads(CommentTokensOf(comments, e.name), e.name, body, SortByNumber(e.values));
  }

  lemma {:induction false} WholeEnumReads(noise: seq<Line>, name: string, body: seq<Line>, values: seq<(string, int)>)
    requires Noise(noise) && AddsValues(body, [], values)
    ensures ReadEnum(noise + Block("enum", name, body)) == Some(EnumText(name, values))
  {
    var block := Block("enum", name, body);
    if noise == [] {
      BlockRest("enum", name, body, []);
      assert block + [] == block && [Closing] + [] == [Closing] && noise + block == block;
      assert ReadValues(body + [Closing], []) == ReadValues([Closing], values) == Read(values, []);
    } else {
      assert noise[0] in noise && forall l :: l in noise[1..] ==> l in noise;
      WholeEnumReads(noise[1..], name, body, values);
      assert (noise + block)[1..] == noise[1..] + block;
    }
  }
}
