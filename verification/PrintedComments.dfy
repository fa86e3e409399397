/** Exactly which comments keep a printed message readable: those whose further lines can be ignored. */
module PrintedComments {
  import opened Wrappers
  import Splitting
  import opened ProtoTypes
  import opened Text
  import opened ProtoPrinter
  import opened ProtoReader
  import opened PrintedLines
  import opened ProtoRoundTrip

  // --- What a reading consumes ---

  /** How many lines count for something: all but comments and empty ones. */
  function Weight(lines: seq<Line>): nat {
    if lines == [] then 0
    else (if lines[0] == CommentLine || lines[0] == Blank then 0 else 1) + Weight(lines[1..])
  }

  lemma {:induction false} WeightAppend(a: seq<Line>, b: seq<Line>)
    ensures Weight(a + b) == Weight(a) + Weight(b)
  {
    if a == [] {
      assert a + b == b;
    } else {
      WeightAppend(a[1..], b);
      assert (a + b)[1..] == a[1..] + b;
    }
  }

  lemma {:induction false} WeightlessIsNoise(lines: seq<Line>)
    ensures Weight(lines) == 0 <==> Noise(lines)
  {
    if lines != [] {
      WeightlessIsNoise(lines[1..]);
      if Noise(lines) {
        assert lines[0] in lines && forall l :: l in lines[1..] ==> l in lines;
      }
      if Weight(lines) == 0 {
        forall l | l in lines ensures l == CommentLine || l == Blank {
          assert l != lines[0] ==> l in lines[1..];
        }
      }
    }
  }

  /** How many lines it takes to say what a text holds: one for each field and value, two around each block. */
  function Total(t: MessageText): nat
    decreases t, 1
  {
    TotalMessages(t.messages) + TotalEnums(t.enums) + TotalOneofs(t.oneofs) + |t.fields|
  }

  function TotalMessages(messages: seq<MessageText>): nat
    decreases messages, 0
  {
    if messages == [] then 0
    else TotalMessages(messages[..|messages| - 1]) + 2 + Total(messages[|messages| - 1])
  }

  function TotalEnums(enums: seq<EnumText>): nat {
    if enums == [] then 0 else TotalEnums(enums[..|enums| - 1]) + 2 + |enums[|enums| - 1].values|
  }

  function TotalOneofs(oneofs: seq<OneofText>): nat {
    if oneofs == [] then 0 else TotalOneofs(oneofs[..|oneofs| - 1]) + 2 + |oneofs[|oneofs| - 1].fields|
  }

  lemma {:induction false} ValuesWeigh(lines: seq<Line>, sofar: seq<(string, int)>)
    requires ReadValues(lines, sofar).Read?
    ensures var r := ReadValues(lines, sofar); Weight(lines) + |sofar| == Weight(r.rest) + |r.value| + 1
  {
    match lines[0]
    case ValueLine(name, number) => ValuesWeigh(lines[1..], sofar + [(name, number)]);
    case _ =>
  }

  lemma {:induction false} MembersWeigh(lines: seq<Line>, sofar: seq<FieldText>)
    requires ReadMembers(lines, sofar).Read?
    ensures var r := ReadMembers(lines, sofar); Weight(lines) + |sofar| == Weight(r.rest) + |r.value| + 1
  {
    match lines[0]
    case FieldLine(f) => MembersWeigh(lines[1..], sofar + [f]);
    case _ =>
  }

  lemma TotalWith(a: MessageText, m: MessageText, e: EnumText, o: OneofText, f: FieldText)
    ensures Total(a.(messages := a.messages + [m])) == Total(a) + 2 + Total(m)
    ensures Total(a.(enums := a.enums + [e])) == Total(a) + 2 + |e.values|
    ensures Total(a.(oneofs := a.oneofs + [o])) == Total(a) + 2 + |o.fields|
    ensures Total(a.(fields := a.fields + [f])) == Total(a) + 1
  {
    assert (a.messages + [m])[..|a.messages|] == a.messages;
    assert (a.enums + [e])[..|a.enums|] == a.enums;
    assert (a.oneofs + [o])[..|a.oneofs|] == a.oneofs;
  }

  /** Reading the body of a message consumes as many lines that count as it takes to say what was added, and one. */
  lemma {:induction false} BodyWeighs(lines: seq<Line>, a: MessageText)
    requires ReadBody(lines, a).Read?
    ensures var r := ReadBody(lines, a); Weight(lines) + Total(a) == Weight(r.rest) + Total(r.value) + 1
    decreases |lines|
  {
    var e, o, f := EnumText("", []), OneofText("", []), FieldText("", "", "", 0);
    match lines[0]
    case Blank => BodyWeighs(lines[1..], a);
    case CommentLine => BodyWeighs(lines[1..], a);
    case FieldLine(g) =>
      TotalWith(a, a, e, o, g);
      BodyWeighs(lines[1..], a.(fields := a.fields + [g]));
    case Opening(keyword, name) => BlockWeighs(lines, a, keyword, name);
    case _ =>
  }

  lemma {:induction false} BlockWeighs(lines: seq<Line>, a: MessageText, keyword: string, name: string)
    requires lines != [] && lines[0] == Opening(keyword, name) && ReadBody(lines, a).Read?
    ensures var r := ReadBody(lines, a); Weight(lines) + Total(a) == Weight(r.rest) + Total(r.value) + 1
    decreases |lines|, 0
  {
    var e, o, f := EnumText("", []), OneofText("", []), FieldText("", "", "", 0);
    hide Total;
    if keyword == "message" {
      var inner := ReadBody(lines[1..], EmptyText(name));
      BodyWeighs(lines[1..], EmptyText(name));
      EmptyWeighs(name);
      TotalWith(a, inner.value, e, o, f);
      BodyWeighs(inner.rest, a.(messages := a.messages + [inner.value]));
    } else if keyword == "enum" {
      var values := ReadValues(lines[1..], []);
      ValuesWeigh(lines[1..], []);
      TotalWith(a, a, EnumText(name, values.value), o, f);
      BodyWeighs(values.rest, a.(enums := a.enums + [EnumText(name, values.value)]));
    } else {
      var members := ReadMembers(lines[1..], []);
      MembersWeigh(lines[1..], []);
      TotalWith(a, a, e, OneofText(name, members.value), f);
      BodyWeighs(members.rest, a.(oneofs := a.oneofs + [OneofText(name, members.value)]));
    }
  }

  lemma EmptyWeighs(name: string)
    ensures Total(EmptyText(name)) == 0
  {
  }

  /** A text that reads as a message has exactly the lines that say so. */
  lemma {:induction false} MessageWeighs(lines: seq<Line>)
    requires ReadMessage(lines).Some?
    ensures Weight(lines) == Total(ReadMessage(lines).value) + 2
  {
    match lines[0]
    case Opening(_, name) =>
      BodyWeighs(lines[1..], EmptyText(name));
      EmptyWeighs(name);
    case CommentLine => MessageWeighs(lines[1..]);
    case Blank => MessageWeighs(lines[1..]);
    case _ =>
  }

  // --- What comments add ---

  /** The same comments on fields, and none on messages and enums. */
  function Bare(comments: Comments): Comments {
    Comments(comments.fields, map[])
  }

  /** The further lines of every comment that is printed with the message can be ignored. */
  predicate IgnorableComments(comments: Comments, m: Message)
    decreases m, 1
  {
    IgnorableComment(comments, m.name) && IgnorableDecls(comments, m.nested)
  }

  predicate IgnorableDecls(comments: Comments, nested: seq<Decl>)
    decreases nested, 0
  {
    nested != [] ==>
      var d := nested[|nested| - 1];
      && IgnorableDecls(comments, nested[..|nested| - 1])
      && match d
         case MessageDecl(m) => (assert m < d; IgnorableComments(comments, m))
         case EnumDecl(e) => IgnorableComment(comments, e.name)
         case OtherDecl(_) => true
  }

  /** Names that can be printed, whatever the comments. */
  predicate PrintableNames(m: Message) {
    Printable(Comments(map[], map[]), m)
  }

  lemma {:induction false} PrintableInTwo(comments: Comments, m: Message)
    ensures Printable(comments, m) <==> PrintableNames(m) && IgnorableComments(comments, m)
    decreases m, 1
  {
    DeclsPrintableInTwo(comments, m.nested);
  }

  lemma {:induction false} DeclsPrintableInTwo(comments: Comments, nested: seq<Decl>)
    ensures PrintableDecls(comments, nested)
       <==> PrintableDecls(Comments(map[], map[]), nested) && IgnorableDecls(comments, nested)
    decreases nested, 0
  {
    hide IgnorableComment;
    if nested != [] {
      var d := nested[|nested| - 1];
      DeclsPrintableInTwo(comments, nested[..|nested| - 1]);
      match d
      case MessageDecl(m) =>
        assert m < d;
        PrintableInTwo(comments, m);
      case EnumDecl(e) => NoComment(e.name);
      case OtherDecl(_) =>
    }
  }

  lemma NoComment(name: string)
    ensures IgnorableComment(Comments(map[], map[]), name)
  {
  }

  lemma BareIsPrintable(comments: Comments, m: Message)
    requires PrintableNames(m)
    ensures Printable(Bare(comments), m)
  {
    PrintableInTwo(Bare(comments), m);
    BareIsIgnorable(comments, m);
  }

  lemma {:induction false} BareIsIgnorable(comments: Comments, m: Message)
    ensures IgnorableComments(Bare(comments), m)
    decreases m, 1
  {
    BareDeclsAreIgnorable(comments, m.nested);
  }

  lemma {:induction false} BareDeclsAreIgnorable(comments: Comments, nested: seq<Decl>)
    ensures IgnorableDecls(Bare(comments), nested)
    decreases nested, 0
  {
    if nested != [] {
      var d := nested[|nested| - 1];
      BareDeclsAreIgnorable(comments, nested[..|nested| - 1]);
      match d
      case MessageDecl(m) =>
        assert m < d;
        BareIsIgnorable(comments, m);
      case _ =>
    }
  }

  /** The weight of all comments printed with a message. */
  function NoiseWeight(comments: Comments, m: Message): nat
    decreases m, 1
  {
    Weight(CommentTokensOf(comments, m.name)) + NoiseWeightDecls(comments, m.nested)
  }

  function NoiseWeightDecls(comments: Comments, nested: seq<Decl>): nat
    decreases nested, 0
  {
    if nested == [] then 0
    else
      var d := nested[|nested| - 1];
      NoiseWeightDecls(comments, nested[..|nested| - 1])
      + match d
        case MessageDecl(m) => (assert m < d; NoiseWeight(comments, m))
        case EnumDecl(e) => Weight(CommentTokensOf(comments, e.name))
        case OtherDecl(_) => 0
  }

  lemma {:induction false} WeightlessIsIgnorable(comments: Comments, m: Message)
    ensures NoiseWeight(comments, m) == 0 <==> IgnorableComments(comments, m)
    decreases m, 1
  {
    hide IgnorableComment, CommentTokensOf, Noise, Weight;
    CommentIsNoise(comments, m.name);
    WeightlessIsNoise(CommentTokensOf(comments, m.name));
    WeightlessDecls(comments, m.nested);
  }

  lemma {:induction false} WeightlessDecls(comments: Comments, nested: seq<Decl>)
    ensures NoiseWeightDecls(comments, nested) == 0 <==> IgnorableDecls(comments, nested)
    decreases nested, 0
  {
    hide IgnorableComment, CommentTokensOf, Noise, Weight;
    if nested != [] {
      var d := nested[|nested| - 1];
      WeightlessDecls(comments, nested[..|nested| - 1]);
      match d
      case MessageDecl(m) =>
        assert m < d;
        WeightlessIsIgnorable(comments, m);
      case EnumDecl(e) =>
        CommentIsNoise(comments, e.name);
        WeightlessIsNoise(CommentTokensOf(comments, e.name));
      case OtherDecl(_) =>
    }
  }

  // --- Printed with and without comments ---

  lemma {:induction false} SameMemberLines(comments: Comments, m: Message, members: seq<string>, indent: string)
    ensures OneofMemberLines(comments, m, members, indent) == OneofMemberLines(Bare(comments), m, members, indent)
  {
    if members != [] {
      SameMemberLines(comments, m, members[..|members| - 1], indent);
    }
  }

  lemma {:induction false} SameOneofLines(comments: Comments, m: Message, oneofs: seq<Oneof>, indent: string)
    ensures OneofLines(comments, m, oneofs, indent) == OneofLines(Bare(comments), m, oneofs, indent)
  {
    if oneofs != [] {
      SameOneofLines(comments, m, oneofs[..|oneofs| - 1], indent);
      SameMemberLines(comments, m, oneofs[|oneofs| - 1].members, indent + "  ");
    }
  }

  lemma {:induction false} SameFieldLines(comments: Comments, m: Message, fields: seq<Field>, indent: string)
    ensures PlainFieldLines(comments, m, fields, indent) == PlainFieldLines(Bare(comments), m, fields, indent)
  {
    hide InRealOneof;
    if fields != [] {
      SameFieldLines(comments, m, fields[..|fields| - 1], indent);
    }
  }

  lemma BlockWeight(keyword: string, name: string, body: seq<Line>)
    ensures Weight(Block(keyword, name, body)) == Weight(body) + 2
  {
    WeightAppend([Opening(keyword, name)] + body, [Closing]);
    WeightAppend([Opening(keyword, name)], body);
  }

  lemma BodyTokens(comments: Comments, m: Message, indent: string)
    ensures Weight(Tokens(BodyLines(comments, m, indent)))
         == Weight(Tokens(NestedLines(comments, m.nested, indent)))
          + Weight(Tokens(OneofLines(comments, m, RealOneofs(m.oneofs), indent)))
          + Weight(Tokens(PlainFieldLines(comments, m, m.fields, indent)))
  {
    var nested := NestedLines(comments, m.nested, indent);
    var oneofs := OneofLines(comments, m, RealOneofs(m.oneofs), indent);
    var fields := PlainFieldLines(comments, m, m.fields, indent);
    hide Tokens, Weight, NestedLines, OneofLines, PlainFieldLines;
    TokensAppend(nested + oneofs, fields);
    TokensAppend(nested, oneofs);
    WeightAppend(Tokens(nested + oneofs), Tokens(fields));
    WeightAppend(Tokens(nested), Tokens(oneofs));
  }

  /** The comments are all the difference. */
  lemma {:induction false} MessageWeight(comments: Comments, m: Message, indent: string)
    requires Spaces(indent) && PrintableNames(m)
    ensures Weight(Tokens(MessageLines(comments, m, indent)))
         == NoiseWeight(comments, m) + Weight(Tokens(MessageLines(Bare(comments), m, indent)))
    decreases m, 2
  {
    var inner := indent + "  ";
    MessageTokens(comments, m, indent);
    MessageTokens(Bare(comments), m, indent);
    NestedWeight(comments, m.nested, inner);
    hide Tokens, Weight, Spaces, Token, MessageLines, CommentTokensOf, Block, BodyLines, NestedLines, OneofLines;
    hide PlainFieldLines, Printable, PrintableDecls;
    BodyTokens(comments, m, inner);
    BodyTokens(Bare(comments), m, inner);
    SameOneofLines(comments, m, RealOneofs(m.oneofs), inner);
    SameFieldLines(comments, m, m.fields, inner);
    var body, bare := Tokens(BodyLines(comments, m, inner)), Tokens(BodyLines(Bare(comments), m, inner));
    WeightAppend(CommentTokensOf(comments, m.name), Block("message", m.name, body));
    WeightAppend([], Block("message", m.name, bare));
    assert Weight([]) == 0 by { NothingWeighs(); }
    BlockWeight("message", m.name, body);
    BlockWeight("message", m.name, bare);
  }

  lemma NothingWeighs()
    ensures Weight([]) == 0 && Weight([Blank]) == 0
  {
  }

  lemma EnumWeight(comments: Comments, e: Enum, indent: string)
    requires Spaces(indent) && Token(e.name)
    ensures Weight(Tokens(EnumLines(comments, e, indent)))
         == Weight(CommentTokensOf(comments, e.name)) + Weight(Tokens(EnumLines(Bare(comments), e, indent)))
  {
    EnumTokens(comments, e, indent);
    EnumTokens(Bare(comments), e, indent);
    hide Tokens, Weight, Spaces, Token, EnumLines, CommentTokensOf, Block, EnumValueLines, SortByNumber;
    var block := Block("enum", e.name, Tokens(EnumValueLines(SortByNumber(e.values), indent + "  ")));
    WeightAppend(CommentTokensOf(comments, e.name), block);
    assert [] + block == block;
  }

  lemma DeclWeight(lines: seq<string>, decl: seq<string>)
    requires decl != []
    ensures Weight(Tokens(lines + [JoinLines(decl), ""])) == Weight(Tokens(lines)) + Weight(Tokens(decl))
  {
    hide Tokens, Weight;
    TokensAppend(lines, [JoinLines(decl), ""]);
    DeclTokens(decl);
    WeightAppend(Tokens(lines), Tokens(decl) + [Blank]);
    WeightAppend(Tokens(decl), [Blank]);
    NothingWeighs();
  }

  lemma {:induction false} NestedWeight(comments: Comments, nested: seq<Decl>, indent: string)
    requires Spaces(indent) && PrintableDecls(Comments(map[], map[]), nested)
    ensures Weight(Tokens(NestedLines(comments, nested, indent)))
         == NoiseWeightDecls(comments, nested) + Weight(Tokens(NestedLines(Bare(comments), nested, indent)))
    decreases nested, 0
  {
    hide Tokens, Weight, Spaces, Token, MessageLines, EnumLines, CommentTokensOf, Printable, IgnorableComment;
    if nested != [] {
      var before, d := nested[..|nested| - 1], nested[|nested| - 1];
      NestedWeight(comments, before, indent);
      var lines, bare := NestedLines(comments, before, indent), NestedLines(Bare(comments), before, indent);
      match d
      case MessageDecl(m) =>
        assert m < d;
        MessageWeight(comments, m, indent);
        MessageHasLines(comments, m, indent);
        MessageHasLines(Bare(comments), m, indent);
        DeclWeight(lines, MessageLines(comments, m, indent));
        DeclWeight(bare, MessageLines(Bare(comments), m, indent));
      case EnumDecl(e) =>
        EnumWeight(comments, e, indent);
        EnumHasLines(comments, e, indent);
        EnumHasLines(Bare(comments), e, indent);
        DeclWeight(lines, EnumLines(comments, e, indent));
        DeclWeight(bare, EnumLines(Bare(comments), e, indent));
      case OtherDecl(_) =>
        assert lines + [] == lines && bare + [] == bare;
    } else {
      NothingWeighs();
    }
  }

  // --- The theorem ---

  lemma SourceWeighs(comments: Comments, m: Message)
    requires ReadSource(MessageSource(comments, m, "")) == Some(Expected(m))
    ensures Weight(Tokens(MessageLines(comments, m, ""))) == Total(Expected(m)) + 2
  {
    hide ReadMessage, Weight, Total, MessageLines, Expected, ReadLines, Flat;
    MessageHasLines(comments, m, "");
    LinesOfJoined(MessageLines(comments, m, ""));
    MessageWeighs(Tokens(MessageLines(comments, m, "")));
  }

  /**
   * What was printed for a message reads back as the message if and only if every further line of
   * every message and enum comment printed with it is empty or marked as a comment.
   */
  lemma PrintedMessageReadsBackExactly(comments: Comments, m: Message)
    requires PrintableNames(m)
    ensures ReadSource(MessageSource(comments, m, "")) == Some(Expected(m)) <==> IgnorableComments(comments, m)
  {
    hide MessageLines, Tokens, Weight, Expected, Printable;
    hide NoiseWeight, IgnorableComments, MessageSource, ReadSource, Total;
    PrintableInTwo(comments, m);
    if IgnorableComments(comments, m) {
      PrintedMessageReadsBack(comments, m);
    }
    if ReadSource(MessageSource(comments, m, "")) == Some(Expected(m)) {
      SourceWeighs(comments, m);
      BareIsPrintable(comments, m);
      PrintedMessageReadsBack(Bare(comments), m);
      SourceWeighs(Bare(comments), m);
      MessageWeight(comments, m, "");
      WeightlessIsIgnorable(comments, m);
    }
  }

  // --- Enums ---

  predicate PrintableEnumNames(e: Enum) {
    Token(e.name) && forall v :: v in e.values ==> Token(v.0)
  }

  lemma {:induction false} EnumWeighs(lines: seq<Line>)
    requires ReadEnum(lines).Some?
    ensures Weight(lines) == |ReadEnum(lines).value.values| + 2
  {
    match lines[0]
    case Opening(_, _) => ValuesWeigh(lines[1..], []);
    case CommentLine => EnumWeighs(lines[1..]);
    case Blank => EnumWeighs(lines[1..]);
    case _ =>
  }

  lemma EnumSourceWeighs(comments: Comments, e: Enum)
    requires ReadEnumSource(EnumSource(comments, e, "")) == Some(ExpectedEnum(e))
    ensures Weight(Tokens(EnumLines(comments, e, ""))) == |ExpectedEnum(e).values| + 2
  {
    hide ReadEnum, Weight, EnumLines, ExpectedEnum, ReadLines, Flat;
    EnumHasLines(comments, e, "");
    LinesOfJoined(EnumLines(comments, e, ""));
    EnumWeighs(Tokens(EnumLines(comments, e, "")));
  }

  /**
   * What was printed for an enum reads back as the enum if and only if the further lines of its
   * comment can be ignored.
   */
  lemma PrintedEnumReadsBackExactly(comments: Comments, e: Enum)
    requires PrintableEnumNames(e)
    ensures ReadEnumSource(EnumSource(comments, e, "")) == Some(ExpectedEnum(e)) <==> IgnorableComment(comments, e.name)
  {
    hide EnumLines, Tokens, Weight, ExpectedEnum, EnumSource, ReadEnumSource, CommentTokensOf, IgnorableComment, Token;
    if IgnorableComment(comments, e.name) {
      PrintedEnumReadsBack(comments, e);
    }
    if ReadEnumSource(EnumSource(comments, e, "")) == Some(ExpectedEnum(e)) {
      EnumSourceWeighs(comments, e);
      BareEnumIsIgnorable(comments, e.name);
      PrintedEnumReadsBack(Bare(comments), e);
      EnumSourceWeighs(Bare(comments), e);
      EnumWeight(comments, e, "");
      WeightlessIsNoise(CommentTokensOf(comments, e.name));
      CommentIsNoise(comments, e.name);
    }
  }

  lemma BareEnumIsIgnorable(comments: Comments, name: string)
    ensures IgnorableComment(Bare(comments), name)
  {
  }

  // --- A comment that is taken for something else ---

  /** A message with a comment of two lines, the second of which is taken for something it is not. */
  lemma LongCommentDoesNotReadBack()
    ensures var m := Message("M", "M", [], [], []);
      ReadSource(MessageSource(Comments(map[], map["M" := "first\nsecond"]), m, "")) != Some(Expected(m))
  {
    var m := Message("M", "M", [], [], []);
    var comments := Comments(map[], map["M" := "first\nsecond"]);
    PlainM();
    SecondLineCounts(comments);
    hide ReadSource, MessageSource, Expected, PrintableNames, IgnorableComment;
    PrintedMessageReadsBackExactly(comments, m);
  }

  lemma PlainM()
    ensures PrintableNames(Message("M", "M", [], [], []))
  {
    assert Token("M");
  }

  lemma SecondLineCounts(comments: Comments)
    requires MessageComment(comments, "M") == Some("first\nsecond")
    ensures !IgnorableComment(comments, "M")
  {
    TwoLines();
    hide Trim, SplitLines;
    var pieces := SplitLines(Trim("first\nsecond"));
    assert pieces[1..] == ["second"];
    assert !Ignorable("second");
  }

  lemma TwoLines()
    ensures SplitLines(Trim("first\nsecond")) == ["first", "second"]
  {
    NothingToTrim("first\nsecond");
    TwoPieces("first", "second");
    assert "first\nsecond" == "first" + ['\n'] + "second";
    hide Trim, SplitLines;
  }

  lemma NothingToTrim(s: string)
    requires s != "" && !IsSpace(s[0]) && !IsSpace(s[|s| - 1])
    ensures Trim(s) == s
  {
  }

  lemma TwoPieces(a: string, b: string)
    requires '\n' !in a && '\n' !in b
    ensures SplitLines(a + ['\n'] + b) == [a, b]
  {
    Splitting.SplitOfPiece('\n', a);
    Splitting.SplitOfPiece('\n', b);
    Splitting.SplitOfAppend('\n', a, b);
  }
}
