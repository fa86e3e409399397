/** Reading printed proto3 source back, one line at a time. */
module ProtoReader {
  import opened Wrappers
  import opened Splitting
  import opened Text

  // --- Numbers ---

  predicate IsDigit(c: char) {
    '0' <= c <= '9'
  }

  function ReadDecimal(s: string): Option<nat> {
    if s == "" || !IsDigit(s[|s| - 1]) then None
    else
      var d := s[|s| - 1] as int - '0' as int;
      if |s| == 1 then Some(d)
      else
        match ReadDecimal(s[..|s| - 1])
        case Some(n) => Some(10 * n + d)
        case None => None
  }

  function ReadNumber(s: string): Option<int> {
    if "-" <= s then
      var n := ReadDecimal(s[1..]);
      if n.Some? then Some(-(n.value as int)) else None
    else
      var n := ReadDecimal(s);
      if n.Some? then Some(n.value) else None
  }

  lemma {:induction false} DecimalReads(n: nat)
    ensures ReadDecimal(Decimal(n)) == Some(n)
    ensures forall c :: c in Decimal(n) ==> IsDigit(c)
  {
    if n < 10 {
      assert Decimal(n)[..0] == "";
    } else {
      DecimalReads(n / 10);
      assert Decimal(n)[..|Decimal(n)| - 1] == Decimal(n / 10);
    }
  }

  lemma NumberReads(n: int)
    ensures ReadNumber(Number(n)) == Some(n)
    ensures Number(n) != "" && forall c :: c in Number(n) ==> c == '-' || IsDigit(c)
  {
    hide ReadDecimal, Decimal;
    if n < 0 {
      DecimalReads(-n);
      assert Number(n)[1..] == Decimal(-n);
    } else {
      DecimalReads(n);
      assert Decimal(n)[0] in Decimal(n);
    }
  }

  // --- Lines ---

  /** A field as written: its modifier, its type, its name and its number. */
  datatype FieldText = FieldText(modifier: string, ty: string, name: string, id: int)

  datatype Line =
    | Blank
    | CommentLine
    | Opening(keyword: string, name: string)
    | Closing
    | FieldLine(field: FieldText)
    | ValueLine(name: string, number: int)
    | Unreadable

  function SkipSpaces(s: string): string {
    if s != "" && s[0] == ' ' then SkipSpaces(s[1..]) else s
  }

  function Words(s: string): seq<string> {
    SplitOn(' ', s)
  }

  /** The part before the first semicolon. */
  function BeforeSemicolon(s: string): string {
    SplitOn(';', s)[0]
  }

  /** A statement: `name = number`, or a field with its type and perhaps a modifier. */
  function ReadStatement(words: seq<string>): Line {
    if |words| < 3 || words[|words| - 2] != "=" then Unreadable
    else
      match ReadNumber(words[|words| - 1])
      case None => Unreadable
      case Some(n) =>
        var name := words[|words| - 3];
        var before := words[..|words| - 3];
        if |before| == 0 then ValueLine(name, n)
        else if |before| == 1 then FieldLine(FieldText("", before[0], name, n))
        else if |before| == 2 && before[0] in {"repeated", "optional"} then
          FieldLine(FieldText(before[0], before[1], name, n))
        else if |before| == 2 then FieldLine(FieldText("", before[0] + " " + before[1], name, n))
        else Unreadable
  }

  function ReadLine(line: string): Line {
    var s := SkipSpaces(line);
    if s == "" then Blank
    else if "//" <= s then CommentLine
    else if s == "}" then Closing
    else if ';' in s then ReadStatement(Words(BeforeSemicolon(s)))
    else
      var words := Words(s);
      if |words| == 3 && words[2] == "{" then Opening(words[0], words[1]) else Unreadable
  }

  function ReadLines(lines: seq<string>): seq<Line> {
    seq(|lines|, i requires 0 <= i < |lines| => ReadLine(lines[i]))
  }

  // --- Blocks ---

  datatype MessageText = MessageText(
    name: string,
    messages: seq<MessageText>,
    enums: seq<EnumText>,
    oneofs: seq<OneofText>,
    fields: seq<FieldText>)

  datatype EnumText = EnumText(name: string, values: seq<(string, int)>)

  datatype OneofText = OneofText(name: string, fields: seq<FieldText>)

  /** What was read, and the lines that follow it. */
  datatype Read<T> = Read(value: T, rest: seq<Line>) | Failed

  /** The values of an enum, up to its closing line. */
  function ReadValues(lines: seq<Line>, sofar: seq<(string, int)>): (r: Read<seq<(string, int)>>)
    ensures r.Read? ==> |r.rest| < |lines|
  {
    if lines == [] then Failed
    else
      match lines[0]
      case Closing => Read(sofar, lines[1..])
      case ValueLine(name, number) => ReadValues(lines[1..], sofar + [(name, number)])
      case _ => Failed
  }

  /** The fields of a oneof, up to its closing line. */
  function ReadMembers(lines: seq<Line>, sofar: seq<FieldText>): (r: Read<seq<FieldText>>)
    ensures r.Read? ==> |r.rest| < |lines|
  {
    if lines == [] then Failed
    else
      match lines[0]
      case Closing => Read(sofar, lines[1..])
      case FieldLine(f) => ReadMembers(lines[1..], sofar + [f])
      case _ => Failed
  }

  /** The contents of a message, up to its closing line. */
  function ReadBody(lines: seq<Line>, sofar: MessageText): (r: Read<MessageText>)
    ensures r.Read? ==> |r.rest| < |lines|
    decreases |lines|
  {
    if lines == [] then Failed
    else
      match lines[0]
      case Closing => Read(sofar, lines[1..])
      case Blank => ReadBody(lines[1..], sofar)
      case CommentLine => ReadBody(lines[1..], sofar)
      case FieldLine(f) => ReadBody(lines[1..], sofar.(fields := sofar.fields + [f]))
      case Opening(keyword, name) =>
        if keyword == "message" then
          match ReadBody(lines[1..], MessageText(name, [], [], [], []))
          case Read(inner, rest) => ReadBody(rest, sofar.(messages := sofar.messages + [inner]))
          case Failed => Failed
        else if keyword == "enum" then
          match ReadValues(lines[1..], [])
          case Read(values, rest) => ReadBody(rest, sofar.(enums := sofar.enums + [EnumText(name, values)]))
          case Failed => Failed
        else if keyword == "oneof" then
          match ReadMembers(lines[1..], [])
          case Read(members, rest) => ReadBody(rest, sofar.(oneofs := sofar.oneofs + [OneofText(name, members)]))
          case Failed => Failed
        else Failed
      case _ => Failed
  }

  /** A whole source text: comments and empty lines, then one message and nothing else. */
  function ReadMessage(lines: seq<Line>): Option<MessageText> {
    if lines == [] then None
    else
      match lines[0]
      case CommentLine => ReadMessage(lines[1..])
      case Blank => ReadMessage(lines[1..])
      case Opening(keyword, name) =>
        if keyword != "message" then None
        else
          (match ReadBody(lines[1..], MessageText(name, [], [], [], []))
           case Read(m, rest) => if rest == [] then Some(m) else None
           case Failed => None)
      case _ => None
  }

  /** The source text of one enum. */
  function ReadEnum(lines: seq<Line>): Option<EnumText> {
    if lines == [] then None
    else
      match lines[0]
      case CommentLine => ReadEnum(lines[1..])
      case Blank => ReadEnum(lines[1..])
      case Opening(keyword, name) =>
        if keyword != "enum" then None
        else
          (match ReadValues(lines[1..], [])
           case Read(values, rest) => if rest == [] then Some(EnumText(name, values)) else None
           case Failed => None)
      case _ => None
  }

  function ReadEnumSource(text: string): Option<EnumText> {
    ReadEnum(ReadLines(SplitLines(text)))
  }

  function ReadSource(text: string): Option<MessageText> {
    ReadMessage(ReadLines(SplitLines(text)))
  }
}
