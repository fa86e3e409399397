/** The comments in printed source: what is printed of them, and exactly when they can be told from it. */
module CommentText {
  import opened Wrappers
  import opened ProtoTypes
  import opened Text
  import opened Selections
  import opened ProtoPrinter
  import opened PrintedLines
  import opened SchemaContents

  // --- The lines of a comment ---

  predicate Blank(s: string) {
    forall c :: c in s ==> IsSpace(c)
  }

  /** `t` is `s` without the white space around it. */
  ghost predicate IsTrimmed(s: string, t: string) {
    && (exists a, b :: s == a + t + b && Blank(a) && Blank(b))
    && (t != "" ==> !IsSpace(t[0]) && !IsSpace(t[|t| - 1]))
  }

  ghost function NotBlank(lines: seq<string>): set<nat> {
    set i: nat | i < |lines| && !Blank(lines[i])
  }

  /** The lines that are not blank, trimmed, in their order. */
  ghost predicate NoteLines(lines: seq<string>, notes: seq<string>) {
    exists at :: && Picks(at, NotBlank(lines)) && |at| == |notes|
                 && forall k :: 0 <= k < |at| ==> at[k] < |lines| && IsTrimmed(lines[at[k]], notes[k])
  }

  lemma {:induction false} TrimStartExactly(s: string) returns (a: string)
    ensures s == a + TrimStart(s) && Blank(a) && (TrimStart(s) != "" ==> !IsSpace(TrimStart(s)[0]))
  {
    hide IsSpace;
    if s != "" && IsSpace(s[0]) {
      var rest := TrimStartExactly(s[1..]);
      a := [s[0]] + rest;
      assert s == [s[0]] + s[1..];
    } else {
      a := "";
    }
  }

  lemma {:induction false} TrimEndExactly(s: string) returns (b: string)
    ensures s == TrimEnd(s) + b && Blank(b) && (TrimEnd(s) != "" ==> !IsSpace(TrimEnd(s)[|TrimEnd(s)| - 1]))
  {
    hide IsSpace;
    if s != "" && IsSpace(s[|s| - 1]) {
      var rest := TrimEndExactly(s[..|s| - 1]);
      b := rest + [s[|s| - 1]];
      assert s == s[..|s| - 1] + [s[|s| - 1]];
    } else {
      b := "";
    }
  }

  lemma TrimExactly(s: string)
    ensures IsTrimmed(s, Trim(s))
    ensures Trim(s) == "" <==> Blank(s)
  {
    var a := TrimStartExactly(s);
    var b := TrimEndExactly(TrimStart(s));
    hide TrimStart, TrimEnd, IsSpace;
    assert s == a + Trim(s) + b;
    if Trim(s) != "" {
      assert TrimStart(s)[0] == Trim(s)[0];
      assert s[|a|] == Trim(s)[0];
    } else {
      assert s == a + b;
    }
  }

  lemma {:induction false} NotesAre(lines: seq<string>, n: nat)
    requires n <= |lines|
    ensures NoteLines(lines[..n], TrimmedLines(lines[..n]))
  {
    if n == 0 {
      assert Picks([], NotBlank(lines[..0]));
      assert TrimmedLines(lines[..0]) == [];
    } else {
      var k: nat := n - 1;
      NotesAre(lines, k);
      assert lines[..n] == lines[..k] + [lines[k]];
      TrimmedAppend(lines[..k], lines[k]);
      OneMoreNote(lines[..k], lines[k], TrimmedLines(lines[..k]));
    }
  }

  lemma {:induction false} TrimmedAppend(lines: seq<string>, last: string)
    ensures TrimmedLines(lines + [last]) == TrimmedLines(lines) + if Trim(last) != "" then [Trim(last)] else []
  {
    hide Trim;
    if lines == [] {
      assert [last][1..] == [];
      assert lines + [last] == [last];
    } else {
      TrimmedAppend(lines[1..], last);
      assert (lines + [last])[1..] == lines[1..] + [last];
    }
  }

  lemma OneMoreNote(lines: seq<string>, last: string, notes: seq<string>)
    requires NoteLines(lines, notes)
    ensures NoteLines(lines + [last], notes + if Trim(last) != "" then [Trim(last)] else [])
  {
    TrimExactly(last);
    hide Trim, Blank, IsTrimmed;
    var before := NotBlank(lines);
    var at: seq<nat> :| && Picks(at, before) && |at| == |notes|
              && forall k :: 0 <= k < |at| ==> at[k] < |lines| && IsTrimmed(lines[at[k]], notes[k]);
    PicksNext(at, before, |lines|, !Blank(last));
    var at' := at + if !Blank(last) then [|lines|] else [];
    assert NotBlank(lines + [last]) == before + if !Blank(last) then {|lines|} else {};
    var notes' := notes + if Trim(last) != "" then [Trim(last)] else [];
    assert forall k :: 0 <= k < |at'| ==> at'[k] < |lines + [last]| && IsTrimmed((lines + [last])[at'[k]], notes'[k]);
  }

  // --- Reading the lines back ---

  /** Splitting at the marker, from the left. */
  function SplitMarked(s: string): (pieces: seq<string>)
    ensures |pieces| >= 1
    decreases |s|
  {
    if s == "" then [""]
    else if "{{NL}}" <= s then [""] + SplitMarked(s[6..])
    else
      var rest := SplitMarked(s[1..]);
      [[s[0]] + rest[0]] + rest[1..]
  }

  ghost predicate HasMarker(s: string) {
    exists i :: 0 <= i <= |s| && "{{NL}}" <= s[i..]
  }

  lemma NoOverlap(s: string, rest: string)
    requires 0 < |s| < 6
    ensures !("{{NL}}" <= s + "{{NL}}" + rest)
  {
    var all := s + "{{NL}}" + rest;
    assert all[|s|] == '{' && all[|s| + 1] == '{' && all[|s| + 2] == 'N' && all[|s| + 3] == 'L';
  }

  /** No end of the marker is the beginning of one, so a text without it followed by it has it there first. */
  lemma MarkerComesFirst(s: string, rest: string)
    requires s != "" && !HasMarker(s)
    ensures !("{{NL}}" <= s + "{{NL}}" + rest)
  {
    if |s| < 6 {
      NoOverlap(s, rest);
    } else {
      assert s[0..] == s && s[..6] == (s + "{{NL}}" + rest)[..6];
    }
  }

  lemma MarkerInside(s: string)
    requires s != "" && !HasMarker(s)
    ensures !HasMarker(s[1..])
  {
    forall i | 0 <= i <= |s[1..]|
      ensures !("{{NL}}" <= s[1..][i..])
    {
      assert s[1..][i..] == s[i + 1..];
    }
  }

  lemma {:induction false} SplitAtMarker(s: string, rest: string)
    requires !HasMarker(s)
    ensures SplitMarked(s + "{{NL}}" + rest) == [s] + SplitMarked(rest)
    decreases |s|
  {
    var all := s + "{{NL}}" + rest;
    if s == "" {
      assert all == "{{NL}}" + rest && all[6..] == rest;
    } else {
      MarkerComesFirst(s, rest);
      MarkerInside(s);
      SplitAtMarker(s[1..], rest);
      assert all[1..] == s[1..] + "{{NL}}" + rest;
      assert [s[0]] + s[1..] == s;
    }
  }

  lemma {:induction false} WithoutMarker(s: string)
    requires !HasMarker(s)
    ensures SplitMarked(s) == [s]
    decreases |s|
  {
    if s != "" {
      assert s[0..] == s;
      MarkerInside(s);
      WithoutMarker(s[1..]);
      assert [s[0]] + s[1..] == s;
    }
  }

  lemma {:induction false} PiecesHaveNoMarker(s: string)
    ensures forall p :: p in SplitMarked(s) ==> !HasMarker(p)
    decreases |s|
  {
    if s == "" {
    } else if "{{NL}}" <= s {
      PiecesHaveNoMarker(s[6..]);
    } else {
      PiecesHaveNoMarker(s[1..]);
      var rest := SplitMarked(s[1..]);
      var first := [s[0]] + rest[0];
      PieceIsPrefix(s[1..]);
      assert first <= s;
      assert rest[0] in rest;
      forall i | 0 <= i <= |first|
        ensures !("{{NL}}" <= first[i..])
      {
        if i == 0 {
          assert first[0..] == first;
        } else {
          assert first[i..] == rest[0][i - 1..];
        }
      }
    }
  }

  lemma {:induction false} PieceIsPrefix(s: string)
    ensures SplitMarked(s)[0] <= s
    decreases |s|
  {
    if s != "" && !("{{NL}}" <= s) {
      PieceIsPrefix(s[1..]);
    }
  }

  lemma {:induction false} MarkedSplits(lines: seq<string>)
    requires lines != [] && forall l :: l in lines ==> !HasMarker(l)
    ensures SplitMarked(JoinMarked(lines)) == lines
  {
    hide HasMarker, SplitMarked;
    assert lines[0] in lines;
    if |lines| == 1 {
      WithoutMarker(lines[0]);
    } else {
      assert forall l :: l in lines[1..] ==> l in lines;
      MarkedSplits(lines[1..]);
      SplitAtMarker(lines[0], JoinMarked(lines[1..]));
      assert [lines[0]] + lines[1..] == lines;
    }
  }

  // --- Comments on fields ---

  /** What stands after the first semicolon of a line. */
  function AfterSemicolon(line: string): string {
    if line == "" then "" else if line[0] == ';' then line[1..] else AfterSemicolon(line[1..])
  }

  lemma {:induction false} AfterFirst(before: string, after: string)
    requires ';' !in before
    ensures AfterSemicolon(before + ";" + after) == after
  {
    var line := before + ";" + after;
    if before == "" {
      assert line == ";" + after;
    } else {
      assert line[1..] == before[1..] + ";" + after && line[0] == before[0] && before[0] in before;
      assert forall c :: c in before[1..] ==> c in before;
      AfterFirst(before[1..], after);
    }
  }

  lemma StatementHasNone(f: Field)
    requires PlainField(f)
    ensures ';' !in TypePart(f) + " " + f.name + " = " + Number(f.id) && ';' !in Modifier(f)
  {
    TokenIsWord(f.name);
    TokenIsWord(f.ty);
    if f.keyType.Some? {
      TokenIsWord(f.keyType.value);
    }
    NumberIsWord(f.id);
    assert ';' !in TypePart(f) && ';' !in Modifier(f);
    hide TypePart, Modifier, Number, Token;
    NoSemicolon(TypePart(f), f.name, Number(f.id));
  }

  lemma FieldLineEnds(comments: Comments, f: Field, parentName: string, indent: string)
    requires PlainField(f) && Spaces(indent)
    ensures AfterSemicolon(indent + ProtoPrinter.FieldLine(comments, f, parentName))
         == CommentSuffix(FieldComment(comments, f.name, parentName))
    ensures AfterSemicolon(indent + OneofFieldLine(comments, f, parentName))
         == CommentSuffix(FieldComment(comments, f.name, parentName))
  {
    var suffix := CommentSuffix(FieldComment(comments, f.name, parentName));
    var statement := TypePart(f) + " " + f.name + " = " + Number(f.id);
    StatementHasNone(f);
    assert ';' !in indent;
    hide CommentSuffix, TypePart, Modifier, Number, Token, FieldComment, AfterSemicolon;
    AfterStatement(indent, "", statement, suffix);
    AfterStatement(indent, Modifier(f), statement, suffix);
    assert "" + (statement + ";" + suffix) == statement + ";" + suffix;
  }

  lemma AfterStatement(indent: string, modifier: string, statement: string, suffix: string)
    requires ';' !in indent && ';' !in modifier && ';' !in statement
    ensures AfterSemicolon(indent + (modifier + (statement + ";" + suffix))) == suffix
  {
    AfterFirst(indent + modifier + statement, suffix);
    assert indent + (modifier + (statement + ";" + suffix)) == indent + modifier + statement + ";" + suffix;
  }

  lemma NoSemicolon(ty: string, name: string, number: string)
    requires ';' !in ty && ';' !in name && ';' !in number
    ensures ';' !in ty + " " + name + " = " + number
  {
    assert ';' !in ty + " " + name + " = ";
  }

  /**
   * The comment of a field, in a oneof or not: after the statement stand two slashes and its trimmed
   * lines. They can be told from the line if and only if none of them contains the marker that
   * joins them; without a comment nothing follows.
   */
  lemma FieldCommentExactly(comments: Comments, m: Message, f: Field, indent: string, c: Option<string>)
    requires PlainField(f) && Spaces(indent) && CommentOn(comments, m, f, c)
    ensures var line := indent + ProtoPrinter.FieldLine(comments, f, m.name);
      AfterSemicolon(line) == AfterSemicolon(indent + OneofFieldLine(comments, f, m.name))
      && (c.None? ==> AfterSemicolon(line) == "")
      && (c.Some? ==>
            && " // " <= AfterSemicolon(line)
            && exists notes :: NoteLines(SplitLines(c.value), notes)
                 && (notes != [] ==> (SplitMarked(AfterSemicolon(line)[4..]) == notes
                                      <==> forall l :: l in notes ==> !HasMarker(l))))
  {
    FieldLineEnds(comments, f, m.name, indent);
    assert FieldComment(comments, f.name, m.name) == c;
    hide ProtoPrinter.FieldLine, OneofFieldLine, AfterSemicolon, CleanComment, NoteLines, SplitMarked, HasMarker;
    if c.Some? {
      CommentRecovered(c.value);
      assert (" // " + CleanComment(c.value))[4..] == CleanComment(c.value);
    }
  }

  /** The trimmed lines of a comment are recovered from its one-line form exactly when they hold no marker. */
  lemma CommentRecovered(comment: string)
    ensures exists notes :: NoteLines(SplitLines(comment), notes)
              && (notes != [] ==> (SplitMarked(CleanComment(comment)) == notes
                                   <==> forall l :: l in notes ==> !HasMarker(l)))
  {
    var lines := SplitLines(comment);
    var notes := TrimmedLines(lines);
    NotesAre(lines, |lines|);
    assert lines[..|lines|] == lines;
    hide NoteLines, JoinMarked, SplitMarked, HasMarker, TrimmedLines;
    if notes != [] {
      PiecesHaveNoMarker(JoinMarked(notes));
      if forall l :: l in notes ==> !HasMarker(l) {
        MarkedSplits(notes);
      }
    }
    assert NoteLines(lines, notes);
  }

  // --- Comments on messages and enums ---

  /** A commented message or enum is printed with its trimmed comment in front, after two slashes. */
  lemma CommentIsPrinted(comments: Comments, m: Message, e: Enum, indent: string, c: string)
    requires c != ""
    ensures m.name in comments.messages && comments.messages[m.name] == c ==>
              exists t :: IsTrimmed(c, t) && indent + "// " + t <= MessageSource(comments, m, indent)
    ensures e.name in comments.messages && comments.messages[e.name] == c ==>
              exists t :: IsTrimmed(c, t) && indent + "// " + t <= EnumSource(comments, e, indent)
  {
    TrimExactly(c);
    hide Trim, IsTrimmed;
    if m.name in comments.messages && comments.messages[m.name] == c {
      FirstLineIsPrinted(MessageLines(comments, m, indent));
    }
    if e.name in comments.messages && comments.messages[e.name] == c {
      FirstLineIsPrinted(EnumLines(comments, e, indent));
    }
  }

  lemma FirstLineIsPrinted(lines: seq<string>)
    requires lines != []
    ensures lines[0] <= JoinLines(lines)
  {
  }

  // --- Oneofs ---

  /** The oneofs that are printed: those whose name does not begin with an underscore, in their order. */
  lemma {:induction false} RealOneofsExactly(oneofs: seq<Oneof>) returns (at: seq<nat>)
    ensures Picks(at, set i: nat | i < |oneofs| && !("_" <= oneofs[i].name))
    ensures |RealOneofs(oneofs)| == |at| && forall k :: 0 <= k < |at| ==> at[k] < |oneofs|
    ensures forall k :: 0 <= k < |at| ==> RealOneofs(oneofs)[k] == oneofs[at[k]]
  {
    if oneofs == [] {
      at := [];
    } else {
      var n: nat := |oneofs| - 1;
      var keep := !("_" <= oneofs[n].name);
      at := RealOneofsExactly(oneofs[..n]);
      var before := set i: nat | i < n && !("_" <= oneofs[..n][i].name);
      PicksNext(at, before, n, keep);
      assert (set i: nat | i < |oneofs| && !("_" <= oneofs[i].name)) == before + if keep then {n} else {};
      at := at + if keep then [n] else [];
    }
  }
}
