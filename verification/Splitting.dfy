/** Splitting a string at a character and joining the pieces again. */
module Splitting {

  /** The pieces of `s` between occurrences of `sep`: what `s.split(sep)` yields. There is always at least one. */
  function SplitOn(sep: char, s: string): (parts: seq<string>)
    ensures |parts| >= 1
  {
    if s == "" then [""] else Prepend(sep, s[0], SplitOn(sep, s[1..]))
  }

  /** One more character in front: the separator opens a new piece, anything else extends the first. */
  function Prepend(sep: char, c: char, parts: seq<string>): (longer: seq<string>)
    requires |parts| >= 1
    ensures |longer| >= 1
  {
    if c == sep then [""] + parts else [[c] + parts[0]] + parts[1..]
  }

  /** `parts.join(sep)` */
  function JoinWith(sep: char, parts: seq<string>): string {
    if |parts| == 0 then ""
    else if |parts| == 1 then parts[0]
    else parts[0] + [sep] + JoinWith(sep, parts[1..])
  }

  lemma {:induction false} JoinOfSplit(sep: char, s: string)
    ensures JoinWith(sep, SplitOn(sep, s)) == s
  {
    if s == "" {
    } else {
      JoinOfSplit(sep, s[1..]);
      JoinOfPrepend(sep, s[0], SplitOn(sep, s[1..]));
      assert s == [s[0]] + s[1..];
    }
  }

  lemma JoinOfPrepend(sep: char, c: char, parts: seq<string>)
    requires |parts| >= 1
    ensures JoinWith(sep, Prepend(sep, c, parts)) == [c] + JoinWith(sep, parts)
  {
    if c == sep {
      assert Prepend(sep, c, parts)[1..] == parts;
    } else {
      assert Prepend(sep, c, parts)[1..] == parts[1..];
    }
  }

  /** No piece holds the separator. */
  lemma {:induction false} PiecesHaveNoSeparator(sep: char, s: string)
    ensures forall p :: p in SplitOn(sep, s) ==> sep !in p
  {
    if s != "" {
      PiecesHaveNoSeparator(sep, s[1..]);
      var rest := SplitOn(sep, s[1..]);
      assert rest[0] in rest;
      forall p | p in SplitOn(sep, s)
        ensures sep !in p
      {
        if s[0] != sep && p != [s[0]] + rest[0] {
          assert p in rest[1..];
        }
      }
    }
  }

  lemma {:induction false} SplitOfPiece(sep: char, s: string)
    requires sep !in s
    ensures SplitOn(sep, s) == [s]
  {
    if s != "" {
      assert forall c :: c in s[1..] ==> c in s;
      SplitOfPiece(sep, s[1..]);
      assert [s[0]] + s[1..] == s;
    }
  }

  lemma PrependAppend(sep: char, c: char, parts: seq<string>, more: seq<string>)
    requires |parts| >= 1
    ensures Prepend(sep, c, parts + more) == Prepend(sep, c, parts) + more
  {
    if c != sep {
      assert (parts + more)[1..] == parts[1..] + more;
    }
  }

  lemma {:induction false} SplitOfAppend(sep: char, a: string, b: string)
    ensures SplitOn(sep, a + [sep] + b) == SplitOn(sep, a) + SplitOn(sep, b)
  {
    if a == "" {
      assert (a + [sep] + b)[1..] == b;
    } else {
      SplitOfAppend(sep, a[1..], b);
      assert (a + [sep] + b)[1..] == a[1..] + [sep] + b;
      PrependAppend(sep, a[0], SplitOn(sep, a[1..]), SplitOn(sep, b));
    }
  }

  /** A prefix without the separator goes into the first piece. */
  lemma {:induction false} SplitOfPrefixed(sep: char, prefix: string, s: string)
    requires sep !in prefix
    ensures SplitOn(sep, prefix + s) == [prefix + SplitOn(sep, s)[0]] + SplitOn(sep, s)[1..]
  {
    if prefix == "" {
      assert prefix + s == s && prefix + SplitOn(sep, s)[0] == SplitOn(sep, s)[0];
      assert [SplitOn(sep, s)[0]] + SplitOn(sep, s)[1..] == SplitOn(sep, s);
    } else {
      assert forall c :: c in prefix[1..] ==> c in prefix;
      SplitOfPrefixed(sep, prefix[1..], s);
      var rest := SplitOn(sep, s);
      assert (prefix + s)[1..] == prefix[1..] + s;
      assert SplitOn(sep, prefix + s) == Prepend(sep, prefix[0], [prefix[1..] + rest[0]] + rest[1..]);
      assert [prefix[0]] + (prefix[1..] + rest[0]) == prefix + rest[0];
      assert ([prefix[1..] + rest[0]] + rest[1..])[1..] == rest[1..];
    }
  }

  lemma {:induction false} SplitOfJoin(sep: char, parts: seq<string>)
    requires |parts| >= 1
    requires forall p :: p in parts ==> sep !in p
    ensures SplitOn(sep, JoinWith(sep, parts)) == parts
  {
    assert parts[0] in parts;
    SplitOfPiece(sep, parts[0]);
    if |parts| == 1 {
    } else {
      assert forall p :: p in parts[1..] ==> p in parts;
      SplitOfJoin(sep, parts[1..]);
      SplitOfAppend(sep, parts[0], JoinWith(sep, parts[1..]));
    }
  }

  lemma {:induction false} JoinOfAppend(sep: char, a: seq<string>, b: seq<string>)
    requires |a| >= 1 && |b| >= 1
    ensures JoinWith(sep, a + b) == JoinWith(sep, a) + [sep] + JoinWith(sep, b)
  {
    if |a| == 1 {
      assert (a + b)[1..] == b;
    } else {
      JoinOfAppend(sep, a[1..], b);
      assert (a + b)[1..] == a[1..] + b;
    }
  }
}
