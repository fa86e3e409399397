/** Dotted names: splitting at dots, joining with dots, and the last component of a name. */
module Dotted {
  import opened Splitting

  /** The components of `s`: what `s.split('.')` yields. There is always at least one. */
  function Split(s: string): (parts: seq<string>)
    ensures |parts| >= 1
  {
    SplitOn('.', s)
  }

  /** `parts.join('.')` */
  function Join(parts: seq<string>): string {
    JoinWith('.', parts)
  }

  predicate HasDot(s: string) {
    '.' in s
  }

  /** The last dotted component, empty for a name that ends in a dot. */
  function LastComponent(s: string): string {
    var parts := Split(s);
    parts[|parts| - 1]
  }

  /** The `split('.').pop() || name` idiom: the last component, or the whole name when that is empty. */
  function ShortName(s: string): string {
    var last := LastComponent(s);
    if last == "" then s else last
  }

  /** The last two components of a name that has two, otherwise the name itself. */
  function LastTwo(s: string): string {
    var parts := Split(s);
    if |parts| >= 2 then Join(parts[|parts| - 2..]) else s
  }

  lemma JoinSplit(s: string)
    ensures Join(Split(s)) == s
  {
    JoinOfSplit('.', s);
  }

  /** No component holds a dot. */
  lemma ComponentsHaveNoDot(s: string)
    ensures forall p :: p in Split(s) ==> !HasDot(p)
  {
    PiecesHaveNoSeparator('.', s);
  }

  lemma SplitOfComponent(s: string)
    requires !HasDot(s)
    ensures Split(s) == [s]
  {
    SplitOfPiece('.', s);
  }

  lemma SplitAppend(a: string, b: string)
    ensures Split(a + "." + b) == Split(a) + Split(b)
  {
    SplitOfAppend('.', a, b);
  }

  lemma SplitJoin(parts: seq<string>)
    requires |parts| >= 1
    requires forall p :: p in parts ==> !HasDot(p)
    ensures Split(Join(parts)) == parts
  {
    SplitOfJoin('.', parts);
  }

  lemma JoinAppend(a: seq<string>, b: seq<string>)
    requires |a| >= 1 && |b| >= 1
    ensures Join(a + b) == Join(a) + "." + Join(b)
  {
    JoinOfAppend('.', a, b);
  }

  lemma LastTwoKeepsLast(s: string)
    ensures LastComponent(LastTwo(s)) == LastComponent(s)
  {
    var parts := Split(s);
    if |parts| >= 2 {
      ComponentsHaveNoDot(s);
      var tail := parts[|parts| - 2..];
      assert forall p :: p in tail ==> p in parts;
      SplitJoin(tail);
    }
  }

  lemma ShortNameKeepsLast(s: string)
    ensures LastComponent(ShortName(s)) == LastComponent(s)
  {
    LastComponentHasNoDot(s);
    SplitOfComponent(LastComponent(s));
  }

  /** Taking the last two components, or the short name, does not change the last component. */
  lemma LastComponentKept(s: string)
    ensures LastComponent(LastTwo(s)) == LastComponent(s)
    ensures LastComponent(ShortName(s)) == LastComponent(s)
  {
    LastTwoKeepsLast(s);
    ShortNameKeepsLast(s);
  }

  lemma LastComponentHasNoDot(s: string)
    ensures !HasDot(LastComponent(s))
  {
    ComponentsHaveNoDot(s);
    assert Split(s)[|Split(s)| - 1] in Split(s);
  }

  /**
   * The names made of all but the first `i` components, for `i` from one up, are exactly the `s`
   * for which `p` is some prefix, a dot, and `s`.
   */
  lemma DottedSuffixes(p: string, s: string)
    ensures (exists i :: 1 <= i < |Split(p)| && s == Join(Split(p)[i..]))
       <==> (exists q :: p == q + "." + s)
  {
    var parts := Split(p);
    if i :| 1 <= i < |parts| && s == Join(parts[i..]) {
      JoinSplit(p);
      JoinAppend(parts[..i], parts[i..]);
      assert parts[..i] + parts[i..] == parts;
      assert p == Join(parts[..i]) + "." + s;
    }
    if q :| p == q + "." + s {
      SplitAppend(q, s);
      JoinSplit(s);
      assert parts[|Split(q)|..] == Split(s);
      assert 1 <= |Split(q)| < |parts| && s == Join(parts[|Split(q)|..]);
    }
  }
}
