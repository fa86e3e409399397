/** Exactly which types a run of the generator can give one definition name. */
module NameSharing {
  import opened Wrappers
  import opened Dotted
  import opened ProtoTypes
  import opened SchemaWalk
  import opened SchemaTheorems
  import opened DefinitionNaming
  import opened GeneratedNames
  import opened SchemaShadowing
  import Text

  // --- A root that holds given types in a given order ---

  function Holder(i: nat, reference: string): Field {
    Field("f" + Text.Decimal(i), "?", i + 1, false, None, None, Some("." + reference))
  }

  function RequestFor(request: string, references: seq<string>): Message {
    Message(request, request,
            seq(|references|, i requires 0 <= i < |references| => Holder(i, references[i])), [], [])
  }

  /** The graph with a message `request` that holds `references`, in this order. */
  function WithFields(g: Root, request: string, references: seq<string>): Root {
    g.(types := g.types[request := RequestFor(request, references)])
  }

  /** At the end of the run for that message both references have one name. */
  ghost predicate RunShares(g: Root, comments: Comments, request: string, references: seq<string>, a: string, b: string)
  {
    var names := FinalNames(WithFields(g, request, references), comments, request);
    a in names && b in names && names[a] == names[b]
  }

  lemma HolderHolds(m: Message, i: nat, reference: string)
    requires reference != ""
    ensures !IsScalar(Holder(i, reference).ty) && ReferenceOf(m, Holder(i, reference)) == reference
  {
    QuestionIsNotScalar();
    hide IsScalar;
    assert ("." + reference)[1..] == reference;
  }

  /** The names at the end are those of some sequence of naming calls that begins with the first of the references. */
  lemma RequestNames(g: Root, comments: Comments, request: string, references: seq<string>) returns (run: seq<string>)
    requires request != "" && references != [] && forall r :: r in references ==> r != ""
    ensures FinalNames(WithFields(g, request, references), comments, request) == NameAll(g, run, map[])
    ensures run != [] && run[0] == references[0] && forall r :: r in references ==> r in run
  {
    var g' := WithFields(g, request, references);
    var m := RequestFor(request, references);
    run := FinalNamesInTurn(g', comments, request);
    NamesDoNotDependOnTypes(g', g, run, map[]);
    hide FinalNames, Reach, IsScalar, ReferenceOf, Holder, NameAll;
    assert references[0] in references;
    HolderHolds(m, 0, references[0]);
    forall r | r in references
      ensures r in run
    {
      var i: nat :| i < |references| && references[i] == r;
      HolderHolds(m, i, r);
      assert m.fields[i] == Holder(i, r);
    }
  }

  lemma {:induction false} NamesDoNotDependOnTypes(g: Root, g': Root, run: seq<string>, names: map<string, string>)
    requires g.insideMessage == g'.insideMessage
    ensures NameAll(g, run, names) == NameAll(g', run, names)
    decreases |run|
  {
    if run != [] {
      NamesDoNotDependOnTypes(g, g', run[1..], NameReference(g, run[0], names));
    }
  }

  // --- The names chosen ---

  /** What naming in turn from the start gives: all that is named, and in the forms that names can have. */
  lemma NamedInTurn(g: Root, run: seq<string>)
    ensures var names := NameAll(g, run, map[]);
      && (forall r :: r in run ==> r in names)
      && SaneNames(names) && TopLevelNames(g, names) && NestedNames(g, names)
  {
    NamesAreStable(g, run, map[]);
    NameAllKeepsApart(g, (set r | r in run), run, map[]);
  }

  /** The first reference to be named gets its short name, unless it is nested. */
  lemma FirstGetsShortName(g: Root, run: seq<string>)
    requires run != [] && run[0] !in g.insideMessage
    ensures run[0] in NameAll(g, run, map[]) && NameAll(g, run, map[])[run[0]] == ShortName(run[0])
  {
    var first := NameReference(g, run[0], map[]);
    assert first == map[run[0] := ShortName(run[0])];
    NamesAreStable(g, run[1..], first);
  }

  /** Once its short name is taken, `b` can only get its full name. */
  lemma {:induction false} TakenStays(g: Root, run: seq<string>, names: map<string, string>, b: string)
    requires SaneNames(names) && b != "" && b !in g.insideMessage && ShortName(b) != b
    requires ShortName(b) in names && names[ShortName(b)] == ShortName(b) && (b in names ==> names[b] == b)
    ensures b in NameAll(g, run, names) ==> NameAll(g, run, names)[b] == b
    decreases |run|
  {
    hide ShortName, LastTwo;
    if run != [] {
      NamingKeepsNames(g, run[0], names);
      assert NameTaken(names, b, ShortName(b));
      TakenStays(g, run[1..], NameReference(g, run[0], names), b);
    }
  }

  lemma ShortNameAgain(s: string)
    ensures ShortName(ShortName(s)) == ShortName(s)
    ensures s != "" ==> ShortName(s) != ""
    ensures ShortName(s) != s ==> LastTwo(ShortName(s)) == ShortName(s)
  {
    LastComponentHasNoDot(s);
    SplitOfComponent(LastComponent(s));
  }

  /** A nested type named like a top-level one. */
  lemma NestedSharesTopLevel(g: Root, comments: Comments, request: string, a: string, b: string)
    requires request != "" && a != "" && b != "" && a in g.insideMessage && b !in g.insideMessage
    requires LastTwo(a) == ShortName(b) || LastTwo(a) == b
    ensures exists references :: RunShares(g, comments, request, references, a, b)
  {
    ShortNameAgain(b);
    var c := ShortName(b);
    hide ShortName, LastTwo, FinalNames, NameAll, WithFields;
    if LastTwo(a) == c {
      var run := RequestNames(g, comments, request, [b, a]);
      NamedInTurn(g, run);
      FirstGetsShortName(g, run);
      assert RunShares(g, comments, request, [b, a], a, b);
    } else {
      var run := RequestNames(g, comments, request, [c, b, a]);
      NamedInTurn(g, run);
      TakenFromStart(g, run, b);
      assert RunShares(g, comments, request, [c, b, a], a, b);
    }
  }

  /** When the short name of `b` is named first, `b` gets its full name. */
  lemma TakenFromStart(g: Root, run: seq<string>, b: string)
    requires run != [] && b != "" && b !in g.insideMessage && ShortName(b) != b && run[0] == ShortName(b)
    ensures b in NameAll(g, run, map[]) ==> NameAll(g, run, map[])[b] == b
  {
    ShortNameAgain(b);
    var first := NameReference(g, run[0], map[]);
    assert first == map[run[0] := run[0]];
    TakenStays(g, run[1..], first, b);
  }

  /** Two nested types of the same last two components, or a top-level type that is the short name of another. */
  lemma AlikeShare(g: Root, comments: Comments, request: string, a: string, b: string)
    requires request != "" && a != "" && b != "" && (a in g.insideMessage <==> b in g.insideMessage)
    requires if a in g.insideMessage then LastTwo(a) == LastTwo(b) else a == ShortName(b)
    ensures RunShares(g, comments, request, [b, a], a, b)
  {
    ShortNameAgain(b);
    hide ShortName, LastTwo, FinalNames, NameAll, WithFields;
    var run := RequestNames(g, comments, request, [b, a]);
    NamedInTurn(g, run);
    if a !in g.insideMessage {
      FirstGetsShortName(g, run);
    }
  }

  /**
   * Over all requests: some run of the generator gives two different references one name exactly
   * when they may share it.
   */
  lemma SharingExactly(g: Root, comments: Comments, request: string, a: string, b: string)
    requires request != "" && a != b && a != "" && b != ""
    ensures (exists references :: RunShares(g, comments, request, references, a, b)) <==> MayShare(g, a, b)
  {
    hide RunShares, ShortName, LastTwo;
    if references :| RunShares(g, comments, request, references, a, b) {
      SharedMayShare(g, comments, request, references, a, b);
    }
    if MayShare(g, a, b) {
      if a in g.insideMessage <==> b in g.insideMessage {
        if a in g.insideMessage || a == ShortName(b) {
          AlikeShare(g, comments, request, a, b);
        } else {
          AlikeShare(g, comments, request, b, a);
          SharesBothWays(g, comments, request, [a, b], b, a);
        }
      } else if a in g.insideMessage {
        NestedSharesTopLevel(g, comments, request, a, b);
      } else {
        NestedSharesTopLevel(g, comments, request, b, a);
        var references :| RunShares(g, comments, request, references, b, a);
        SharesBothWays(g, comments, request, references, b, a);
      }
    }
  }

  lemma SharedMayShare(g: Root, comments: Comments, request: string, references: seq<string>, a: string, b: string)
    requires RunShares(g, comments, request, references, a, b) && a != b
    ensures MayShare(g, a, b)
  {
    var g' := WithFields(g, request, references);
    FinalNamesApart(g', comments, request);
    hide FinalNames, Reach, ShortName, LastTwo;
    assert MayShare(g', a, b);
  }

  lemma SharesBothWays(g: Root, comments: Comments, request: string, references: seq<string>, a: string, b: string)
    requires RunShares(g, comments, request, references, a, b)
    ensures RunShares(g, comments, request, references, b, a)
  {
  }
}
