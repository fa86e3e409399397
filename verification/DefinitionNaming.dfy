/** The names given to definitions over any sequence of naming calls. */
module DefinitionNaming {
  import opened Dotted
  import opened ProtoTypes
  import opened SchemaWalk

  /** The names after naming each reference in turn, repetitions included. */
  function NameAll(g: Root, references: seq<string>, names: map<string, string>): map<string, string>
    decreases |references|
  {
    if references == [] then names
    else NameAll(g, references[1..], NameReference(g, references[0], names))
  }

  predicate TopLevel(g: Root, reference: string) {
    reference !in g.insideMessage
  }

  /** A top-level name that contains a package. */
  predicate Packaged(g: Root, reference: string) {
    TopLevel(g, reference) && HasDot(reference)
  }

  /** Different top-level names that contain a package have different definition names. */
  ghost predicate PackagedNamesDiffer(g: Root, names: map<string, string>) {
    forall a, b :: a in names && b in names && a != b && Packaged(g, a) && Packaged(g, b) ==>
      names[a] != names[b]
  }

  ghost predicate TopLevelNames(g: Root, names: map<string, string>) {
    forall r :: r in names && TopLevel(g, r) ==> names[r] == ShortName(r) || names[r] == r
  }

  /** A short name with a dot in it is the whole name. */
  lemma DottedShortName(s: string)
    requires HasDot(ShortName(s))
    ensures ShortName(s) == s
  {
    LastComponentHasNoDot(s);
  }

  lemma NamingKeepsNamesApart(g: Root, reference: string, names: map<string, string>)
    requires SaneNames(names) && TopLevelNames(g, names) && PackagedNamesDiffer(g, names)
    ensures var named := NameReference(g, reference, names);
      SaneNames(named) && TopLevelNames(g, named) && PackagedNamesDiffer(g, named)
  {
    var named := NameReference(g, reference, names);
    NamingKeepsNames(g, reference, names);
    hide NameReference;
    forall a, b | a in named && b in named && a != b && Packaged(g, a) && Packaged(g, b)
      ensures named[a] != named[b]
    {
      if reference !in names && a == reference {
        NewNameDiffers(g, reference, b, names);
      } else if reference !in names && b == reference {
        NewNameDiffers(g, reference, a, names);
      }
    }
  }

  lemma NewNameDiffers(g: Root, reference: string, other: string, names: map<string, string>)
    requires TopLevelNames(g, names) && reference !in names && other in names
    requires Packaged(g, reference) && Packaged(g, other)
    ensures DefinitionName(g, reference, names) != names[other]
  {
    if HasDot(ShortName(other)) { DottedShortName(other); }
    if HasDot(ShortName(reference)) { DottedShortName(reference); }
  }

  /**
   * Over any sequence of calls: a reference keeps the name it once got, every later call for it
   * returns that name, and packaged top-level references never share one.
   */
  lemma {:induction false} NamesAreStable(g: Root, references: seq<string>, names: map<string, string>)
    requires SaneNames(names) && TopLevelNames(g, names) && PackagedNamesDiffer(g, names)
    ensures var named := NameAll(g, references, names);
      && SaneNames(named) && TopLevelNames(g, named) && PackagedNamesDiffer(g, named)
      && (forall r :: r in names ==> r in named && named[r] == names[r] == DefinitionName(g, r, named))
      && (forall r :: r in references ==> r in named)
    decreases |references|
  {
    if references == [] {
      forall r | r in names
        ensures names[r] == DefinitionName(g, r, names)
      {
        NamingTwice(g, r, names);
      }
    } else {
      NamingKeepsNames(g, references[0], names);
      NamingKeepsNamesApart(g, references[0], names);
      var named := NameReference(g, references[0], names);
      NamesAreStable(g, references[1..], named);
      var all := NameAll(g, references, names);
      forall r | r in references
        ensures r in all
      {
        if r != references[0] { assert r in references[1..]; }
      }
      forall r | r in names
        ensures r in all && all[r] == names[r] == DefinitionName(g, r, all)
      {
        assert r in named && named[r] == names[r];
      }
    }
  }

  lemma NamingTwice(g: Root, reference: string, names: map<string, string>)
    requires reference in names && SaneNames(names)
    ensures DefinitionName(g, reference, names) == names[reference]
  {
    if names[reference] == "" {
      EmptyNameIsEmptyReference(reference);
      NamingKeepsNames(g, reference, names);
    }
  }

  /** Exactly when a reference named for the first time gets a name nobody else has. */
  lemma NewNameIsFresh(g: Root, reference: string, names: map<string, string>)
    requires reference !in names
    ensures DefinitionName(g, reference, names) !in names.Values
       <==> if reference in g.insideMessage then LastTwo(reference) !in names.Values
            else ShortName(reference) !in names.Values || reference !in names.Values
  {
    if ShortName(reference) in names.Values {
      var other :| other in names && names[other] == ShortName(reference);
      assert NameTaken(names, reference, ShortName(reference));
    } else if NameTaken(names, reference, ShortName(reference)) {
      assert false;
    }
  }

  /** Names by their components: the last one, and the last two. */
  lemma NameOfComponents(p: string, a: string, b: string)
    requires !HasDot(a) && !HasDot(b) && b != ""
    ensures ShortName(b) == b && ShortName(p + "." + b) == b
    ensures LastTwo(b) == b && LastTwo(a + "." + b) == a + "." + b
    ensures LastTwo(p + "." + (a + "." + b)) == a + "." + b
  {
    SplitOfComponent(a);
    SplitOfComponent(b);
    SplitAppend(p, b);
    SplitAppend(a, b);
    SplitAppend(p, a + "." + b);
    JoinSplit(a + "." + b);
    var parts := Split(p + "." + (a + "." + b));
    assert parts[|parts| - 2..] == [a, b] && Split(a + "." + b)[0..] == [a, b];
  }

  /**
   * The name that a reference gets when it is named for the first time: nested in a message, the
   * name of that message and its own; else its own name, or the whole of it when another reference
   * has its own name already.
   */
  lemma FirstNameExactly(g: Root, p: string, a: string, b: string, names: map<string, string>)
    requires !HasDot(a) && !HasDot(b) && b != ""
    ensures var r := p + "." + (a + "." + b);
      r !in names && r in g.insideMessage ==> DefinitionName(g, r, names) == a + "." + b
    ensures var r := a + "." + b;
      r !in names && r in g.insideMessage ==> DefinitionName(g, r, names) == a + "." + b
    ensures var r := p + "." + b;
      r !in names && r !in g.insideMessage ==>
        DefinitionName(g, r, names) == if exists o :: o in names && names[o] == b then r else b
    ensures b !in names ==> DefinitionName(g, b, names) == b
  {
    NameOfComponents(p, a, b);
    hide ShortName, LastTwo;
    var r := p + "." + b;
    if r !in names && (exists o :: o in names && names[o] == b) {
      assert NameTaken(names, r, b);
    }
  }

  /** Without a package the guarantee fails: once `p.T` is named, the top-level `T` gets the same name. */
  lemma UnpackagedNameIsShared(g: Root)
    requires TopLevel(g, "p.T") && TopLevel(g, "T")
    ensures var names := NameAll(g, ["p.T", "T"], map[]);
      "p.T" in names && "T" in names && names["p.T"] == names["T"]
  {
    SplitAppend("p", "T");
    SplitOfComponent("T");
    SplitOfComponent("p");
    assert "p" + "." + "T" == "p.T";
    var first := NameReference(g, "p.T", map[]);
    assert first == map["p.T" := "T"];
    assert NameTaken(first, "T", "T");
    assert NameAll(g, ["p.T", "T"], map[]) == NameAll(g, ["T"], first);
  }

  /** Nested types that agree in their last two components share a name. */
  lemma NestedNamesAreShared(g: Root, a: string, b: string)
    requires a in g.insideMessage && b in g.insideMessage && LastTwo(a) == LastTwo(b)
    requires a != "" && b != ""
    ensures var names := NameAll(g, [a, b], map[]);
      a in names && b in names && names[a] == names[b]
  {
    var first := NameReference(g, a, map[]);
    assert NameAll(g, [a, b], map[]) == NameAll(g, [b], first);
    assert NameAll(g, [b], first) == NameReference(g, b, first);
  }
}
