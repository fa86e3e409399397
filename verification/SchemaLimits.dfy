/** A small type graph in which a reference dangles. */
module SchemaLimits {
  import opened Wrappers
  import opened Dotted
  import opened ProtoTypes
  import opened SchemaWalk
  import opened SchemaTheorems
  import opened SchemaExactness
  import opened SchemaClosure
  import opened SchemaShadowing
  import opened GeneratedNames

  function Holding(name: string, fullName: string, fieldType: string): Message {
    Message(name, fullName, [Field("inner", fieldType, 1, false, None, None, None)], [], [])
  }

  /** A request holding `p.T`, which holds `q.T`. */
  function TwoPackages(): Root {
    Root(map["w.Request" := Holding("Request", "w.Request", "p.T"),
             "p.T" := Holding("T", "p.T", "q.T"),
             "q.T" := Message("T", "q.T", [], [], [])],
         map[], {})
  }

  lemma HoldingRefs(name: string, fullName: string, fieldType: string)
    requires HasDot(fieldType)
    ensures RefsOfMessage(Holding(name, fullName, fieldType)) == {fieldType}
    ensures KeyedByName(Holding(name, fullName, fieldType).fields)
  {
    DottedIsNotScalar(fieldType);
    var m := Holding(name, fullName, fieldType);
    hide IsScalar;
    assert ReferenceOf(m, m.fields[0]) == fieldType;
    assert m.fields[0] in m.fields;
  }

  lemma DottedIsNotScalar(ty: string)
    requires HasDot(ty)
    ensures !IsScalar(ty)
  {
  }

  lemma ShortNameOfT(package: string)
    ensures ShortName(package + "." + "T") == "T"
  {
    SplitAppend(package, "T");
    SplitOfComponent("T");
  }

  lemma Edges()
    ensures var g := TwoPackages();
      RefsOf(g, "w.Request") == {"p.T"} && RefsOf(g, "p.T") == {"q.T"} && RefsOf(g, "q.T") == {}
    ensures AllRefs(TwoPackages()) == {"p.T", "q.T"}
    ensures forall r :: r in TwoPackages().types ==> KeyedByName(TwoPackages().types[r].fields)
  {
    HoldingRefs("Request", "w.Request", "p.T");
    HoldingRefs("T", "p.T", "q.T");
    hide RefsOfMessage, Holding, HasDot;
    var g := TwoPackages();
    assert g.types.Keys == {"w.Request", "p.T", "q.T"};
    assert RefsOf(g, "q.T") == {};
    assert AllRefs(g) == RefsOf(g, "w.Request") + RefsOf(g, "p.T") + RefsOf(g, "q.T");
  }

  lemma Names()
    ensures Namesakes("p.T", "q.T") && HasDot("p.T") && HasDot("q.T")
    ensures LastComponent("p.T") == LastComponent("q.T")
  {
    ShortNameOfT("p");
    ShortNameOfT("q");
    assert "p" + "." + "T" == "p.T" && "q" + "." + "T" == "q.T";
    assert "p.T"[0] != "q.T"[0] && "p.T"[1] == '.' && "q.T"[1] == '.';
    LastComponentKept("p.T");
    LastComponentKept("q.T");
  }

  lemma AllSeparate()
    ensures Separate(TwoPackages(), AllRefs(TwoPackages()))
  {
    Edges();
    Names();
    hide AllRefs, HasDot, Holding, KeyedByName, MayShare;
    PackagedAreUnshared(TwoPackages(), {"p.T", "q.T"});
  }

  /** A request wrapping a type that refers to a namesake of its own. */
  lemma WrappedHolderDangles(g: Root, comments: Comments, typeName: string, a: string, b: string)
    requires Wraps(g, typeName, a) && b in RefsOf(g, a) && Separate(g, AllRefs(g))
    requires Namesakes(a, b) && LastComponent(a) == LastComponent(b)
    ensures !AllResolve(g, comments, typeName)
    ensures Hidden(g, typeName, b) && b in Reach(g, typeName)
    ensures !Distinguishable(Reach(g, typeName))
  {
    ReachIsClosed(g, typeName);
    BelowOnce(g, a, b);
    assert Separate(g, Reach(g, typeName));
    hide RefsOf, AllResolve, Separate, Below, Reach, Closed, Hidden;
    WrappedNamesakeDangles(g, comments, typeName, a, b);
  }

  /**
   * Two types of different packages with one short name, the second used inside the first: the
   * schema of the request refers to a type that is never defined, and its references cannot be
   * told apart by their last component.
   */
  lemma NamesakeDangles(comments: Comments)
    ensures !AllResolve(TwoPackages(), comments, "w.Request")
    ensures Hidden(TwoPackages(), "w.Request", "q.T") && "q.T" in Reach(TwoPackages(), "w.Request")
    ensures !Distinguishable(Reach(TwoPackages(), "w.Request"))
  {
    Edges();
    Names();
    AllSeparate();
    hide RefsOf, AllResolve, Namesakes, LastComponent, TwoPackages, Separate, Distinguishable, Hidden;
    WrappedHolderDangles(TwoPackages(), comments, "w.Request", "p.T", "q.T");
  }
}
