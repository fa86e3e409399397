/** The definition names that a run of the generator ends with, and when two types can share one. */
module GeneratedNames {
  import opened Dotted
  import opened ProtoTypes
  import opened JsonSchema
  import opened SchemaWalk
  import opened SchemaTheorems
  import opened DefinitionNaming

  /**
   * Whether some run can give both references one name (`NameSharing` proves that it can): nested
   * types of the same last two components, a nested type named like a top-level one, or an undotted
   * top-level name that is the short name of another.
   */
  predicate MayShare(g: Root, a: string, b: string) {
    if a in g.insideMessage && b in g.insideMessage then LastTwo(a) == LastTwo(b)
    else if a in g.insideMessage then LastTwo(a) == ShortName(b) || LastTwo(a) == b
    else if b in g.insideMessage then LastTwo(b) == ShortName(a) || LastTwo(b) == a
    else a == ShortName(b) || b == ShortName(a)
  }

  /** No two references of `w` can share a definition name. */
  ghost predicate Unshared(g: Root, w: set<string>) {
    forall a, b {:trigger MayShare(g, a, b)} :: a in w && b in w && a != b ==> !MayShare(g, a, b)
  }

  lemma PackagedCannotShare(g: Root, a: string, b: string)
    requires Packaged(g, a) && Packaged(g, b) && a != b
    ensures !MayShare(g, a, b)
  {
    if HasDot(ShortName(a)) {
      DottedShortName(a);
    }
    if HasDot(ShortName(b)) {
      DottedShortName(b);
    }
  }

  /** Top-level types in packages are never in each other's way. */
  lemma PackagedAreUnshared(g: Root, w: set<string>)
    requires forall r :: r in w ==> Packaged(g, r)
    ensures Unshared(g, w)
  {
    forall a, b | a in w && b in w && a != b
      ensures !MayShare(g, a, b)
    {
      PackagedCannotShare(g, a, b);
    }
  }

  /** Only references that may share a name do. */
  ghost predicate SharedOnlyAllowed(g: Root, names: map<string, string>) {
    forall a, b :: a in names && b in names && a != b && names[a] == names[b] ==> MayShare(g, a, b)
  }

  ghost predicate Injective(names: map<string, string>) {
    forall a, b :: a in names && b in names && names[a] == names[b] ==> a == b
  }

  ghost predicate NestedNames(g: Root, names: map<string, string>) {
    forall r :: r in names && r in g.insideMessage ==> names[r] == LastTwo(r)
  }

  /** What holds of the names at every moment of a run over references of `w`. */
  ghost predicate Apart(g: Root, w: set<string>, names: map<string, string>) {
    && SaneNames(names) && TopLevelNames(g, names) && NestedNames(g, names) && names.Keys <= w
    && SharedOnlyAllowed(g, names)
  }

  lemma NamingKeepsApart(g: Root, w: set<string>, reference: string, names: map<string, string>)
    requires Apart(g, w, names) && reference in w
    ensures Apart(g, w, NameReference(g, reference, names))
  {
    NamingKeepsNames(g, reference, names);
    NamingKeepsForms(g, reference, names);
    hide TopLevelNames, NestedNames, SaneNames, MayShare;
    if reference in names {
      NamingTwice(g, reference, names);
      assert NameReference(g, reference, names) == names;
    } else {
      AddingKeepsAllowed(g, reference, DefinitionName(g, reference, names), names);
    }
  }

  lemma AddingKeepsAllowed(g: Root, reference: string, name: string, names: map<string, string>)
    requires SharedOnlyAllowed(g, names) && reference !in names
    requires forall o :: o in names && names[o] == name ==> MayShare(g, reference, o) && MayShare(g, o, reference)
    ensures SharedOnlyAllowed(g, names[reference := name])
  {
    hide MayShare;
  }

  lemma NamingKeepsForms(g: Root, reference: string, names: map<string, string>)
    requires SaneNames(names) && NestedNames(g, names) && TopLevelNames(g, names)
    ensures NestedNames(g, NameReference(g, reference, names)) && TopLevelNames(g, NameReference(g, reference, names))
  {
    if reference in names && names[reference] == "" {
      EmptyNameIsEmptyReference(reference);
    }
  }

  lemma {:induction false} NameAllKeepsApart(g: Root, w: set<string>, references: seq<string>,
                                             names: map<string, string>)
    requires Apart(g, w, names) && forall r :: r in references ==> r in w
    ensures Apart(g, w, NameAll(g, references, names))
    decreases |references|
  {
    hide Apart, NameReference;
    if references != [] {
      assert references[0] in references && forall r :: r in references[1..] ==> r in references;
      NamingKeepsApart(g, w, references[0], names);
      NameAllKeepsApart(g, w, references[1..], NameReference(g, references[0], names));
    }
  }

  // --- Along the walk ---

  /** Naming the references of `run` in turn leads from the names `before` to the names `after`. */
  ghost predicate NamesInTurn(g: Root, w: set<string>, run: seq<string>, before: map<string, string>,
                              after: map<string, string>) {
    (forall r :: r in run ==> r in w) && after == NameAll(g, run, before)
  }

  lemma {:induction false} NamesAfterNames(g: Root, w: set<string>, run: seq<string>, more: seq<string>,
                                           a: map<string, string>, b: map<string, string>, c: map<string, string>)
    requires NamesInTurn(g, w, run, a, b) && NamesInTurn(g, w, more, b, c)
    ensures NamesInTurn(g, w, run + more, a, c)
    decreases |run|
  {
    hide NameReference;
    if run == [] {
      assert run + more == more;
    } else {
      assert (run + more)[1..] == run[1..] + more;
      assert run[0] in run && forall r :: r in run[1..] ==> r in run;
      NamesAfterNames(g, w, run[1..], more, NameReference(g, run[0], a), b, c);
    }
  }

  /** `run` names the types of the first `n` fields, that of the first field first. */
  ghost predicate NamesFields(m: Message, n: nat, run: seq<string>)
    requires n <= |m.fields|
  {
    && (n == 0 ==> run == [])
    && (n > 0 && !IsScalar(m.fields[0].ty) ==> run != [] && run[0] == ReferenceOf(m, m.fields[0]))
    && forall i :: 0 <= i < n && !IsScalar(m.fields[i].ty) ==> ReferenceOf(m, m.fields[i]) in run
  }

  lemma OneMoreNamed(m: Message, n: nat, first: seq<string>, more: seq<string>)
    requires n < |m.fields| && NamesFields(m, n, first)
    requires !IsScalar(m.fields[n].ty) ==> more != [] && more[0] == ReferenceOf(m, m.fields[n])
    ensures NamesFields(m, n + 1, first + more)
  {
    hide IsScalar, ReferenceOf;
  }

  lemma {:induction false} NamesOfFields(g: Root, comments: Comments, w: set<string>, m: Message, n: nat,
                                         visited: set<string>, t: Tables) returns (run: seq<string>)
    requires n <= |m.fields| && Closed(g, w) && RefsOfMessage(m) <= w && SaneNames(t.names)
    ensures NamesInTurn(g, w, run, t.names, WalkFields(g, comments, m, n, visited, t).1.names)
    ensures NamesFields(m, n, run)
    decreases Undefined(g, t), 2, n
  {
    hide NamesInTurn, FieldSchema, RefsOfMessage, WalkField, IsScalar, SaneNames, AllRefs, ReferenceOf;
    WalkUnfolds(g, comments, m, n, visited, t);
    hide WalkFields;
    if n == 0 {
      run := NothingNamed(g, w, t.names);
    } else {
      var k: nat := n - 1;
      var first := NamesOfFields(g, comments, w, m, k, visited, t);
      var t1 := WalkFields(g, comments, m, k, visited, t).1;
      var more := NamesOfField(g, comments, w, m, m.fields[k], visited, t1);
      run := first + more;
      OneMoreNamed(m, k, first, more);
      NamesAfterNames(g, w, first, more, t.names, t1.names,
                      WalkField(g, comments, m, m.fields[k], visited, t1).1.names);
    }
  }

  lemma NothingNamed(g: Root, w: set<string>, names: map<string, string>) returns (run: seq<string>)
    ensures NamesInTurn(g, w, run, names, names) && run == []
  {
    run := [];
  }

  lemma OneNamed(g: Root, w: set<string>, reference: string, names: map<string, string>)
    requires reference in w
    ensures NamesInTurn(g, w, [reference], names, NameReference(g, reference, names))
  {
    assert NameAll(g, [reference], names) == NameAll(g, [], NameReference(g, reference, names));
  }

  lemma {:induction false} NamesOfField(g: Root, comments: Comments, w: set<string>, m: Message, f: Field,
                                        visited: set<string>, t: Tables) returns (run: seq<string>)
    requires f in m.fields && Closed(g, w) && RefsOfMessage(m) <= w && SaneNames(t.names)
    ensures NamesInTurn(g, w, run, t.names, WalkField(g, comments, m, f, visited, t).1.names)
    ensures !IsScalar(f.ty) ==> run != [] && run[0] == ReferenceOf(m, f)
    decreases Undefined(g, t), 1, 0
  {
    hide NamesInTurn, Resolve;
    if IsScalar(f.ty) {
      run := NothingNamed(g, w, t.names);
    } else {
      assert ReferenceOf(m, f) in RefsOfMessage(m);
      run := NamesOfReference(g, comments, w, ReferenceOf(m, f), visited, t);
    }
  }

  lemma {:induction false} NamesOfReference(g: Root, comments: Comments, w: set<string>, reference: string,
                                            visited: set<string>, t: Tables) returns (run: seq<string>)
    requires Closed(g, w) && reference in w && SaneNames(t.names)
    ensures NamesInTurn(g, w, run, t.names, Resolve(g, comments, reference, visited, t).1.names)
    ensures run != [] && run[0] == reference
    decreases Undefined(g, t), 0, 1
  {
    NamingKeepsNames(g, reference, t.names);
    OneNamed(g, w, reference, t.names);
    hide NamesInTurn, DefinitionName, NameReference, DefineMessage, Closed, SaneNames, CandidateNames;
    var name := DefinitionName(g, reference, t.names);
    var t1 := t.(names := NameReference(g, reference, t.names));
    run := [reference];
    if name !in t.definitions && reference !in visited && ShortName(reference) !in visited {
      if reference in g.types {
        var more := NamesOfMessage(g, comments, w, reference, visited, t1);
        run := run + more;
        NamesAfterNames(g, w, [reference], more, t.names, t1.names,
                        DefineMessage(g, comments, reference, name, visited, t1).names);
      } else {
        assert t1.names[reference := name] == t1.names;
      }
    }
  }

  lemma {:induction false} NamesOfMessage(g: Root, comments: Comments, w: set<string>, reference: string,
                                          visited: set<string>, t: Tables) returns (run: seq<string>)
    requires Closed(g, w) && reference in w && reference in g.types && SaneNames(t.names)
    requires reference in t.names && t.names[reference] !in t.definitions
    ensures NamesInTurn(g, w, run, t.names, DefineMessage(g, comments, reference, t.names[reference], visited, t).names)
    decreases Undefined(g, t), 0, 0
  {
    var m, name := g.types[reference], t.names[reference];
    BeginningShrinks(g, reference, name, t, EMPTY_OBJECT);
    MessageRefsAreRefs(g, m);
    assert RefsOf(g, reference) == RefsOfMessage(m) && RefsOfMessage(m) <= w;
    hide NamesInTurn;
    run := NamesOfFields(g, comments, w, m, |m.fields|, visited + {reference, ShortName(reference)},
                      t.(definitions := t.definitions[name := EMPTY_OBJECT]));
  }

  /**
   * The names at the end of a run of the generator come from naming reachable references in turn,
   * those that the root itself holds included.
   */
  lemma FinalNamesInTurn(g: Root, comments: Comments, typeName: string) returns (run: seq<string>)
    ensures NamesInTurn(g, Reach(g, typeName), run, map[], FinalNames(g, comments, typeName))
    ensures typeName != "" && typeName in g.types ==>
              NamesFields(g.types[typeName], |g.types[typeName].fields|, run)
  {
    if typeName != "" && typeName in g.types {
      var m := g.types[typeName];
      MessageRefsAreRefs(g, m);
      ReachIsClosed(g, typeName);
      hide NamesInTurn, NamesFields, Reach;
      run := NamesOfFields(g, comments, Reach(g, typeName), m, |m.fields|, {}, NO_TABLES);
    } else {
      run := NothingNamed(g, Reach(g, typeName), map[]);
    }
  }

  /**
   * The names at the end of a run of the generator, for every root: two references have one name
   * only if they may share it, so different top-level types in packages never do.
   */
  lemma FinalNamesApart(g: Root, comments: Comments, typeName: string)
    ensures Apart(g, Reach(g, typeName), FinalNames(g, comments, typeName))
    ensures PackagedNamesDiffer(g, FinalNames(g, comments, typeName))
    ensures Unshared(g, Reach(g, typeName)) ==> Injective(FinalNames(g, comments, typeName))
  {
    var run := FinalNamesInTurn(g, comments, typeName);
    NameAllKeepsApart(g, Reach(g, typeName), run, map[]);
    hide FinalNames, Apart, Reach;
    ApartKeepsPackages(g, Reach(g, typeName), FinalNames(g, comments, typeName));
    if Unshared(g, Reach(g, typeName)) {
      ApartIsInjective(g, Reach(g, typeName), FinalNames(g, comments, typeName));
    }
  }

  lemma ApartIsInjective(g: Root, w: set<string>, names: map<string, string>)
    requires Apart(g, w, names) && Unshared(g, w)
    ensures Injective(names)
  {
    hide MayShare, TopLevelNames, NestedNames, SaneNames;
  }

  lemma ApartKeepsPackages(g: Root, w: set<string>, names: map<string, string>)
    requires Apart(g, w, names)
    ensures PackagedNamesDiffer(g, names)
  {
    hide MayShare, Packaged, TopLevelNames, NestedNames, SaneNames;
    forall a, b | a in names && b in names && a != b && Packaged(g, a) && Packaged(g, b)
      ensures names[a] != names[b]
    {
      PackagedCannotShare(g, a, b);
    }
  }
}
