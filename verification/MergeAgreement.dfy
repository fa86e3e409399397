/**
 * When the definitions of different methods can be merged: exactly when no two of their types have
 * one canonical name. Names are chosen for each root type by itself, and merging overwrites.
 */
module MergeAgreement {
  import opened Wrappers
  import opened Dotted
  import opened ProtoTypes
  import opened JsonSchema
  import opened SchemaWalk
  import opened SchemaTheorems
  import opened SchemaClosure
  import opened SchemaExactness
  import opened SchemaMeaning
  import opened SchemaService
  import opened SchemaShadowing
  import opened MeaningExactly
  import opened SchemaLimits
  import ProtoPrinter

  // --- A type that is met first ---

  /** The source text published with the definition of a declared type. */
  function SourceOf(g: Root, comments: Comments, reference: string): string
    requires Resolvable(g, reference)
  {
    if reference in g.types then ProtoPrinter.MessageSource(comments, g.types[reference], "")
    else ProtoPrinter.EnumSource(comments, g.enums[reference], "")
  }

  /** `s` is a definition of the declared `reference`, whatever names its fields refer to. */
  ghost predicate DefinitionOf(g: Root, comments: Comments, reference: string, s: Schema)
    requires Resolvable(g, reference)
  {
    if reference in g.types then
      && s.Object? && s.required == Required(g.types[reference].fields)
      && s.protoSource == Some(SourceOf(g, comments, reference))
    else s.Primitive? && s.protoSource == Some(SourceOf(g, comments, reference))
  }

  /** A root message whose only field holds `reference`. */
  predicate HoldsOne(g: Root, typeName: string, reference: string) {
    && typeName != "" && typeName in g.types
    && var m := g.types[typeName];
    |m.fields| == 1 && !IsScalar(m.fields[0].ty) && ReferenceOf(m, m.fields[0]) == reference
  }

  lemma FirstReference(g: Root, comments: Comments, reference: string)
    requires reference in AllRefs(g) && Resolvable(g, reference)
    ensures var (s, t) := Resolve(g, comments, reference, {}, NO_TABLES);
      && s == Ref(CanonicalName(g, reference), None)
      && CanonicalName(g, reference) in t.definitions
      && DefinitionOf(g, comments, reference, t.definitions[CanonicalName(g, reference)])
  {
    hide ShortName, LastTwo;
    NamingKeepsNames(g, reference, map[]);
    assert !NameTaken(map[], reference, ShortName(reference));
    assert DefinitionName(g, reference, map[]) == CanonicalName(g, reference);
  }

  /** The first reference of a root gets its canonical name, and the definition of that name is its own. */
  lemma FirstIsDefined(g: Root, comments: Comments, typeName: string, reference: string)
    requires HoldsOne(g, typeName, reference) && Resolvable(g, reference)
    ensures var r := Generate(g, comments, typeName);
      var (m, k) := (g.types[typeName], CanonicalName(g, reference));
      && r.schema.Object? && r.schema.required == Required(m.fields)
      && r.schema.properties == map[m.fields[0].name := FieldSchema(comments, m, m.fields[0], Ref(k, None))]
      && k in r.Definitions() && DefinitionOf(g, comments, reference, r.Definitions()[k])
  {
    var m := g.types[typeName];
    MessageRefsAreRefs(g, m);
    assert m.fields[0] in m.fields;
    assert reference in RefsOfMessage(m);
    FirstReference(g, comments, reference);
    WalkUnfolds(g, comments, m, 0, {}, NO_TABLES);
    WalkUnfolds(g, comments, m, 1, {}, NO_TABLES);
    hide WalkFields, Resolve, FieldSchema, DefinitionOf, CanonicalName;
  }

  // --- Merging the requests of one graph ---

  /** `g'` is `g` with more messages, which nothing in `g` refers to and which refer to types of `w`. */
  ghost predicate AddsRequests(g: Root, g': Root, w: set<string>) {
    && g'.enums == g.enums && g'.insideMessage == g.insideMessage
    && (forall t :: t in g.types ==> t in g'.types && g'.types[t] == g.types[t])
    && forall t :: t in g'.types && t !in g.types ==> t !in AllRefs(g) && RefsOf(g', t) <= w
  }

  /** Methods of `g'` whose request and response hold types of `w`. */
  ghost predicate Serves(g': Root, comments: Comments, w: set<string>, methods: seq<RegisteredMethod>) {
    forall m :: m in methods ==>
      Registered(g', comments, m) && TopRefs(g', m.requestTypeName) <= w && TopRefs(g', m.responseTypeName) <= w
  }

  /** Declared types of `w` with one canonical name print different texts. */
  ghost predicate PrintApart(g: Root, comments: Comments, w: set<string>) {
    forall a, b {:trigger CanonicalName(g, a), CanonicalName(g, b)} ::
      (a in w && b in w && a != b && Resolvable(g, a) && Resolvable(g, b) && CanonicalName(g, a) == CanonicalName(g, b))
        ==> SourceOf(g, comments, a) != SourceOf(g, comments, b)
  }

  lemma RequestsKeepRefs(g: Root, g': Root, w: set<string>)
    requires Closed(g, w) && AddsRequests(g, g', w)
    ensures Closed(g', w) && forall r :: r in w ==> (Resolvable(g', r) <==> Resolvable(g, r))
  {
    forall r | r in AllRefs(g) ensures r in AllRefs(g') {
      var t :| t in g.types && r in RefsOf(g, t);
      assert t in g'.types && r in RefsOf(g', t);
    }
    forall r | r in w ensures RefsOf(g', r) == RefsOf(g, r) && (Resolvable(g', r) <==> Resolvable(g, r)) {
      assert r in AllRefs(g);
    }
  }

  lemma ServedStayInside(g: Root, comments: Comments, w: set<string>, methods: seq<RegisteredMethod>)
    requires Closed(g, w) && Serves(g, comments, w, methods)
    ensures ReachAll(g, methods) <= w
  {
    forall r | r in ReachAll(g, methods) ensures r in w {
      var m :| m in methods && (r in Reach(g, m.requestTypeName) || r in Reach(g, m.responseTypeName));
      ReachInside(g, w, m.requestTypeName);
      ReachInside(g, w, m.responseTypeName);
    }
  }

  lemma ServedAreMergeable(g: Root, g': Root, comments: Comments, w: set<string>, methods: seq<RegisteredMethod>)
    requires Closed(g, w) && Tellable(g, w) && AddsRequests(g, g', w) && Serves(g', comments, w, methods)
    ensures Mergeable(g', comments, methods) && ReachAll(g', methods) <= w
  {
    RequestsKeepRefs(g, g', w);
    ServedStayInside(g', comments, w, methods);
    var v := ReachAll(g', methods);
    assert Tellable(g', v) by {
      hide ReachAll, LastComponent, ShortName, LastTwo;
      assert forall r :: CanonicalName(g', r) == CanonicalName(g, r);
    }
    assert forall m :: m in methods ==> Registered(g', comments, m);
  }

  lemma NamedOnceMerges(g: Root, g': Root, comments: Comments, w: set<string>, methods: seq<RegisteredMethod>)
    requires Closed(g, w) && NamedOnce(g, w) && UndeclaredApart(g, w)
    requires AddsRequests(g, g', w) && Serves(g', comments, w, methods)
    ensures Consistent(methods)
  {
    ServedAreMergeable(g, g', comments, w, methods);
    hide ReachAll, Consistent, Registered, Tellable;
    MergedCanonically(g', comments, methods);
  }

  /** The graph with two requests, one for each of two types. */
  function TwoRequests(g: Root, q1: string, a: string, q2: string, b: string): Root {
    WithRequest(WithRequest(g, q1, a), q2, b)
  }

  lemma RequestHoldsOne(g: Root, request: string, a: string)
    requires request != "" && request in g.types && g.types[request] == Request(request, a)
    ensures HoldsOne(g, request, a)
  {
    QuestionIsNotScalar();
    hide IsScalar;
    var m := Request(request, a);
    assert ("." + a)[1..] == a;
    assert ReferenceOf(m, m.fields[0]) == a;
  }

  lemma TwoRequestsHold(g: Root, q1: string, a: string, q2: string, b: string)
    requires q1 != "" && q2 != "" && q1 != q2
    ensures HoldsOne(TwoRequests(g, q1, a, q2, b), q1, a) && HoldsOne(TwoRequests(g, q1, a, q2, b), q2, b)
  {
    var g' := TwoRequests(g, q1, a, q2, b);
    RequestHoldsOne(g', q1, a);
    RequestHoldsOne(g', q2, b);
  }

  lemma RequestAdds(g: Root, w: set<string>, request: string, a: string)
    requires Closed(g, w) && Fresh(g, request) && a in w
    ensures var g' := WithRequest(g, request, a);
      AddsRequests(g, g', w) && TopRefs(g', request) == {a} && Closed(g', w) && AllRefs(g') == AllRefs(g)
  {
    RequestAddsNoEdge(g, request, a);
    hide Request;
    assert a in AllRefs(g);
    assert AddsRequests(g, WithRequest(g, request, a), w);
    hide AllRefs, RefsOf, Fresh;
    RequestsKeepRefs(g, WithRequest(g, request, a), w);
  }

  lemma AddsTwice(g: Root, g1: Root, g2: Root, w: set<string>)
    requires AddsRequests(g, g1, w) && AddsRequests(g1, g2, w) && AllRefs(g1) == AllRefs(g)
    ensures AddsRequests(g, g2, w)
  {
    hide AllRefs, RefsOfMessage;
  }

  lemma TwoRequestsAdd(g: Root, w: set<string>, q1: string, a: string, q2: string, b: string)
    requires Closed(g, w) && Fresh(g, q1) && Fresh(g, q2) && q1 != q2 && a in w && b in w
    ensures var g' := TwoRequests(g, q1, a, q2, b);
      AddsRequests(g, g', w) && TopRefs(g', q1) == {a} && TopRefs(g', q2) == {b}
  {
    var g1 := WithRequest(g, q1, a);
    RequestAdds(g, w, q1, a);
    assert Fresh(g1, q2);
    RequestAdds(g1, w, q2, b);
    AddsTwice(g, g1, TwoRequests(g, q1, a, q2, b), w);
    hide AllRefs, AddsRequests, Closed, Request, RefsOfMessage;
  }

  /** Two types of one name, each in a request of its own: the definitions of that name differ. */
  lemma NamesakesDisagree(g': Root, comments: Comments, q1: string, a: string, q2: string, b: string,
                          m: RegisteredMethod)
    requires HoldsOne(g', q1, a) && HoldsOne(g', q2, b) && Resolvable(g', a) && Resolvable(g', b)
    requires CanonicalName(g', a) == CanonicalName(g', b) && SourceOf(g', comments, a) != SourceOf(g', comments, b)
    requires Registered(g', comments, m) && m.requestTypeName == q1 && m.responseTypeName == q2
    ensures !Consistent([m])
  {
    FirstIsDefined(g', comments, q1, a);
    FirstIsDefined(g', comments, q2, b);
    hide CanonicalName, SourceOf, Generate, HoldsOne;
    var (s1, s2, k) := (m.requestSchema, m.responseSchema, CanonicalName(g', a));
    assert m in [m];
    assert s1 in SchemasOf([m]) && s2 in SchemasOf([m]);
    assert s1.Definitions()[k] != s2.Definitions()[k];
  }

  lemma SharedNameIsDeclared(g: Root, w: set<string>, a: string, b: string)
    requires UndeclaredApart(g, w) && a in w && b in w && a != b && CanonicalName(g, a) == CanonicalName(g, b)
    ensures Resolvable(g, a) && Resolvable(g, b)
  {
    CanonicalNameKeepsLast(g, a);
    CanonicalNameKeepsLast(g, b);
  }

  /**
   * For types that print different texts when they share a canonical name: however requests and
   * responses hold them, and whatever the methods, merging keeps each method's own definitions if
   * and only if no two types share one.
   */
  lemma MergesExactly(g: Root, comments: Comments, w: set<string>, q1: string, q2: string)
    requires Closed(g, w) && UndeclaredApart(g, w) && PrintApart(g, comments, w)
    requires Fresh(g, q1) && Fresh(g, q2) && q1 != q2
    ensures (forall g', methods :: AddsRequests(g, g', w) && Serves(g', comments, w, methods) ==> Consistent(methods))
       <==> NamedOnce(g, w)
  {
    hide Consistent, AddsRequests, Serves, Fresh, Closed;
    if NamedOnce(g, w) {
      forall g', methods | AddsRequests(g, g', w) && Serves(g', comments, w, methods)
        ensures Consistent(methods)
      {
        NamedOnceMerges(g, g', comments, w, methods);
      }
    } else {
      var a, b :| a in w && b in w && CanonicalName(g, a) == CanonicalName(g, b) && a != b;
      SharedNameIsDeclared(g, w, a, b);
      var g', m := NamesakesBreakTheMerge(g, comments, w, q1, q2, a, b);
    }
  }

  /** A method whose request and response hold two namesakes. */
  lemma NamesakesBreakTheMerge(g: Root, comments: Comments, w: set<string>, q1: string, q2: string, a: string,
                               b: string)
    returns (g': Root, m: RegisteredMethod)
    requires Closed(g, w) && PrintApart(g, comments, w) && Fresh(g, q1) && Fresh(g, q2) && q1 != q2
    requires a in w && b in w && a != b && Resolvable(g, a) && Resolvable(g, b)
    requires CanonicalName(g, a) == CanonicalName(g, b)
    ensures AddsRequests(g, g', w) && Serves(g', comments, w, [m]) && !Consistent([m])
  {
    g' := TwoRequests(g, q1, a, q2, b);
    m := RegisteredMethod("Get", "get", q1, q2, Generate(g', comments, q1), Generate(g', comments, q2),
                          Details("", None, None, None, None, None));
    TwoRequestsAdd(g, w, q1, a, q2, b);
    TwoRequestsHold(g, q1, a, q2, b);
    TypesAreKept(g, g', comments, w, a);
    TypesAreKept(g, g', comments, w, b);
    hide AddsRequests, Consistent, HoldsOne, TwoRequests, CanonicalName, SourceOf, Closed, TopRefs, Generate, Serves;
    ServesOne(g', comments, w, m);
    NamesakesDisagree(g', comments, q1, a, q2, b, m);
  }

  lemma ServesOne(g: Root, comments: Comments, w: set<string>, m: RegisteredMethod)
    requires Registered(g, comments, m) && TopRefs(g, m.requestTypeName) <= w && TopRefs(g, m.responseTypeName) <= w
    ensures Serves(g, comments, w, [m])
  {
  }

  lemma TypesAreKept(g: Root, g': Root, comments: Comments, w: set<string>, a: string)
    requires Closed(g, w) && AddsRequests(g, g', w) && a in w && Resolvable(g, a)
    ensures Resolvable(g', a) && CanonicalName(g', a) == CanonicalName(g, a)
    ensures SourceOf(g', comments, a) == SourceOf(g, comments, a)
  {
    assert a in AllRefs(g);
  }

  // --- What overwriting does ---

  /** `w.A` holds `p.T`, `w.B` holds `q.T`, and the two differ in their fields. */
  function TwoUsers(): Root {
    Root(map["w.A" := Holding("A", "w.A", "p.T"),
             "w.B" := Holding("B", "w.B", "q.T"),
             "p.T" := Message("T", "p.T", [Field("x", "int32", 1, false, None, None, None)], [], []),
             "q.T" := Message("T", "q.T", [], [], [])],
         map[], {})
  }

  lemma HoldingHoldsOne(g: Root, name: string, fullName: string, fieldType: string)
    requires fullName != "" && fullName in g.types && g.types[fullName] == Holding(name, fullName, fieldType)
    requires HasDot(fieldType)
    ensures HoldsOne(g, fullName, fieldType)
  {
    DottedIsNotScalar(fieldType);
    hide IsScalar;
  }

  lemma TwoUsersHold()
    ensures HoldsOne(TwoUsers(), "w.A", "p.T") && HoldsOne(TwoUsers(), "w.B", "q.T")
  {
    assert "p.T"[1] == '.' && "q.T"[1] == '.';
    hide HoldsOne, HasDot, Holding;
    HoldingHoldsOne(TwoUsers(), "A", "w.A", "p.T");
    HoldingHoldsOne(TwoUsers(), "B", "w.B", "q.T");
  }

  lemma TwoUsersDiffer()
    ensures CanonicalName(TwoUsers(), "p.T") == "T" && CanonicalName(TwoUsers(), "q.T") == "T"
    ensures Required(TwoUsers().types["p.T"].fields) == ["x"] && Required(TwoUsers().types["q.T"].fields) == []
  {
    ShortNameOfT("p");
    ShortNameOfT("q");
    assert "p" + "." + "T" == "p.T" && "q" + "." + "T" == "q.T";
    hide ShortName;
    var fields := TwoUsers().types["p.T"].fields;
    assert fields[..0] == [];
    assert Required(fields) == Required(fields[..0]) + ["x"];
  }

  /** A root whose only reference leads to the definition of another message does not mean its type. */
  lemma WrongDefinition(g: Root, comments: Comments, typeName: string, a: string, d: map<string, Schema>,
                        name: string)
    requires HoldsOne(g, typeName, a) && a in g.types && CanonicalName(g, a) in d
    requires var s := d[CanonicalName(g, a)];
      s.Object? && (name in s.required <==> name !in Required(g.types[a].fields))
    ensures !MeansItsType(g, typeName, Generate(g, comments, typeName).schema, d)
  {
    var (m, s, k) := (g.types[typeName], Generate(g, comments, typeName).schema, CanonicalName(g, a));
    FirstIsDefined(g, comments, typeName, a);
    var f := m.fields[0];
    RequiredAgrees(g.types[a].fields);
    ScalarAgrees(f.ty, d, 1);
    hide CanonicalName, Generate, FieldSchema, ReferenceOf, Required, AlwaysPresent, IsScalar, IsBuiltin, ScalarMeaning;
    WrappingAgrees(comments, m, f, Ref(k, None), d, 1);
    assert ExpandSchema(s, d, 1).properties[f.name] == ExpandSchema(s.properties[f.name], d, 1);
    assert ExpandFields(g, m, 1, 1) == ExpandFields(g, m, 0, 1)[f.name := ExpandField(g, m, f, 1)];
    assert ExpandType(g, typeName, 1).properties[f.name] == ExpandField(g, m, f, 1);
    assert ExpandReference(g, a, 1) == ExpandMessage(g, g.types[a], 0);
    assert ExpandSchema(Ref(k, None), d, 1) == ExpandSchema(d[k], d, 0);
    ExpandedObject(d[k], d, 0);
    assert name in ExpandSchema(d[k], d, 0).required <==> name in d[k].required;
    assert name in ExpandReference(g, a, 1).required <==> name in (set n | n in Required(g.types[a].fields));
    assert ExpandReference(g, a, 1) != ExpandSchema(Ref(k, None), d, 1);
    assert ExpandSchema(s, d, 1) != ExpandType(g, typeName, 1);
  }

  lemma MergedTwo(m1: RegisteredMethod, m2: RegisteredMethod)
    requires m1.responseSchema.Definitions() == map[] && m2.responseSchema.Definitions() == map[]
    ensures Merged([m1, m2]) == m1.requestSchema.Definitions() + m2.requestSchema.Definitions()
  {
    assert [m1, m2][..1] == [m1] && [m1][..0] == [];
    assert Merged([m1]) == m1.requestSchema.Definitions();
  }

  /**
   * Two methods whose requests hold types of one name from different packages: both schemas define
   * that name, differently; the method that comes last wins; and the schema of the other one, read
   * with the merged definitions, does not mean its type.
   */
  lemma MergeOverwrites(comments: Comments, ma: RegisteredMethod, mb: RegisteredMethod)
    requires Registered(TwoUsers(), comments, ma) && ma.requestTypeName == "w.A" && ma.responseTypeName == ""
    requires Registered(TwoUsers(), comments, mb) && mb.requestTypeName == "w.B" && mb.responseTypeName == ""
    ensures "T" in Merged([ma, mb]) && "T" in Merged([mb, ma]) && Merged([ma, mb])["T"] != Merged([mb, ma])["T"]
    ensures !MeansItsType(TwoUsers(), "w.A", ma.requestSchema.schema, Merged([ma, mb]))
    ensures !MeansItsType(TwoUsers(), "w.B", mb.requestSchema.schema, Merged([mb, ma]))
  {
    var g := TwoUsers();
    TwoUsersHold();
    TwoUsersDiffer();
    MergedTwo(ma, mb);
    MergedTwo(mb, ma);
    assert "p.T" in g.types && "q.T" in g.types;
    FirstIsDefined(g, comments, "w.A", "p.T");
    FirstIsDefined(g, comments, "w.B", "q.T");
    hide TwoUsers, Generate, HoldsOne, CanonicalName, MeansItsType, Merged, FieldSchema, Required;
    WrongDefinition(g, comments, "w.A", "p.T", Merged([ma, mb]), "x");
    WrongDefinition(g, comments, "w.B", "q.T", Merged([mb, ma]), "x");
  }

  // --- What the merged definitions mean ---

  /** The request and response types of the methods. */
  function TypesOf(methods: seq<RegisteredMethod>): set<string> {
    (set m | m in methods :: m.requestTypeName) + (set m | m in methods :: m.responseTypeName)
  }

  function CanonicalNames(g: Root, w: set<string>): map<string, string> {
    map r | r in w :: CanonicalName(g, r)
  }

  lemma {:induction false} CanonicalIsTranslated(g: Root, comments: Comments, w: set<string>, m: Message, n: nat)
    requires n <= |m.fields| && RefsOfMessage(m) <= w
    ensures PropertiesTranslated(g, comments, m, m.fields[..n], CanonicalNames(g, w),
                                 CanonicalProperties(g, comments, m, n))
  {
    hide FieldSchema, IsScalar, ReferenceOf, CanonicalName, PropertiesTranslated, Resolvable, ScalarSchema, Fallback;
    if n > 0 {
      var k: nat := n - 1;
      var f := m.fields[k];
      CanonicalIsTranslated(g, comments, w, m, k);
      assert f in m.fields;
      assert !IsScalar(f.ty) ==> ReferenceOf(m, f) in RefsOfMessage(m);
      AddTranslated(g, comments, m, n, CanonicalNames(g, w), CanonicalProperties(g, comments, m, k),
                    FieldSchema(comments, m, f, CanonicalLeaf(g, f.ty, ReferenceOf(m, f))));
    } else {
      NoneTranslated(g, comments, m, CanonicalNames(g, w));
    }
  }

  lemma NoneTranslated(g: Root, comments: Comments, m: Message, names: map<string, string>)
    ensures PropertiesTranslated(g, comments, m, m.fields[..0], names, map[])
  {
  }

  /** A canonical definition is a finished one under the canonical names. */
  lemma CanonicalIsFinished(g: Root, comments: Comments, w: set<string>, r: string)
    requires Closed(g, w) && r in w && Resolvable(g, r)
    ensures Finished(g, comments, CanonicalNames(g, w), r, CanonicalName(g, r), CanonicalDefinition(g, comments, r))
  {
    hide CanonicalName, PropertiesTranslated, CanonicalProperties;
    if r in g.types {
      var m := g.types[r];
      assert RefsOf(g, r) <= w;
      CanonicalIsTranslated(g, comments, w, m, |m.fields|);
      assert m.fields[..|m.fields|] == m.fields;
    }
  }

  lemma CanonicalIsAttributed(g: Root, comments: Comments, w: set<string>, d: map<string, Schema>)
    requires Closed(g, w) && NamedOnce(g, w) && Keyed(g) && AllCanonical(g, comments, w, d)
    ensures Attributed(g, comments, w, CanonicalNames(g, w), d)
  {
    hide CanonicalName, CanonicalDefinition, Finished, Closed, Keyed;
    forall k | k in d
      ensures IsFinished(g, comments, w, CanonicalNames(g, w), k, d[k])
    {
      assert IsCanonical(g, comments, w, k, d[k]);
      var r :| r in w && Resolvable(g, r) && CanonicalName(g, r) == k && d[k] == CanonicalDefinition(g, comments, r);
      CanonicalIsFinished(g, comments, w, r);
    }
  }

  lemma CanonicalRootTranslates(g: Root, comments: Comments, w: set<string>, typeName: string)
    requires typeName != "" && typeName in g.types && TopRefs(g, typeName) <= w
    ensures Translates(g, comments, g.types[typeName], CanonicalNames(g, w), CanonicalRoot(g, comments, typeName))
  {
    hide CanonicalNames, PropertiesTranslated, CanonicalProperties;
    var m := g.types[typeName];
    CanonicalIsTranslated(g, comments, w, m, |m.fields|);
    assert m.fields[..|m.fields|] == m.fields;
  }

  /** With the merged definitions, every schema of the methods means its type. */
  ghost predicate AllMean(g: Root, comments: Comments, methods: seq<RegisteredMethod>) {
    forall t :: t in TypesOf(methods) ==> MeansItsType(g, t, Generate(g, comments, t).schema, Merged(methods))
  }

  /** Every reference in the schemas of the methods, and in the merged definitions, has a definition. */
  ghost predicate MergedResolves(g: Root, comments: Comments, methods: seq<RegisteredMethod>) {
    && ClosedRecord(Merged(methods))
    && forall t :: t in TypesOf(methods) ==> RefsResolve(Generate(g, comments, t).schema, Merged(methods))
  }

  /** What the generator gives for one type of the methods. */
  lemma ServedType(g: Root, comments: Comments, methods: seq<RegisteredMethod>, t: string)
    requires Mergeable(g, comments, methods) && t in TypesOf(methods)
    ensures Reach(g, t) <= ReachAll(g, methods) && TopRefs(g, t) <= ReachAll(g, methods)
    ensures Generate(g, comments, t) in SchemasOf(methods)
    ensures Generate(g, comments, t).schema == CanonicalRoot(g, comments, t)
    ensures AllCanonical(g, comments, Reach(g, t), Generate(g, comments, t).Definitions())
  {
    var m :| m in methods && (t == m.requestTypeName || t == m.responseTypeName);
    assert Registered(g, comments, m);
    assert Reach(g, t) <= ReachAll(g, methods);
    ReachIsClosed(g, t);
    hide ReachAll, Generate, Reach;
    GeneratedCanonically(g, comments, t);
  }

  /** The merged definitions each belong to one type, and the schemas of the methods refer to them by its name. */
  lemma MergedIsAttributed(g: Root, comments: Comments, methods: seq<RegisteredMethod>, t: string)
    requires Mergeable(g, comments, methods) && Keyed(g) && t in TypesOf(methods)
    ensures var (w, s) := (ReachAll(g, methods), Generate(g, comments, t).schema);
      && Attributed(g, comments, w, CanonicalNames(g, w), Merged(methods))
      && (t == "" || t !in g.types ==> s == EMPTY_OBJECT)
      && (t != "" && t in g.types ==> Translates(g, comments, g.types[t], CanonicalNames(g, w), s))
  {
    var w := ReachAll(g, methods);
    ServedType(g, comments, methods, t);
    MergedCanonically(g, comments, methods);
    ReachAllIsClosed(g, methods);
    TellableIsOnce(g, w);
    hide ReachAll, Generate, Reach, Merged, Attributed, Translates, TypesOf, SchemasOf;
    CanonicalIsAttributed(g, comments, w, Merged(methods));
    if t != "" && t in g.types {
      CanonicalRootTranslates(g, comments, w, t);
    }
  }

  lemma EmptyMeans(g: Root, t: string, d: map<string, Schema>)
    requires t == "" || t !in g.types
    ensures MeansItsType(g, t, EMPTY_OBJECT, d) && RefsResolve(EMPTY_OBJECT, d)
  {
  }

  lemma ResolvedMeans(g: Root, comments: Comments, methods: seq<RegisteredMethod>, t: string)
    requires Mergeable(g, comments, methods) && Keyed(g) && t in TypesOf(methods)
    requires MergedResolves(g, comments, methods)
    ensures MeansItsType(g, t, Generate(g, comments, t).schema, Merged(methods))
  {
    MergedIsAttributed(g, comments, methods, t);
    hide ReachAll, Generate, MeansItsType, Attributed, Translates, RefsResolve, ClosedRecord, Merged, TypesOf;
    if t == "" || t !in g.types {
      EmptyMeans(g, t, Merged(methods));
    } else {
      var w := ReachAll(g, methods);
      ResolvingMeans(g, comments, t, w, CanonicalNames(g, w), Generate(g, comments, t).schema, Merged(methods));
    }
  }

  /** Every merged definition comes from a type of the methods, and is a finished one of a type it reaches. */
  lemma MergedIsReached(g: Root, comments: Comments, methods: seq<RegisteredMethod>, k: string)
    returns (t: string, x: string)
    requires Mergeable(g, comments, methods) && k in Merged(methods)
    ensures t in TypesOf(methods) && t != "" && t in g.types && x in Reach(g, t)
    ensures k in Generate(g, comments, t).Definitions()
    ensures Merged(methods)[k] == Generate(g, comments, t).Definitions()[k]
    ensures Finished(g, comments, CanonicalNames(g, ReachAll(g, methods)), x, k, Merged(methods)[k])
  {
    MergedCollects(methods);
    var s :| s in SchemasOf(methods) && k in s.Definitions() && Merged(methods)[k] == s.Definitions()[k];
    var m :| m in methods && (s == m.requestSchema || s == m.responseSchema);
    assert Registered(g, comments, m);
    t := if s == m.requestSchema then m.requestTypeName else m.responseTypeName;
    ServedType(g, comments, methods, t);
    ReachAllIsClosed(g, methods);
    assert t != "" && t in g.types;
    hide ReachAll, Generate, Reach, Merged, SchemasOf, CanonicalDefinition, CanonicalName, Finished;
    assert IsCanonical(g, comments, Reach(g, t), k, s.Definitions()[k]);
    x :| x in Reach(g, t) && Resolvable(g, x) && CanonicalName(g, x) == k
      && s.Definitions()[k] == CanonicalDefinition(g, comments, x);
    CanonicalIsFinished(g, comments, ReachAll(g, methods), x);
  }

  lemma MeaningResolvesHere(g: Root, comments: Comments, methods: seq<RegisteredMethod>, t: string)
    requires Mergeable(g, comments, methods) && Keyed(g) && t in TypesOf(methods)
    requires MeansItsType(g, t, Generate(g, comments, t).schema, Merged(methods))
    ensures var (d, names) := (Merged(methods), CanonicalNames(g, ReachAll(g, methods)));
      && RefsResolve(Generate(g, comments, t).schema, d)
      && forall k :: k in d && (exists x :: x in Reach(g, t) && Finished(g, comments, names, x, k, d[k]))
           ==> t != "" && t in g.types ==> RefsResolve(d[k], d)
  {
    MergedIsAttributed(g, comments, methods, t);
    hide ReachAll, Generate, Reach, MeansItsType, Attributed, Translates, RefsResolve, Finished, Merged, TypesOf;
    if t == "" || t !in g.types {
      EmptyMeans(g, t, Merged(methods));
    } else {
      var w := ReachAll(g, methods);
      MeaningResolves(g, comments, t, w, CanonicalNames(g, w), Generate(g, comments, t).schema, Merged(methods));
    }
  }

  /**
   * What a client sees, for types that can be told apart by their canonical names: every schema of
   * the methods, read with the merged definitions, means its type at every depth if and only if
   * every reference in the answer resolves.
   */
  lemma MergedMeaningExactly(g: Root, comments: Comments, methods: seq<RegisteredMethod>)
    requires Mergeable(g, comments, methods) && Keyed(g)
    ensures AllMean(g, comments, methods) <==> MergedResolves(g, comments, methods)
  {
    hide Mergeable, Keyed, ReachAll, Generate, Merged, TypesOf, MeansItsType, RefsResolve, Finished, Reach;
    if MergedResolves(g, comments, methods) {
      forall t | t in TypesOf(methods)
        ensures MeansItsType(g, t, Generate(g, comments, t).schema, Merged(methods))
      {
        ResolvedMeans(g, comments, methods, t);
      }
    }
    if AllMean(g, comments, methods) {
      forall t | t in TypesOf(methods)
        ensures RefsResolve(Generate(g, comments, t).schema, Merged(methods))
      {
        MeaningResolvesHere(g, comments, methods, t);
      }
      forall k | k in Merged(methods)
        ensures RefsResolve(Merged(methods)[k], Merged(methods))
      {
        var t, x := MergedIsReached(g, comments, methods, k);
        MeaningResolvesHere(g, comments, methods, t);
      }
    }
  }

  /** A schema whose own references resolve still resolves after the merge. */
  lemma OwnStillResolves(g: Root, comments: Comments, methods: seq<RegisteredMethod>, t: string)
    requires Mergeable(g, comments, methods) && NoNamesakeBelow(g, ReachAll(g, methods)) && t in TypesOf(methods)
    ensures var (r, d) := (Generate(g, comments, t), Merged(methods));
      && RefsResolve(r.schema, d)
      && forall k :: k in r.Definitions() ==> RefsResolve(r.Definitions()[k], d)
  {
    var (r, d) := (Generate(g, comments, t), Merged(methods));
    ServedType(g, comments, methods, t);
    MergedCollects(methods);
    assert NoNamesakeBelow(g, Reach(g, t)) by {
      hide Reach, ReachAll, Below, Namesakes;
    }
    EveryReferenceResolves(g, comments, t);
    assert r.Definitions().Keys <= d.Keys;
    hide Generate, Reach, ReachAll, Merged, SchemasOf, RefsResolve, Mergeable, NoNamesakeBelow;
    StillResolve(r.schema, r.Definitions(), d);
    forall k | k in r.Definitions()
      ensures RefsResolve(r.Definitions()[k], d)
    {
      StillResolve(r.Definitions()[k], r.Definitions(), d);
    }
  }

  /** In particular every schema means its type where no type has a namesake below it. */
  lemma MergedMeaningWithoutNamesakesBelow(g: Root, comments: Comments, methods: seq<RegisteredMethod>)
    requires Mergeable(g, comments, methods) && Keyed(g) && NoNamesakeBelow(g, ReachAll(g, methods))
    ensures AllMean(g, comments, methods)
  {
    hide Mergeable, Keyed, ReachAll, Generate, Merged, TypesOf, AllMean, RefsResolve, Finished, Reach, NoNamesakeBelow;
    forall t | t in TypesOf(methods)
      ensures RefsResolve(Generate(g, comments, t).schema, Merged(methods))
    {
      OwnStillResolves(g, comments, methods, t);
    }
    forall k | k in Merged(methods)
      ensures RefsResolve(Merged(methods)[k], Merged(methods))
    {
      var t, x := MergedIsReached(g, comments, methods, k);
      OwnStillResolves(g, comments, methods, t);
    }
    MergedMeaningExactly(g, comments, methods);
  }

  // --- Over all requests ---

  lemma {:induction false} BelowStaysInside(g: Root, g': Root, w: set<string>, x: string, y: string, n: nat)
    requires Closed(g, w) && (forall r :: r in w ==> RefsOf(g', r) == RefsOf(g, r))
    requires n >= 1 && x in w && BelowIn(g', x, y, n)
    ensures y in w && BelowIn(g, x, y, n)
    decreases n
  {
    hide RefsOf, AllRefs;
    if n > 1 {
      var via :| BelowIn(g', x, via, n - 1) && y in RefsOf(g', via);
      BelowStaysInside(g, g', w, x, via, n - 1);
    }
  }

  lemma RequestsKeepNamesakes(g: Root, g': Root, w: set<string>)
    requires Closed(g, w) && AddsRequests(g, g', w) && NoNamesakeBelow(g, w)
    ensures NoNamesakeBelow(g', w)
  {
    forall r | r in w ensures RefsOf(g', r) == RefsOf(g, r) {
      assert r in AllRefs(g);
    }
    hide AddsRequests, RefsOf, Namesakes, Closed;
    forall a, b | a in w && b in w && Below(g', a, b)
      ensures !Namesakes(a, b)
    {
      var n: nat :| n >= 1 && BelowIn(g', a, b, n);
      BelowStaysInside(g, g', w, a, b, n);
      assert Below(g, a, b);
    }
  }

  /** A single request whose own references do not all resolve. */
  lemma DanglingRequestDoesNotMean(g': Root, comments: Comments, request: string, m: RegisteredMethod)
    requires Mergeable(g', comments, [m]) && Keyed(g') && !AllResolve(g', comments, request)
    requires Registered(g', comments, m) && m.requestTypeName == request && m.responseTypeName == ""
    ensures !AllMean(g', comments, [m])
  {
    MergedMeaningExactly(g', comments, [m]);
    hide Mergeable, Keyed, AllMean, RefsResolve;
    assert [m][..0] == [];
    assert Merged([m]) == Generate(g', comments, request).Definitions();
    assert m in [m];
    assert request in TypesOf([m]);
  }

  /**
   * For types that can be told apart and cannot share a definition name: every answer of every
   * service whose requests and responses hold types of `w` means what its types mean, at every
   * depth, if and only if no type of `w` has a namesake below it.
   */
  lemma MergedMeaningOfAllRequestsExactly(g: Root, comments: Comments, w: set<string>, request: string)
    requires Closed(g, w) && Tellable(g, w) && Separate(g, w) && Fresh(g, request)
    ensures (forall g', methods :: AddsRequests(g, g', w) && Keyed(g') && Serves(g', comments, w, methods)
                              ==> AllMean(g', comments, methods))
       <==> NoNamesakeBelow(g, w)
  {
    ReferencesResolveExactly(g, comments, w, request);
    hide AddsRequests, Keyed, Serves, AllMean, Closed, Tellable, Separate, Fresh, AllResolve, WithRequest, Mergeable;
    if NoNamesakeBelow(g, w) {
      forall g', methods | AddsRequests(g, g', w) && Keyed(g') && Serves(g', comments, w, methods)
        ensures AllMean(g', comments, methods)
      {
        ServedAreMergeable(g, g', comments, w, methods);
        RequestsKeepNamesakes(g, g', w);
        FewerNamesakes(g', w, ReachAll(g', methods));
        MergedMeaningWithoutNamesakesBelow(g', comments, methods);
      }
    } else {
      var a :| a in w && !AllResolve(WithRequest(g, request, a), comments, request);
      var m := DanglingMethod(g, comments, w, request, a);
    }
  }

  lemma FewerNamesakes(g: Root, w: set<string>, v: set<string>)
    requires NoNamesakeBelow(g, w) && v <= w
    ensures NoNamesakeBelow(g, v)
  {
    hide Below, Namesakes;
  }

  lemma DanglingMethod(g: Root, comments: Comments, w: set<string>, request: string, a: string)
    returns (m: RegisteredMethod)
    requires Closed(g, w) && Tellable(g, w) && Keyed(g) && Fresh(g, request) && a in w
    requires !AllResolve(WithRequest(g, request, a), comments, request)
    ensures var g' := WithRequest(g, request, a);
      AddsRequests(g, g', w) && Keyed(g') && Serves(g', comments, w, [m]) && !AllMean(g', comments, [m])
  {
    var g' := WithRequest(g, request, a);
    m := RegisteredMethod("Get", "get", request, "", Generate(g', comments, request), Generate(g', comments, ""),
                          Details("", None, None, None, None, None));
    RequestAdds(g, w, request, a);
    RequestHolds(request, a);
    assert Keyed(g');
    hide AddsRequests, Keyed, Serves, AllMean, Closed, Tellable, Fresh, AllResolve, WithRequest, Mergeable, Generate;
    ServesOne(g', comments, w, m);
    ServedAreMergeable(g, g', comments, w, [m]);
    DanglingRequestDoesNotMean(g', comments, request, m);
  }
}
