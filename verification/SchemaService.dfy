/** Merging the definitions of all exposed methods into one record. */
module SchemaService {
  import opened Wrappers
  import opened ProtoTypes
  import opened JsonSchema
  import opened SchemaWalk
  import opened SchemaTheorems
  import opened SchemaExactness
  import opened SchemaMeaning
  import opened Selections

  datatype HttpMapping = HttpMapping(httpMethod: string, path: string)

  /** What is passed on as it is; an absent session type is the empty one. */
  datatype Details = Details(
    sessionType: string,
    httpMapping: Option<HttpMapping>,
    description: Option<string>,
    deprecated: Option<bool>,
    requestStream: Option<bool>,
    responseStream: Option<bool>)

  /** A registered method; one without an action name is not exposed. */
  datatype RegisteredMethod = RegisteredMethod(
    grpcMethod: string,
    actionName: string,
    requestTypeName: string,
    responseTypeName: string,
    requestSchema: RootSchema,
    responseSchema: RootSchema,
    details: Details)

  /** An exposed action: its schemas travel without their own definitions. */
  datatype ActionSchema = ActionSchema(
    name: string,
    grpcMethod: string,
    requestSchema: Schema,
    responseSchema: Schema,
    requestTypeName: string,
    responseTypeName: string,
    details: Details)

  /** The service's answer, before it is written as JSON text. */
  datatype ServiceSchema = ServiceSchema(
    serviceName: string,
    version: string,
    actions: seq<ActionSchema>,
    definitions: map<string, Schema>)

  function Exposed(methods: seq<RegisteredMethod>): seq<RegisteredMethod> {
    if methods == [] then []
    else
      Exposed(methods[..|methods| - 1])
      + if methods[|methods| - 1].actionName != "" then [methods[|methods| - 1]] else []
  }

  function ActionOf(m: RegisteredMethod): ActionSchema {
    ActionSchema(m.actionName, m.grpcMethod, m.requestSchema.schema, m.responseSchema.schema,
                 m.requestTypeName, m.responseTypeName, m.details)
  }

  function ActionsOf(exposed: seq<RegisteredMethod>): seq<ActionSchema> {
    seq(|exposed|, i requires 0 <= i < |exposed| => ActionOf(exposed[i]))
  }

  /** Assigning the definitions of each method over those of the methods before it. */
  function Merged(methods: seq<RegisteredMethod>): map<string, Schema> {
    if methods == [] then map[]
    else
      var m := methods[|methods| - 1];
      Merged(methods[..|methods| - 1]) + m.requestSchema.Definitions() + m.responseSchema.Definitions()
  }

  method HandleGetSchemas(serviceName: string, version: string, methods: seq<RegisteredMethod>)
    returns (response: ServiceSchema)
    ensures response.serviceName == serviceName && response.version == version
    ensures response.definitions == Merged(Exposed(methods))
    ensures response.actions == ActionsOf(Exposed(methods))
  {
    var exposed := Exposed(methods);
    var actions: seq<ActionSchema>, globalDefinitions: map<string, Schema> := [], map[];
    for i := 0 to |exposed|
      invariant globalDefinitions == Merged(exposed[..i])
      invariant actions == ActionsOf(exposed[..i])
    {
      var m := exposed[i];
      assert exposed[..i + 1] == exposed[..i] + [m];
      ghost var before := globalDefinitions;
      if m.requestSchema.definitions.Some? {
        globalDefinitions := globalDefinitions + m.requestSchema.definitions.value;
      }
      if m.responseSchema.definitions.Some? {
        globalDefinitions := globalDefinitions + m.responseSchema.definitions.value;
      }
      assert globalDefinitions == before + m.requestSchema.Definitions() + m.responseSchema.Definitions();
      actions := actions + [ActionSchema(m.actionName, m.grpcMethod, m.requestSchema.schema, m.responseSchema.schema,
                                          m.requestTypeName, m.responseTypeName, m.details)];
    }
    assert exposed[..|exposed|] == exposed;
    response := ServiceSchema(serviceName, version, actions, globalDefinitions);
  }

  /**
   * The answer lists the methods that have an action name, in the order in which they are
   * registered, each with the schemas generated for its own request and response types.
   */
  lemma ActionsExactly(g: Root, comments: Comments, methods: seq<RegisteredMethod>) returns (at: seq<nat>)
    requires forall m :: m in methods ==> Registered(g, comments, m)
    ensures Picks(at, Named(methods))
    ensures |ActionsOf(Exposed(methods))| == |at|
    ensures forall k :: 0 <= k < |at| ==> at[k] < |methods|
    ensures forall k :: 0 <= k < |at| ==>
              var (x, m) := (ActionsOf(Exposed(methods))[k], methods[at[k]]);
              && x.name == m.actionName && x.grpcMethod == m.grpcMethod && x.details == m.details
              && x.requestTypeName == m.requestTypeName && x.responseTypeName == m.responseTypeName
              && x.requestSchema == Generate(g, comments, m.requestTypeName).schema
              && x.responseSchema == Generate(g, comments, m.responseTypeName).schema
  {
    hide Generate;
    at := ExposedExactly(methods);
    forall k | 0 <= k < |at|
      ensures Registered(g, comments, methods[at[k]])
    {
      assert methods[at[k]] in methods;
    }
  }

  /** The positions of the methods with an action name. */
  function Named(methods: seq<RegisteredMethod>): set<nat> {
    set i: nat | i < |methods| && methods[i].actionName != ""
  }

  lemma {:induction false} ExposedExactly(methods: seq<RegisteredMethod>) returns (at: seq<nat>)
    ensures Picks(at, Named(methods))
    ensures |Exposed(methods)| == |at| && forall k :: 0 <= k < |at| ==> at[k] < |methods|
    ensures forall k :: 0 <= k < |at| ==> Exposed(methods)[k] == methods[at[k]]
  {
    if methods == [] {
      at := [];
    } else {
      var n: nat := |methods| - 1;
      at := ExposedExactly(methods[..n]);
      OneMoreNamed(methods);
      hide Named;
      PicksNext(at, Named(methods[..n]), n, methods[n].actionName != "");
      at := at + if methods[n].actionName != "" then [n] else [];
    }
  }

  lemma OneMoreNamed(methods: seq<RegisteredMethod>)
    requires methods != []
    ensures var n: nat := |methods| - 1;
      && Named(methods) == Named(methods[..n]) + (if methods[n].actionName != "" then {n} else {})
      && forall i :: i in Named(methods[..n]) ==> i < n
  {
  }

  // --- Agreement of the merge with each method ---

  ghost predicate AgreesWith(merged: map<string, Schema>, own: map<string, Schema>) {
    forall k :: k in own ==> k in merged && merged[k] == own[k]
  }

  ghost predicate AgreesWithMethod(merged: map<string, Schema>, m: RegisteredMethod) {
    AgreesWith(merged, m.requestSchema.Definitions()) && AgreesWith(merged, m.responseSchema.Definitions())
  }

  /** No name has two different definitions among the schemas of `methods`. */
  ghost predicate Consistent(methods: seq<RegisteredMethod>) {
    forall a, b, k ::
      (a in SchemasOf(methods) && b in SchemasOf(methods) && k in a.Definitions() && k in b.Definitions()) ==>
        a.Definitions()[k] == b.Definitions()[k]
  }

  function SchemasOf(methods: seq<RegisteredMethod>): set<RootSchema> {
    (set m | m in methods :: m.requestSchema) + (set m | m in methods :: m.responseSchema)
  }

  /** Every merged definition is one of some schema, and every schema's names are there. */
  lemma {:induction false} MergedCollects(methods: seq<RegisteredMethod>)
    ensures forall s, k :: s in SchemasOf(methods) && k in s.Definitions() ==> k in Merged(methods)
    ensures forall k :: k in Merged(methods) ==>
              exists s :: s in SchemasOf(methods) && k in s.Definitions() && Merged(methods)[k] == s.Definitions()[k]
  {
    if methods != [] {
      var before, m := methods[..|methods| - 1], methods[|methods| - 1];
      MergedCollects(before);
      assert methods == before + [m];
      assert SchemasOf(methods) == SchemasOf(before) + {m.requestSchema, m.responseSchema};
    }
  }

  /** The schemas of the methods, one after the other: each request before its response. */
  function SchemasInTurn(methods: seq<RegisteredMethod>): seq<RootSchema> {
    seq(2 * |methods|, i requires 0 <= i < 2 * |methods| =>
      if i % 2 == 0 then methods[i / 2].requestSchema else methods[i / 2].responseSchema)
  }

  /** Of several definitions of one name the last one is kept. */
  lemma {:induction false} LastDefinitionIsKept(methods: seq<RegisteredMethod>, k: string, i: nat)
    requires i < 2 * |methods| && k in SchemasInTurn(methods)[i].Definitions()
    requires forall j :: i < j < 2 * |methods| ==> k !in SchemasInTurn(methods)[j].Definitions()
    ensures k in Merged(methods) && Merged(methods)[k] == SchemasInTurn(methods)[i].Definitions()[k]
  {
    var n: nat := |methods| - 1;
    var before, m := methods[..n], methods[n];
    assert SchemasInTurn(methods)[2 * n] == m.requestSchema && SchemasInTurn(methods)[2 * n + 1] == m.responseSchema;
    if i < 2 * n {
      assert forall j :: 0 <= j < 2 * n ==> SchemasInTurn(methods)[j] == SchemasInTurn(before)[j];
      LastDefinitionIsKept(before, k, i);
    }
  }

  /** The merge keeps every method's own definitions exactly when the methods are consistent. */
  lemma MergeAgreesExactly(methods: seq<RegisteredMethod>)
    ensures (forall m :: m in methods ==> AgreesWithMethod(Merged(methods), m)) <==> Consistent(methods)
  {
    MergedCollects(methods);
    var merged := Merged(methods);
    if Consistent(methods) {
      forall m | m in methods
        ensures AgreesWithMethod(merged, m)
      {
        assert m.requestSchema in SchemasOf(methods) && m.responseSchema in SchemasOf(methods);
      }
    }
    if forall m :: m in methods ==> AgreesWithMethod(merged, m) {
      forall a, b, k | a in SchemasOf(methods) && b in SchemasOf(methods)
                    && k in a.Definitions() && k in b.Definitions()
        ensures a.Definitions()[k] == b.Definitions()[k]
      {
        assert AgreesWith(merged, a.Definitions());
        assert AgreesWith(merged, b.Definitions());
      }
    }
  }

  // --- Generated methods ---

  /** Both schemas come from the generator. */
  ghost predicate Registered(g: Root, comments: Comments, m: RegisteredMethod) {
    && m.requestSchema == Generate(g, comments, m.requestTypeName)
    && m.responseSchema == Generate(g, comments, m.responseTypeName)
  }

  /** Everything reachable from the request and response types of the methods. */
  ghost function ReachAll(g: Root, methods: seq<RegisteredMethod>): set<string> {
    (set m, r | m in methods && r in Reach(g, m.requestTypeName) :: r)
    + (set m, r | m in methods && r in Reach(g, m.responseTypeName) :: r)
  }

  /** Generated methods whose types can be told apart by their canonical names. */
  ghost predicate Mergeable(g: Root, comments: Comments, methods: seq<RegisteredMethod>) {
    (forall m :: m in methods ==> Registered(g, comments, m)) && Tellable(g, ReachAll(g, methods))
  }

  lemma ReachAllIsClosed(g: Root, methods: seq<RegisteredMethod>)
    ensures Closed(g, ReachAll(g, methods))
  {
    forall r | r in ReachAll(g, methods)
      ensures r in AllRefs(g) && RefsOf(g, r) <= ReachAll(g, methods)
    {
      var m :| m in methods && (r in Reach(g, m.requestTypeName) || r in Reach(g, m.responseTypeName));
      ReachIsClosed(g, m.requestTypeName);
      ReachIsClosed(g, m.responseTypeName);
    }
  }

  /** What is generated for a root whose references lie within `w`. */
  lemma GeneratedWithin(g: Root, comments: Comments, w: set<string>, typeName: string)
    requires Reach(g, typeName) <= w && Tellable(g, w)
    ensures AllCanonical(g, comments, w, Generate(g, comments, typeName).Definitions())
  {
    GeneratedCanonically(g, comments, typeName);
    hide Generate, Reach, CanonicalDefinition, CanonicalName;
    forall k | k in Generate(g, comments, typeName).Definitions()
      ensures IsCanonical(g, comments, w, k, Generate(g, comments, typeName).Definitions()[k])
    {
      assert IsCanonical(g, comments, Reach(g, typeName), k, Generate(g, comments, typeName).Definitions()[k]);
    }
  }

  /** A name has one canonical definition. */
  lemma CanonicalOnce(g: Root, comments: Comments, w: set<string>, k: string, s1: Schema, s2: Schema)
    requires NamedOnce(g, w) && IsCanonical(g, comments, w, k, s1) && IsCanonical(g, comments, w, k, s2)
    ensures s1 == s2
  {
    hide CanonicalDefinition, CanonicalName;
  }

  /**
   * Root independence: a name defined for two different root types has the same definition in
   * both, when the references reachable from the two can be told apart.
   */
  lemma DefinitionsDoNotDependOnRoot(g: Root, comments: Comments, t1: string, t2: string, k: string)
    requires Tellable(g, Reach(g, t1) + Reach(g, t2))
    requires k in Generate(g, comments, t1).Definitions() && k in Generate(g, comments, t2).Definitions()
    ensures Generate(g, comments, t1).Definitions()[k] == Generate(g, comments, t2).Definitions()[k]
  {
    var w := Reach(g, t1) + Reach(g, t2);
    hide Generate, Reach, Tellable, IsCanonical;
    GeneratedWithin(g, comments, w, t1);
    GeneratedWithin(g, comments, w, t2);
    var (d1, d2) := (Generate(g, comments, t1).Definitions(), Generate(g, comments, t2).Definitions());
    assert Tellable(g, w);
    TellableIsOnce(g, w);
    CanonicalOnce(g, comments, w, k, d1[k], d2[k]);
  }

  lemma TellableIsOnce(g: Root, w: set<string>)
    requires Tellable(g, w)
    ensures NamedOnce(g, w)
  {
  }

  /** The schemas of generated methods hold canonical definitions only. */
  lemma MethodsAreCanonical(g: Root, comments: Comments, methods: seq<RegisteredMethod>)
    requires Mergeable(g, comments, methods)
    ensures forall s :: s in SchemasOf(methods) ==> AllCanonical(g, comments, ReachAll(g, methods), s.Definitions())
  {
    var w := ReachAll(g, methods);
    forall s | s in SchemasOf(methods)
      ensures AllCanonical(g, comments, w, s.Definitions())
    {
      var m :| m in methods && (s == m.requestSchema || s == m.responseSchema);
      assert Registered(g, comments, m);
      var t := if s == m.requestSchema then m.requestTypeName else m.responseTypeName;
      assert Reach(g, t) <= w;
      hide ReachAll, Generate, AllCanonical, Tellable;
      GeneratedWithin(g, comments, w, t);
    }
  }

  /** Merging definitions in closed form keeps every one of them, whatever the methods and their order. */
  lemma MergedCanonically(g: Root, comments: Comments, methods: seq<RegisteredMethod>)
    requires Mergeable(g, comments, methods)
    ensures AllCanonical(g, comments, ReachAll(g, methods), Merged(methods)) && Consistent(methods)
  {
    var w := ReachAll(g, methods);
    MergedCollects(methods);
    MethodsAreCanonical(g, comments, methods);
    TellableIsOnce(g, w);
    hide ReachAll, Merged, SchemasOf, IsCanonical, Registered, NamedOnce;
    forall a, b, k | a in SchemasOf(methods) && b in SchemasOf(methods)
                  && k in a.Definitions() && k in b.Definitions()
      ensures a.Definitions()[k] == b.Definitions()[k]
    {
      CanonicalOnce(g, comments, w, k, a.Definitions()[k], b.Definitions()[k]);
    }
  }

  /** Where all references differ in their last component, the merged definitions are complete as well. */
  lemma MergedExactly(g: Root, comments: Comments, methods: seq<RegisteredMethod>)
    requires forall m :: m in methods ==> Registered(g, comments, m)
    requires Distinguishable(ReachAll(g, methods))
    ensures Exactly(g, comments, ReachAll(g, methods), Merged(methods))
    ensures Consistent(methods)
  {
    var w, merged := ReachAll(g, methods), Merged(methods);
    DistinguishableIsTellable(g, w);
    MergedCanonically(g, comments, methods);
    MergedCollects(methods);
    forall r | r in w && Resolvable(g, r)
      ensures CanonicalName(g, r) in merged
    {
      var m :| m in methods && (r in Reach(g, m.requestTypeName) || r in Reach(g, m.responseTypeName));
      assert Registered(g, comments, m);
      var t := if r in Reach(g, m.requestTypeName) then m.requestTypeName else m.responseTypeName;
      assert Reach(g, t) <= w;
      GeneratedExactly(g, comments, t);
      assert Generate(g, comments, t) in SchemasOf(methods);
    }
    CompleteIsExact(g, comments, w, merged);
  }

  lemma SameSchemas(methods: seq<RegisteredMethod>, others: seq<RegisteredMethod>)
    requires forall m :: m in methods <==> m in others
    ensures Merged(methods).Keys == Merged(others).Keys
  {
    MergedCollects(methods);
    MergedCollects(others);
    assert SchemasOf(methods) == SchemasOf(others);
    hide Merged, SchemasOf;
  }

  lemma OneRecord(g: Root, comments: Comments, w: set<string>, d1: map<string, Schema>, d2: map<string, Schema>)
    requires NamedOnce(g, w) && AllCanonical(g, comments, w, d1) && AllCanonical(g, comments, w, d2)
    requires d1.Keys == d2.Keys
    ensures d1 == d2
  {
    hide NamedOnce, IsCanonical;
    forall k | k in d1 ensures d1[k] == d2[k] {
      CanonicalOnce(g, comments, w, k, d1[k], d2[k]);
    }
  }

  lemma SameMethods(g: Root, comments: Comments, methods: seq<RegisteredMethod>, others: seq<RegisteredMethod>)
    requires Mergeable(g, comments, methods) && forall m :: m in methods <==> m in others
    ensures Mergeable(g, comments, others) && ReachAll(g, others) == ReachAll(g, methods)
  {
    assert ReachAll(g, others) == ReachAll(g, methods);
    hide Reach, Tellable, Registered, ReachAll;
  }

  /** The same methods in another order, or repeated, merge to the same definitions. */
  lemma MergeIgnoresOrder(g: Root, comments: Comments, methods: seq<RegisteredMethod>, others: seq<RegisteredMethod>)
    requires Mergeable(g, comments, methods)
    requires forall m :: m in methods <==> m in others
    ensures Merged(methods) == Merged(others)
  {
    SameMethods(g, comments, methods, others);
    SameSchemas(methods, others);
    TellableIsOnce(g, ReachAll(g, methods));
    hide ReachAll, Merged, Mergeable;
    MergedCanonically(g, comments, methods);
    MergedCanonically(g, comments, others);
    OneRecord(g, comments, ReachAll(g, methods), Merged(methods), Merged(others));
  }

  /**
   * What a client sees: an exposed schema, expanded with the merged definitions to any depth, has
   * the shape of its type. In particular every reference resolves.
   */
  lemma MergedMeaningIsPreserved(g: Root, comments: Comments, methods: seq<RegisteredMethod>, typeName: string,
                                 levels: nat)
    requires forall m :: m in methods ==> Registered(g, comments, m)
    requires Distinguishable(ReachAll(g, methods))
    requires exists m :: m in methods && (typeName == m.requestTypeName || typeName == m.responseTypeName)
    ensures ExpandSchema(Generate(g, comments, typeName).schema, Merged(methods), levels)
        == ExpandType(g, typeName, levels)
  {
    var w := ReachAll(g, methods);
    assert Reach(g, typeName) <= w;
    GeneratedExactly(g, comments, typeName);
    MergedExactly(g, comments, methods);
    ReachAllIsClosed(g, methods);
    ReachIsClosed(g, typeName);
    RootAgrees(g, comments, w, Merged(methods), typeName, levels);
  }
}
