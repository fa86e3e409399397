/**
 * Exactly when a generated schema means what its type means: when every reference in it resolves.
 * Namesakes among the reachable types are allowed.
 */
module MeaningExactly {
  import opened Wrappers
  import opened ProtoTypes
  import opened JsonSchema
  import opened SchemaWalk
  import opened SchemaTheorems
  import opened SchemaMeaning
  import opened SchemaClosure
  import opened GeneratedNames
  import opened SchemaShadowing

  // --- Shapes without a dangling reference ---

  predicate Whole(shape: Shape) {
    match shape
    case Dangling => false
    case ObjectShape(properties, _) => forall k :: k in properties ==> Whole(properties[k])
    case ArrayShape(items) => Whole(items)
    case MapShape(values) => Whole(values)
    case _ => true
  }

  lemma {:induction false} ReferenceFreeIsWhole(s: Schema, d: map<string, Schema>, levels: nat)
    requires ReferenceFree(s)
    ensures Whole(ExpandSchema(s, d, levels))
  {
    match s
    case Ref(_, _) =>
    case Primitive(_, _, _, _, _) =>
    case ArrayOf(items, _) => ReferenceFreeIsWhole(items, d, levels);
    case MapOf(values, _) => ReferenceFreeIsWhole(values, d, levels);
    case Object(properties, _, _, _) =>
      forall k | k in properties ensures Whole(ExpandSchema(properties[k], d, levels)) {
        ReferenceFreeIsWhole(properties[k], d, levels);
      }
  }

  /** Expanding types never meets a missing definition. */
  lemma {:induction false} ReferenceIsWhole(g: Root, reference: string, levels: nat)
    ensures Whole(ExpandReference(g, reference, levels))
    decreases levels, 0
  {
    if !Resolvable(g, reference) {
      FallbackHasNoReferences(reference);
      ReferenceFreeIsWhole(Fallback(reference), map[], levels);
    } else if levels > 0 && reference in g.types {
      MessageIsWhole(g, g.types[reference], levels - 1);
    }
  }

  lemma {:induction false} MessageIsWhole(g: Root, m: Message, levels: nat)
    ensures Whole(ExpandMessage(g, m, levels))
    decreases levels, 3
  {
    FieldsAreWhole(g, m, |m.fields|, levels);
    hide ExpandFields;
    assert ExpandMessage(g, m, levels).properties == ExpandFields(g, m, |m.fields|, levels);
  }

  lemma {:induction false} FieldIsWhole(g: Root, m: Message, f: Field, levels: nat)
    ensures Whole(ExpandField(g, m, f, levels))
    decreases levels, 1
  {
    if IsScalar(f.ty) {
      ScalarHasNoReferences(f.ty);
      ReferenceFreeIsWhole(ScalarSchema(f.ty).value, map[], levels);
    } else {
      ReferenceIsWhole(g, ReferenceOf(m, f), levels);
    }
  }

  lemma {:induction false} FieldsAreWhole(g: Root, m: Message, n: nat, levels: nat)
    requires n <= |m.fields|
    ensures forall k :: k in ExpandFields(g, m, n, levels) ==> Whole(ExpandFields(g, m, n, levels)[k])
    decreases levels, 2, n
  {
    hide Whole, ExpandField;
    if n > 0 {
      FieldsAreWhole(g, m, n - 1, levels);
      FieldIsWhole(g, m, m.fields[n - 1], levels);
    }
  }

  lemma TypeIsWhole(g: Root, typeName: string, levels: nat)
    ensures Whole(ExpandType(g, typeName, levels))
  {
    hide ExpandMessage;
    if typeName in g.types {
      MessageIsWhole(g, g.types[typeName], levels);
    }
  }

  /** One level of expansion shows every reference of the schema itself. */
  lemma {:induction false} WholeResolves(s: Schema, d: map<string, Schema>)
    requires Whole(ExpandSchema(s, d, 1))
    ensures RefsResolve(s, d)
  {
    match s
    case Ref(_, _) =>
    case Primitive(_, _, _, _, _) =>
    case ArrayOf(items, _) => WholeResolves(items, d);
    case MapOf(values, _) => WholeResolves(values, d);
    case Object(properties, _, _, _) =>
      var shape := ExpandSchema(s, d, 1);
      forall k | k in properties ensures RefsResolve(properties[k], d) {
        assert Whole(shape.properties[k]);
        WholeResolves(properties[k], d);
      }
  }

  ghost predicate WholeAtAnyDepth(s: Schema, d: map<string, Schema>) {
    forall levels: nat :: Whole(ExpandSchema(s, d, levels))
  }

  // --- Schemas that translate messages ---

  /** `s` lists the fields of `m`, each under the name chosen for its type. */
  ghost predicate Translates(g: Root, comments: Comments, m: Message, names: map<string, string>, s: Schema) {
    && s.Object? && s.required == Required(m.fields)
    && PropertiesTranslated(g, comments, m, m.fields, names, s.properties)
  }

  /** Every definition is that of one reference of `w`, under a name that is its own. */
  ghost predicate Attributed(g: Root, comments: Comments, w: set<string>, names: map<string, string>,
                             d: map<string, Schema>) {
    AllFinished(g, comments, w, names, d) && Injective(names) && Keyed(g)
  }

  /** The definition under a reference's name is its own. */
  lemma AttributedIsOwn(g: Root, comments: Comments, w: set<string>, names: map<string, string>,
                        d: map<string, Schema>, x: string)
    requires Attributed(g, comments, w, names, d) && x in names && names[x] in d
    ensures x in w && Finished(g, comments, names, x, names[x], d[names[x]])
    ensures Resolvable(g, x) && (x in g.types ==> Translates(g, comments, g.types[x], names, d[names[x]]))
  {
    assert IsFinished(g, comments, w, names, names[x], d[names[x]]);
    var r :| r in w && Finished(g, comments, names, r, names[x], d[names[x]]);
    assert names[r] == names[x];
    hide PropertiesTranslated;
  }

  /** In a translation with distinct field names, the property of a field is the translation of that field. */
  lemma PropertyOfField(g: Root, comments: Comments, m: Message, names: map<string, string>, s: Schema, f: Field)
    requires Translates(g, comments, m, names, s) && KeyedByName(m.fields) && f in m.fields
    ensures f.name in s.properties && FieldTranslated(g, comments, m, f, names, s.properties[f.name])
  {
    hide FieldTranslated;
    assert f.name in s.properties;
    var e :| e in m.fields && e.name == f.name && FieldTranslated(g, comments, m, e, names, s.properties[f.name]);
    assert e == f;
  }

  // --- A whole expansion makes everything resolve ---

  /** What a field refers to is whole when the schema that holds the field is. */
  lemma ReferredIsWhole(comments: Comments, m: Message, f: Field, s: Schema, name: string, d: map<string, Schema>)
    requires s.Object? && WholeAtAnyDepth(s, d) && f.name in s.properties
    requires s.properties[f.name] == FieldSchema(comments, m, f, Ref(name, None))
    ensures name in d && WholeAtAnyDepth(d[name], d)
  {
    hide FieldSchema;
    forall levels: nat
      ensures Whole(ExpandSchema(Ref(name, None), d, levels))
    {
      var shape := ExpandSchema(s, d, levels);
      assert Whole(shape) && Whole(shape.properties[f.name]);
      WrappingAgrees(comments, m, f, Ref(name, None), d, levels);
    }
    assert Whole(ExpandSchema(Ref(name, None), d, 1));
    forall levels: nat
      ensures Whole(ExpandSchema(d[name], d, levels))
    {
      assert Whole(ExpandSchema(Ref(name, None), d, levels + 1));
    }
  }

  /** The type of a field of a whole schema has a whole definition. */
  lemma HeldIsWhole(g: Root, comments: Comments, m: Message, names: map<string, string>, s: Schema,
                    d: map<string, Schema>, x: string)
    requires Translates(g, comments, m, names, s) && KeyedByName(m.fields) && WholeAtAnyDepth(s, d)
    requires x in RefsOfMessage(m) && Resolvable(g, x)
    ensures x in names && names[x] in d && WholeAtAnyDepth(d[names[x]], d)
  {
    hide WholeAtAnyDepth, FieldSchema, IsScalar, ReferenceOf;
    var f :| f in m.fields && !IsScalar(f.ty) && ReferenceOf(m, f) == x;
    PropertyOfField(g, comments, m, names, s, f);
    ReferredIsWhole(comments, m, f, s, names[x], d);
  }

  /** Along every path from a whole root schema: each declared type has a definition, and a whole one. */
  lemma {:induction false} ReachedIsWhole(g: Root, comments: Comments, typeName: string, w: set<string>,
                                          names: map<string, string>, s: Schema, d: map<string, Schema>,
                                          x: string, n: nat)
    requires typeName != "" && typeName in g.types && n >= 1 && ReachableIn(g, typeName, x, n) && Resolvable(g, x)
    requires Attributed(g, comments, w, names, d) && Translates(g, comments, g.types[typeName], names, s)
    requires WholeAtAnyDepth(s, d)
    ensures x in names && names[x] in d && WholeAtAnyDepth(d[names[x]], d)
    decreases n
  {
    assert Keyed(g);
    hide WholeAtAnyDepth, Attributed, Translates;
    if n == 1 {
      HeldIsWhole(g, comments, g.types[typeName], names, s, d, x);
    } else {
      var via :| ReachableIn(g, typeName, via, n - 1) && x in RefsOf(g, via);
      ReachedIsWhole(g, comments, typeName, w, names, s, d, via, n - 1);
      AttributedIsOwn(g, comments, w, names, d, via);
      HeldIsWhole(g, comments, g.types[via], names, d[names[via]], d, x);
    }
  }

  // --- Where everything resolves, expansions agree ---

  /** Every reference in the definitions has one. */
  ghost predicate ClosedRecord(d: map<string, Schema>) {
    forall k :: k in d ==> RefsResolve(d[k], d)
  }

  /** The shapes of the first `n` fields, each under the name of its field. */
  ghost predicate ShapesOf(g: Root, m: Message, n: nat, levels: nat, shapes: map<string, Shape>)
    requires n <= |m.fields|
  {
    && shapes.Keys == (set i | 0 <= i < n :: m.fields[i].name)
    && forall i :: 0 <= i < n ==> shapes[m.fields[i].name] == ExpandField(g, m, m.fields[i], levels)
  }

  lemma NoShapes(g: Root, m: Message, levels: nat)
    ensures ShapesOf(g, m, 0, levels, map[])
  {
  }

  lemma OneMoreShape(g: Root, m: Message, n: nat, levels: nat, shapes: map<string, Shape>)
    requires n < |m.fields| && KeyedByName(m.fields) && ShapesOf(g, m, n, levels, shapes)
    ensures ShapesOf(g, m, n + 1, levels, shapes[m.fields[n].name := ExpandField(g, m, m.fields[n], levels)])
  {
    hide ExpandField;
    assert forall i :: 0 <= i < n ==> m.fields[i].name in shapes;
  }

  lemma {:induction false} ExpandFieldsAre(g: Root, m: Message, n: nat, levels: nat)
    requires n <= |m.fields| && KeyedByName(m.fields)
    ensures ShapesOf(g, m, n, levels, ExpandFields(g, m, n, levels))
  {
    hide ShapesOf, ExpandField, KeyedByName;
    if n == 0 {
      NoShapes(g, m, levels);
    } else {
      var k: nat := n - 1;
      ExpandFieldsAre(g, m, k, levels);
      OneMoreShape(g, m, k, levels, ExpandFields(g, m, k, levels));
    }
  }

  lemma {:induction false} FieldExpandsAlike(g: Root, comments: Comments, w: set<string>, names: map<string, string>,
                                             d: map<string, Schema>, m: Message, f: Field, p: Schema, levels: nat)
    requires Attributed(g, comments, w, names, d) && ClosedRecord(d)
    requires FieldTranslated(g, comments, m, f, names, p) && RefsResolve(p, d)
    ensures ExpandSchema(p, d, levels) == ExpandField(g, m, f, levels)
    decreases levels, 1
  {
    var reference := ReferenceOf(m, f);
    ScalarFieldAgrees(g, comments, m, f, d, levels);
    hide Attributed, ClosedRecord, FieldSchema, ScalarSchema, Fallback, RefsResolve;
    hide IsScalar, IsBuiltin, ScalarMeaning, ReferenceOf;
    if IsScalar(f.ty) {
    } else if p == FieldSchema(comments, m, f, Ref(names[reference], None)) {
      ResolvedFieldIsDefined(comments, m, f, names[reference], d);
      AttributedIsOwn(g, comments, w, names, d, reference);
      WrappingAgrees(comments, m, f, Ref(names[reference], None), d, levels);
      if levels > 0 {
        DefinitionExpandsAlike(g, comments, w, names, d, reference, levels - 1);
      }
    } else {
      FallbackHasNoReferences(reference);
      WithoutReferences(Fallback(reference), d, levels);
      WrappingAgrees(comments, m, f, Fallback(reference), d, levels);
    }
  }

  lemma {:induction false} PropertyExpandsAlike(g: Root, comments: Comments, w: set<string>,
                                                names: map<string, string>, d: map<string, Schema>,
                                                m: Message, s: Schema, k: string, levels: nat) returns (i: nat)
    requires Attributed(g, comments, w, names, d) && ClosedRecord(d) && KeyedByName(m.fields)
    requires Translates(g, comments, m, names, s) && RefsResolve(s, d) && k in s.properties
    ensures i < |m.fields| && m.fields[i].name == k
    ensures ExpandSchema(s.properties[k], d, levels) == ExpandField(g, m, m.fields[i], levels)
    decreases levels, 2
  {
    hide Attributed, ClosedRecord, FieldTranslated, ExpandField, ExpandSchema;
    assert RefsResolve(s.properties[k], d);
    var f :| f in m.fields && f.name == k && FieldTranslated(g, comments, m, f, names, s.properties[k]);
    i :| i < |m.fields| && m.fields[i] == f;
    FieldExpandsAlike(g, comments, w, names, d, m, f, s.properties[k], levels);
  }

  lemma {:induction false} ObjectExpandsAlike(g: Root, comments: Comments, w: set<string>, names: map<string, string>,
                                              d: map<string, Schema>, m: Message, s: Schema, levels: nat)
    requires Attributed(g, comments, w, names, d) && ClosedRecord(d) && KeyedByName(m.fields)
    requires Translates(g, comments, m, names, s) && RefsResolve(s, d)
    ensures ExpandSchema(s, d, levels) == ExpandMessage(g, m, levels)
    decreases levels, 3
  {
    assert s.properties.Keys == set f | f in m.fields :: f.name;
    hide Attributed, ClosedRecord, PropertiesTranslated, ExpandField, ExpandFields, RefsResolve, ShapesOf, ExpandSchema;
    ExpandFieldsAre(g, m, |m.fields|, levels);
    RequiredAgrees(m.fields);
    hide Required, AlwaysPresent;
    forall k | k in s.properties
      ensures exists i: nat :: i < |m.fields| && m.fields[i].name == k
                  && ExpandSchema(s.properties[k], d, levels) == ExpandField(g, m, m.fields[i], levels)
    {
      var i := PropertyExpandsAlike(g, comments, w, names, d, m, s, k, levels);
    }
    SameShapes(g, m, s.properties, d, levels, ExpandFields(g, m, |m.fields|, levels));
    ExpandedObject(s, d, levels);
  }

  lemma SameShapes(g: Root, m: Message, properties: map<string, Schema>, d: map<string, Schema>, levels: nat,
                   shapes: map<string, Shape>)
    requires ShapesOf(g, m, |m.fields|, levels, shapes) && properties.Keys == (set f | f in m.fields :: f.name)
    requires forall k :: k in properties ==>
               exists i: nat :: i < |m.fields| && m.fields[i].name == k
                 && ExpandSchema(properties[k], d, levels) == ExpandField(g, m, m.fields[i], levels)
    ensures (map k | k in properties :: ExpandSchema(properties[k], d, levels)) == shapes
  {
    hide ExpandSchema, ExpandField;
    assert properties.Keys == shapes.Keys;
  }

  lemma {:induction false} DefinitionExpandsAlike(g: Root, comments: Comments, w: set<string>,
                                                  names: map<string, string>, d: map<string, Schema>, x: string,
                                                  levels: nat)
    requires Attributed(g, comments, w, names, d) && ClosedRecord(d) && x in names && names[x] in d
    ensures ExpandSchema(d[names[x]], d, levels)
         == if x in g.types then ExpandMessage(g, g.types[x], levels)
            else EnumMeaning(if x in g.enums then g.enums[x] else Enum("", []))
    decreases levels, 4
  {
    AttributedIsOwn(g, comments, w, names, d, x);
    assert RefsResolve(d[names[x]], d);
    assert Keyed(g);
    hide Attributed, ClosedRecord, RefsResolve, ExpandMessage, Translates;
    if x in g.types {
      ObjectExpandsAlike(g, comments, w, names, d, g.types[x], d[names[x]], levels);
    }
  }

  // --- One schema ---

  /** Unfolding the references to any depth gives the shape of unfolding the types. */
  ghost predicate MeansItsType(g: Root, typeName: string, s: Schema, d: map<string, Schema>) {
    forall levels: nat :: ExpandSchema(s, d, levels) == ExpandType(g, typeName, levels)
  }

  lemma MeaningIsWhole(g: Root, typeName: string, s: Schema, d: map<string, Schema>)
    requires MeansItsType(g, typeName, s, d)
    ensures WholeAtAnyDepth(s, d) && RefsResolve(s, d)
  {
    forall levels: nat ensures Whole(ExpandSchema(s, d, levels)) {
      TypeIsWhole(g, typeName, levels);
    }
    WholeResolves(s, d);
  }

  lemma RootTranslates(g: Root, comments: Comments, typeName: string)
    requires typeName != "" && typeName in g.types
    ensures Translates(g, comments, g.types[typeName], FinalNames(g, comments, typeName),
                       Generate(g, comments, typeName).schema)
  {
    RootIsTranslated(g, comments, typeName);
  }

  /**
   * For every type graph in which no two reachable references can share a definition name, cyclic
   * or not, namesakes or not: the generated schema means what its type means, at every depth, if
   * and only if every reference in it resolves.
   */
  lemma MeaningIsPreservedExactly(g: Root, comments: Comments, typeName: string)
    requires Separate(g, Reach(g, typeName))
    ensures var r := Generate(g, comments, typeName);
      MeansItsType(g, typeName, r.schema, r.Definitions()) <==> AllResolve(g, comments, typeName)
  {
    var r, names := Generate(g, comments, typeName), FinalNames(g, comments, typeName);
    var d, w := r.Definitions(), Reach(g, typeName);
    if typeName != "" && typeName in g.types {
      NoPlaceholderSurvives(g, comments, typeName);
      FinalNamesApart(g, comments, typeName);
      RootTranslates(g, comments, typeName);
      hide Generate, FinalNames, Translates, RefsResolve, WholeAtAnyDepth, MeansItsType, AllFinished, Injective, Apart;
      hide Unshared, ExpandMessage, ExpandSchema;
      if AllResolve(g, comments, typeName) {
        ResolvingMeans(g, comments, typeName, w, names, r.schema, d);
      }
      if MeansItsType(g, typeName, r.schema, d) {
        MeaningResolves(g, comments, typeName, w, names, r.schema, d);
      }
    }
  }

  lemma ResolvingMeans(g: Root, comments: Comments, typeName: string, w: set<string>, names: map<string, string>,
                       s: Schema, d: map<string, Schema>)
    requires typeName != "" && typeName in g.types && Attributed(g, comments, w, names, d)
    requires Translates(g, comments, g.types[typeName], names, s) && RefsResolve(s, d) && ClosedRecord(d)
    ensures MeansItsType(g, typeName, s, d)
  {
    assert Keyed(g);
    hide Attributed, Translates, ClosedRecord, RefsResolve, ExpandMessage;
    forall levels: nat
      ensures ExpandSchema(s, d, levels) == ExpandType(g, typeName, levels)
    {
      ObjectExpandsAlike(g, comments, w, names, d, g.types[typeName], s, levels);
    }
  }

  /** A schema that means its type resolves, together with the definitions of all that its type reaches. */
  lemma MeaningResolves(g: Root, comments: Comments, typeName: string, w: set<string>, names: map<string, string>,
                        s: Schema, d: map<string, Schema>)
    requires typeName != "" && typeName in g.types && Attributed(g, comments, w, names, d)
    requires Translates(g, comments, g.types[typeName], names, s) && MeansItsType(g, typeName, s, d)
    ensures RefsResolve(s, d)
    ensures forall k :: k in d && (exists x :: x in Reach(g, typeName) && Finished(g, comments, names, x, k, d[k]))
              ==> RefsResolve(d[k], d)
  {
    MeaningIsWhole(g, typeName, s, d);
    hide MeansItsType, Attributed, Translates, RefsResolve, WholeAtAnyDepth;
    forall k | k in d && exists x :: x in Reach(g, typeName) && Finished(g, comments, names, x, k, d[k])
      ensures RefsResolve(d[k], d)
    {
      var x :| x in Reach(g, typeName) && Finished(g, comments, names, x, k, d[k]);
      var n: nat :| n >= 1 && ReachableIn(g, typeName, x, n);
      hide Reach;
      FinishedIsResolvable(g, comments, names, x, k, d[k]);
      ReachedIsWhole(g, comments, typeName, w, names, s, d, x, n);
      WholeHere(d[k], d);
    }
  }

  lemma FinishedIsResolvable(g: Root, comments: Comments, names: map<string, string>, x: string, k: string, s: Schema)
    requires Finished(g, comments, names, x, k, s)
    ensures Resolvable(g, x) && x in names && names[x] == k
  {
  }

  lemma WholeHere(s: Schema, d: map<string, Schema>)
    requires WholeAtAnyDepth(s, d)
    ensures RefsResolve(s, d)
  {
    WholeResolves(s, d);
  }

  // --- In terms of the types alone ---

  /** Where no type has a namesake below it, meaning is preserved; namesakes side by side do no harm. */
  lemma MeaningWithoutNamesakesBelow(g: Root, comments: Comments, typeName: string)
    requires Separate(g, Reach(g, typeName)) && NoNamesakeBelow(g, Reach(g, typeName))
    ensures var r := Generate(g, comments, typeName); MeansItsType(g, typeName, r.schema, r.Definitions())
  {
    hide Separate, NoNamesakeBelow, Reach, AllResolve, MeansItsType, Generate;
    EveryReferenceResolves(g, comments, typeName);
    MeaningIsPreservedExactly(g, comments, typeName);
  }

  /**
   * Over all requests that hold one type of the graph: their schemas all mean what their types mean,
   * at every depth, if and only if no type has a namesake below it.
   */
  lemma MeaningOfAllRequestsExactly(g: Root, comments: Comments, w: set<string>, request: string)
    requires Closed(g, w) && Separate(g, w) && Fresh(g, request)
    ensures (forall a :: a in w ==>
               var g' := WithRequest(g, request, a);
               var r := Generate(g', comments, request);
               MeansItsType(g', request, r.schema, r.Definitions()))
       <==> NoNamesakeBelow(g, w)
  {
    ReferencesResolveExactly(g, comments, w, request);
    hide Separate, NoNamesakeBelow, Reach, AllResolve, MeansItsType, Generate, WithRequest, Closed, Fresh;
    forall a | a in w
      ensures var g' := WithRequest(g, request, a);
        var r := Generate(g', comments, request);
        MeansItsType(g', request, r.schema, r.Definitions()) <==> AllResolve(g', comments, request)
    {
      RequestStaysInside(g, w, request, a);
      MeaningIsPreservedExactly(WithRequest(g, request, a), comments, request);
    }
  }
}
