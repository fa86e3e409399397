/**
 * When references do not resolve: a type that is only reached through a namesake is never defined.
 */
module SchemaShadowing {
  import opened Wrappers
  import opened Dotted
  import opened ProtoTypes
  import opened JsonSchema
  import opened SchemaWalk
  import opened SchemaTheorems
  import opened SchemaExactness
  import opened SchemaClosure
  import opened GeneratedNames

  // --- Paths without a namesake ---

  /** `x` is reached over `n` field edges with no namesake of `b` before it. */
  ghost predicate AvoidingIn(g: Root, typeName: string, b: string, x: string, n: nat)
    requires n >= 1
    decreases n
  {
    if n == 1 then x in TopRefs(g, typeName)
    else exists via :: AvoidingIn(g, typeName, b, via, n - 1) && !Namesakes(via, b) && x in RefsOf(g, via)
  }

  ghost predicate Avoiding(g: Root, typeName: string, b: string, x: string) {
    exists n: nat :: n >= 1 && AvoidingIn(g, typeName, b, x, n)
  }

  /** Every path from the root to `b` passes a namesake of `b` first. */
  ghost predicate Hidden(g: Root, typeName: string, b: string) {
    !Avoiding(g, typeName, b, b)
  }

  lemma AvoidingNext(g: Root, typeName: string, b: string, via: string, x: string)
    requires Avoiding(g, typeName, b, via) && !Namesakes(via, b) && x in RefsOf(g, via)
    ensures Avoiding(g, typeName, b, x)
  {
    var n: nat :| n >= 1 && AvoidingIn(g, typeName, b, via, n);
    assert AvoidingIn(g, typeName, b, x, n + 1);
  }

  // --- How a type is hidden ---

  /** Either a namesake is being walked, or no namesake stands before any of `refs`. */
  ghost predicate HidesSoFar(g: Root, typeName: string, b: string, refs: set<string>, visited: set<string>) {
    ShortName(b) in visited || forall x :: x in refs ==> Avoiding(g, typeName, b, x)
  }

  lemma HidesFurther(g: Root, typeName: string, b: string, refs: set<string>, visited: set<string>, reference: string)
    requires HidesSoFar(g, typeName, b, refs, visited) && reference in refs && reference != b
    ensures HidesSoFar(g, typeName, b, RefsOf(g, reference), visited + {reference, ShortName(reference)})
  {
    if ShortName(b) !in visited && !Namesakes(reference, b) {
      forall x | x in RefsOf(g, reference) ensures Avoiding(g, typeName, b, x) {
        AvoidingNext(g, typeName, b, reference, x);
      }
    }
  }

  // --- Definitions in which every mention of a hidden type is a reference ---

  /** The first `n` fields that hold `b` refer to it by its name, and never stand for an unknown type. */
  ghost predicate Mentions(comments: Comments, b: string, m: Message, n: nat, names: map<string, string>,
                           properties: map<string, Schema>)
    requires n <= |m.fields|
  {
    forall i :: 0 <= i < n && !IsScalar(m.fields[i].ty) && ReferenceOf(m, m.fields[i]) == b ==>
      var f := m.fields[i];
      b in names && f.name in properties && properties[f.name] == FieldSchema(comments, m, f, Ref(names[b], None))
  }

  ghost predicate FinishedHiding(g: Root, comments: Comments, names: map<string, string>, b: string,
                                 reference: string, name: string, s: Schema) {
    && Finished(g, comments, names, reference, name, s) && reference != b
    && (reference in g.types ==>
          Mentions(comments, b, g.types[reference], |g.types[reference].fields|, names, s.properties))
  }

  ghost predicate IsFinishedHiding(g: Root, comments: Comments, w: set<string>, b: string, names: map<string, string>,
                                   name: string, s: Schema) {
    exists r :: r in w && FinishedHiding(g, comments, names, b, r, name, s)
  }

  /** Nothing begun before is touched, and all that is new is a finished definition of another type than `b`. */
  ghost predicate GrowsHiding(g: Root, comments: Comments, w: set<string>, b: string, before: Tables, after: Tables) {
    && (forall k :: k in before.definitions ==>
          k in after.definitions && after.definitions[k] == before.definitions[k])
    && (forall r :: r in before.names ==> r in after.names && after.names[r] == before.names[r])
    && (forall k :: k in after.definitions && k !in before.definitions ==>
          IsFinishedHiding(g, comments, w, b, after.names, k, after.definitions[k]))
  }

  lemma FinishedHidingStays(g: Root, comments: Comments, names: map<string, string>, more: map<string, string>,
                            b: string, reference: string, name: string, s: Schema)
    requires FinishedHiding(g, comments, names, b, reference, name, s)
    requires forall r :: r in names ==> r in more && more[r] == names[r]
    ensures FinishedHiding(g, comments, more, b, reference, name, s)
  {
    FinishedStays(g, comments, names, more, reference, name, s);
    hide Finished, FieldSchema;
  }

  lemma GrowsHidingTransitively(g: Root, comments: Comments, w: set<string>, b: string, t: Tables, u: Tables, v: Tables)
    requires GrowsHiding(g, comments, w, b, t, u) && GrowsHiding(g, comments, w, b, u, v)
    ensures GrowsHiding(g, comments, w, b, t, v)
  {
    hide FinishedHiding;
    forall k | k in v.definitions && k !in t.definitions
      ensures IsFinishedHiding(g, comments, w, b, v.names, k, v.definitions[k])
    {
      if k in u.definitions {
        var r :| r in w && FinishedHiding(g, comments, u.names, b, r, k, u.definitions[k]);
        FinishedHidingStays(g, comments, u.names, v.names, b, r, k, v.definitions[k]);
      }
    }
  }

  lemma GrowsNothing(g: Root, comments: Comments, w: set<string>, b: string, t: Tables)
    ensures GrowsHiding(g, comments, w, b, t, t)
  {
  }

  lemma NamingGrows(g: Root, comments: Comments, w: set<string>, b: string, reference: string, t: Tables)
    requires SaneNames(t.names)
    ensures GrowsHiding(g, comments, w, b, t, t.(names := NameReference(g, reference, t.names)))
  {
    NamingKeepsNames(g, reference, t.names);
  }

  lemma ReplacingGrows(g: Root, comments: Comments, w: set<string>, b: string, name: string, t: Tables, t1: Tables,
                       s: Schema)
    requires name !in t.definitions
    requires GrowsHiding(g, comments, w, b, t.(definitions := t.definitions[name := EMPTY_OBJECT]), t1)
    requires IsFinishedHiding(g, comments, w, b, t1.names, name, s)
    ensures GrowsHiding(g, comments, w, b, t, t1.(definitions := t1.definitions[name := s]))
  {
    hide IsFinishedHiding;
  }

  // --- A hidden type is never defined ---

  /** Messages key their fields by name. */
  ghost predicate Keyed(g: Root) {
    forall r :: r in g.types ==> KeyedByName(g.types[r].fields)
  }

  /** The walk of the first `n` fields defines no `b`, and mentions it by reference. */
  ghost predicate FieldsAvoided(g: Root, comments: Comments, w: set<string>, b: string, m: Message, n: nat,
                                visited: set<string>, t: Tables)
    requires n <= |m.fields| && RefsOfMessage(m) <= AllRefs(g) && SaneNames(t.names)
  {
    var (properties, t') := WalkFields(g, comments, m, n, visited, t);
    GrowsHiding(g, comments, w, b, t, t') && Mentions(comments, b, m, n, t'.names, properties)
  }

  lemma {:induction false} FieldsAvoid(g: Root, comments: Comments, w: set<string>, typeName: string, b: string,
                                       m: Message, n: nat, visited: set<string>, t: Tables)
    requires n <= |m.fields| && RefsOfMessage(m) <= AllRefs(g) && SaneNames(t.names)
    requires Closed(g, w) && RefsOfMessage(m) <= w && Keyed(g) && KeyedByName(m.fields)
    requires Hidden(g, typeName, b) && HidesSoFar(g, typeName, b, RefsOfMessage(m), visited)
    ensures FieldsAvoided(g, comments, w, b, m, n, visited, t)
    decreases Undefined(g, t), 2, n
  {
    hide FieldsAvoided, Hidden, HidesSoFar, RefsOfMessage, SaneNames, AllRefs, Closed, Keyed, KeyedByName, Undefined;
    if n == 0 {
      NothingAvoided(g, comments, w, b, m, visited, t);
    } else {
      FieldsAvoid(g, comments, w, typeName, b, m, n - 1, visited, t);
      UndefinedShrinks(g, t, WalkFields(g, comments, m, n - 1, visited, t).1);
      OneMoreFieldAvoids(g, comments, w, typeName, b, m, n, visited, t);
    }
  }

  lemma NothingAvoided(g: Root, comments: Comments, w: set<string>, b: string, m: Message, visited: set<string>,
                       t: Tables)
    requires RefsOfMessage(m) <= AllRefs(g) && SaneNames(t.names)
    ensures FieldsAvoided(g, comments, w, b, m, 0, visited, t)
  {
  }

  /** The step from `n - 1` fields to `n` fields. */
  lemma {:induction false} OneMoreFieldAvoids(g: Root, comments: Comments, w: set<string>, typeName: string, b: string,
                                              m: Message, n: nat, visited: set<string>, t: Tables)
    requires 0 < n <= |m.fields| && RefsOfMessage(m) <= AllRefs(g) && SaneNames(t.names)
    requires Closed(g, w) && RefsOfMessage(m) <= w && Keyed(g) && KeyedByName(m.fields)
    requires Hidden(g, typeName, b) && HidesSoFar(g, typeName, b, RefsOfMessage(m), visited)
    requires FieldsAvoided(g, comments, w, b, m, n - 1, visited, t)
    ensures FieldsAvoided(g, comments, w, b, m, n, visited, t)
    decreases Undefined(g, WalkFields(g, comments, m, n - 1, visited, t).1), 1, 1
  {
    hide GrowsHiding, Hidden, HidesSoFar, RefsOfMessage, WalkFields, WalkField, FieldSchema, SaneNames, AllRefs, Closed;
    hide Keyed, Mentions, KeyedByName, Undefined;
    var f := m.fields[n - 1];
    var (properties, t1) := WalkFields(g, comments, m, n - 1, visited, t);
    FieldAvoids(g, comments, w, typeName, b, m, f, visited, t1);
    var (leaf, t2) := WalkField(g, comments, m, f, visited, t1);
    GrowsHidingTransitively(g, comments, w, b, t, t1, t2);
    GrowingKeepsNames(g, comments, w, b, t1, t2);
    MentionsOneMore(comments, b, m, n, t1.names, t2.names, properties, leaf);
    WalkUnfolds(g, comments, m, n, visited, t);
  }

  lemma GrowingKeepsNames(g: Root, comments: Comments, w: set<string>, b: string, t: Tables, t': Tables)
    requires GrowsHiding(g, comments, w, b, t, t')
    ensures forall r :: r in t.names ==> r in t'.names && t'.names[r] == t.names[r]
  {
  }

  lemma MentionsOneMore(comments: Comments, b: string, m: Message, n: nat, names: map<string, string>,
                        more: map<string, string>, properties: map<string, Schema>, leaf: Schema)
    requires 0 < n <= |m.fields| && KeyedByName(m.fields) && Mentions(comments, b, m, n - 1, names, properties)
    requires forall r :: r in names ==> r in more && more[r] == names[r]
    requires var f := m.fields[n - 1];
      !IsScalar(f.ty) && ReferenceOf(m, f) == b ==> b in more && leaf == Ref(more[b], None)
    ensures var f := m.fields[n - 1];
      Mentions(comments, b, m, n, more, properties[f.name := FieldSchema(comments, m, f, leaf)])
  {
    hide FieldSchema, IsScalar, ReferenceOf;
  }

  lemma {:induction false} FieldAvoids(g: Root, comments: Comments, w: set<string>, typeName: string, b: string,
                                       m: Message, f: Field, visited: set<string>, t: Tables)
    requires f in m.fields && Closed(g, w) && RefsOfMessage(m) <= w && SaneNames(t.names) && Keyed(g)
    requires Hidden(g, typeName, b) && HidesSoFar(g, typeName, b, RefsOfMessage(m), visited)
    ensures var (leaf, t') := WalkField(g, comments, m, f, visited, t);
      && GrowsHiding(g, comments, w, b, t, t')
      && (!IsScalar(f.ty) && ReferenceOf(m, f) == b ==> b in t'.names && leaf == Ref(t'.names[b], None))
    decreases Undefined(g, t), 1, 0
  {
    hide GrowsHiding, Hidden, HidesSoFar, Resolve, Keyed;
    if IsScalar(f.ty) {
      GrowsNothing(g, comments, w, b, t);
    } else {
      assert ReferenceOf(m, f) in RefsOfMessage(m);
      ResolveAvoids(g, comments, w, typeName, b, RefsOfMessage(m), ReferenceOf(m, f), visited, t);
    }
  }

  lemma {:induction false} ResolveAvoids(g: Root, comments: Comments, w: set<string>, typeName: string, b: string,
                                         refs: set<string>, reference: string, visited: set<string>, t: Tables)
    requires Closed(g, w) && reference in refs && reference in w && SaneNames(t.names) && Keyed(g)
    requires Hidden(g, typeName, b) && HidesSoFar(g, typeName, b, refs, visited)
    ensures var (leaf, t') := Resolve(g, comments, reference, visited, t);
      && GrowsHiding(g, comments, w, b, t, t')
      && (reference == b ==> b in t'.names && leaf == Ref(t'.names[b], None))
    decreases Undefined(g, t), 0, 2
  {
    NamingKeepsNames(g, reference, t.names);
    NamingGrows(g, comments, w, b, reference, t);
    if ShortName(reference) !in visited {
      HiddenIsNotMet(g, typeName, b, refs, visited, reference);
    }
    hide Hidden, HidesSoFar, GrowsHiding, DefinitionName, NameReference, DefineMessage, Closed, Keyed;
    var name := DefinitionName(g, reference, t.names);
    if name !in t.definitions && reference !in visited && ShortName(reference) !in visited && Resolvable(g, reference) {
      var t1 := t.(names := NameReference(g, reference, t.names));
      NewAvoids(g, comments, w, typeName, b, refs, reference, visited, t, t1);
    }
  }

  lemma HiddenIsNotMet(g: Root, typeName: string, b: string, refs: set<string>, visited: set<string>, reference: string)
    requires Hidden(g, typeName, b) && HidesSoFar(g, typeName, b, refs, visited) && reference in refs
    requires ShortName(reference) !in visited
    ensures reference != b
  {
  }

  ghost predicate NewAvoided(g: Root, comments: Comments, w: set<string>, b: string, reference: string,
                             visited: set<string>, t: Tables, t1: Tables)
    requires reference in AllRefs(g) && Resolvable(g, reference) && SaneNames(t1.names)
    requires reference in t1.names && t1.names[reference] !in t1.definitions
  {
    var name := t1.names[reference];
    var t' := if reference in g.types then DefineMessage(g, comments, reference, name, visited, t1)
              else Tables(t1.definitions[name := EnumDefinition(comments, g.enums[reference], reference, name)],
                          t1.names[reference := name]);
    GrowsHiding(g, comments, w, b, t, t')
  }

  /** A reference just named and not begun, of a type other than `b`. */
  lemma {:induction false} NewAvoids(g: Root, comments: Comments, w: set<string>, typeName: string, b: string,
                                     refs: set<string>, reference: string, visited: set<string>, t: Tables, t1: Tables)
    requires Closed(g, w) && Keyed(g) && reference in refs && reference in w
    requires reference != b && Resolvable(g, reference)
    requires Hidden(g, typeName, b) && HidesSoFar(g, typeName, b, refs, visited)
    requires SaneNames(t1.names) && reference in t1.names && t1.names[reference] !in t1.definitions
    requires t1.definitions == t.definitions && GrowsHiding(g, comments, w, b, t, t1)
    ensures NewAvoided(g, comments, w, b, reference, visited, t, t1)
    decreases Undefined(g, t1), 0, 1
  {
    hide Hidden, HidesSoFar, GrowsHiding, DefineMessage, Keyed;
    var name := t1.names[reference];
    if reference in g.types {
      DefineAvoids(g, comments, w, typeName, b, refs, reference, visited, t1);
      GrowsHidingTransitively(g, comments, w, b, t, t1, DefineMessage(g, comments, reference, name, visited, t1));
    } else {
      EnumAvoids(g, comments, w, b, reference, name, t, t1);
    }
  }

  lemma EnumAvoids(g: Root, comments: Comments, w: set<string>, b: string, reference: string, name: string, t: Tables,
                   t1: Tables)
    requires reference in w && reference != b && reference in g.enums && reference !in g.types
    requires name !in t.definitions && t1.definitions == t.definitions && GrowsHiding(g, comments, w, b, t, t1)
    requires reference in t1.names && t1.names[reference] == name
    ensures var definition := EnumDefinition(comments, g.enums[reference], reference, name);
      GrowsHiding(g, comments, w, b, t, Tables(t1.definitions[name := definition], t1.names[reference := name]))
  {
    var definition := EnumDefinition(comments, g.enums[reference], reference, name);
    assert t1.names[reference := name] == t1.names;
    assert FinishedHiding(g, comments, t1.names, b, reference, name, definition);
    hide GrowsHiding, FinishedHiding;
    GrowsHidingTransitively(g, comments, w, b, t, t1, t1.(definitions := t1.definitions[name := definition]));
  }

  lemma {:induction false} DefineAvoids(g: Root, comments: Comments, w: set<string>, typeName: string, b: string,
                                        refs: set<string>, reference: string, visited: set<string>, t: Tables)
    requires Closed(g, w) && Keyed(g) && SaneNames(t.names)
    requires reference in refs && reference in w && reference in g.types
    requires Hidden(g, typeName, b) && HidesSoFar(g, typeName, b, refs, visited) && reference != b
    requires reference in t.names && t.names[reference] !in t.definitions
    ensures GrowsHiding(g, comments, w, b, t, DefineMessage(g, comments, reference, t.names[reference], visited, t))
    decreases Undefined(g, t), 0, 0
  {
    var m, name := g.types[reference], t.names[reference];
    BeginningShrinks(g, reference, name, t, EMPTY_OBJECT);
    MessageRefsAreRefs(g, m);
    var placeholder := t.(definitions := t.definitions[name := EMPTY_OBJECT]);
    var inner := visited + {reference, ShortName(reference)};
    assert RefsOf(g, reference) == RefsOfMessage(m) && RefsOfMessage(m) <= w;
    HidesFurther(g, typeName, b, refs, visited, reference);
    FieldsAvoid(g, comments, w, typeName, b, m, |m.fields|, inner, placeholder);
    FieldsGrow(g, comments, w, m, |m.fields|, inner, placeholder);
    var (properties, t1) := WalkFields(g, comments, m, |m.fields|, inner, placeholder);
    assert m.fields[..|m.fields|] == m.fields;
    hide GrowsHiding, Mentions, PropertiesTranslated, Hidden, HidesSoFar, Closed, Keyed, WalkFields, SaneNames;
    var definition := MessageDefinition(comments, m, reference, name, properties);
    assert reference in t1.names && t1.names[reference] == name by {
      GrowingKeepsNames(g, comments, w, b, placeholder, t1);
    }
    assert FinishedHiding(g, comments, t1.names, b, reference, name, definition);
    ReplacingGrows(g, comments, w, b, name, t, t1, definition);
  }

  /** Every definition is a finished one, of a reference in `w` other than `b`, and mentions `b` by reference. */
  ghost predicate AllFinishedHiding(g: Root, comments: Comments, w: set<string>, b: string, names: map<string, string>,
                                    d: map<string, Schema>) {
    forall k :: k in d ==> IsFinishedHiding(g, comments, w, b, names, k, d[k])
  }

  /** The walk of the root message leaves a hidden type without a definition, and refers to it by name. */
  lemma RootAvoids(g: Root, comments: Comments, typeName: string, b: string)
    requires typeName != "" && typeName in g.types && Hidden(g, typeName, b) && Keyed(g)
    ensures var (m, r) := (g.types[typeName], Generate(g, comments, typeName));
      var names := FinalNames(g, comments, typeName);
      && AllFinishedHiding(g, comments, Reach(g, typeName), b, names, r.Definitions())
      && r.schema.Object? && Mentions(comments, b, m, |m.fields|, names, r.schema.properties)
  {
    var m := g.types[typeName];
    MessageRefsAreRefs(g, m);
    ReachIsClosed(g, typeName);
    forall x | x in RefsOfMessage(m) ensures Avoiding(g, typeName, b, x) {
      assert AvoidingIn(g, typeName, b, x, 1);
    }
    FieldsAvoid(g, comments, Reach(g, typeName), typeName, b, m, |m.fields|, {}, NO_TABLES);
    hide Reach, Mentions, IsFinishedHiding;
  }

  /** A hidden type has no definition of its own: every definition belongs to another reachable type. */
  lemma HiddenTypeIsNeverDefined(g: Root, comments: Comments, typeName: string, b: string)
    requires Hidden(g, typeName, b) && Keyed(g)
    ensures AllFinished(g, comments, Reach(g, typeName) - {b}, FinalNames(g, comments, typeName),
                        Generate(g, comments, typeName).Definitions())
  {
    var d, names := Generate(g, comments, typeName).Definitions(), FinalNames(g, comments, typeName);
    if typeName != "" && typeName in g.types {
      RootAvoids(g, comments, typeName, b);
      hide Reach, Generate, FinalNames;
    }
  }

  // --- So some reference dangles ---

  /** No two references of `w` can share a definition name; and messages key their fields by name. */
  ghost predicate Separate(g: Root, w: set<string>) {
    Unshared(g, w) && Keyed(g)
  }

  lemma ResolvedFieldIsDefined(comments: Comments, m: Message, f: Field, name: string, d: map<string, Schema>)
    requires RefsResolve(FieldSchema(comments, m, f, Ref(name, None)), d)
    ensures name in d
  {
  }

  /** In a translated message whose properties resolve, the type of each field has a definition. */
  lemma FieldTypesAreDefined(g: Root, comments: Comments, m: Message, names: map<string, string>,
                             properties: map<string, Schema>, d: map<string, Schema>, reference: string)
    requires PropertiesTranslated(g, comments, m, m.fields, names, properties) && KeyedByName(m.fields)
    requires forall k :: k in properties ==> RefsResolve(properties[k], d)
    requires reference in RefsOfMessage(m) && Resolvable(g, reference)
    ensures reference in names && names[reference] in d
  {
    var f :| f in m.fields && !IsScalar(f.ty) && ReferenceOf(m, f) == reference;
    hide FieldSchema, RefsResolve, IsScalar, ReferenceOf, Resolvable;
    assert f.name in properties;
    var e :| e in m.fields && e.name == f.name && FieldTranslated(g, comments, m, e, names, properties[f.name]);
    assert e == f;
    ResolvedFieldIsDefined(comments, m, f, names[reference], d);
  }

  lemma {:induction false} ReachableIsReached(g: Root, typeName: string, x: string, n: nat)
    requires n >= 1 && ReachableIn(g, typeName, x, n)
    ensures x in Reach(g, typeName)
    decreases n
  {
    ReachIsClosed(g, typeName);
    hide Reach;
    if n > 1 {
      var via :| ReachableIn(g, typeName, via, n - 1) && x in RefsOf(g, via);
      ReachableIsReached(g, typeName, via, n - 1);
    }
  }

  /** The root schema lists the fields of its message under the names chosen by the end. */
  lemma RootIsTranslated(g: Root, comments: Comments, typeName: string)
    requires typeName != "" && typeName in g.types
    ensures var (m, s) := (g.types[typeName], Generate(g, comments, typeName).schema);
      s.Object? && PropertiesTranslated(g, comments, m, m.fields, FinalNames(g, comments, typeName), s.properties)
  {
    var m := g.types[typeName];
    MessageRefsAreRefs(g, m);
    ReachIsClosed(g, typeName);
    FieldsGrow(g, comments, Reach(g, typeName), m, |m.fields|, {}, NO_TABLES);
    assert m.fields[..|m.fields|] == m.fields;
  }

  /** With names kept apart, the definition under a type's name is that type's. */
  lemma DefinitionIsOwn(g: Root, comments: Comments, w: set<string>, b: string, names: map<string, string>,
                        d: map<string, Schema>, x: string)
    requires AllFinishedHiding(g, comments, w, b, names, d) && Injective(names) && x in names && names[x] in d
    ensures x in w && x != b && FinishedHiding(g, comments, names, b, x, names[x], d[names[x]])
  {
    var r :| r in w && FinishedHiding(g, comments, names, b, r, names[x], d[names[x]]);
    assert names[r] == names[x];
  }

  /** A schema of the root and definitions in which everything resolves. */
  ghost predicate Complete(g: Root, comments: Comments, typeName: string, names: map<string, string>,
                           s: Schema, d: map<string, Schema>) {
    && typeName != "" && typeName in g.types && s.Object?
    && PropertiesTranslated(g, comments, g.types[typeName], g.types[typeName].fields, names, s.properties)
    && RefsResolve(s, d) && forall k :: k in d ==> RefsResolve(d[k], d)
  }

  lemma TypesOfObjectAreDefined(g: Root, comments: Comments, m: Message, names: map<string, string>, s: Schema,
                                d: map<string, Schema>, reference: string)
    requires s.Object? && PropertiesTranslated(g, comments, m, m.fields, names, s.properties) && RefsResolve(s, d)
    requires KeyedByName(m.fields) && reference in RefsOfMessage(m) && Resolvable(g, reference)
    ensures reference in names && names[reference] in d
  {
    FieldTypesAreDefined(g, comments, m, names, s.properties, d, reference);
  }

  /** If everything resolved, every reachable declared type would have a definition of its own. */
  lemma {:induction false} OwnDefinition(g: Root, comments: Comments, typeName: string, w: set<string>, b: string,
                                         names: map<string, string>, s: Schema, d: map<string, Schema>, x: string,
                                         n: nat)
    requires n >= 1 && ReachableIn(g, typeName, x, n) && Complete(g, comments, typeName, names, s, d)
    requires Keyed(g) && Resolvable(g, x)
    requires AllFinishedHiding(g, comments, w, b, names, d) && Injective(names)
    ensures x in w && x != b && x in names && names[x] in d
    ensures FinishedHiding(g, comments, names, b, x, names[x], d[names[x]])
    decreases n
  {
    hide RefsResolve, Injective, AllFinishedHiding, KeyedByName, PropertiesTranslated, Mentions;
    hide MessageDefinition, EnumDefinition;
    if n == 1 {
      TypesOfObjectAreDefined(g, comments, g.types[typeName], names, s, d, x);
    } else {
      var via :| ReachableIn(g, typeName, via, n - 1) && x in RefsOf(g, via);
      OwnDefinition(g, comments, typeName, w, b, names, s, d, via, n - 1);
      TypesOfObjectAreDefined(g, comments, g.types[via], names, d[names[via]], d, x);
    }
    DefinitionIsOwn(g, comments, w, b, names, d, x);
  }

  /** Where `b` is mentioned, a reference to its name has to resolve. */
  lemma MentionedIsDefined(comments: Comments, b: string, m: Message, names: map<string, string>, s: Schema,
                           d: map<string, Schema>)
    requires b in RefsOfMessage(m) && s.Object? && RefsResolve(s, d)
    requires Mentions(comments, b, m, |m.fields|, names, s.properties)
    ensures b in names && names[b] in d
  {
    var f :| f in m.fields && !IsScalar(f.ty) && ReferenceOf(m, f) == b;
    var i :| 0 <= i < |m.fields| && m.fields[i] == f;
    hide FieldSchema, IsScalar, ReferenceOf;
    assert RefsResolve(s.properties[f.name], d);
    ResolvedFieldIsDefined(comments, m, f, names[b], d);
  }

  /** The holder of a hidden type would need its definition, which there is not. */
  lemma HiddenIsMissing(g: Root, comments: Comments, typeName: string, w: set<string>, b: string,
                        names: map<string, string>, s: Schema, d: map<string, Schema>, n: nat)
    requires n >= 1 && ReachableIn(g, typeName, b, n) && Complete(g, comments, typeName, names, s, d) && Keyed(g)
    requires AllFinishedHiding(g, comments, w, b, names, d)
    requires Mentions(comments, b, g.types[typeName], |g.types[typeName].fields|, names, s.properties)
    ensures !Injective(names)
  {
    if Injective(names) {
      HolderMentions(g, comments, typeName, w, b, names, s, d, n);
    }
  }

  lemma HolderMentions(g: Root, comments: Comments, typeName: string, w: set<string>, b: string,
                       names: map<string, string>, s: Schema, d: map<string, Schema>, n: nat)
    requires n >= 1 && ReachableIn(g, typeName, b, n) && Complete(g, comments, typeName, names, s, d) && Keyed(g)
    requires AllFinishedHiding(g, comments, w, b, names, d) && Injective(names)
    requires Mentions(comments, b, g.types[typeName], |g.types[typeName].fields|, names, s.properties)
    ensures b in names && names[b] in d
  {
    hide RefsResolve, Injective, AllFinishedHiding, PropertiesTranslated, Mentions, MessageDefinition, EnumDefinition;
    if n == 1 {
      MentionedIsDefined(comments, b, g.types[typeName], names, s, d);
    } else {
      var via :| ReachableIn(g, typeName, via, n - 1) && b in RefsOf(g, via);
      OwnDefinition(g, comments, typeName, w, b, names, s, d, via, n - 1);
      MentionedIsDefined(comments, b, g.types[via], names, d[names[via]], d);
    }
  }

  /**
   * Where no two reachable references can share a definition name, one that is reached but hidden,
   * declared or not, leaves a reference dangling.
   */
  lemma HiddenTypeDangles(g: Root, comments: Comments, typeName: string, b: string)
    requires b in Reach(g, typeName) && Hidden(g, typeName, b) && Separate(g, Reach(g, typeName))
    ensures !AllResolve(g, comments, typeName)
  {
    if typeName == "" || typeName !in g.types {
      NothingReachable(g, typeName);
    } else if AllResolve(g, comments, typeName) {
      var n: nat :| n >= 1 && ReachableIn(g, typeName, b, n);
      RootAvoids(g, comments, typeName, b);
      RootIsTranslated(g, comments, typeName);
      FinalNamesApart(g, comments, typeName);
      hide Reach, Generate, FinalNames, RefsResolve, Mentions, PropertiesTranslated, AllFinishedHiding, Apart, Unshared;
      var r := Generate(g, comments, typeName);
      HiddenIsMissing(g, comments, typeName, Reach(g, typeName), b, FinalNames(g, comments, typeName),
                      r.schema, r.Definitions(), n);
    }
  }

  // --- Exactly when references resolve ---

  /** A root message that refers to `a` and nothing else, as a request wrapping one type does. */
  ghost predicate Wraps(g: Root, typeName: string, a: string) {
    TopRefs(g, typeName) == {a}
  }

  lemma {:induction false} BelowIsReached(g: Root, typeName: string, a: string, b: string, n: nat)
    requires Wraps(g, typeName, a) && n >= 1 && BelowIn(g, a, b, n)
    ensures ReachableIn(g, typeName, b, n + 1)
    decreases n
  {
    if n == 1 {
      assert ReachableIn(g, typeName, a, 1);
    } else {
      var via :| BelowIn(g, a, via, n - 1) && b in RefsOf(g, via);
      BelowIsReached(g, typeName, a, via, n - 1);
      assert ReachableIn(g, typeName, via, n);
    }
  }

  lemma {:induction false} ReachedIsInside(g: Root, w: set<string>, typeName: string, x: string, n: nat)
    requires TopRefs(g, typeName) <= w && Closed(g, w) && n >= 1 && ReachableIn(g, typeName, x, n)
    ensures x in w
    decreases n
  {
    if n > 1 {
      var via :| ReachableIn(g, typeName, via, n - 1) && x in RefsOf(g, via);
      ReachedIsInside(g, w, typeName, via, n - 1);
    }
  }

  lemma {:induction false} OnlyTheWrapped(g: Root, typeName: string, a: string, b: string, x: string, n: nat)
    requires Wraps(g, typeName, a) && Namesakes(a, b) && n >= 1 && AvoidingIn(g, typeName, b, x, n)
    ensures x == a
    decreases n
  {
    if n > 1 {
      var via :| AvoidingIn(g, typeName, b, via, n - 1) && !Namesakes(via, b) && x in RefsOf(g, via);
      OnlyTheWrapped(g, typeName, a, b, via, n - 1);
    }
  }

  /** Wrapping a type with a namesake below it leaves a reference dangling. */
  lemma WrappedNamesakeDangles(g: Root, comments: Comments, typeName: string, a: string, b: string)
    requires Wraps(g, typeName, a) && Below(g, a, b) && Namesakes(a, b) && Separate(g, Reach(g, typeName))
    ensures b in Reach(g, typeName) && Hidden(g, typeName, b)
    ensures !AllResolve(g, comments, typeName)
  {
    hide AllResolve, Separate, Reach, RefsOf, ShortName;
    var n: nat :| n >= 1 && BelowIn(g, a, b, n);
    BelowIsReached(g, typeName, a, b, n);
    ReachableIsReached(g, typeName, b, n + 1);
    forall k: nat | k >= 1 && AvoidingIn(g, typeName, b, b, k) ensures false {
      OnlyTheWrapped(g, typeName, a, b, b, k);
    }
    HiddenTypeDangles(g, comments, typeName, b);
  }

  // --- Every type wrapped in a request of its own ---

  /** The graph with one more message, `request`, whose only field holds `a`. */
  function WithRequest(g: Root, request: string, a: string): Root {
    g.(types := g.types[request := Request(request, a)])
  }

  function Request(request: string, a: string): Message {
    Message(request, request,
            [Field("value", if a == "" then "" else "?", 1, false, None, None,
                   if a == "" then None else Some("." + a))],
            [], [])
  }

  /** A name that nothing refers to. */
  predicate Fresh(g: Root, request: string) {
    request != "" && request !in g.types && request !in AllRefs(g)
  }

  lemma RequestHolds(request: string, a: string)
    ensures RefsOfMessage(Request(request, a)) == {a} && KeyedByName(Request(request, a).fields)
  {
    var m := Request(request, a);
    QuestionIsNotScalar();
    hide IsScalar;
    assert ("." + a)[1..] == a;
    assert ReferenceOf(m, m.fields[0]) == a;
    assert m.fields[0] in m.fields;
  }

  lemma QuestionIsNotScalar()
    ensures !IsScalar("?") && !IsScalar("")
  {
  }

  /** Adding the request changes no edge of the graph. */
  lemma RequestAddsNoEdge(g: Root, request: string, a: string)
    requires Fresh(g, request)
    ensures var g' := WithRequest(g, request, a);
      && (forall r :: r != request ==> RefsOf(g', r) == RefsOf(g, r))
      && RefsOf(g', request) == {a} && Wraps(g', request, a)
      && AllRefs(g') == AllRefs(g) + {a}
  {
    RequestHolds(request, a);
    var g' := WithRequest(g, request, a);
    hide RefsOfMessage, Request;
    forall x
      ensures x in AllRefs(g') <==> x in AllRefs(g) || x == a
    {
      if x in AllRefs(g) {
        var t :| t in g.types && x in RefsOf(g, t);
        assert t in g'.types && x in RefsOf(g', t);
      }
      if x == a {
        assert request in g'.types && x in RefsOf(g', request);
      }
      if x in AllRefs(g') {
        var t :| t in g'.types && x in RefsOf(g', t);
        assert t != request ==> t in g.types && x in RefsOf(g, t);
      }
    }
  }

  lemma {:induction false} BelowIsReferredTo(g: Root, x: string, y: string, n: nat)
    requires n >= 1 && BelowIn(g, x, y, n)
    ensures y in AllRefs(g)
  {
    var via := if n == 1 then x else var v :| BelowIn(g, x, v, n - 1) && y in RefsOf(g, v); v;
    assert y in RefsOf(g, via);
  }

  /** Two graphs with the same edges but for those of one message that nothing refers to. */
  lemma {:induction false} BelowIsTheSame(g: Root, g': Root, request: string, x: string, y: string, n: nat)
    requires request !in AllRefs(g) && x != request && n >= 1
    requires forall r :: r != request ==> RefsOf(g', r) == RefsOf(g, r)
    ensures BelowIn(g', x, y, n) <==> BelowIn(g, x, y, n)
    decreases n
  {
    hide RefsOf, AllRefs;
    if n > 1 {
      var k: nat := n - 1;
      forall via
        ensures BelowIn(g', x, via, k) <==> BelowIn(g, x, via, k)
        ensures BelowIn(g, x, via, k) ==> via != request
      {
        BelowIsTheSame(g, g', request, x, via, k);
        if BelowIn(g, x, via, k) {
          BelowIsReferredTo(g, x, via, k);
        }
      }
    }
  }

  /** Namesakes are below one another in the graph with the request as they are without it. */
  lemma NamesakesAreTheSame(g: Root, w: set<string>, request: string, a: string)
    requires Fresh(g, request) && Closed(g, w) && a in w
    ensures NoNamesakeBelow(WithRequest(g, request, a), w) <==> NoNamesakeBelow(g, w)
    ensures forall x, y :: x in w ==> (Below(WithRequest(g, request, a), x, y) <==> Below(g, x, y))
  {
    var g' := WithRequest(g, request, a);
    RequestAddsNoEdge(g, request, a);
    hide WithRequest, RefsOf, Namesakes;
    forall x, y | x in w
      ensures Below(g', x, y) <==> Below(g, x, y)
    {
      forall n: nat | n >= 1
        ensures BelowIn(g', x, y, n) <==> BelowIn(g, x, y, n)
      {
        BelowIsTheSame(g, g', request, x, y, n);
      }
    }
  }

  /** What a request reaches stays within a closed set that holds its type. */
  lemma RequestStaysInside(g: Root, w: set<string>, request: string, a: string)
    requires Fresh(g, request) && Closed(g, w) && a in w && Separate(g, w)
    ensures var g' := WithRequest(g, request, a);
      Wraps(g', request, a) && Reach(g', request) <= w && Separate(g', Reach(g', request))
  {
    var g' := WithRequest(g, request, a);
    RequestAddsNoEdge(g, request, a);
    RequestHolds(request, a);
    assert Closed(g', w);
    ReachInside(g', w, request);
    hide Reach, RefsOf, AllRefs;
    assert Unshared(g', w) by {
      forall x, y | x in w && y in w && x != y ensures !MayShare(g', x, y) {
        assert MayShare(g', x, y) == MayShare(g, x, y);
      }
    }
    assert Keyed(g');
  }

  lemma ReachInside(g: Root, w: set<string>, typeName: string)
    requires TopRefs(g, typeName) <= w && Closed(g, w)
    ensures Reach(g, typeName) <= w
  {
    forall x | x in Reach(g, typeName) ensures x in w {
      var n: nat :| n >= 1 && ReachableIn(g, typeName, x, n);
      ReachedIsInside(g, w, typeName, x, n);
    }
  }

  /**
   * Where no two types can share a definition name: the schemas of requests, each of which holds one
   * type of the graph, have only references that resolve if and only if no type has a namesake below it.
   */
  lemma ReferencesResolveExactly(g: Root, comments: Comments, w: set<string>, request: string)
    requires Closed(g, w) && Separate(g, w) && Fresh(g, request)
    ensures (forall a :: a in w ==> AllResolve(WithRequest(g, request, a), comments, request))
        <==> NoNamesakeBelow(g, w)
  {
    hide Reach, AllResolve, Closed, Separate, Below, WithRequest;
    if NoNamesakeBelow(g, w) {
      forall a | a in w
        ensures AllResolve(WithRequest(g, request, a), comments, request)
      {
        var g' := WithRequest(g, request, a);
        RequestStaysInside(g, w, request, a);
        NamesakesAreTheSame(g, w, request, a);
        assert NoNamesakeBelow(g', Reach(g', request));
        EveryReferenceResolves(g', comments, request);
      }
    } else {
      var a, b :| a in w && b in w && Below(g, a, b) && Namesakes(a, b);
      var g' := WithRequest(g, request, a);
      RequestStaysInside(g, w, request, a);
      NamesakesAreTheSame(g, w, request, a);
      WrappedNamesakeDangles(g', comments, request, a, b);
    }
  }
}
