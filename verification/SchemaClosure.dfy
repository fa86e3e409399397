/**
 * When references resolve: a namesake above a type is all that can keep it from being defined.
 * `visited` holds the short names of the types being walked, so it hides a type below a namesake.
 */
module SchemaClosure {
  import opened Dotted
  import opened ProtoTypes
  import opened JsonSchema
  import opened SchemaWalk
  import opened SchemaTheorems

  // --- Namesakes ---

  /** `visited` cannot tell `a` from `b`. */
  predicate Namesakes(a: string, b: string) {
    a != b && ShortName(a) == ShortName(b)
  }

  /** `b` is reached from reference `a` over exactly `n` field edges. */
  ghost predicate BelowIn(g: Root, a: string, b: string, n: nat)
    requires n >= 1
    decreases n
  {
    if n == 1 then b in RefsOf(g, a)
    else exists via :: BelowIn(g, a, via, n - 1) && b in RefsOf(g, via)
  }

  ghost predicate Below(g: Root, a: string, b: string) {
    exists n: nat :: n >= 1 && BelowIn(g, a, b, n)
  }

  /** No type of `w` has a namesake below it. Namesakes side by side are allowed. */
  ghost predicate NoNamesakeBelow(g: Root, w: set<string>) {
    forall a, b :: a in w && b in w && Below(g, a, b) ==> !Namesakes(a, b)
  }

  lemma BelowNext(g: Root, a: string, via: string, b: string)
    requires Below(g, a, via) && b in RefsOf(g, via)
    ensures Below(g, a, b)
  {
    var n: nat :| n >= 1 && BelowIn(g, a, via, n);
    assert BelowIn(g, a, b, n + 1);
  }

  lemma BelowOnce(g: Root, a: string, b: string)
    requires b in RefsOf(g, a)
    ensures Below(g, a, b)
  {
    assert BelowIn(g, a, b, 1);
  }

  lemma ShortNameTwice(s: string)
    ensures ShortName(ShortName(s)) == ShortName(s)
  {
    LastComponentHasNoDot(s);
    SplitOfComponent(LastComponent(s));
  }

  // --- Schemas whose references resolve ---

  predicate RefsResolve(s: Schema, definitions: map<string, Schema>) {
    match s
    case Ref(d, _) => d in definitions
    case ArrayOf(items, _) => RefsResolve(items, definitions)
    case Primitive(_, _, _, _, _) => true
    case Object(properties, _, _, _) => forall k :: k in properties ==> RefsResolve(properties[k], definitions)
    case MapOf(values, _) => RefsResolve(values, definitions)
  }

  lemma {:induction false} StillResolve(s: Schema, d: map<string, Schema>, d': map<string, Schema>)
    requires RefsResolve(s, d) && d.Keys <= d'.Keys
    ensures RefsResolve(s, d')
  {
    match s
    case Ref(_, _) =>
    case Primitive(_, _, _, _, _) =>
    case ArrayOf(items, _) => StillResolve(items, d, d');
    case MapOf(values, _) => StillResolve(values, d, d');
    case Object(properties, _, _, _) =>
      forall k | k in properties ensures RefsResolve(properties[k], d') {
        StillResolve(properties[k], d, d');
      }
  }

  /** A schema that holds no references. */
  predicate ReferenceFree(s: Schema) {
    match s
    case Ref(_, _) => false
    case ArrayOf(items, _) => ReferenceFree(items)
    case Primitive(_, _, _, _, _) => true
    case Object(properties, _, _, _) => forall k :: k in properties ==> ReferenceFree(properties[k])
    case MapOf(values, _) => ReferenceFree(values)
  }

  lemma FallbackHasNoReferences(reference: string)
    ensures ReferenceFree(Fallback(reference))
  {
    hide WellKnownSchema;
  }

  lemma ScalarHasNoReferences(ty: string)
    requires IsScalar(ty)
    ensures ReferenceFree(ScalarSchema(ty).value)
  {
  }

  lemma {:induction false} ReferenceFreeResolves(s: Schema, d: map<string, Schema>)
    requires ReferenceFree(s)
    ensures RefsResolve(s, d)
  {
    match s
    case Ref(_, _) =>
    case Primitive(_, _, _, _, _) =>
    case ArrayOf(items, _) => ReferenceFreeResolves(items, d);
    case MapOf(values, _) => ReferenceFreeResolves(values, d);
    case Object(properties, _, _, _) =>
      forall k | k in properties ensures RefsResolve(properties[k], d) {
        ReferenceFreeResolves(properties[k], d);
      }
  }

  lemma FieldResolves(comments: Comments, m: Message, f: Field, leaf: Schema, d: map<string, Schema>)
    requires RefsResolve(leaf, d)
    ensures RefsResolve(FieldSchema(comments, m, f, leaf), d)
  {
    var comment := FieldComment(comments, f.name, m.name);
  }

  // --- Namesakes never below: everything resolves ---

  /** Everything visited stands for a begun type above all of `refs`. */
  ghost predicate PathBegun(g: Root, w: set<string>, refs: set<string>, visited: set<string>, t: Tables) {
    forall v :: v in visited ==> exists a :: OnPath(g, w, refs, t, a) && (v == a || v == ShortName(a))
  }

  ghost predicate OnPath(g: Root, w: set<string>, refs: set<string>, t: Tables, a: string) {
    a in w && a in t.names && t.names[a] in t.definitions && forall b :: b in refs ==> Below(g, a, b)
  }

  /** Nothing chosen or begun is lost, and the references of every new definition resolve. */
  ghost predicate AddsResolved(before: Tables, after: Tables) {
    && before.definitions.Keys <= after.definitions.Keys
    && (forall r :: r in before.names ==> r in after.names && after.names[r] == before.names[r])
    && (forall k :: k in after.definitions && k !in before.definitions ==>
          RefsResolve(after.definitions[k], after.definitions))
    && (forall k :: k in before.definitions ==> after.definitions[k] == before.definitions[k])
  }

  lemma AddsTransitively(a: Tables, b: Tables, c: Tables)
    requires AddsResolved(a, b) && AddsResolved(b, c)
    ensures AddsResolved(a, c)
  {
    forall k | k in c.definitions && k !in a.definitions
      ensures RefsResolve(c.definitions[k], c.definitions)
    {
      if k in b.definitions {
        StillResolve(b.definitions[k], b.definitions, c.definitions);
      }
    }
  }

  lemma PathStaysBegun(g: Root, w: set<string>, refs: set<string>, visited: set<string>, t: Tables, t': Tables)
    requires PathBegun(g, w, refs, visited, t) && AddsResolved(t, t')
    ensures PathBegun(g, w, refs, visited, t')
  {
    forall v | v in visited
      ensures exists a :: OnPath(g, w, refs, t', a) && (v == a || v == ShortName(a))
    {
      var a :| OnPath(g, w, refs, t, a) && (v == a || v == ShortName(a));
      assert OnPath(g, w, refs, t', a);
    }
  }

  /** A type found visited is itself on the path, so its definition is begun. */
  lemma VisitedIsBegun(g: Root, w: set<string>, refs: set<string>, visited: set<string>, t: Tables, reference: string)
    requires NoNamesakeBelow(g, w) && PathBegun(g, w, refs, visited, t) && SaneNames(t.names)
    requires reference in refs && reference in w && (reference in visited || ShortName(reference) in visited)
    ensures DefinitionName(g, reference, t.names) in t.definitions
  {
    var v := if reference in visited then reference else ShortName(reference);
    var a :| OnPath(g, w, refs, t, a) && (v == a || v == ShortName(a));
    ShortNameTwice(a);
    ShortNameTwice(reference);
    assert a == reference;
    NamingKeepsNames(g, reference, t.names);
  }

  /** The path grows by the message whose placeholder was just written. */
  lemma PathGrows(g: Root, w: set<string>, refs: set<string>, visited: set<string>, t: Tables, reference: string)
    requires PathBegun(g, w, refs, visited, t) && reference in refs && reference in w && reference in t.names
    ensures var name := t.names[reference];
      PathBegun(g, w, RefsOf(g, reference), visited + {reference, ShortName(reference)},
                t.(definitions := t.definitions[name := EMPTY_OBJECT]))
  {
    var t' := t.(definitions := t.definitions[t.names[reference] := EMPTY_OBJECT]);
    var inner := RefsOf(g, reference);
    forall v | v in visited + {reference, ShortName(reference)}
      ensures exists a :: OnPath(g, w, inner, t', a) && (v == a || v == ShortName(a))
    {
      if v in visited {
        var a :| OnPath(g, w, refs, t, a) && (v == a || v == ShortName(a));
        forall b | b in inner ensures Below(g, a, b) {
          BelowNext(g, a, reference, b);
        }
        assert OnPath(g, w, inner, t', a);
      } else {
        forall b | b in inner ensures Below(g, reference, b) {
          BelowOnce(g, reference, b);
        }
        assert OnPath(g, w, inner, t', reference);
      }
    }
  }

  /** Everything that the walk of the first `n` fields adds resolves, and so do the properties it gives. */
  ghost predicate FieldsResolved(g: Root, comments: Comments, m: Message, n: nat, visited: set<string>, t: Tables)
    requires n <= |m.fields| && RefsOfMessage(m) <= AllRefs(g) && SaneNames(t.names)
  {
    var (properties, t') := WalkFields(g, comments, m, n, visited, t);
    AddsResolved(t, t') && forall k :: k in properties ==> RefsResolve(properties[k], t'.definitions)
  }

  lemma {:induction false} FieldsResolve(g: Root, comments: Comments, w: set<string>, m: Message, n: nat,
                                         visited: set<string>, t: Tables)
    requires n <= |m.fields| && RefsOfMessage(m) <= AllRefs(g) && SaneNames(t.names)
    requires Closed(g, w) && RefsOfMessage(m) <= w
    requires NoNamesakeBelow(g, w) && PathBegun(g, w, RefsOfMessage(m), visited, t)
    ensures FieldsResolved(g, comments, m, n, visited, t)
    decreases Undefined(g, t), 2, n
  {
    hide FieldsResolved, NoNamesakeBelow, PathBegun, RefsOfMessage, SaneNames, AllRefs, Closed, Undefined;
    if n == 0 {
      NothingResolves(g, comments, m, visited, t);
    } else {
      FieldsResolve(g, comments, w, m, n - 1, visited, t);
      UndefinedShrinks(g, t, WalkFields(g, comments, m, n - 1, visited, t).1);
      OneMoreFieldResolves(g, comments, w, m, n, visited, t);
    }
  }

  lemma NothingResolves(g: Root, comments: Comments, m: Message, visited: set<string>, t: Tables)
    requires RefsOfMessage(m) <= AllRefs(g) && SaneNames(t.names)
    ensures FieldsResolved(g, comments, m, 0, visited, t)
  {
  }

  /** The step from `n - 1` fields to `n` fields. */
  lemma {:induction false} OneMoreFieldResolves(g: Root, comments: Comments, w: set<string>, m: Message, n: nat,
                                                visited: set<string>, t: Tables)
    requires 0 < n <= |m.fields| && RefsOfMessage(m) <= AllRefs(g) && SaneNames(t.names)
    requires Closed(g, w) && RefsOfMessage(m) <= w
    requires NoNamesakeBelow(g, w) && PathBegun(g, w, RefsOfMessage(m), visited, t)
    requires FieldsResolved(g, comments, m, n - 1, visited, t)
    ensures FieldsResolved(g, comments, m, n, visited, t)
    decreases Undefined(g, WalkFields(g, comments, m, n - 1, visited, t).1), 1, 1
  {
    hide NoNamesakeBelow, PathBegun, RefsOfMessage, SaneNames, AllRefs, Closed, Undefined;
    hide WalkFields, WalkField, AddsResolved, RefsResolve, FieldSchema;
    var f := m.fields[n - 1];
    var (properties, t1) := WalkFields(g, comments, m, n - 1, visited, t);
    PathStaysBegun(g, w, RefsOfMessage(m), visited, t, t1);
    FieldTypeResolves(g, comments, w, m, f, visited, t1);
    var (leaf, t2) := WalkField(g, comments, m, f, visited, t1);
    AddsTransitively(t, t1, t2);
    FieldResolves(comments, m, f, leaf, t2.definitions);
    AddingKeepsKeys(t1, t2);
    PropertiesStillResolve(properties, t1.definitions, t2.definitions);
    WalkUnfolds(g, comments, m, n, visited, t);
  }

  lemma AddingKeepsKeys(t: Tables, t': Tables)
    requires AddsResolved(t, t')
    ensures t.definitions.Keys <= t'.definitions.Keys
  {
  }

  lemma PropertiesStillResolve(properties: map<string, Schema>, d: map<string, Schema>, d': map<string, Schema>)
    requires d.Keys <= d'.Keys && forall k :: k in properties ==> RefsResolve(properties[k], d)
    ensures forall k :: k in properties ==> RefsResolve(properties[k], d')
  {
    forall k | k in properties ensures RefsResolve(properties[k], d') {
      StillResolve(properties[k], d, d');
    }
  }

  lemma {:induction false} FieldTypeResolves(g: Root, comments: Comments, w: set<string>, m: Message, f: Field,
                                             visited: set<string>, t: Tables)
    requires f in m.fields && Closed(g, w) && RefsOfMessage(m) <= w && SaneNames(t.names)
    requires NoNamesakeBelow(g, w) && PathBegun(g, w, RefsOfMessage(m), visited, t)
    ensures var (leaf, t') := WalkField(g, comments, m, f, visited, t);
      AddsResolved(t, t') && RefsResolve(leaf, t'.definitions)
    decreases Undefined(g, t), 1, 0
  {
    if IsScalar(f.ty) {
      ScalarHasNoReferences(f.ty);
      ReferenceFreeResolves(ScalarSchema(f.ty).value, t.definitions);
    } else {
      assert ReferenceOf(m, f) in RefsOfMessage(m);
      ReferenceResolves(g, comments, w, RefsOfMessage(m), ReferenceOf(m, f), visited, t);
    }
  }

  ghost predicate ReferenceResolved(g: Root, comments: Comments, reference: string, visited: set<string>, t: Tables)
    requires reference in AllRefs(g) && SaneNames(t.names)
  {
    var (leaf, t') := Resolve(g, comments, reference, visited, t);
    AddsResolved(t, t') && RefsResolve(leaf, t'.definitions)
  }

  lemma {:induction false} ReferenceResolves(g: Root, comments: Comments, w: set<string>, refs: set<string>,
                                             reference: string,
                                             visited: set<string>, t: Tables)
    requires Closed(g, w) && reference in refs && reference in w && SaneNames(t.names)
    requires NoNamesakeBelow(g, w) && PathBegun(g, w, refs, visited, t)
    ensures ReferenceResolved(g, comments, reference, visited, t)
    decreases Undefined(g, t), 0, 1
  {
    NamingKeepsNames(g, reference, t.names);
    var name := DefinitionName(g, reference, t.names);
    var t1 := t.(names := NameReference(g, reference, t.names));
    NamingAdds(g, reference, t);
    hide NoNamesakeBelow, PathBegun, AddsResolved, DefinitionName;
    hide NameReference, DefineMessage, EnumDefinition, SaneNames;
    if reference in visited || ShortName(reference) in visited {
      VisitedIsBegun(g, w, refs, visited, t, reference);
    }
    if name in t.definitions {
    } else if reference in g.types {
      PathStaysBegun(g, w, refs, visited, t, t1);
      DefinedResolves(g, comments, w, refs, reference, visited, t1);
      AddsTransitively(t, t1, DefineMessage(g, comments, reference, name, visited, t1));
    } else if reference in g.enums {
      EnumAdds(comments, g.enums[reference], reference, name, t1);
      AddsTransitively(t, t1, Resolve(g, comments, reference, visited, t).1);
    } else {
      FallbackHasNoReferences(reference);
      ReferenceFreeResolves(Fallback(reference), t1.definitions);
    }
  }

  lemma NamingAdds(g: Root, reference: string, t: Tables)
    requires SaneNames(t.names)
    ensures AddsResolved(t, t.(names := NameReference(g, reference, t.names)))
  {
    NamingKeepsNames(g, reference, t.names);
  }

  lemma EnumAdds(comments: Comments, e: Enum, reference: string, name: string, t: Tables)
    requires reference in t.names && t.names[reference] == name && name !in t.definitions
    ensures AddsResolved(t, Tables(t.definitions[name := EnumDefinition(comments, e, reference, name)],
                                   t.names[reference := name]))
  {
    assert t.names[reference := name] == t.names;
  }

  lemma {:induction false} DefinedResolves(g: Root, comments: Comments, w: set<string>, refs: set<string>,
                                           reference: string,
                                           visited: set<string>, t: Tables)
    requires Closed(g, w) && reference in refs && reference in w && reference in g.types && SaneNames(t.names)
    requires NoNamesakeBelow(g, w) && PathBegun(g, w, refs, visited, t)
    requires reference in t.names && t.names[reference] !in t.definitions
    ensures var t' := DefineMessage(g, comments, reference, t.names[reference], visited, t);
      AddsResolved(t, t') && t.names[reference] in t'.definitions
    decreases Undefined(g, t), 0, 0
  {
    var name, m := t.names[reference], g.types[reference];
    BeginningShrinks(g, reference, name, t, EMPTY_OBJECT);
    MessageRefsAreRefs(g, m);
    var placeholder := t.(definitions := t.definitions[name := EMPTY_OBJECT]);
    var inner := visited + {reference, ShortName(reference)};
    assert RefsOf(g, reference) == RefsOfMessage(m) && RefsOfMessage(m) <= w;
    PathGrows(g, w, refs, visited, t, reference);
    FieldsResolve(g, comments, w, m, |m.fields|, inner, placeholder);
    var (properties, t1) := WalkFields(g, comments, m, |m.fields|, inner, placeholder);
    ReplacingPlaceholderResolves(name, t, t1, MessageDefinition(comments, m, reference, name, properties));
  }

  lemma ReplacingPlaceholderResolves(name: string, t: Tables, t1: Tables, definition: Schema)
    requires name !in t.definitions && AddsResolved(t.(definitions := t.definitions[name := EMPTY_OBJECT]), t1)
    requires RefsResolve(definition, t1.definitions)
    ensures AddsResolved(t, t1.(definitions := t1.definitions[name := definition]))
  {
    var t2 := t1.(definitions := t1.definitions[name := definition]);
    forall k | k in t2.definitions && k !in t.definitions
      ensures RefsResolve(t2.definitions[k], t2.definitions)
    {
      if k != name {
        assert k !in t.definitions[name := EMPTY_OBJECT];
      }
      StillResolve(t2.definitions[k], t1.definitions, t2.definitions);
    }
  }

  /** Every reference in the generated schema and in its definitions has a definition. */
  ghost predicate AllResolve(g: Root, comments: Comments, typeName: string) {
    var r := Generate(g, comments, typeName);
    && RefsResolve(r.schema, r.Definitions())
    && forall k :: k in r.Definitions() ==> RefsResolve(r.Definitions()[k], r.Definitions())
  }

  /**
   * If no reachable type has a namesake below it, every reference resolves. Namesakes that do not
   * contain one another do no harm.
   */
  lemma EveryReferenceResolves(g: Root, comments: Comments, typeName: string)
    requires NoNamesakeBelow(g, Reach(g, typeName))
    ensures AllResolve(g, comments, typeName)
  {
    if typeName != "" && typeName in g.types {
      var m := g.types[typeName];
      MessageRefsAreRefs(g, m);
      ReachIsClosed(g, typeName);
      FieldsResolve(g, comments, Reach(g, typeName), m, |m.fields|, {}, NO_TABLES);
    }
  }
}
