/**
 * What the generated schemas are: complete for every type graph, and exact when reachable
 * references can be told apart by their last component.
 */
module SchemaTheorems {
  import opened Wrappers
  import opened Dotted
  import opened ProtoTypes
  import opened JsonSchema
  import opened SchemaWalk

  // --- Reachability ---

  /** The references held by the root message itself. */
  function TopRefs(g: Root, typeName: string): set<string> {
    if typeName == "" then {} else RefsOf(g, typeName)
  }

  /** `reference` is reached from message `typeName` over exactly `n` field edges. */
  ghost predicate ReachableIn(g: Root, typeName: string, reference: string, n: nat)
    requires n >= 1
    decreases n
  {
    if n == 1 then reference in TopRefs(g, typeName)
    else exists via :: ReachableIn(g, typeName, via, n - 1) && reference in RefsOf(g, via)
  }

  ghost predicate Reachable(g: Root, typeName: string, reference: string) {
    exists n: nat :: n >= 1 && ReachableIn(g, typeName, reference, n)
  }

  /** The references reachable from message `typeName` over one or more field edges. */
  ghost function Reach(g: Root, typeName: string): set<string> {
    set r | r in AllRefs(g) && Reachable(g, typeName, r)
  }

  ghost predicate Closed(g: Root, w: set<string>) {
    && w <= AllRefs(g)
    && forall r :: r in w ==> RefsOf(g, r) <= w
  }

  lemma ReachIsClosed(g: Root, typeName: string)
    ensures Closed(g, Reach(g, typeName))
    ensures TopRefs(g, typeName) <= Reach(g, typeName)
  {
    forall r, s | r in Reach(g, typeName) && s in RefsOf(g, r)
      ensures s in Reach(g, typeName)
    {
      var n: nat :| n >= 1 && ReachableIn(g, typeName, r, n);
      assert ReachableIn(g, typeName, s, n + 1);
    }
    forall s | s in TopRefs(g, typeName)
      ensures s in Reach(g, typeName)
    {
      assert ReachableIn(g, typeName, s, 1);
    }
  }

  // --- Completeness, for every graph ---

  /** `s` is what field `f` turns into once every reference has the name recorded in `names`. */
  ghost predicate FieldTranslated(g: Root, comments: Comments, m: Message, f: Field,
                                  names: map<string, string>, s: Schema) {
    var reference := ReferenceOf(m, f);
    if IsScalar(f.ty) then s == FieldSchema(comments, m, f, ScalarSchema(f.ty).value)
    else
      && reference in names
      && (|| s == FieldSchema(comments, m, f, Ref(names[reference], None))
          || (!Resolvable(g, reference) && s == FieldSchema(comments, m, f, Fallback(reference))))
  }

  ghost predicate PropertiesTranslated(g: Root, comments: Comments, m: Message, fields: seq<Field>,
                                       names: map<string, string>, properties: map<string, Schema>) {
    && properties.Keys == (set f | f in fields :: f.name)
    && forall k :: k in properties ==>
         exists f :: f in fields && f.name == k && FieldTranslated(g, comments, m, f, names, properties[k])
  }

  /** `s` is a finished definition of `reference`: a placeholder never is. */
  ghost predicate Finished(g: Root, comments: Comments, names: map<string, string>,
                           reference: string, name: string, s: Schema) {
    && reference in names && names[reference] == name
    && if reference in g.types then
         var m := g.types[reference];
         && s.Object?
         && PropertiesTranslated(g, comments, m, m.fields, names, s.properties)
         && s == MessageDefinition(comments, m, reference, name, s.properties)
       else
         reference in g.enums && s == EnumDefinition(comments, g.enums[reference], reference, name)
  }

  ghost predicate IsFinished(g: Root, comments: Comments, w: set<string>, names: map<string, string>,
                             name: string, s: Schema) {
    exists r :: r in w && Finished(g, comments, names, r, name, s)
  }

  /** How one walk changes the tables: nothing begun before is touched, all that is new is finished. */
  ghost predicate Grows(g: Root, comments: Comments, w: set<string>, before: Tables, after: Tables) {
    && (forall k :: k in before.definitions ==>
          k in after.definitions && after.definitions[k] == before.definitions[k])
    && (forall r :: r in before.names ==> r in after.names && after.names[r] == before.names[r])
    && (forall k :: k in after.definitions && k !in before.definitions ==>
          IsFinished(g, comments, w, after.names, k, after.definitions[k]))
  }

  lemma TranslatedStays(g: Root, comments: Comments, m: Message, fields: seq<Field>,
                        names: map<string, string>, more: map<string, string>, properties: map<string, Schema>)
    requires PropertiesTranslated(g, comments, m, fields, names, properties)
    requires forall r :: r in names ==> r in more && more[r] == names[r]
    ensures PropertiesTranslated(g, comments, m, fields, more, properties)
  {
    forall k | k in properties
      ensures exists f :: f in fields && f.name == k && FieldTranslated(g, comments, m, f, more, properties[k])
    {
      var f :| f in fields && f.name == k && FieldTranslated(g, comments, m, f, names, properties[k]);
      assert FieldTranslated(g, comments, m, f, more, properties[k]);
    }
  }

  lemma FinishedStays(g: Root, comments: Comments, names: map<string, string>, more: map<string, string>,
                      reference: string, name: string, s: Schema)
    requires Finished(g, comments, names, reference, name, s)
    requires forall r :: r in names ==> r in more && more[r] == names[r]
    ensures Finished(g, comments, more, reference, name, s)
  {
    if reference in g.types {
      var m := g.types[reference];
      TranslatedStays(g, comments, m, m.fields, names, more, s.properties);
    }
  }

  lemma GrowsTransitively(g: Root, comments: Comments, w: set<string>, a: Tables, b: Tables, c: Tables)
    requires Grows(g, comments, w, a, b) && Grows(g, comments, w, b, c)
    ensures Grows(g, comments, w, a, c)
  {
    forall k | k in c.definitions && k !in a.definitions
      ensures IsFinished(g, comments, w, c.names, k, c.definitions[k])
    {
      if k in b.definitions {
        var r :| r in w && Finished(g, comments, b.names, r, k, b.definitions[k]);
        FinishedStays(g, comments, b.names, c.names, r, k, c.definitions[k]);
      }
    }
  }

  lemma {:induction false} FieldsGrow(g: Root, comments: Comments, w: set<string>, m: Message, n: nat,
                                      visited: set<string>, t: Tables)
    requires n <= |m.fields| && Closed(g, w) && RefsOfMessage(m) <= w && SaneNames(t.names)
    ensures var (properties, t') := WalkFields(g, comments, m, n, visited, t);
      && Grows(g, comments, w, t, t')
      && PropertiesTranslated(g, comments, m, m.fields[..n], t'.names, properties)
    decreases Undefined(g, t), 2, n
  {
    if n > 0 {
      FieldsGrow(g, comments, w, m, n - 1, visited, t);
      var (properties, t1) := WalkFields(g, comments, m, n - 1, visited, t);
      var f := m.fields[n - 1];
      FieldGrows(g, comments, w, m, f, visited, t1);
      var (leaf, t2) := WalkField(g, comments, m, f, visited, t1);
      GrowsTransitively(g, comments, w, t, t1, t2);
      TranslatedStays(g, comments, m, m.fields[..n - 1], t1.names, t2.names, properties);
      AddTranslated(g, comments, m, n, t2.names, properties, FieldSchema(comments, m, f, leaf));
    }
  }

  lemma AddTranslated(g: Root, comments: Comments, m: Message, n: nat,
                      names: map<string, string>, properties: map<string, Schema>, s: Schema)
    requires 0 < n <= |m.fields|
    requires PropertiesTranslated(g, comments, m, m.fields[..n - 1], names, properties)
    requires FieldTranslated(g, comments, m, m.fields[n - 1], names, s)
    ensures PropertiesTranslated(g, comments, m, m.fields[..n], names, properties[m.fields[n - 1].name := s])
  {
    var f := m.fields[n - 1];
    var extended := properties[f.name := s];
    assert m.fields[..n] == m.fields[..n - 1] + [f];
    forall k | k in extended
      ensures exists e :: e in m.fields[..n] && e.name == k && FieldTranslated(g, comments, m, e, names, extended[k])
    {
      if k == f.name {
        assert f in m.fields[..n];
      } else {
        var e :| e in m.fields[..n - 1] && e.name == k && FieldTranslated(g, comments, m, e, names, properties[k]);
        assert e in m.fields[..n];
      }
    }
  }

  lemma {:induction false} FieldGrows(g: Root, comments: Comments, w: set<string>, m: Message, f: Field,
                                      visited: set<string>, t: Tables)
    requires f in m.fields && Closed(g, w) && RefsOfMessage(m) <= w && SaneNames(t.names)
    ensures var (leaf, t') := WalkField(g, comments, m, f, visited, t);
      && Grows(g, comments, w, t, t')
      && FieldTranslated(g, comments, m, f, t'.names, FieldSchema(comments, m, f, leaf))
    decreases Undefined(g, t), 1, 0
  {
    if !IsScalar(f.ty) {
      ResolveGrows(g, comments, w, ReferenceOf(m, f), visited, t);
    }
  }

  lemma {:induction false} ResolveGrows(g: Root, comments: Comments, w: set<string>, reference: string,
                                        visited: set<string>, t: Tables)
    requires Closed(g, w) && reference in w && SaneNames(t.names)
    ensures var (s, t') := Resolve(g, comments, reference, visited, t);
      && Grows(g, comments, w, t, t')
      && reference in t'.names
      && (s == Ref(t'.names[reference], None) || (!Resolvable(g, reference) && s == Fallback(reference)))
    decreases Undefined(g, t), 0, 1
  {
    NamingKeepsNames(g, reference, t.names);
    var name := DefinitionName(g, reference, t.names);
    var t1 := t.(names := NameReference(g, reference, t.names));
    assert Grows(g, comments, w, t, t1);
    if name in t.definitions || reference in visited || ShortName(reference) in visited {
    } else if reference in g.types {
      DefineGrows(g, comments, w, reference, name, visited, t1);
      GrowsTransitively(g, comments, w, t, t1, DefineMessage(g, comments, reference, name, visited, t1));
    } else if reference in g.enums {
      var definition := EnumDefinition(comments, g.enums[reference], reference, name);
      assert t1.names[reference := name] == t1.names;
      assert Finished(g, comments, t1.names, reference, name, definition);
      AddingFinishedGrows(g, comments, w, name, t1, definition);
      GrowsTransitively(g, comments, w, t, t1, t1.(definitions := t1.definitions[name := definition]));
    }
  }

  lemma AddingFinishedGrows(g: Root, comments: Comments, w: set<string>, name: string, t: Tables, definition: Schema)
    requires name !in t.definitions && IsFinished(g, comments, w, t.names, name, definition)
    ensures Grows(g, comments, w, t, t.(definitions := t.definitions[name := definition]))
  {
  }

  lemma {:induction false} DefineGrows(g: Root, comments: Comments, w: set<string>, reference: string, name: string,
                                       visited: set<string>, t: Tables)
    requires Closed(g, w) && reference in w && reference in g.types && SaneNames(t.names)
    requires name in CandidateNames(reference) && name !in t.definitions
    requires reference in t.names && t.names[reference] == name
    ensures Grows(g, comments, w, t, DefineMessage(g, comments, reference, name, visited, t))
    decreases Undefined(g, t), 0, 0
  {
    var m := g.types[reference];
    BeginningShrinks(g, reference, name, t, EMPTY_OBJECT);
    MessageRefsAreRefs(g, m);
    var placeholder := t.(definitions := t.definitions[name := EMPTY_OBJECT]);
    var inner := visited + {reference, ShortName(reference)};
    assert RefsOf(g, reference) <= w;
    FieldsGrow(g, comments, w, m, |m.fields|, inner, placeholder);
    var (properties, t1) := WalkFields(g, comments, m, |m.fields|, inner, placeholder);
    assert m.fields[..|m.fields|] == m.fields;
    var definition := MessageDefinition(comments, m, reference, name, properties);
    assert Finished(g, comments, t1.names, reference, name, definition);
    ReplacingPlaceholderGrows(g, comments, w, name, t, t1, definition);
  }

  lemma ReplacingPlaceholderGrows(g: Root, comments: Comments, w: set<string>, name: string,
                                  t: Tables, t1: Tables, definition: Schema)
    requires name !in t.definitions
    requires Grows(g, comments, w, t.(definitions := t.definitions[name := EMPTY_OBJECT]), t1)
    requires IsFinished(g, comments, w, t1.names, name, definition)
    ensures Grows(g, comments, w, t, t1.(definitions := t1.definitions[name := definition]))
  {
    hide IsFinished;
  }

  /** Every definition is a finished one, of a reference in `w`. */
  ghost predicate AllFinished(g: Root, comments: Comments, w: set<string>, names: map<string, string>,
                              definitions: map<string, Schema>) {
    forall k :: k in definitions ==> IsFinished(g, comments, w, names, k, definitions[k])
  }

  /** The names chosen by the end of the run for `typeName`. */
  ghost function FinalNames(g: Root, comments: Comments, typeName: string): map<string, string> {
    if typeName == "" then map[] else WalkRoot(g, comments, typeName).1.names
  }

  /**
   * For every type graph, cyclic or not and whatever its names: no placeholder is left, and
   * every definition belongs to a reachable type. Each definition lists exactly the fields of its
   * message, each one translated, with `required` holding those neither repeated nor `optional`.
   */
  lemma NoPlaceholderSurvives(g: Root, comments: Comments, typeName: string)
    ensures AllFinished(g, comments, Reach(g, typeName), FinalNames(g, comments, typeName),
                        Generate(g, comments, typeName).Definitions())
  {
    if typeName != "" && typeName in g.types {
      var m := g.types[typeName];
      MessageRefsAreRefs(g, m);
      ReachIsClosed(g, typeName);
      FieldsGrow(g, comments, Reach(g, typeName), m, |m.fields|, {}, NO_TABLES);
    }
  }
}
