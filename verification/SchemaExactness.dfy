/**
 * When reachable references can be told apart, the generated definitions are given in closed form:
 * they do not depend on the order of the walk, on the root, or on `visited`.
 */
module SchemaExactness {
  import opened Wrappers
  import opened Dotted
  import opened ProtoTypes
  import opened JsonSchema
  import opened SchemaWalk
  import opened SchemaTheorems
  import ProtoPrinter

  // --- The closed form ---

  function CanonicalName(g: Root, reference: string): string {
    if reference in g.insideMessage then LastTwo(reference) else ShortName(reference)
  }

  function CanonicalLeaf(g: Root, ty: string, reference: string): Schema {
    if IsScalar(ty) then ScalarSchema(ty).value
    else if Resolvable(g, reference) then Ref(CanonicalName(g, reference), None)
    else Fallback(reference)
  }

  function CanonicalProperties(g: Root, comments: Comments, m: Message, n: nat): map<string, Schema>
    requires n <= |m.fields|
  {
    if n == 0 then map[]
    else
      var f := m.fields[n - 1];
      CanonicalProperties(g, comments, m, n - 1)[f.name :=
        FieldSchema(comments, m, f, CanonicalLeaf(g, f.ty, ReferenceOf(m, f)))]
  }

  function CanonicalDefinition(g: Root, comments: Comments, reference: string): Schema
    requires Resolvable(g, reference)
  {
    var name := CanonicalName(g, reference);
    if reference in g.types then
      var m := g.types[reference];
      MessageDefinition(comments, m, reference, name, CanonicalProperties(g, comments, m, |m.fields|))
    else EnumDefinition(comments, g.enums[reference], reference, name)
  }

  function CanonicalRoot(g: Root, comments: Comments, typeName: string): Schema {
    if typeName == "" || typeName !in g.types then EMPTY_OBJECT
    else
      var m := g.types[typeName];
      Object(CanonicalProperties(g, comments, m, |m.fields|), Required(m.fields),
             MessageComment(comments, ShortName(typeName)), Some(ProtoPrinter.MessageSource(comments, m, "")))
  }

  /** `definitions` holds the closed-form definition of every resolvable reference of `w` and nothing else. */
  ghost predicate Exactly(g: Root, comments: Comments, w: set<string>, definitions: map<string, Schema>) {
    && (forall r :: r in w && Resolvable(g, r) ==>
          && CanonicalName(g, r) in definitions
          && definitions[CanonicalName(g, r)] == CanonicalDefinition(g, comments, r))
    && (forall k :: k in definitions ==> exists r :: r in w && Resolvable(g, r) && CanonicalName(g, r) == k)
  }

  // --- References that can be told apart ---

  /** No two different references of `w` share their last dotted component. */
  ghost predicate Distinguishable(w: set<string>) {
    forall a, b {:trigger LastComponent(a), LastComponent(b)} ::
      a in w && b in w && LastComponent(a) == LastComponent(b) ==> a == b
  }

  /** No two different references of `w` have the same name in the closed form. */
  ghost predicate NamedOnce(g: Root, w: set<string>) {
    forall a, b {:trigger CanonicalName(g, a), CanonicalName(g, b)} ::
      a in w && b in w && CanonicalName(g, a) == CanonicalName(g, b) ==> a == b
  }

  /** An undeclared reference shares its last component with no other reference of `w`. */
  ghost predicate UndeclaredApart(g: Root, w: set<string>) {
    forall u, b {:trigger LastComponent(u), LastComponent(b)} ::
      u in w && b in w && !Resolvable(g, u) && LastComponent(u) == LastComponent(b) ==> u == b
  }

  /** Weaker than `Distinguishable`: nested types of different messages may share a last component. */
  ghost predicate Tellable(g: Root, w: set<string>) {
    NamedOnce(g, w) && UndeclaredApart(g, w)
  }

  lemma CanonicalNameKeepsLast(g: Root, reference: string)
    ensures LastComponent(CanonicalName(g, reference)) == LastComponent(reference)
  {
    LastComponentKept(reference);
  }

  lemma DistinguishableIsTellable(g: Root, w: set<string>)
    requires Distinguishable(w)
    ensures Tellable(g, w)
  {
    forall a, b | a in w && b in w && CanonicalName(g, a) == CanonicalName(g, b)
      ensures a == b
    {
      CanonicalNameKeepsLast(g, a);
      CanonicalNameKeepsLast(g, b);
    }
  }

  // --- Invariants of the walk ---

  /** `k` is the name of a resolvable reference of `w`. */
  ghost predicate NamesSome(g: Root, w: set<string>, k: string) {
    exists r {:trigger CanonicalName(g, r)} :: r in w && Resolvable(g, r) && CanonicalName(g, r) == k
  }

  ghost predicate CanonicalTables(g: Root, w: set<string>, t: Tables) {
    && (forall r :: r in t.names ==> r in w && t.names[r] == CanonicalName(g, r))
    && (forall k :: k in t.definitions ==> NamesSome(g, w, k))
  }

  /** Everything visited comes from a reference whose definition is begun. */
  ghost predicate VisitedBegun(g: Root, w: set<string>, visited: set<string>, t: Tables) {
    forall v :: v in visited ==>
      exists r :: r in w && CanonicalName(g, r) in t.definitions && (v == r || v == ShortName(r))
  }

  /** The references of the first `n` fields. */
  function FieldRefs(m: Message, n: nat): set<string>
    requires n <= |m.fields|
  {
    set i | 0 <= i < n && !IsScalar(m.fields[i].ty) :: ReferenceOf(m, m.fields[i])
  }

  /** Where all differ in their last component, the declared ones of `references` are begun. */
  ghost predicate RefsBegun(g: Root, w: set<string>, references: set<string>, t: Tables) {
    Distinguishable(w) ==> forall r :: r in references && Resolvable(g, r) ==> CanonicalName(g, r) in t.definitions
  }

  /** `k` is the canonical definition of a reference of `w` whose own references are all begun. */
  ghost predicate Settled(g: Root, comments: Comments, w: set<string>, k: string, s: Schema, t: Tables) {
    exists r {:trigger RefsBegun(g, w, RefsOf(g, r), t)} ::
                && r in w && Resolvable(g, r) && CanonicalName(g, r) == k
                && s == CanonicalDefinition(g, comments, r) && RefsBegun(g, w, RefsOf(g, r), t)
  }

  ghost predicate Settles(g: Root, comments: Comments, w: set<string>, before: Tables, after: Tables) {
    && CanonicalTables(g, w, after)
    && (forall k :: k in before.definitions ==>
          k in after.definitions && after.definitions[k] == before.definitions[k])
    && (forall k :: k in after.definitions && k !in before.definitions ==>
          Settled(g, comments, w, k, after.definitions[k], after))
  }

  lemma SettledStays(g: Root, comments: Comments, w: set<string>, k: string, s: Schema, t: Tables, t': Tables)
    requires Settled(g, comments, w, k, s, t) && t.definitions.Keys <= t'.definitions.Keys
    ensures Settled(g, comments, w, k, s, t')
  {
    var r :| && r in w && Resolvable(g, r) && CanonicalName(g, r) == k
             && s == CanonicalDefinition(g, comments, r) && RefsBegun(g, w, RefsOf(g, r), t);
    assert RefsBegun(g, w, RefsOf(g, r), t');
  }

  lemma SettlesTransitively(g: Root, comments: Comments, w: set<string>, a: Tables, b: Tables, c: Tables)
    requires Settles(g, comments, w, a, b) && Settles(g, comments, w, b, c)
    ensures Settles(g, comments, w, a, c) && CanonicalTables(g, w, c)
  {
    forall k | k in c.definitions && k !in a.definitions
      ensures Settled(g, comments, w, k, c.definitions[k], c)
    {
      if k in b.definitions {
        SettledStays(g, comments, w, k, b.definitions[k], b, c);
      }
    }
  }

  lemma VisitedStaysBegun(g: Root, w: set<string>, visited: set<string>, t: Tables, t': Tables)
    requires VisitedBegun(g, w, visited, t) && t.definitions.Keys <= t'.definitions.Keys
    ensures VisitedBegun(g, w, visited, t')
  {
  }

  /** Every name chosen is the canonical one. */
  lemma NameIsCanonical(g: Root, w: set<string>, reference: string, t: Tables)
    requires Tellable(g, w) && reference in w && CanonicalTables(g, w, t) && SaneNames(t.names)
    ensures DefinitionName(g, reference, t.names) == CanonicalName(g, reference)
    ensures CanonicalTables(g, w, t.(names := NameReference(g, reference, t.names)))
  {
    forall other | other in t.names && other != reference
      ensures t.names[other] != CanonicalName(g, reference)
    {
      assert CanonicalName(g, other) != CanonicalName(g, reference);
    }
  }

  /** A begun name belongs to one reference only. */
  lemma BegunIsOwn(g: Root, w: set<string>, reference: string, k: string)
    requires Tellable(g, w) && reference in w && NamesSome(g, w, k) && k == CanonicalName(g, reference)
    ensures Resolvable(g, reference)
  {
    var r :| r in w && Resolvable(g, r) && CanonicalName(g, r) == k;
  }

  /** A reference that is found visited is a declared one. */
  lemma VisitedIsDeclared(g: Root, w: set<string>, reference: string, visited: set<string>, t: Tables)
    requires Tellable(g, w) && reference in w && CanonicalTables(g, w, t) && VisitedBegun(g, w, visited, t)
    requires reference in visited || ShortName(reference) in visited
    ensures Resolvable(g, reference)
  {
    var v := if reference in visited then reference else ShortName(reference);
    var r :| r in w && CanonicalName(g, r) in t.definitions && (v == r || v == ShortName(r));
    assert NamesSome(g, w, CanonicalName(g, r));
    BegunIsOwn(g, w, r, CanonicalName(g, r));
    LastComponentKept(r);
    LastComponentKept(reference);
  }

  /**
   * Where all differ in their last component, the `visited` test never answers differently from the
   * test for a begun definition.
   */
  lemma VisitedIsRedundant(g: Root, w: set<string>, reference: string, visited: set<string>, t: Tables)
    requires Distinguishable(w) && reference in w && VisitedBegun(g, w, visited, t)
    requires reference in visited || ShortName(reference) in visited
    ensures CanonicalName(g, reference) in t.definitions
  {
    var v := if reference in visited then reference else ShortName(reference);
    var r :| r in w && CanonicalName(g, r) in t.definitions && (v == r || v == ShortName(r));
    LastComponentKept(r);
    LastComponentKept(reference);
  }

  /** The walk of the first `n` fields settles what it begins, and gives the canonical properties. */
  ghost predicate FieldsSettled(g: Root, comments: Comments, w: set<string>, m: Message, n: nat,
                                visited: set<string>, t: Tables)
    requires n <= |m.fields| && RefsOfMessage(m) <= AllRefs(g) && SaneNames(t.names)
  {
    var (properties, t') := WalkFields(g, comments, m, n, visited, t);
    && Settles(g, comments, w, t, t') && CanonicalTables(g, w, t')
    && properties == CanonicalProperties(g, comments, m, n)
    && RefsBegun(g, w, FieldRefs(m, n), t')
  }

  lemma {:induction false} FieldsSettle(g: Root, comments: Comments, w: set<string>, m: Message, n: nat,
                                        visited: set<string>, t: Tables)
    requires n <= |m.fields| && RefsOfMessage(m) <= AllRefs(g) && SaneNames(t.names)
    requires Closed(g, w) && RefsOfMessage(m) <= w
    requires Tellable(g, w) && CanonicalTables(g, w, t) && VisitedBegun(g, w, visited, t)
    ensures FieldsSettled(g, comments, w, m, n, visited, t)
    decreases Undefined(g, t), 2, n
  {
    hide FieldsSettled, Tellable, VisitedBegun, SaneNames, RefsOfMessage, AllRefs, Closed, CanonicalTables, Undefined;
    if n == 0 {
      NothingSettles(g, comments, w, m, visited, t);
    } else {
      FieldsSettle(g, comments, w, m, n - 1, visited, t);
      UndefinedShrinks(g, t, WalkFields(g, comments, m, n - 1, visited, t).1);
      OneMoreFieldSettles(g, comments, w, m, n, visited, t);
    }
  }

  /** The step from `n - 1` fields to `n` fields. */
  lemma {:induction false} OneMoreFieldSettles(g: Root, comments: Comments, w: set<string>, m: Message, n: nat,
                                               visited: set<string>, t: Tables)
    requires 0 < n <= |m.fields| && RefsOfMessage(m) <= AllRefs(g) && SaneNames(t.names)
    requires Closed(g, w) && RefsOfMessage(m) <= w
    requires Tellable(g, w) && VisitedBegun(g, w, visited, t)
    requires FieldsSettled(g, comments, w, m, n - 1, visited, t)
    ensures FieldsSettled(g, comments, w, m, n, visited, t)
    decreases Undefined(g, WalkFields(g, comments, m, n - 1, visited, t).1), 1, 1
  {
    hide IsScalar, Tellable, VisitedBegun, SaneNames, RefsOfMessage;
    hide FieldSchema, CanonicalLeaf, FieldRefs, RefsBegun, AllRefs, Closed, Settles, CanonicalTables;
    hide WalkFields, WalkField, CanonicalProperties, Undefined;
    var f := m.fields[n - 1];
    var t1 := WalkFields(g, comments, m, n - 1, visited, t).1;
    VisitedStaysBegun(g, w, visited, t, t1);
    FieldSettles(g, comments, w, m, f, visited, t1);
    BothSettle(g, comments, w, m, n, t, t1, WalkField(g, comments, m, f, visited, t1).1);
    WalkFieldsStep(g, comments, m, n, visited, t);
  }

  lemma NothingSettles(g: Root, comments: Comments, w: set<string>, m: Message, visited: set<string>, t: Tables)
    requires CanonicalTables(g, w, t) && RefsOfMessage(m) <= AllRefs(g) && SaneNames(t.names)
    ensures FieldsSettled(g, comments, w, m, 0, visited, t)
  {
  }

  /** One more field, in the walk and in the closed form. */
  lemma WalkFieldsStep(g: Root, comments: Comments, m: Message, n: nat, visited: set<string>, t: Tables)
    requires 0 < n <= |m.fields| && RefsOfMessage(m) <= AllRefs(g) && SaneNames(t.names)
    ensures var f := m.fields[n - 1];
      var (properties, t1) := WalkFields(g, comments, m, n - 1, visited, t);
      var (leaf, t2) := WalkField(g, comments, m, f, visited, t1);
      && WalkFields(g, comments, m, n, visited, t) == (properties[f.name := FieldSchema(comments, m, f, leaf)], t2)
      && CanonicalProperties(g, comments, m, n)
           == CanonicalProperties(g, comments, m, n - 1)[f.name :=
                FieldSchema(comments, m, f, CanonicalLeaf(g, f.ty, ReferenceOf(m, f)))]
  {
  }

  lemma BothSettle(g: Root, comments: Comments, w: set<string>, m: Message, n: nat,
                   t: Tables, t1: Tables, t2: Tables)
    requires 0 < n <= |m.fields| && Settles(g, comments, w, t, t1) && Settles(g, comments, w, t1, t2)
    requires RefsBegun(g, w, FieldRefs(m, n - 1), t1)
    requires !IsScalar(m.fields[n - 1].ty) ==> RefsBegun(g, w, {ReferenceOf(m, m.fields[n - 1])}, t2)
    ensures Settles(g, comments, w, t, t2) && CanonicalTables(g, w, t2) && RefsBegun(g, w, FieldRefs(m, n), t2)
  {
    SettlesTransitively(g, comments, w, t, t1, t2);
    hide Settled, NamesSome, IsScalar, ReferenceOf, Resolvable, CanonicalName;
  }

  lemma {:induction false} FieldSettles(g: Root, comments: Comments, w: set<string>, m: Message, f: Field,
                                        visited: set<string>, t: Tables)
    requires f in m.fields && Closed(g, w) && RefsOfMessage(m) <= w && SaneNames(t.names)
    requires Tellable(g, w) && CanonicalTables(g, w, t) && VisitedBegun(g, w, visited, t)
    ensures var (leaf, t') := WalkField(g, comments, m, f, visited, t);
      && Settles(g, comments, w, t, t') && CanonicalTables(g, w, t')
      && leaf == CanonicalLeaf(g, f.ty, ReferenceOf(m, f))
      && (!IsScalar(f.ty) ==> RefsBegun(g, w, {ReferenceOf(m, f)}, t'))
    decreases Undefined(g, t), 1, 0
  {
    if !IsScalar(f.ty) {
      ResolveSettles(g, comments, w, ReferenceOf(m, f), visited, t);
    }
  }

  /** Resolving a reference begins its canonical definition, if it has one, and answers with the canonical leaf. */
  ghost predicate ReferenceSettled(g: Root, comments: Comments, w: set<string>, reference: string,
                                   visited: set<string>, t: Tables)
    requires reference in AllRefs(g) && SaneNames(t.names)
  {
    var (s, t') := Resolve(g, comments, reference, visited, t);
    && Settles(g, comments, w, t, t') && CanonicalTables(g, w, t')
    && s == (if Resolvable(g, reference) then Ref(CanonicalName(g, reference), None) else Fallback(reference))
    && RefsBegun(g, w, {reference}, t')
  }

  lemma {:induction false} ResolveSettles(g: Root, comments: Comments, w: set<string>, reference: string,
                                          visited: set<string>, t: Tables)
    requires Closed(g, w) && reference in w && SaneNames(t.names)
    requires Tellable(g, w) && CanonicalTables(g, w, t) && VisitedBegun(g, w, visited, t)
    ensures ReferenceSettled(g, comments, w, reference, visited, t)
    decreases Undefined(g, t), 0, 1
  {
    NameIsCanonical(g, w, reference, t);
    NamingKeepsNames(g, reference, t.names);
    var name := CanonicalName(g, reference);
    var t1 := t.(names := NameReference(g, reference, t.names));
    NamingSettles(g, comments, w, t, t1);
    hide Settles, CanonicalTables, Tellable, VisitedBegun, DefinitionName, NameReference, EnumDefinition;
    hide DefineMessage, RefsBegun, CanonicalName, CandidateNames, SaneNames, Closed;
    if name in t.definitions || reference in visited || ShortName(reference) in visited {
      MetIsBegun(g, w, reference, visited, t, t1);
    } else if reference in g.types {
      DefineSettles(g, comments, w, reference, visited, t1);
      SettlesTransitively(g, comments, w, t, t1, DefineMessage(g, comments, reference, name, visited, t1));
    } else if reference in g.enums {
      EnumSettles(g, comments, w, reference, t1);
      assert t1.names[reference := name] == t1.names;
      SettlesTransitively(g, comments, w, t, t1,
        t1.(definitions := t1.definitions[name := EnumDefinition(comments, g.enums[reference], reference, name)]));
    } else {
      UndeclaredNeedsNothing(g, w, reference, t1);
    }
  }

  /** A reference that is found begun or visited is a declared one. */
  lemma MetIsBegun(g: Root, w: set<string>, reference: string, visited: set<string>, t: Tables, t1: Tables)
    requires Tellable(g, w) && reference in w && CanonicalTables(g, w, t) && VisitedBegun(g, w, visited, t)
    requires CanonicalName(g, reference) in t.definitions || reference in visited || ShortName(reference) in visited
    requires t1.definitions == t.definitions
    ensures Resolvable(g, reference) && RefsBegun(g, w, {reference}, t1)
  {
    hide CanonicalName;
    if CanonicalName(g, reference) in t.definitions {
      BegunIsOwn(g, w, reference, CanonicalName(g, reference));
    } else {
      VisitedIsDeclared(g, w, reference, visited, t);
      if Distinguishable(w) {
        VisitedIsRedundant(g, w, reference, visited, t);
      }
    }
  }

  lemma UndeclaredNeedsNothing(g: Root, w: set<string>, reference: string, t: Tables)
    requires !Resolvable(g, reference)
    ensures RefsBegun(g, w, {reference}, t)
  {
  }

  lemma NamingSettles(g: Root, comments: Comments, w: set<string>, t: Tables, t1: Tables)
    requires CanonicalTables(g, w, t1) && t1.definitions == t.definitions
    ensures Settles(g, comments, w, t, t1)
  {
  }

  lemma EnumSettles(g: Root, comments: Comments, w: set<string>, reference: string, t: Tables)
    requires Closed(g, w) && reference in w && reference in g.enums && reference !in g.types
    requires CanonicalTables(g, w, t) && reference in t.names && CanonicalName(g, reference) !in t.definitions
    ensures var name := CanonicalName(g, reference);
      var t' := t.(definitions := t.definitions[name := EnumDefinition(comments, g.enums[reference], reference, name)]);
      Settles(g, comments, w, t, t') && CanonicalTables(g, w, t') && RefsBegun(g, w, {reference}, t')
  {
    var name := CanonicalName(g, reference);
    var definition := EnumDefinition(comments, g.enums[reference], reference, name);
    var t' := t.(definitions := t.definitions[name := definition]);
    assert NamesSome(g, w, name);
    assert RefsOf(g, reference) == {};
    assert RefsBegun(g, w, RefsOf(g, reference), t');
    assert Settled(g, comments, w, name, definition, t');
  }

  lemma {:induction false} DefineSettles(g: Root, comments: Comments, w: set<string>, reference: string,
                                         visited: set<string>, t: Tables)
    requires Closed(g, w) && reference in w && reference in g.types && SaneNames(t.names)
    requires Tellable(g, w) && CanonicalTables(g, w, t) && VisitedBegun(g, w, visited, t)
    requires CanonicalName(g, reference) in CandidateNames(reference)
    requires CanonicalName(g, reference) !in t.definitions
    ensures var t' := DefineMessage(g, comments, reference, CanonicalName(g, reference), visited, t);
      Settles(g, comments, w, t, t') && CanonicalTables(g, w, t') && RefsBegun(g, w, {reference}, t')
    decreases Undefined(g, t), 0, 0
  {
    var name := CanonicalName(g, reference);
    var m := g.types[reference];
    BeginningShrinks(g, reference, name, t, EMPTY_OBJECT);
    MessageRefsAreRefs(g, m);
    assert RefsOf(g, reference) <= w;
    var placeholder := t.(definitions := t.definitions[name := EMPTY_OBJECT]);
    var inner := visited + {reference, ShortName(reference)};
    PlaceholderReady(g, w, reference, visited, t);
    hide Tellable, VisitedBegun, Settles, CanonicalTables;
    FieldsSettle(g, comments, w, m, |m.fields|, inner, placeholder);
    var (properties, t1) := WalkFields(g, comments, m, |m.fields|, inner, placeholder);
    var definition := CanonicalDefinition(g, comments, reference);
    assert RefsOf(g, reference) == FieldRefs(m, |m.fields|) && RefsBegun(g, w, RefsOf(g, reference), t1);
    assert Settled(g, comments, w, name, definition, t1);
    ReplacingPlaceholderSettles(g, comments, w, name, t, t1, definition);
  }

  lemma PlaceholderReady(g: Root, w: set<string>, reference: string, visited: set<string>, t: Tables)
    requires reference in w && Resolvable(g, reference)
    requires CanonicalTables(g, w, t) && VisitedBegun(g, w, visited, t)
    ensures var placeholder := t.(definitions := t.definitions[CanonicalName(g, reference) := EMPTY_OBJECT]);
      && CanonicalTables(g, w, placeholder)
      && VisitedBegun(g, w, visited + {reference, ShortName(reference)}, placeholder)
  {
    var placeholder := t.(definitions := t.definitions[CanonicalName(g, reference) := EMPTY_OBJECT]);
    assert NamesSome(g, w, CanonicalName(g, reference));
    VisitedStaysBegun(g, w, visited, t, placeholder);
  }

  lemma ReplacingPlaceholderSettles(g: Root, comments: Comments, w: set<string>, name: string,
                                    t: Tables, t1: Tables, definition: Schema)
    requires name !in t.definitions
    requires Settles(g, comments, w, t.(definitions := t.definitions[name := EMPTY_OBJECT]), t1)
    requires Settled(g, comments, w, name, definition, t1)
    ensures var t' := t1.(definitions := t1.definitions[name := definition]);
      Settles(g, comments, w, t, t') && CanonicalTables(g, w, t')
  {
    hide Settled, NamesSome;
    var t2 := t1.(definitions := t1.definitions[name := definition]);
    assert name in t.definitions[name := EMPTY_OBJECT];
    assert t2.definitions.Keys == t1.definitions.Keys;
    assert CanonicalTables(g, w, t2);
    forall k | k in t2.definitions && k !in t.definitions
      ensures Settled(g, comments, w, k, t2.definitions[k], t2)
    {
      assert Settled(g, comments, w, k, t2.definitions[k], t1) by {
        if k != name {
          assert k !in t.definitions[name := EMPTY_OBJECT];
        }
      }
      SettledStays(g, comments, w, k, t2.definitions[k], t1, t2);
    }
  }

  // --- The theorem ---

  /** The definition of `k` is the canonical one of a reference of `w`. */
  ghost predicate IsCanonical(g: Root, comments: Comments, w: set<string>, k: string, s: Schema) {
    exists r {:trigger CanonicalName(g, r)} ::
      r in w && Resolvable(g, r) && CanonicalName(g, r) == k && s == CanonicalDefinition(g, comments, r)
  }

  ghost predicate AllCanonical(g: Root, comments: Comments, w: set<string>, d: map<string, Schema>) {
    forall k :: k in d ==> IsCanonical(g, comments, w, k, d[k])
  }

  /** The definition under the canonical name of a reference of `w` is that reference's own. */
  lemma CanonicalIsOwn(g: Root, comments: Comments, w: set<string>, d: map<string, Schema>, reference: string)
    requires NamedOnce(g, w) && reference in w && AllCanonical(g, comments, w, d) && CanonicalName(g, reference) in d
    ensures Resolvable(g, reference) && d[CanonicalName(g, reference)] == CanonicalDefinition(g, comments, reference)
  {
    hide CanonicalDefinition, CanonicalName;
    assert IsCanonical(g, comments, w, CanonicalName(g, reference), d[CanonicalName(g, reference)]);
  }

  /** The definition under the canonical name of a reference of `w` refers to begun definitions only. */
  lemma SettledIsOwn(g: Root, comments: Comments, w: set<string>, reference: string, t: Tables)
    requires Distinguishable(w) && reference in w && Settles(g, comments, w, NO_TABLES, t)
    requires CanonicalName(g, reference) in t.definitions
    ensures RefsBegun(g, w, RefsOf(g, reference), t)
  {
    hide MessageDefinition, EnumDefinition;
    var k := CanonicalName(g, reference);
    assert Settled(g, comments, w, k, t.definitions[k], t);
    var r :| && r in w && Resolvable(g, r) && CanonicalName(g, r) == k
             && t.definitions[k] == CanonicalDefinition(g, comments, r) && RefsBegun(g, w, RefsOf(g, r), t);
    CanonicalNameKeepsLast(g, r);
    CanonicalNameKeepsLast(g, reference);
  }

  /** A settled table in which the root's references are begun holds all that is reachable. */
  lemma {:induction false} ReachableIsBegun(g: Root, comments: Comments, w: set<string>, typeName: string,
                                            reference: string, n: nat, t: Tables)
    requires n >= 1 && ReachableIn(g, typeName, reference, n) && Resolvable(g, reference)
    requires Distinguishable(w) && Closed(g, w) && TopRefs(g, typeName) <= w
    requires Settles(g, comments, w, NO_TABLES, t) && RefsBegun(g, w, TopRefs(g, typeName), t)
    ensures reference in w && CanonicalName(g, reference) in t.definitions
    decreases n
  {
    hide Settles, Distinguishable, CanonicalName, CanonicalDefinition;
    if n > 1 {
      var via :| ReachableIn(g, typeName, via, n - 1) && reference in RefsOf(g, via);
      ReachableIsBegun(g, comments, w, typeName, via, n - 1, t);
      SettledIsOwn(g, comments, w, via, t);
    }
  }

  /** What the walk of the root message settles. */
  lemma RootSettles(g: Root, comments: Comments, typeName: string) returns (t: Tables)
    requires Tellable(g, Reach(g, typeName)) && typeName != "" && typeName in g.types
    ensures Settles(g, comments, Reach(g, typeName), NO_TABLES, t)
    ensures RefsBegun(g, Reach(g, typeName), TopRefs(g, typeName), t)
    ensures Generate(g, comments, typeName).schema == CanonicalRoot(g, comments, typeName)
    ensures Generate(g, comments, typeName).Definitions() == t.definitions
  {
    var m := g.types[typeName];
    MessageRefsAreRefs(g, m);
    ReachIsClosed(g, typeName);
    hide Tellable, Reach;
    FieldsSettle(g, comments, Reach(g, typeName), m, |m.fields|, {}, NO_TABLES);
    t := WalkFields(g, comments, m, |m.fields|, {}, NO_TABLES).1;
    assert TopRefs(g, typeName) == FieldRefs(m, |m.fields|);
  }

  lemma SettlesIsCanonical(g: Root, comments: Comments, w: set<string>, t: Tables)
    requires Settles(g, comments, w, NO_TABLES, t)
    ensures AllCanonical(g, comments, w, t.definitions)
  {
    hide CanonicalDefinition, CanonicalName;
    forall k | k in t.definitions
      ensures IsCanonical(g, comments, w, k, t.definitions[k])
    {
      assert Settled(g, comments, w, k, t.definitions[k], t);
    }
  }

  /**
   * When the reachable references can be told apart, the root schema has its closed form, and so
   * has every definition: its name and content depend on its reference alone.
   */
  lemma GeneratedCanonically(g: Root, comments: Comments, typeName: string)
    requires Tellable(g, Reach(g, typeName))
    ensures var r := Generate(g, comments, typeName);
      && r.schema == CanonicalRoot(g, comments, typeName)
      && AllCanonical(g, comments, Reach(g, typeName), r.Definitions())
  {
    if typeName != "" && typeName in g.types {
      var t := RootSettles(g, comments, typeName);
      SettlesIsCanonical(g, comments, Reach(g, typeName), t);
    }
  }

  /**
   * The generated schema when all reachable references differ in their last component. Its
   * definitions are those of exactly the messages and enums reachable over one or more field edges,
   * so every reference in the schema and in the definitions resolves, and to the type it stands for.
   */
  lemma GeneratedExactly(g: Root, comments: Comments, typeName: string)
    requires Distinguishable(Reach(g, typeName))
    ensures var r := Generate(g, comments, typeName);
      && r.schema == CanonicalRoot(g, comments, typeName)
      && Exactly(g, comments, Reach(g, typeName), r.Definitions())
  {
    var w := Reach(g, typeName);
    DistinguishableIsTellable(g, w);
    GeneratedCanonically(g, comments, typeName);
    if typeName == "" || typeName !in g.types {
      NothingReachable(g, typeName);
    } else {
      var t := RootSettles(g, comments, typeName);
      ReachIsClosed(g, typeName);
      forall r | r in w && Resolvable(g, r)
        ensures CanonicalName(g, r) in t.definitions
      {
        var n: nat :| n >= 1 && ReachableIn(g, typeName, r, n);
        ReachableIsBegun(g, comments, w, typeName, r, n, t);
      }
      hide Reach, Generate, CanonicalRoot, Settles;
      CompleteIsExact(g, comments, w, t.definitions);
    }
  }

  lemma CompleteIsExact(g: Root, comments: Comments, w: set<string>, d: map<string, Schema>)
    requires NamedOnce(g, w) && AllCanonical(g, comments, w, d)
    requires forall r :: r in w && Resolvable(g, r) ==> CanonicalName(g, r) in d
    ensures Exactly(g, comments, w, d)
  {
    hide CanonicalDefinition, CanonicalName;
    forall r | r in w && Resolvable(g, r)
      ensures d[CanonicalName(g, r)] == CanonicalDefinition(g, comments, r)
    {
      CanonicalIsOwn(g, comments, w, d, r);
    }
    forall k | k in d
      ensures exists r :: r in w && Resolvable(g, r) && CanonicalName(g, r) == k
    {
      assert IsCanonical(g, comments, w, k, d[k]);
    }
  }

  lemma NothingReachable(g: Root, typeName: string)
    requires typeName == "" || typeName !in g.types
    ensures Reach(g, typeName) == {}
  {
    forall r, n: nat | n >= 1
      ensures !ReachableIn(g, typeName, r, n)
    {
      NothingReachableIn(g, typeName, r, n);
    }
  }

  lemma {:induction false} NothingReachableIn(g: Root, typeName: string, reference: string, n: nat)
    requires n >= 1 && (typeName == "" || typeName !in g.types)
    ensures !ReachableIn(g, typeName, reference, n)
    decreases n
  {
    if n > 1 {
      forall via: string {:trigger ReachableIn(g, typeName, via, n - 1)}
        ensures !ReachableIn(g, typeName, via, n - 1)
      {
        NothingReachableIn(g, typeName, via, n - 1);
      }
    }
  }
}
