/**
 * The walk that turns a possibly cyclic graph of messages into a finite set of definitions,
 * as a function on the two tables it updates.
 */
module SchemaWalk {
  import opened Wrappers
  import opened Dotted
  import opened ProtoTypes
  import opened JsonSchema
  import ProtoPrinter

  /** The two records shared by the whole walk: finished or begun definitions, and chosen names. */
  datatype Tables = Tables(definitions: map<string, Schema>, names: map<string, string>)

  const NO_TABLES := Tables(map[], map[])

  // --- References of the graph ---

  predicate IsScalar(ty: string) {
    ScalarSchema(ty).Some?
  }

  /** The references that the fields of `m` hand to the resolver; map values included. */
  function RefsOfMessage(m: Message): set<string> {
    set f | f in m.fields && !IsScalar(f.ty) :: ReferenceOf(m, f)
  }

  /** The references one edge away from `reference`. */
  function RefsOf(g: Root, reference: string): set<string> {
    if reference in g.types then RefsOfMessage(g.types[reference]) else {}
  }

  /** Every reference held by a message of the graph. */
  function AllRefs(g: Root): set<string> {
    set t, r | t in g.types && r in RefsOf(g, t) :: r
  }

  predicate Resolvable(g: Root, reference: string) {
    reference in g.types || reference in g.enums
  }

  // --- Definition names ---

  predicate NameTaken(names: map<string, string>, reference: string, name: string) {
    exists other :: other in names && names[other] == name && other != reference
  }

  /** The name under which `reference` is defined, given the names chosen so far. */
  function DefinitionName(g: Root, reference: string, names: map<string, string>): string {
    if reference in names && names[reference] != "" then names[reference]
    else if reference in g.insideMessage then LastTwo(reference)
    else if NameTaken(names, reference, ShortName(reference)) then reference
    else ShortName(reference)
  }

  function NameReference(g: Root, reference: string, names: map<string, string>): map<string, string> {
    if reference in names && names[reference] != "" then names
    else names[reference := DefinitionName(g, reference, names)]
  }

  /** The names a reference can ever get. */
  function CandidateNames(reference: string): set<string> {
    {ShortName(reference), LastTwo(reference), reference}
  }

  function PossibleNames(g: Root): set<string> {
    set r, n | r in AllRefs(g) && n in CandidateNames(r) :: n
  }

  ghost predicate SaneNames(names: map<string, string>) {
    forall r :: r in names ==> names[r] in CandidateNames(r)
  }

  lemma DefinitionNameIsCandidate(g: Root, reference: string, names: map<string, string>)
    requires SaneNames(names)
    ensures DefinitionName(g, reference, names) in CandidateNames(reference)
    ensures reference in names ==> DefinitionName(g, reference, names) == names[reference]
  {
    if reference in names && names[reference] == "" {
      EmptyNameIsEmptyReference(reference);
    }
  }

  /** Naming a reference keeps the names sane, and never renames a reference. */
  lemma NamingKeepsNames(g: Root, reference: string, names: map<string, string>)
    requires SaneNames(names)
    ensures var named := NameReference(g, reference, names);
      && SaneNames(named)
      && reference in named && named[reference] == DefinitionName(g, reference, names)
      && DefinitionName(g, reference, names) in CandidateNames(reference)
      && named.Keys == names.Keys + {reference}
      && forall r :: r in names ==> named[r] == names[r]
  {
    DefinitionNameIsCandidate(g, reference, names);
    hide DefinitionName, CandidateNames;
  }

  /** Only the empty reference can get the empty name, and it gets no other. */
  lemma EmptyNameIsEmptyReference(reference: string)
    requires "" in CandidateNames(reference)
    ensures reference == "" && CandidateNames(reference) == {""}
  {
    JoinSplit(reference);
  }

  /** The names that are still free to be defined. */
  function Undefined(g: Root, t: Tables): set<string> {
    PossibleNames(g) - t.definitions.Keys
  }

  /** Beginning a definition leaves strictly fewer names undefined. */
  lemma BeginningShrinks(g: Root, reference: string, name: string, t: Tables, s: Schema)
    requires reference in AllRefs(g) && name in CandidateNames(reference) && name !in t.definitions
    ensures Undefined(g, t.(definitions := t.definitions[name := s])) < Undefined(g, t)
  {
    assert name in PossibleNames(g);
    assert name in Undefined(g, t);
  }

  lemma MessageRefsAreRefs(g: Root, m: Message)
    requires m in g.types.Values
    ensures RefsOfMessage(m) <= AllRefs(g)
  {
    var t :| t in g.types && g.types[t] == m;
    assert RefsOf(g, t) == RefsOfMessage(m);
  }

  // --- Contents of definitions ---

  function Required(fields: seq<Field>): seq<string> {
    if fields == [] then []
    else
      var f := fields[|fields| - 1];
      Required(fields[..|fields| - 1])
      + if !ExplicitlyOptional(f) && !f.repeated then [f.name] else []
  }

  function DefinitionDescription(comments: Comments, reference: string, name: string): string {
    match MessageComment(comments, ShortName(reference))
    case Some(c) => name + "\n" + c
    case None => name
  }

  function MessageDefinition(comments: Comments, m: Message, reference: string, name: string,
                             properties: map<string, Schema>): Schema {
    Object(properties, Required(m.fields),
           Some(DefinitionDescription(comments, reference, name)),
           Some(ProtoPrinter.MessageSource(comments, m, "")))
  }

  function EnumValueNames(values: seq<(string, int)>): seq<string> {
    seq(|values|, i requires 0 <= i < |values| => values[i].0)
  }

  function EnumDefinition(comments: Comments, e: Enum, reference: string, name: string): Schema {
    Primitive("string", None, Some(EnumValueNames(e.values)),
              Some(DefinitionDescription(comments, reference, name)),
              Some(ProtoPrinter.EnumSource(comments, e, "")))
  }

  /** How a field wraps the schema of its type. */
  function FieldSchema(comments: Comments, m: Message, f: Field, leaf: Schema): Schema {
    var comment := FieldComment(comments, f.name, m.name);
    if f.keyType.Some? then WithDescription(MapOf(leaf, None), comment)
    else if f.repeated then ArrayOf(WithDescription(leaf, comment), None)
    else WithDescription(leaf, comment)
  }

  // --- The walk ---

  /** The fields of `m` up to `n`, in order, threading the tables through. */
  ghost function WalkFields(g: Root, comments: Comments, m: Message, n: nat, visited: set<string>, t: Tables)
    : (r: (map<string, Schema>, Tables))
    requires n <= |m.fields| && RefsOfMessage(m) <= AllRefs(g) && SaneNames(t.names)
    ensures SaneNames(r.1.names) && t.definitions.Keys <= r.1.definitions.Keys
    decreases Undefined(g, t), 2, n
  {
    if n == 0 then (map[], t)
    else
      var (properties, t1) := WalkFields(g, comments, m, n - 1, visited, t);
      var f := m.fields[n - 1];
      var (leaf, t2) := WalkField(g, comments, m, f, visited, t1);
      (properties[f.name := FieldSchema(comments, m, f, leaf)], t2)
  }

  /** The schema of a field's type, before the field wraps it. */
  ghost function WalkField(g: Root, comments: Comments, m: Message, f: Field, visited: set<string>, t: Tables)
    : (r: (Schema, Tables))
    requires f in m.fields && RefsOfMessage(m) <= AllRefs(g) && SaneNames(t.names)
    ensures SaneNames(r.1.names) && t.definitions.Keys <= r.1.definitions.Keys
    decreases Undefined(g, t), 1, 0
  {
    if IsScalar(f.ty) then (ScalarSchema(f.ty).value, t)
    else Resolve(g, comments, ReferenceOf(m, f), visited, t)
  }

  /** Resolving a reference: a ref to its definition, which is generated unless begun or visited. */
  ghost function Resolve(g: Root, comments: Comments, reference: string, visited: set<string>, t: Tables)
    : (r: (Schema, Tables))
    requires reference in AllRefs(g) && SaneNames(t.names)
    ensures SaneNames(r.1.names) && t.definitions.Keys <= r.1.definitions.Keys
    decreases Undefined(g, t), 0, 1
  {
    var name := DefinitionName(g, reference, t.names);
    var t1 := t.(names := NameReference(g, reference, t.names));
    NamingKeepsNames(g, reference, t.names);
    if name in t.definitions || reference in visited || ShortName(reference) in visited then
      (Ref(name, None), t1)
    else if reference in g.types then
      (Ref(name, None), DefineMessage(g, comments, reference, name, visited, t1))
    else if reference in g.enums then
      (Ref(name, None),
       Tables(t1.definitions[name := EnumDefinition(comments, g.enums[reference], reference, name)],
              t1.names[reference := name]))
    else
      (Fallback(reference), t1)
  }

  /** Defining a message: a placeholder stands for it while its own fields are walked. */
  ghost function DefineMessage(g: Root, comments: Comments, reference: string, name: string,
                               visited: set<string>, t: Tables)
    : (r: Tables)
    requires reference in AllRefs(g) && reference in g.types && SaneNames(t.names)
    requires name in CandidateNames(reference) && name !in t.definitions
    ensures SaneNames(r.names) && t.definitions.Keys <= r.definitions.Keys
    decreases Undefined(g, t), 0, 0
  {
    var m := g.types[reference];
    BeginningShrinks(g, reference, name, t, EMPTY_OBJECT);
    MessageRefsAreRefs(g, m);
    var placeholder := t.(definitions := t.definitions[name := EMPTY_OBJECT]);
    var (properties, t1) :=
      WalkFields(g, comments, m, |m.fields|, visited + {reference, ShortName(reference)}, placeholder);
    t1.(definitions := t1.definitions[name := MessageDefinition(comments, m, reference, name, properties)])
  }

  lemma WalkUnfolds(g: Root, comments: Comments, m: Message, n: nat, visited: set<string>, t: Tables)
    requires n <= |m.fields| && RefsOfMessage(m) <= AllRefs(g) && SaneNames(t.names)
    ensures n == 0 ==> WalkFields(g, comments, m, n, visited, t) == (map[], t)
    ensures n > 0 ==>
      var f := m.fields[n - 1];
      var (properties, t1) := WalkFields(g, comments, m, n - 1, visited, t);
      var (leaf, t2) := WalkField(g, comments, m, f, visited, t1);
      WalkFields(g, comments, m, n, visited, t) == (properties[f.name := FieldSchema(comments, m, f, leaf)], t2)
  {
  }

  lemma UndefinedShrinks(g: Root, t: Tables, t': Tables)
    requires t.definitions.Keys <= t'.definitions.Keys
    ensures Undefined(g, t') <= Undefined(g, t)
  {
  }

  /** The schema of a message given directly, not through a field. */
  ghost function WalkRoot(g: Root, comments: Comments, typeName: string): (Schema, Tables) {
    if typeName !in g.types then (EMPTY_OBJECT, NO_TABLES)
    else
      var m := g.types[typeName];
      MessageRefsAreRefs(g, m);
      var (properties, t) := WalkFields(g, comments, m, |m.fields|, {}, NO_TABLES);
      (Object(properties, Required(m.fields), MessageComment(comments, ShortName(typeName)),
              Some(ProtoPrinter.MessageSource(comments, m, ""))), t)
  }

  ghost function Generate(g: Root, comments: Comments, typeName: string): RootSchema {
    if typeName == "" then RootSchema(EMPTY_OBJECT, None)
    else
      var (schema, t) := WalkRoot(g, comments, typeName);
      RootSchema(schema, if t.definitions == map[] then None else Some(t.definitions))
  }
}
