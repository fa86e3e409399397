/**
 * Meaning of a generated schema: following its references to any depth gives the same shape as
 * following the message types themselves.
 */
module SchemaMeaning {
  import opened Wrappers
  import opened ProtoTypes
  import opened JsonSchema
  import opened SchemaWalk
  import opened SchemaTheorems
  import opened SchemaClosure
  import opened SchemaExactness

  /**
   * A schema without references, descriptions and source text. `Cut` marks the depth at which the
   * expansion stopped, `Dangling` a reference without a definition.
   */
  datatype Shape =
    | Cut
    | Dangling
    | ScalarShape(jsonType: string, format: Option<string>)
    | EnumShape(names: seq<string>)
    | ObjectShape(properties: map<string, Shape>, required: set<string>)
    | ArrayShape(items: Shape)
    | MapShape(values: Shape)

  /** Expanding a schema: every `$ref` followed into `definitions` costs one level. */
  function ExpandSchema(s: Schema, definitions: map<string, Schema>, levels: nat): Shape
    decreases levels, s
  {
    match s
    case Ref(d, _) =>
      if levels == 0 then Cut
      else if d in definitions then ExpandSchema(definitions[d], definitions, levels - 1)
      else Dangling
    case ArrayOf(items, _) => ArrayShape(ExpandSchema(items, definitions, levels))
    case Primitive(ty, format, values, _, _) =>
      if values.Some? then EnumShape(values.value) else ScalarShape(ty, format)
    case Object(properties, required, _, _) =>
      ObjectShape(map k | k in properties :: ExpandSchema(properties[k], definitions, levels),
                  set n | n in required)
    case MapOf(values, _) => MapShape(ExpandSchema(values, definitions, levels))
  }

  // --- The same expansion on the types, without any definition or name ---

  /** The JSON form of a scalar: which kind of value its type stands for. */
  function ScalarMeaning(ty: string): Shape {
    if ty == "bool" then ScalarShape("boolean", None)
    else if ty == "string" then ScalarShape("string", None)
    else if ty == "bytes" then ScalarShape("string", Some("byte"))
    else if ty in {"double", "float"} then ScalarShape("number", None)
    else ScalarShape("integer", None)
  }

  /** The names of an enum, in the order of their declaration. */
  function EnumMeaning(e: Enum): Shape {
    EnumShape(seq(|e.values|, i requires 0 <= i < |e.values| => e.values[i].0))
  }

  function ExpandReference(g: Root, reference: string, levels: nat): Shape
    decreases levels, 0
  {
    if !Resolvable(g, reference) then ExpandSchema(Fallback(reference), map[], levels)
    else if levels == 0 then Cut
    else if reference in g.types then ExpandMessage(g, g.types[reference], levels - 1)
    else EnumMeaning(g.enums[reference])
  }

  function ExpandField(g: Root, m: Message, f: Field, levels: nat): Shape
    decreases levels, 1
  {
    var leaf :=
      if IsBuiltin(f.ty) then ScalarMeaning(f.ty)
      else ExpandReference(g, ReferenceOf(m, f), levels);
    if f.keyType.Some? then MapShape(leaf)
    else if f.repeated then ArrayShape(leaf)
    else leaf
  }

  function ExpandFields(g: Root, m: Message, n: nat, levels: nat): map<string, Shape>
    requires n <= |m.fields|
    decreases levels, 2, n
  {
    if n == 0 then map[]
    else ExpandFields(g, m, n - 1, levels)[m.fields[n - 1].name := ExpandField(g, m, m.fields[n - 1], levels)]
  }

  /** A field that every JSON object of its message has: neither a list nor written `optional`. */
  predicate AlwaysPresent(f: Field) {
    !f.repeated && !(f.partOf.Some? && "_" <= f.partOf.value)
  }

  function ExpandMessage(g: Root, m: Message, levels: nat): Shape
    decreases levels, 3
  {
    ObjectShape(ExpandFields(g, m, |m.fields|, levels), set f | f in m.fields && AlwaysPresent(f) :: f.name)
  }

  /** The shape of the named type; an unknown or empty name stands for an object without fields. */
  function ExpandType(g: Root, typeName: string, levels: nat): Shape {
    if typeName == "" || typeName !in g.types then ObjectShape(map[], {})
    else ExpandMessage(g, g.types[typeName], levels)
  }

  // --- Their agreement ---

  lemma ScalarAgrees(ty: string, d: map<string, Schema>, levels: nat)
    ensures IsScalar(ty) <==> IsBuiltin(ty)
    ensures IsScalar(ty) ==> ExpandSchema(ScalarSchema(ty).value, d, levels) == ScalarMeaning(ty)
  {
  }

  lemma {:induction false} RequiredHolds(fields: seq<Field>, name: string)
    ensures name in Required(fields) <==> exists f :: f in fields && f.name == name && AlwaysPresent(f)
  {
    if fields != [] {
      var before, last := fields[..|fields| - 1], fields[|fields| - 1];
      RequiredHolds(before, name);
      assert fields == before + [last];
      assert last in fields;
    }
  }

  lemma RequiredAgrees(fields: seq<Field>)
    ensures (set n | n in Required(fields)) == set f | f in fields && AlwaysPresent(f) :: f.name
  {
    hide Required, AlwaysPresent;
    forall name
      ensures name in Required(fields) <==> exists f :: f in fields && f.name == name && AlwaysPresent(f)
    {
      RequiredHolds(fields, name);
    }
  }

  /** An object with the required names of its message. */
  lemma ExpandedObject(s: Schema, d: map<string, Schema>, levels: nat)
    requires s.Object?
    ensures ExpandSchema(s, d, levels)
         == ObjectShape(map k | k in s.properties :: ExpandSchema(s.properties[k], d, levels),
                        set n | n in s.required)
  {
  }

  lemma {:induction false} WithoutReferences(s: Schema, definitions: map<string, Schema>, levels: nat)
    requires ReferenceFree(s)
    ensures ExpandSchema(s, definitions, levels) == ExpandSchema(s, map[], levels)
  {
    match s
    case Ref(_, _) =>
    case Primitive(_, _, _, _, _) =>
    case ArrayOf(items, _) => WithoutReferences(items, definitions, levels);
    case MapOf(values, _) => WithoutReferences(values, definitions, levels);
    case Object(properties, _, _, _) =>
      forall k | k in properties
        ensures ExpandSchema(properties[k], definitions, levels) == ExpandSchema(properties[k], map[], levels)
      {
        WithoutReferences(properties[k], definitions, levels);
      }
  }

  /** A field of a scalar type has the JSON form of the scalar. */
  lemma ScalarFieldAgrees(g: Root, comments: Comments, m: Message, f: Field, d: map<string, Schema>, levels: nat)
    ensures IsScalar(f.ty) <==> IsBuiltin(f.ty)
    ensures IsScalar(f.ty) ==>
              ExpandSchema(FieldSchema(comments, m, f, ScalarSchema(f.ty).value), d, levels)
                  == ExpandField(g, m, f, levels)
  {
    ScalarAgrees(f.ty, d, levels);
    if IsScalar(f.ty) {
      var leaf := ScalarSchema(f.ty).value;
      hide ScalarSchema, FieldSchema, IsBuiltin, ScalarMeaning;
      WrappingAgrees(comments, m, f, leaf, d, levels);
    }
  }

  /** A canonical leaf expands like the type it stands for. */
  lemma {:induction false} LeafAgrees(g: Root, comments: Comments, w: set<string>, definitions: map<string, Schema>,
                                      m: Message, f: Field, levels: nat)
    requires f in m.fields && Closed(g, w) && RefsOfMessage(m) <= w && Exactly(g, comments, w, definitions)
    ensures ExpandSchema(FieldSchema(comments, m, f, CanonicalLeaf(g, f.ty, ReferenceOf(m, f))), definitions, levels)
         == ExpandField(g, m, f, levels)
    decreases levels, 1
  {
    var reference := ReferenceOf(m, f);
    var leaf := CanonicalLeaf(g, f.ty, reference);
    ScalarFieldAgrees(g, comments, m, f, definitions, levels);
    hide MessageDefinition, EnumDefinition, CanonicalDefinition, ScalarSchema, Fallback, FieldSchema;
    hide IsScalar, IsBuiltin, ScalarMeaning, ReferenceOf;
    if IsScalar(f.ty) {
    } else if !Resolvable(g, reference) {
      FallbackHasNoReferences(reference);
      WithoutReferences(leaf, definitions, levels);
    } else {
      assert reference in w;
      if levels > 0 {
        DefinitionAgrees(g, comments, w, definitions, reference, levels - 1);
      }
    }
    WrappingAgrees(comments, m, f, leaf, definitions, levels);
  }

  /** A field wraps the shape of its leaf the way it wraps the schema. */
  lemma WrappingAgrees(comments: Comments, m: Message, f: Field, leaf: Schema,
                       definitions: map<string, Schema>, levels: nat)
    ensures ExpandSchema(FieldSchema(comments, m, f, leaf), definitions, levels)
         == var shape := ExpandSchema(leaf, definitions, levels);
            if f.keyType.Some? then MapShape(shape)
            else if f.repeated then ArrayShape(shape)
            else shape
  {
    var comment := FieldComment(comments, f.name, m.name);
  }

  lemma {:induction false} DefinitionAgrees(g: Root, comments: Comments, w: set<string>,
                                            definitions: map<string, Schema>, reference: string, levels: nat)
    requires Closed(g, w) && reference in w && Resolvable(g, reference) && Exactly(g, comments, w, definitions)
    ensures ExpandSchema(CanonicalDefinition(g, comments, reference), definitions, levels)
         == if reference in g.types then ExpandMessage(g, g.types[reference], levels)
            else EnumMeaning(g.enums[reference])
    decreases levels, 3
  {
    hide Exactly, DefinitionDescription, ExpandFields, CanonicalProperties, Required, AlwaysPresent;
    if reference in g.types {
      var m := g.types[reference];
      assert RefsOf(g, reference) <= w;
      PropertiesAgree(g, comments, w, definitions, m, |m.fields|, levels);
      RequiredAgrees(m.fields);
      ExpandedObject(CanonicalDefinition(g, comments, reference), definitions, levels);
    }
  }

  lemma {:induction false} PropertiesAgree(g: Root, comments: Comments, w: set<string>,
                                           definitions: map<string, Schema>, m: Message, n: nat, levels: nat)
    requires n <= |m.fields|
    requires Closed(g, w) && RefsOfMessage(m) <= w && Exactly(g, comments, w, definitions)
    ensures var properties := CanonicalProperties(g, comments, m, n);
      (map k | k in properties :: ExpandSchema(properties[k], definitions, levels)) == ExpandFields(g, m, n, levels)
    decreases levels, 2, n
  {
    hide Exactly, FieldSchema, CanonicalLeaf, ExpandField, Closed, RefsOfMessage;
    if n > 0 {
      PropertiesAgree(g, comments, w, definitions, m, n - 1, levels);
      LeafAgrees(g, comments, w, definitions, m, m.fields[n - 1], levels);
    }
  }

  /** The closed-form root schema, expanded with exact definitions, has the shape of its type. */
  lemma RootAgrees(g: Root, comments: Comments, w: set<string>, definitions: map<string, Schema>,
                   typeName: string, levels: nat)
    requires Closed(g, w) && TopRefs(g, typeName) <= w && Exactly(g, comments, w, definitions)
    ensures ExpandSchema(CanonicalRoot(g, comments, typeName), definitions, levels) == ExpandType(g, typeName, levels)
  {
    hide Exactly, CanonicalProperties, ExpandFields, Required, AlwaysPresent;
    if typeName != "" && typeName in g.types {
      var m := g.types[typeName];
      PropertiesAgree(g, comments, w, definitions, m, |m.fields|, levels);
      RequiredAgrees(m.fields);
      ExpandedObject(CanonicalRoot(g, comments, typeName), definitions, levels);
    }
  }

  /**
   * For every type graph, cyclic ones included, whose reachable references can be told apart, and
   * for every depth: expanding the generated schema gives the shape of the type.
   */
  lemma MeaningIsPreserved(g: Root, comments: Comments, typeName: string, levels: nat)
    requires Distinguishable(Reach(g, typeName))
    ensures var r := Generate(g, comments, typeName);
      ExpandSchema(r.schema, r.Definitions(), levels) == ExpandType(g, typeName, levels)
  {
    GeneratedExactly(g, comments, typeName);
    ReachIsClosed(g, typeName);
    RootAgrees(g, comments, Reach(g, typeName), Generate(g, comments, typeName).Definitions(), typeName, levels);
  }
}
