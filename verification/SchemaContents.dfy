/**
 * What the entries of a generated schema hold, in terms of the declarations alone: required names,
 * comments, enum values, and the declarations that references name.
 */
module SchemaContents {
  import opened Wrappers
  import opened Dotted
  import opened ProtoTypes
  import opened JsonSchema
  import opened SchemaWalk
  import opened SchemaTheorems
  import opened SchemaMeaning
  import opened SchemaShadowing

  // --- Required names ---

  /** The names of the fields that are neither lists nor in a oneof named with an underscore, as they are declared. */
  ghost predicate ListsRequired(fields: seq<Field>, required: seq<string>) {
    && (forall name :: name in required <==>
          exists f :: f in fields && f.name == name && !f.repeated && !(f.partOf.Some? && "_" <= f.partOf.value))
    && InOrder(fields, required)
    && (KeyedByName(fields) ==> forall i, j :: 0 <= i < j < |required| ==> required[i] != required[j])
  }

  /** Of two names, the one that stands first belongs to the field that is declared first. */
  ghost predicate InOrder(fields: seq<Field>, required: seq<string>) {
    forall i, j :: 0 <= i < j < |required| ==>
      exists p, q :: 0 <= p < q < |fields| && fields[p].name == required[i] && fields[q].name == required[j]
  }

  lemma {:induction false} RequiredInOrder(fields: seq<Field>)
    ensures InOrder(fields, Required(fields))
    ensures forall i :: 0 <= i < |Required(fields)| ==>
        exists p :: 0 <= p < |fields| && fields[p].name == Required(fields)[i]
  {
    hide ExplicitlyOptional;
    if fields != [] {
      var before, last := fields[..|fields| - 1], fields[|fields| - 1];
      RequiredInOrder(before);
      var r, r' := Required(before), Required(fields);
      forall i | 0 <= i < |r'|
        ensures exists p :: 0 <= p < |fields| && fields[p].name == r'[i]
        ensures i < |r| ==> exists p :: 0 <= p < |fields| - 1 && fields[p].name == r'[i]
      {
        if i < |r| {
          var p :| 0 <= p < |before| && before[p].name == r[i];
          assert fields[p].name == r'[i];
        } else {
          assert fields[|fields| - 1].name == r'[i];
        }
      }
      forall i, j | 0 <= i < j < |r'|
        ensures exists p, q :: 0 <= p < q < |fields| && fields[p].name == r'[i] && fields[q].name == r'[j]
      {
        if j < |r| {
          var p, q :| 0 <= p < q < |before| && before[p].name == r[i] && before[q].name == r[j];
          assert fields[p].name == r'[i] && fields[q].name == r'[j];
        } else {
          var p :| 0 <= p < |fields| - 1 && fields[p].name == r'[i];
          assert fields[p].name == r'[i] && fields[|fields| - 1].name == r'[j];
        }
      }
    }
  }

  lemma RequiredIsListed(fields: seq<Field>)
    ensures ListsRequired(fields, Required(fields))
  {
    RequiredInOrder(fields);
    hide Required;
    forall name
      ensures name in Required(fields) <==>
              exists f :: f in fields && f.name == name && !f.repeated && !(f.partOf.Some? && "_" <= f.partOf.value)
    {
      RequiredHolds(fields, name);
    }
  }

  // --- Comments ---

  /** The comment on a field: under its full key, or else under the last component of a dotted message name. */
  ghost predicate CommentOn(comments: Comments, m: Message, f: Field, c: Option<string>) {
    var key, short := m.name + "." + f.name, LastComponent(m.name) + "." + f.name;
    if key in comments.fields && comments.fields[key] != "" then c == Some(comments.fields[key])
    else if '.' in m.name && short in comments.fields && comments.fields[short] != ""
    then c == Some(comments.fields[short])
    else c == None
  }

  /** A commented field carries its comment: a list on its items, anything else on itself. */
  ghost predicate CarriesComment(comments: Comments, m: Message, f: Field, p: Schema) {
    if f.keyType.None? && f.repeated then
      p.ArrayOf? && p.description == None
      && forall c :: CommentOn(comments, m, f, c) && c.Some? ==> p.items.description == c
    else
      (f.keyType.Some? ==> p.MapOf?)
      && forall c :: CommentOn(comments, m, f, c) && (c.Some? || f.keyType.Some?) ==> p.description == c
  }

  lemma FieldCarriesComment(comments: Comments, m: Message, f: Field, leaf: Schema)
    ensures CarriesComment(comments, m, f, FieldSchema(comments, m, f, leaf))
  {
    assert CommentOn(comments, m, f, FieldComment(comments, f.name, m.name));
  }

  /** A description that begins with the name under which the type is defined, and goes on with its comment. */
  ghost predicate Describes(comments: Comments, reference: string, name: string, description: Option<string>) {
    var short := ShortName(reference);
    if short in comments.messages && comments.messages[short] != ""
    then description == Some(name + "\n" + comments.messages[short])
    else description == Some(name)
  }

  // --- Whole schemas ---

  /** `s` tells what is declared in `m`. */
  ghost predicate Tells(comments: Comments, m: Message, s: Schema) {
    && s.Object? && ListsRequired(m.fields, s.required)
    && s.properties.Keys == (set f | f in m.fields :: f.name)
    && (KeyedByName(m.fields) ==>
          forall f :: f in m.fields ==> f.name in s.properties && CarriesComment(comments, m, f, s.properties[f.name]))
  }

  lemma TranslatedTells(g: Root, comments: Comments, m: Message, names: map<string, string>, s: Schema)
    requires s.Object? && s.required == Required(m.fields)
    requires PropertiesTranslated(g, comments, m, m.fields, names, s.properties)
    ensures Tells(comments, m, s)
  {
    RequiredIsListed(m.fields);
    hide ListsRequired, Required, CarriesComment, FieldTranslated;
    if KeyedByName(m.fields) {
      forall f | f in m.fields
        ensures f.name in s.properties && CarriesComment(comments, m, f, s.properties[f.name])
      {
        PropertyCarriesComment(g, comments, m, names, s.properties, f);
      }
    }
  }

  lemma PropertyCarriesComment(g: Root, comments: Comments, m: Message, names: map<string, string>,
                               properties: map<string, Schema>, f: Field)
    requires PropertiesTranslated(g, comments, m, m.fields, names, properties)
    requires KeyedByName(m.fields) && f in m.fields
    ensures f.name in properties && CarriesComment(comments, m, f, properties[f.name])
  {
    hide CarriesComment, FieldTranslated;
    assert f.name in properties;
    var e :| e in m.fields && e.name == f.name && FieldTranslated(g, comments, m, e, names, properties[f.name]);
    assert e == f;
    TranslatedCarriesComment(g, comments, m, f, names, properties[f.name]);
  }

  lemma TranslatedCarriesComment(g: Root, comments: Comments, m: Message, f: Field, names: map<string, string>,
                                 p: Schema)
    requires FieldTranslated(g, comments, m, f, names, p)
    ensures CarriesComment(comments, m, f, p)
  {
    hide ScalarSchema, Fallback, FieldSchema, CarriesComment;
    var reference := ReferenceOf(m, f);
    if IsScalar(f.ty) {
      FieldCarriesComment(comments, m, f, ScalarSchema(f.ty).value);
    } else if p == FieldSchema(comments, m, f, Fallback(reference)) {
      FieldCarriesComment(comments, m, f, Fallback(reference));
    } else {
      FieldCarriesComment(comments, m, f, Ref(names[reference], None));
    }
  }

  /** A record of definitions is never empty: without definitions the key is left out. */
  lemma NoEmptyRecord(g: Root, comments: Comments, typeName: string)
    ensures Generate(g, comments, typeName).definitions != Some(map[])
    ensures typeName == "" || typeName !in g.types ==> Generate(g, comments, typeName) == RootSchema(EMPTY_OBJECT, None)
  {
  }

  /** For every graph: the root schema tells what its message declares, and carries its comment. */
  lemma RootTells(g: Root, comments: Comments, typeName: string)
    requires typeName != "" && typeName in g.types
    ensures var s := Generate(g, comments, typeName).schema;
      && Tells(comments, g.types[typeName], s)
      && var short := ShortName(typeName);
      s.description == if short in comments.messages && comments.messages[short] != ""
                       then Some(comments.messages[short]) else None
  {
    RootIsTranslated(g, comments, typeName);
    hide Tells, PropertiesTranslated;
    TranslatedTells(g, comments, g.types[typeName], FinalNames(g, comments, typeName),
                    Generate(g, comments, typeName).schema);
  }

  /**
   * For every graph: each definition is that of a reachable message or enum, and tells what it
   * declares: fields and required names, comments, and the values of an enum in their order.
   */
  lemma DefinitionsTell(g: Root, comments: Comments, typeName: string, key: string)
    requires key in Generate(g, comments, typeName).Definitions()
    ensures var (names, s) := (FinalNames(g, comments, typeName), Generate(g, comments, typeName).Definitions()[key]);
      exists r :: r in Reach(g, typeName) && r in names && names[r] == key && TellsOf(g, comments, r, key, s)
  {
    NoPlaceholderSurvives(g, comments, typeName);
    var names, s := FinalNames(g, comments, typeName), Generate(g, comments, typeName).Definitions()[key];
    hide Reach, Generate, FinalNames, Finished;
    var r :| r in Reach(g, typeName) && Finished(g, comments, names, r, key, s);
    FinishedTells(g, comments, names, r, key, s);
  }

  /** What the definition `s` of `r` under the name `key` has to tell. */
  ghost predicate TellsOf(g: Root, comments: Comments, r: string, key: string, s: Schema) {
    if r in g.types then Tells(comments, g.types[r], s) && Describes(comments, r, key, s.description)
    else
      && r in g.enums && s.Primitive? && s.jsonType == "string" && s.enumValues.Some?
      && |s.enumValues.value| == |g.enums[r].values|
      && (forall i :: 0 <= i < |g.enums[r].values| ==> s.enumValues.value[i] == g.enums[r].values[i].0)
      && Describes(comments, r, key, s.description)
  }

  lemma FinishedTells(g: Root, comments: Comments, names: map<string, string>, r: string, key: string, s: Schema)
    requires Finished(g, comments, names, r, key, s)
    ensures r in names && names[r] == key && TellsOf(g, comments, r, key, s)
  {
    hide Tells, PropertiesTranslated, ShortName, Required;
    if r in g.types {
      TranslatedTells(g, comments, g.types[r], names, s);
    }
  }

  // --- Types that no file declares ---

  /** The scalar that a message of Google's wraps. */
  function Wrapped(reference: string): Option<string> {
    match reference
    case "google.protobuf.BoolValue" => Some("bool")
    case "google.protobuf.BytesValue" => Some("bytes")
    case "google.protobuf.DoubleValue" => Some("double")
    case "google.protobuf.FloatValue" => Some("float")
    case "google.protobuf.Int32Value" => Some("int32")
    case "google.protobuf.Int64Value" => Some("int64")
    case "google.protobuf.UInt32Value" => Some("uint32")
    case "google.protobuf.UInt64Value" => Some("uint64")
    case "google.protobuf.StringValue" => Some("string")
    case _ => None
  }

  /** A wrapper that no file declares has the JSON type of the scalar it wraps. */
  lemma WrapperExactly(reference: string, levels: nat)
    requires Wrapped(reference).Some?
    ensures ExpandSchema(Fallback(reference), map[], levels) == ScalarMeaning(Wrapped(reference).value)
  {
    WrapperIs(reference);
    hide Fallback, ScalarMeaning, Wrapped;
  }

  lemma WrapperIs(reference: string)
    requires Wrapped(reference).Some?
    ensures var s := Fallback(reference);
      s.Primitive? && s.enumValues.None? && ScalarShape(s.jsonType, s.format) == ScalarMeaning(Wrapped(reference).value)
  {
    match reference
    case "google.protobuf.BoolValue" =>
    case "google.protobuf.BytesValue" =>
    case "google.protobuf.DoubleValue" =>
    case "google.protobuf.FloatValue" =>
    case "google.protobuf.StringValue" =>
    case "google.protobuf.Int32Value" =>
    case "google.protobuf.Int64Value" =>
    case "google.protobuf.UInt32Value" =>
    case "google.protobuf.UInt64Value" =>
    case _ =>
  }

  /**
   * What stands for another undeclared type: points and spans of time and field masks are text, lists
   * are lists, and anything else is an object without required fields.
   */
  lemma UndeclaredExactly(reference: string, levels: nat)
    requires Wrapped(reference).None?
    ensures var shape := ExpandSchema(Fallback(reference), map[], levels);
      if reference == "google.protobuf.Timestamp" then shape == ScalarShape("string", Some("date-time"))
      else if reference == "google.protobuf.Duration" || reference == "google.protobuf.FieldMask"
      then shape == ScalarShape("string", None)
      else if reference == "google.protobuf.ListValue" then shape == ArrayShape(ObjectShape(map[], {}))
      else shape.ObjectShape? && shape.required == {}
           && shape.properties.Keys == if reference == "google.protobuf.Any" then {"@type"} else {}
  {
    ExpandedObject(EMPTY_OBJECT, map[], levels);
    var empty := ExpandSchema(EMPTY_OBJECT, map[], levels);
    assert empty == ObjectShape(map[], {});
    match reference
    case "google.protobuf.Timestamp" =>
    case "google.protobuf.Duration" =>
    case "google.protobuf.FieldMask" =>
    case "google.protobuf.ListValue" =>
      assert Fallback(reference).items == EMPTY_OBJECT;
    case _ =>
      var s := Fallback(reference);
      assert s.Object? && s.required == [];
      ExpandedObject(s, map[], levels);
  }

  // --- What a reference names ---

  /**
   * The declaration named by the type of a field: the one that the parser resolved, its leading dot
   * dropped; else, for a name without a dot, the message of that name nested in the same message;
   * else the type as it is written.
   */
  lemma ReferenceExactly(m: Message, f: Field)
    ensures forall x :: x != "" && f.resolvedFullName == Some("." + x) ==> ReferenceOf(m, f) == x
    ensures forall x :: x != "" && x[0] != '.' && f.resolvedFullName == Some(x) ==> ReferenceOf(m, f) == x
    ensures f.resolvedFullName.None? && '.' in f.ty ==> ReferenceOf(m, f) == f.ty
    ensures f.resolvedFullName.None? && !('.' in f.ty) ==>
              forall i :: 0 <= i < |m.nested| && IsDeclared(m.nested, i, f.ty) ==>
                if m.nested[i].MessageDecl? then
                  var full := m.nested[i].message.fullName;
                  full == "." + ReferenceOf(m, f) || (!("." <= full) && full == ReferenceOf(m, f))
                else ReferenceOf(m, f) == f.ty
    ensures f.resolvedFullName.None? && !(exists i :: 0 <= i < |m.nested| && NameIn(m.nested[i]) == f.ty) ==>
              ReferenceOf(m, f) == f.ty
  {
    forall i | 0 <= i < |m.nested| && IsDeclared(m.nested, i, f.ty)
      ensures FindNested(m.nested, f.ty) == Some(m.nested[i])
    {
      NestedIsFound(m.nested, i, f.ty);
    }
    if forall i :: 0 <= i < |m.nested| ==> NameIn(m.nested[i]) != f.ty {
      NothingIsFound(m.nested, f.ty);
    }
    assert forall x: string {:trigger "." + x} :: ("." + x)[1..] == x;
  }

  /** The name under which a declaration stands. */
  function NameIn(d: Decl): string {
    if d.MessageDecl? then d.message.name else if d.EnumDecl? then d.enum.name else d.otherName
  }

  /** The declaration kept under `name`: no later one has the name. */
  ghost predicate IsDeclared(nested: seq<Decl>, i: nat, name: string)
    requires i < |nested|
  {
    NameIn(nested[i]) == name && forall j :: i < j < |nested| ==> NameIn(nested[j]) != name
  }

  lemma {:induction false} NestedIsFound(nested: seq<Decl>, i: nat, name: string)
    requires i < |nested| && IsDeclared(nested, i, name)
    ensures FindNested(nested, name) == Some(nested[i])
  {
    if i < |nested| - 1 {
      assert DeclName(nested[|nested| - 1]) == NameIn(nested[|nested| - 1]);
      NestedIsFound(nested[..|nested| - 1], i, name);
    }
  }

  lemma {:induction false} NothingIsFound(nested: seq<Decl>, name: string)
    requires forall i :: 0 <= i < |nested| ==> NameIn(nested[i]) != name
    ensures FindNested(nested, name) == None
  {
    if nested != [] {
      assert DeclName(nested[|nested| - 1]) == NameIn(nested[|nested| - 1]);
      NothingIsFound(nested[..|nested| - 1], name);
    }
  }
}
