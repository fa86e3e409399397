/**
 * The schema generator in the form the service runs it: methods that update the two shared tables
 * while they walk the types. Each is proved to compute the walk of `SchemaWalk`.
 */
module SchemaGenerator {
  import opened Wrappers
  import opened Dotted
  import opened ProtoTypes
  import opened JsonSchema
  import opened SchemaWalk
  import SourcePrinter

  /** The `definitions` and `definitionNames` records of one run. */
  class DefinitionTables {
    var definitions: map<string, Schema>
    var definitionNames: map<string, string>

    constructor ()
      ensures Value() == NO_TABLES
    {
      definitions, definitionNames := map[], map[];
    }

    ghost function Value(): Tables
      reads this
    {
      Tables(definitions, definitionNames)
    }
  }

  class JsonSchemaGenerator {
    const protoRoot: Root
    const comments: Comments

    constructor (protoRoot: Root, comments: Comments)
      ensures this.protoRoot == protoRoot && this.comments == comments
    {
      this.protoRoot, this.comments := protoRoot, comments;
    }

    method GenerateSchema(typeName: string) returns (r: RootSchema)
      ensures r == Generate(protoRoot, comments, typeName)
    {
      if typeName == "" {
        return RootSchema(EMPTY_OBJECT, None);
      }
      var tables := new DefinitionTables();
      var schema := TypeToSchema(typeName, tables);
      if |tables.definitions| > 0 {
        return RootSchema(schema, Some(tables.definitions));
      }
      r := RootSchema(schema, None);
    }

    method TypeToSchema(typeName: string, tables: DefinitionTables) returns (s: Schema)
      requires tables.Value() == NO_TABLES
      modifies tables
      ensures (s, tables.Value()) == WalkRoot(protoRoot, comments, typeName)
    {
      if typeName !in protoRoot.types {
        return EMPTY_OBJECT;
      }
      var m := protoRoot.types[typeName];
      MessageRefsAreRefs(protoRoot, m);
      var properties, required := FieldsToSchemas(m, {}, tables);
      var protoSource := SourcePrinter.GenerateMessageProtoSource(comments, m, "");
      s := Object(properties, required, MessageComment(comments, ShortName(typeName)), Some(protoSource));
    }

    /** The loop over the fields of a message, filling in its properties and required names. */
    method FieldsToSchemas(m: Message, visited: set<string>, tables: DefinitionTables)
      returns (properties: map<string, Schema>, required: seq<string>)
      requires RefsOfMessage(m) <= AllRefs(protoRoot) && SaneNames(tables.definitionNames)
      modifies tables
      ensures (properties, tables.Value())
           == WalkFields(protoRoot, comments, m, |m.fields|, visited, old(tables.Value()))
      ensures required == Required(m.fields)
      decreases Undefined(protoRoot, tables.Value()), 2, 0
    {
      properties, required := map[], [];
      ghost var t0 := tables.Value();
      var i := 0;
      while i < |m.fields|
        invariant 0 <= i <= |m.fields|
        invariant (properties, tables.Value()) == WalkFields(protoRoot, comments, m, i, visited, t0)
        invariant required == Required(m.fields[..i])
      {
        var field := m.fields[i];
        assert Undefined(protoRoot, tables.Value()) <= Undefined(protoRoot, t0);
        var property := FieldToSchema(field, m, visited, tables);
        properties := properties[field.name := property];
        if !ExplicitlyOptional(field) && !field.repeated {
          required := required + [field.name];
        }
        assert m.fields[..i + 1][..i] == m.fields[..i];
        i := i + 1;
      }
      assert m.fields[..i] == m.fields;
    }

    method FieldToSchema(field: Field, parent: Message, visited: set<string>, tables: DefinitionTables)
      returns (s: Schema)
      requires field in parent.fields && RefsOfMessage(parent) <= AllRefs(protoRoot)
      requires SaneNames(tables.definitionNames)
      modifies tables
      ensures var (leaf, t) := WalkField(protoRoot, comments, parent, field, visited, old(tables.Value()));
        s == FieldSchema(comments, parent, field, leaf) && tables.Value() == t
      decreases Undefined(protoRoot, tables.Value()), 1, 1
    {
      if field.keyType.Some? {
        s := MapFieldToSchema(field, parent, visited, tables);
        return;
      }
      if ScalarSchema(field.ty).Some? {
        s := ScalarSchema(field.ty).value;
      } else {
        s := ResolveComplexType(ReferenceOf(parent, field), visited, tables);
      }
      s := AddFieldDescription(s, field.name, parent.name);
      if field.repeated {
        s := ArrayOf(s, None);
      }
    }

    method MapFieldToSchema(field: Field, parent: Message, visited: set<string>, tables: DefinitionTables)
      returns (s: Schema)
      requires field.keyType.Some? && field in parent.fields && RefsOfMessage(parent) <= AllRefs(protoRoot)
      requires SaneNames(tables.definitionNames)
      modifies tables
      ensures var (leaf, t) := WalkField(protoRoot, comments, parent, field, visited, old(tables.Value()));
        s == FieldSchema(comments, parent, field, leaf) && tables.Value() == t
      decreases Undefined(protoRoot, tables.Value()), 1, 0
    {
      var valueSchema;
      if ScalarSchema(field.ty).Some? {
        valueSchema := ScalarSchema(field.ty).value;
      } else {
        valueSchema := ResolveComplexType(ReferenceOf(parent, field), visited, tables);
      }
      s := AddFieldDescription(MapOf(valueSchema, None), field.name, parent.name);
    }

    function AddFieldDescription(s: Schema, fieldName: string, parentName: string): Schema {
      WithDescription(s, FieldComment(comments, fieldName, parentName))
    }

    method ResolveComplexType(typeName: string, visited: set<string>, tables: DefinitionTables)
      returns (s: Schema)
      requires typeName in AllRefs(protoRoot) && SaneNames(tables.definitionNames)
      modifies tables
      ensures (s, tables.Value()) == Resolve(protoRoot, comments, typeName, visited, old(tables.Value()))
      decreases Undefined(protoRoot, tables.Value()), 0, 1
    {
      var shortName := ShortName(typeName);
      ghost var t0 := tables.Value();
      NamingKeepsNames(protoRoot, typeName, t0.names);
      var definitionName :=
        GetDefinitionName(typeName, shortName, tables, typeName in protoRoot.insideMessage);
      if definitionName in tables.definitions {
        return Ref(definitionName, None);
      }
      if typeName in visited || shortName in visited {
        return Ref(definitionName, None);
      }
      if typeName in protoRoot.types {
        s := ResolveMessageType(protoRoot.types[typeName], typeName, definitionName, visited, tables);
      } else {
        s := TryResolveEnumType(typeName, definitionName, tables);
      }
    }

    method GetDefinitionName(fullName: string, shortName: string, tables: DefinitionTables, isNestedType: bool)
      returns (name: string)
      requires shortName == ShortName(fullName) && isNestedType == (fullName in protoRoot.insideMessage)
      modifies tables`definitionNames
      ensures name == DefinitionName(protoRoot, fullName, old(tables.definitionNames))
      ensures tables.definitionNames == NameReference(protoRoot, fullName, old(tables.definitionNames))
    {
      ghost var names := tables.definitionNames;
      if fullName in tables.definitionNames && tables.definitionNames[fullName] != "" {
        return tables.definitionNames[fullName];
      }
      if isNestedType {
        name := LastTwo(fullName);
        tables.definitionNames := tables.definitionNames[fullName := name];
        return;
      }
      var unchecked := tables.definitionNames.Keys;
      while unchecked != {}
        invariant unchecked <= names.Keys && tables.definitionNames == names
        invariant forall other :: other in names && names[other] == shortName && other != fullName
                    ==> other in unchecked
      {
        var existing :| existing in unchecked;
        if tables.definitionNames[existing] == shortName && existing != fullName {
          assert NameTaken(names, fullName, shortName);
          name := fullName;
          tables.definitionNames := tables.definitionNames[fullName := name];
          return;
        }
        unchecked := unchecked - {existing};
      }
      assert !NameTaken(names, fullName, shortName);
      name := shortName;
      tables.definitionNames := tables.definitionNames[fullName := name];
    }

    method ResolveMessageType(nestedType: Message, typeName: string, definitionName: string,
                              visited: set<string>, tables: DefinitionTables)
      returns (s: Schema)
      requires typeName in AllRefs(protoRoot) && SaneNames(tables.definitionNames)
      requires typeName in protoRoot.types && nestedType == protoRoot.types[typeName]
      requires definitionName in CandidateNames(typeName) && definitionName !in tables.definitions
      modifies tables
      ensures s == Ref(definitionName, None)
      ensures tables.Value()
           == DefineMessage(protoRoot, comments, typeName, definitionName, visited, old(tables.Value()))
      decreases Undefined(protoRoot, tables.Value()), 0, 0
    {
      ghost var t0 := tables.Value();
      BeginningShrinks(protoRoot, typeName, definitionName, t0, EMPTY_OBJECT);
      MessageRefsAreRefs(protoRoot, nestedType);
      var newVisited := visited + {typeName, ShortName(typeName)};
      tables.definitions := tables.definitions[definitionName := EMPTY_OBJECT];
      var properties, required := FieldsToSchemas(nestedType, newVisited, tables);
      var protoSource := SourcePrinter.GenerateMessageProtoSource(comments, nestedType, "");
      tables.definitions := tables.definitions[definitionName :=
        Object(properties, required, Some(DefinitionDescription(comments, typeName, definitionName)),
               Some(protoSource))];
      s := Ref(definitionName, None);
    }

    method TryResolveEnumType(typeName: string, definitionName: string, tables: DefinitionTables)
      returns (s: Schema)
      modifies tables
      ensures typeName in protoRoot.enums ==>
        && s == Ref(definitionName, None)
        && tables.definitionNames == old(tables.definitionNames)[typeName := definitionName]
        && tables.definitions == old(tables.definitions)[definitionName :=
             EnumDefinition(comments, protoRoot.enums[typeName], typeName, definitionName)]
      ensures typeName !in protoRoot.enums ==>
        s == Fallback(typeName) && tables.Value() == old(tables.Value())
    {
      if typeName in protoRoot.enums {
        var enumType := protoRoot.enums[typeName];
        tables.definitionNames := tables.definitionNames[typeName := definitionName];
        var protoSource := SourcePrinter.GenerateEnumProtoSource(comments, enumType, "");
        tables.definitions := tables.definitions[definitionName :=
          Primitive("string", None, Some(EnumValueNames(enumType.values)),
                    Some(DefinitionDescription(comments, typeName, definitionName)), Some(protoSource))];
        return Ref(definitionName, None);
      }
      s := Fallback(typeName);
    }
  }
}
