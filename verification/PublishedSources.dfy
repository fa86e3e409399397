/** The source texts published with the generated definitions. */
module PublishedSources {
  import opened Wrappers
  import opened ProtoTypes
  import opened JsonSchema
  import opened SchemaWalk
  import opened SchemaTheorems
  import opened ProtoReader
  import opened ProtoRoundTrip
  import opened PrintedComments

  /** `definition` carries a source text that reads back as the message or enum `reference` stands for. */
  ghost predicate ReadsBack(g: Root, comments: Comments, reference: string, definition: Schema) {
    if reference in g.types then
      && definition.Object? && definition.protoSource.Some?
      && (PrintableNames(g.types[reference]) ==>
            (ReadSource(definition.protoSource.value) == Some(Expected(g.types[reference]))
             <==> IgnorableComments(comments, g.types[reference])))
    else
      && reference in g.enums && definition.Primitive? && definition.protoSource.Some?
      && (PrintableEnumNames(g.enums[reference]) ==>
            (ReadEnumSource(definition.protoSource.value) == Some(ExpectedEnum(g.enums[reference]))
             <==> IgnorableComment(comments, g.enums[reference].name)))
  }

  /**
   * Every definition is the finished one of the reachable message or enum named by its key, and the
   * source text it carries reads back as that message or enum exactly when the comments allow.
   */
  lemma DefinitionsReadBack(g: Root, comments: Comments, typeName: string, key: string)
    requires key in Generate(g, comments, typeName).Definitions()
    ensures var (names, definition) :=
        (FinalNames(g, comments, typeName), Generate(g, comments, typeName).Definitions()[key]);
      exists r :: r in Reach(g, typeName) && Finished(g, comments, names, r, key, definition)
               && ReadsBack(g, comments, r, definition)
  {
    NoPlaceholderSurvives(g, comments, typeName);
    var definition := Generate(g, comments, typeName).Definitions()[key];
    hide Reach, Generate, FinalNames, PrintableNames, PrintableEnumNames, Expected, ExpectedEnum;
    hide ReadSource, ReadEnumSource, IgnorableComments, IgnorableComment;
    var r :| r in Reach(g, typeName) && Finished(g, comments, FinalNames(g, comments, typeName), r, key, definition);
    if r in g.types {
      if PrintableNames(g.types[r]) {
        PrintedMessageReadsBackExactly(comments, g.types[r]);
      }
    } else if PrintableEnumNames(g.enums[r]) {
      PrintedEnumReadsBackExactly(comments, g.enums[r]);
    }
    assert ReadsBack(g, comments, r, definition);
  }

  /** The root schema carries the source of its own message. */
  lemma RootReadsBack(g: Root, comments: Comments, typeName: string)
    requires typeName != "" && typeName in g.types
    ensures ReadsBack(g, comments, typeName, Generate(g, comments, typeName).schema)
  {
    if PrintableNames(g.types[typeName]) {
      PrintedMessageReadsBackExactly(comments, g.types[typeName]);
    }
  }
}
