# Verified model of the gRPC toolkit's schema reflection, streams and repair code

The project models the parts of the toolkit whose correctness rests on reasoning over whole graphs and whole
runs, and proves what they promise. Methods have the source's shape (shared tables, loops, objects updated in
place) and are each proved equal to a specification function; the theorems are about those functions.

* **JSON Schema generation** (`ProtoTypes`, `JsonSchema`, `SchemaWalk`, `SchemaGenerator`): a depth-first walk turns
  a possibly cyclic graph of protobuf messages into a finite record of definitions linked by `$ref`. It always ends,
  with the set of names still free to be defined as its measure, and leaves no placeholder (`SchemaTheorems`).
  When the reachable references can be told apart by name, every definition has a closed form (`SchemaExactness`)
  that does not depend on the root. A reference can be left without a definition; `SchemaClosure`, `SchemaShadowing`
  and `SchemaLimits` say when: when a type has a namesake, a different type of the same short name, below it. Taken
  over all requests that wrap one type this is exact. A schema, expanded to any depth, has the shape of the type it came
  from (`SchemaMeaning`) exactly when all its references resolve, namesakes or not (`MeaningExactly`).
  `DefinitionNaming`, `GeneratedNames` and `NameSharing` say which types can come to share a definition name. The definitions of all
  methods are merged into one record (`SchemaService`); `MergeAgreement` says exactly when that loses nothing, and
  what the merged record then means. `SchemaContents` says what the entries hold in terms of the declarations alone:
  required names, comments, enum values, and which declaration a reference names.
* **Printing proto3 source** (`ProtoPrinter`, `SourcePrinter`) and a reader for it (`ProtoReader`): reading back what
  was printed recovers the message (`PrintedLines`, `ProtoRoundTrip`, `PrintedOnce`), exactly when the further lines of
  its comments can be ignored (`PrintedComments`), also for every source text published with a schema
  (`PublishedSources`). `CommentText` says what is printed of the comments and when it can be told from the line.
* **Device streams** (`StreamProtocol`, `StreamTheorems`, `StreamPolicies`, `StreamEnding`, `StreamService`): opening,
  superseding and closing of any number of streams, devices and actions, as a transition system and as the two kinds of objects that
  carry it. The codes thrown for an existing subscription come from a library that is not part of this model, so they
  are parameters, and theorems that need particular codes name them in their hypotheses (`NewestStreamSubscribed`,
  `EveryConnectionIsWatched`, `FirstStreamSubscribed`); the others hold for every value.
* **Descriptor repair** (`NameIndex`, `ReflectionNames`, `ReflectionFix`, `ReflectionMeaning`, `ReflectionRepair`): suffix
  indexes over all files, then a rewrite of the type references in place, shown exact and idempotent. What each reference
  becomes is also given over the files, without the indexes and the search.
* **Namespace merging and type resolution** (`NamespaceMerge`, `NamespaceTree`, `TypeReferences`, `TypeResolution`): a
  left-biased union of object trees, done in place, and the loop of at most ten rounds that fetches what is missing.
* **Request conversion** (`EnumConversion`, `ConversionTheorems`): enum names and scalar strings in request bodies.
* **Import traversal** (`ImportTraversal`), **oneof stripping** (`OneofStripping`) and **lifecycle phases**
  (`Lifecycle`), the last as a transition system in which hooks complete in any order.

`Splitting`, `Dotted`, `Text`, `Selections` and `Wrappers` are shared helpers.

## Where the code does less than its comments say

* `fixReflectionTypeNames` is meant to make every reference fully qualified. A reference that is already a full name,
  but without its leading dot, can be redirected to another package of the same ending;
  `ReflectionNames.FullNameKeptExactly` gives the exact condition and `ReflectionFix.RedirectedExample` an input. Simple
  names declared several times stay as they are.
* `convertEnumValues` is meant to convert enum names and scalar strings throughout the body. It leaves strings in lists
  of scalars and in map fields alone, and treats an entry of a map of messages as a field when its key is a field name.
  `ConversionTheorems.CompleteExactly` and `ConvertsAsMeantExactly` give the exact conditions on the body,
  `StayingExamples` two inputs.
* `handleGetSchemas` merges the definitions of all methods under the names that were chosen for each root type by itself.
  Two methods whose types have one short name in different packages each define that name, and the later method's
  definition replaces the earlier one. `MergeAgreement.MergesExactly` gives the exact condition on the types,
  `MergeOverwrites` an input. Likewise a type below a namesake of its own is left without a definition:
  `SchemaShadowing.ReferencesResolveExactly`, `SchemaLimits.NamesakeDangles`.
* `createPlaceholderType` is meant to let a missing type be resolved. A namespace or a service that stands at the path
  is left there and the name stays unresolved; `TypeResolution.PlaceholderResolvesExactly` gives the exact condition.
* The source printer is meant to print proto source. Of a comment of several lines on a message or an enum only the
  first is marked as a comment; `PrintedComments.PrintedMessageReadsBackExactly` gives the exact condition.
* A field comment of several lines is printed on one, its lines joined by a marker that a line may itself contain;
  `CommentText.FieldCommentExactly` gives the exact condition for telling them apart.
* `stripSyntheticOneofFields` removes `_x` only if the key `x` is still there when `_x` is looked at, so with chains such
  as `__x`, `_x`, `x` the result depends on the order of the keys; `OneofStripping.OrderIrrelevantExactly` gives the
  exact condition.

## Model

| member | source | states |
|---|---|---|
| SchemaGenerator.JsonSchemaGenerator.GenerateSchema | src/grpc/schemaReflection/jsonSchemaGenerator.ts:54-68 | the run over fresh tables computes `SchemaWalk.Generate`; `definitions` is left out when there are none |
| SchemaGenerator.JsonSchemaGenerator.TypeToSchema | src/grpc/schemaReflection/jsonSchemaGenerator.ts:70-113 | walking the root message: its schema and the tables at the end are those of `WalkRoot`; an unknown type gives an empty object |
| SchemaGenerator.JsonSchemaGenerator.FieldsToSchemas | src/grpc/schemaReflection/jsonSchemaGenerator.ts:83-100 | the field loop threads both tables through every field as `WalkFields` does, and lists as required the fields neither repeated nor optional |
| SchemaGenerator.JsonSchemaGenerator.FieldToSchema | src/grpc/schemaReflection/jsonSchemaGenerator.ts:115-157 | a field wraps the schema of its type: arrays, maps, comment as description |
| SchemaGenerator.JsonSchemaGenerator.MapFieldToSchema | src/grpc/schemaReflection/jsonSchemaGenerator.ts:159-193 | the values of a map field are walked like any other type |
| SchemaGenerator.JsonSchemaGenerator.ResolveComplexType | src/grpc/schemaReflection/jsonSchemaGenerator.ts:195-222 | resolving a reference leaves both tables and the answer as `Resolve`, in all five branches |
| SchemaGenerator.JsonSchemaGenerator.GetDefinitionName | src/grpc/schemaReflection/jsonSchemaGenerator.ts:224-255 | scanning the names in any order chooses the name of `DefinitionName` and records it |
| SchemaGenerator.JsonSchemaGenerator.ResolveMessageType | src/grpc/schemaReflection/jsonSchemaGenerator.ts:257-302 | placeholder, walk and overwriting define the message as `DefineMessage`; the walk terminates because the placeholder uses up a name |
| SchemaGenerator.JsonSchemaGenerator.TryResolveEnumType | src/grpc/schemaReflection/jsonSchemaGenerator.ts:304-334 | an enum is defined at once; anything unknown leaves the tables alone and gives a well-known schema or an empty object |
| SchemaTheorems.NoPlaceholderSurvives | src/grpc/schemaReflection/jsonSchemaGenerator.ts:257-302 | for every type graph: each definition at the end is the finished one of a reachable type, listing exactly its message's fields, with `required` those neither repeated nor optional |
| SchemaContents.RootTells | src/grpc/schemaReflection/jsonSchemaGenerator.ts:83-110 | for every graph: the root schema has a property for each field, its `required` holds, in declaration order and without repetition, exactly the fields that are neither repeated nor in a oneof named with an underscore, commented fields carry their comment, and the description is the message's comment |
| SchemaContents.DefinitionsTell | src/grpc/schemaReflection/jsonSchemaGenerator.ts:264-334 | for every graph: so does each definition of the reachable message that has the key as its name; that of an enum lists its values in order; each description is the name and the comment |
| SchemaContents.ReferenceExactly | src/grpc/schemaReflection/jsonSchemaGenerator.ts:131-150 | a field's type names the resolved declaration without its leading dot, or else the nested message of that name, or else what is written |
| SchemaContents.WrapperExactly | src/grpc/schemaReflection/jsonSchemaGenerator.ts:24-46 | an undeclared wrapper of Google's has the JSON type of the scalar it wraps |
| SchemaContents.UndeclaredExactly | src/grpc/schemaReflection/jsonSchemaGenerator.ts:24-46 | other undeclared types: points and spans of time and field masks are text, lists are lists, anything else is an object without required fields |
| SchemaContents.NoEmptyRecord | src/grpc/schemaReflection/jsonSchemaGenerator.ts:54-68 | `definitions` is left out when there are none, and an unknown type gives an empty object |
| SchemaMeaning.RequiredHolds | src/grpc/schemaReflection/jsonSchemaGenerator.ts:89-93 | a name is required exactly when a field of that name is neither a list nor written `optional` |
| SchemaMeaning.ScalarAgrees | src/grpc/schemaReflection/jsonSchemaGenerator.ts:6-22 | booleans, text, bytes, floating and whole numbers each have their JSON type |
| SchemaTheorems.DefineGrows | src/grpc/schemaReflection/jsonSchemaGenerator.ts:281-301 | defining a message, however deep the recursion, overwrites its own placeholder and no other entry |
| SchemaExactness.GeneratedCanonically | src/grpc/schemaReflection/jsonSchemaGenerator.ts:195-302 | when the reachable references can be told apart by their names, nested ones by their last two components: every definition has a key and a content that depend on its type alone, not on the root, the order of the walk or `visited`; an undeclared type is replaced in place |
| SchemaExactness.GeneratedExactly | src/grpc/schemaReflection/jsonSchemaGenerator.ts:195-302 | when all reachable references differ in their last component: the keys are exactly the names of the messages and enums reachable over one or more field edges, each with its canonical definition |
| SchemaExactness.VisitedIsRedundant | src/grpc/schemaReflection/jsonSchemaGenerator.ts:207-213 | when all reachable references differ in their last component, whatever the `visited` test catches is already in `definitions` |
| SchemaMeaning.MeaningIsPreserved | src/grpc/schemaReflection/jsonSchemaGenerator.ts:54-302 | when all reachable references differ in their last component, for cyclic graphs too and every depth: unfolding the refs of the generated schema gives the shape of unfolding the message types directly |
| MeaningExactly.MeaningIsPreservedExactly | src/grpc/schemaReflection/jsonSchemaGenerator.ts:54-302 | where no two reachable references can share a definition name, namesakes included: unfolding the generated schema gives the shape of its type at every depth if and only if every `$ref` has a definition |
| MeaningExactly.MeaningWithoutNamesakesBelow | src/grpc/schemaReflection/jsonSchemaGenerator.ts:205-255 | so it does wherever no reachable type has a namesake below it, also when namesakes stand side by side and one of them gets its full name |
| MeaningExactly.MeaningOfAllRequestsExactly | src/grpc/schemaReflection/jsonSchemaGenerator.ts:205-255 | over all requests that wrap one type: the schemas all mean what their types mean, if and only if no type has a namesake below it |
| MeaningExactly.ReachedIsWhole | src/grpc/schemaReflection/jsonSchemaGenerator.ts:195-302 | a schema that unfolds without a missing definition holds a definition of every declared type reached from it, which unfolds likewise |
| SchemaClosure.EveryReferenceResolves | src/grpc/schemaReflection/jsonSchemaGenerator.ts:205-219 | every `$ref` of the result has a definition as soon as no reachable type has a namesake below it |
| SchemaClosure.VisitedIsBegun | src/grpc/schemaReflection/jsonSchemaGenerator.ts:211-213 | the short-name test then only catches a type that is itself being walked |
| SchemaShadowing.HiddenTypeIsNeverDefined | src/grpc/schemaReflection/jsonSchemaGenerator.ts:211-213 | a type reached only through a namesake gets no definition of its own, in every graph |
| SchemaShadowing.HiddenTypeDangles | src/grpc/schemaReflection/jsonSchemaGenerator.ts:211-213 | where no two reachable references can share a definition name, a reference that is reached but hidden, declared or not, leaves some `$ref` without a definition |
| SchemaShadowing.ReferencesResolveExactly | src/grpc/schemaReflection/jsonSchemaGenerator.ts:205-222 | where no two types can share a definition name: wrapping any one type of the graph in a request of its own gives a schema whose refs all resolve, if and only if no type has a namesake below it; types may be nested or undeclared |
| SchemaLimits.NamesakeDangles | src/grpc/schemaReflection/jsonSchemaGenerator.ts:211-213 | a concrete graph of three messages whose schema refers to a type that is never defined |
| DefinitionNaming.NamesAreStable | src/grpc/schemaReflection/jsonSchemaGenerator.ts:224-255 | over any sequence of calls a reference keeps its name, later calls return it, and different top-level names with a package never share one |
| GeneratedNames.FinalNamesApart | src/grpc/schemaReflection/jsonSchemaGenerator.ts:224-255 | at the end of every run, for every root: two references have one name only if they may share it, and packaged top-level types never do |
| GeneratedNames.FinalNamesInTurn | src/grpc/schemaReflection/jsonSchemaGenerator.ts:195-255 | whatever the graph, the walk amounts to naming reachable references one after another, beginning with the root's first |
| NameSharing.SharingExactly | src/grpc/schemaReflection/jsonSchemaGenerator.ts:224-255 | over all requests for one graph: some run of the generator gives two references one name if and only if they are nested with equal last two components, nested and named like a top-level one, or one is an undotted top-level name and the short name of the other |
| DefinitionNaming.NewNameIsFresh | src/grpc/schemaReflection/jsonSchemaGenerator.ts:232-254 | exactly when a first-time reference gets a name nobody has |
| DefinitionNaming.FirstNameExactly | src/grpc/schemaReflection/jsonSchemaGenerator.ts:224-255 | by components: `p.M.N` nested in a message becomes `M.N`; a top-level `p.T` becomes `T`, or stays whole if some reference has the name `T` |
| DefinitionNaming.UnpackagedNameIsShared | src/grpc/schemaReflection/jsonSchemaGenerator.ts:240-254 | `p.T` followed by a top-level `T` get one name |
| DefinitionNaming.NestedNamesAreShared | src/grpc/schemaReflection/jsonSchemaGenerator.ts:232-238 | nested types agreeing in their last two components share a name |
| SchemaService.HandleGetSchemas | src/grpc/schemaReflection/grpcSchemaService.ts:27-66 | exposed actions in order with all they carry, their schemas without definitions, and the definitions of later methods assigned over those of earlier ones |
| SchemaService.ActionsExactly | src/grpc/schemaReflection/grpcSchemaService.ts:31-58 | the answer lists exactly the methods with an action name, in order, each with the schemas generated for its own types |
| SchemaService.MergeAgreesExactly | src/grpc/schemaReflection/grpcSchemaService.ts:27-65 | the merge keeps each method's own definitions if and only if no name has two definitions |
| SchemaService.LastDefinitionIsKept | src/grpc/schemaReflection/grpcSchemaService.ts:34-40 | of several definitions of one name the merge keeps that of the last schema, each request coming before its response |
| SchemaService.DefinitionsDoNotDependOnRoot | src/grpc/schemaReflection/grpcSchemaService.ts:29-40 | when the references reachable from two roots can be told apart by their names: one definition per name, whichever of the two it was generated from |
| SchemaService.MergedCanonically | src/grpc/schemaReflection/grpcSchemaService.ts:27-65 | when the references reachable from all methods can be told apart by their names: no name has two definitions, and each merged one has its closed form |
| SchemaService.MergedExactly | src/grpc/schemaReflection/grpcSchemaService.ts:27-65 | when they all differ in their last component: the merged record is the closed form over everything reachable from all methods, so it closes all refs |
| SchemaService.MergeIgnoresOrder | src/grpc/schemaReflection/grpcSchemaService.ts:27-65 | when they can be told apart by their names: any order or repetition of the methods merges to the same record |
| SchemaService.MergedMeaningIsPreserved | src/grpc/schemaReflection/grpcSchemaService.ts:27-65 | when they all differ in their last component: an exposed schema, expanded with the merged definitions to any depth, has the shape of its type |
| MergeAgreement.FirstIsDefined | src/grpc/schemaReflection/jsonSchemaGenerator.ts:60-68 | names are chosen for each root by itself: the only type a root holds gets its short name, or the last two components if nested, and the definition of that name is its own |
| MergeAgreement.MergesExactly | src/grpc/schemaReflection/grpcSchemaService.ts:29-40 | for any closed set of types whose namesakes print different texts: all methods that hold types of the set, in whatever messages and however many, merge with no name defined twice, if and only if no two of the types have one such name |
| MergeAgreement.MergeOverwrites | src/grpc/schemaReflection/grpcSchemaService.ts:34-40 | a concrete graph of two methods: each defines `T`, the later one wins, and the other method's schema then means a different type |
| MergeAgreement.MergedMeaningExactly | src/grpc/schemaReflection/grpcSchemaService.ts:27-65 | when the references can be told apart by their names: every schema of the methods, expanded with the merged definitions, has the shape of its type at every depth if and only if every `$ref` in the answer has a definition |
| MergeAgreement.MergedMeaningWithoutNamesakesBelow | src/grpc/schemaReflection/grpcSchemaService.ts:27-65 | which is so when in addition no type has a namesake below it |
| MergeAgreement.MergedMeaningOfAllRequestsExactly | src/grpc/schemaReflection/grpcSchemaService.ts:27-65 | over all lists of methods that hold types of a closed set which can be told apart and cannot share a name: all answers mean what their types mean if and only if no type of the set has a namesake below it |
| SourcePrinter.GenerateMessageProtoSource | src/grpc/schemaReflection/jsonSchemaGenerator.ts:345-422 | pushing lines prints comment, nested blocks, real oneofs and remaining fields as `ProtoPrinter.MessageSource` |
| SourcePrinter.CollectOneofs | src/grpc/schemaReflection/jsonSchemaGenerator.ts:374-392 | the loop keeps the oneofs without a leading underscore, and the names of all their fields |
| SourcePrinter.GenerateFieldProtoLine | src/grpc/schemaReflection/jsonSchemaGenerator.ts:446-479 | map type or modifier, name, number and cleaned comment |
| SourcePrinter.GenerateEnumProtoSource | src/grpc/schemaReflection/jsonSchemaGenerator.ts:481-502 | enum values one per line in the order of `SortByNumber` |
| ProtoRoundTrip.SortOrders | src/grpc/schemaReflection/jsonSchemaGenerator.ts:494 | enum values come out in ascending order of their numbers |
| ProtoRoundTrip.SortIsStable | src/grpc/schemaReflection/jsonSchemaGenerator.ts:494 | aliases keep their order |
| ProtoRoundTrip.SortKeepsEntries | src/grpc/schemaReflection/jsonSchemaGenerator.ts:494 | sorting loses no enum value and adds none |
| PrintedLines.FieldReads | src/grpc/schemaReflection/jsonSchemaGenerator.ts:446-479 | a printed field line, whatever its comment, reads back as its modifier, type, name and number |
| PrintedLines.FieldIsOneLine | src/grpc/schemaReflection/jsonSchemaGenerator.ts:466-476 | a field is printed on one line however many lines its comment has |
| CommentText.FieldCommentExactly | src/grpc/schemaReflection/jsonSchemaGenerator.ts:466-476 | after a printed field stand its comment's trimmed non-empty lines, which can be told from the line if and only if none of them contains the marker that joins them |
| CommentText.CommentIsPrinted | src/grpc/schemaReflection/jsonSchemaGenerator.ts:352-355 | the trimmed comment of a message or an enum stands in front of it |
| CommentText.RealOneofsExactly | src/grpc/schemaReflection/jsonSchemaGenerator.ts:377-387 | the oneofs printed are those not named with an underscore, in their order |
| ProtoRoundTrip.BodyReads | src/grpc/schemaReflection/jsonSchemaGenerator.ts:345-422 | what stands between the braces reads back as the nested declarations, the real oneofs and the fields, at any depth |
| ProtoRoundTrip.PrintedMessageReadsBack | src/grpc/schemaReflection/jsonSchemaGenerator.ts:345-502 | reading a printed message gives exactly its nested messages, enums with values, real oneofs and fields, when the further lines of its comments can be ignored |
| PrintedComments.PrintedMessageReadsBackExactly | src/grpc/schemaReflection/jsonSchemaGenerator.ts:352-355 | it reads back as the message if and only if every further line of every message and enum comment in it is empty or marked itself |
| PrintedComments.PrintedEnumReadsBackExactly | src/grpc/schemaReflection/jsonSchemaGenerator.ts:481-502 | the same for an enum printed by itself |
| PrintedComments.LongCommentDoesNotReadBack | src/grpc/schemaReflection/jsonSchemaGenerator.ts:352-355 | a message with a comment of two lines that is not read back |
| PrintedOnce.EachFieldReadOnce | src/grpc/schemaReflection/jsonSchemaGenerator.ts:374-417 | with each field in at most one real oneof, the names read are the names of the fields, each once |
| PrintedOnce.EachFieldInItsPlace | src/grpc/schemaReflection/jsonSchemaGenerator.ts:374-417 | each field is read as a member of its oneof, or with its modifier outside |
| PrintedOnce.FieldTextDetermines | src/grpc/schemaReflection/jsonSchemaGenerator.ts:446-464 | the text of a field determines its name, number, type, key type and modifier |
| PublishedSources.DefinitionsReadBack | src/grpc/schemaReflection/jsonSchemaGenerator.ts:281-326 | every definition is the finished one of a reachable message or enum, under the name chosen for it, and its source text reads back as that message or enum exactly when the comments in it allow |
| PublishedSources.RootReadsBack | src/grpc/schemaReflection/jsonSchemaGenerator.ts:95-100 | so does the source text of the root schema |
| StreamService.ServerStreamAction.SubscribeChannel | src/interfaces/action.ts:61-97 | a subscription is appended to its device's list, or thrown back with the list unchanged, by policy |
| StreamService.ServerStreamAction.UnsubscribeChannel | src/interfaces/action.ts:99-111 | splicing at the first index removes that subscription and keeps the order of the others |
| StreamService.ServerStreamAction.PublishToChannel | src/interfaces/action.ts:113-121 | one write for each subscription of the device, in order |
| StreamService.GrpcStreamService.OpenStream | src/grpc/grpcService.ts:237-344 | the open callback as one step of the protocol on both maps |
| StreamService.GrpcStreamService.JoinChannel | src/grpc/grpcService.ts:239-286 | subscribing, superseding and subscribing again, or ending the stream |
| StreamService.GrpcStreamService.EndConnections | src/grpc/grpcService.ts:263-269 | existing connections are unsubscribed and ended one by one |
| StreamService.GrpcStreamService.CloseStream | src/grpc/grpcService.ts:315-344 | the close listener as one step on both maps |
| StreamPolicies.EveryRunKeepsSubscriptions | src/grpc/grpcService.ts:237-344 | in every reachable state each subscription is of a registered stream under its own action and device, no stream is subscribed twice, and an exclusive policy admits one per device |
| StreamPolicies.SubscriberIsOpen | src/grpc/grpcService.ts:315-344 | every subscriber was opened and has not closed |
| StreamPolicies.NothingLeftWhenAllClosed | src/grpc/grpcService.ts:315-344 | once all streams have closed no subscription is left |
| StreamPolicies.OpenThrowsExactly | src/grpc/grpcService.ts:259-274 | the second subscribe throws only if new connections are rejected, one exists, and the plain error carries the code for existing subscriptions |
| StreamPolicies.EveryConnectionIsWatched | src/grpc/grpcService.ts:238-315 | in every run that cannot throw out of the open handler every registered stream has its close listener |
| StreamPolicies.EveryConnectionIsWatchedExactly | src/grpc/grpcService.ts:238-315 | that holds in all runs if and only if the plain code is another one or no channel rejects new connections |
| StreamEnding.EndedExactly | src/grpc/grpcService.ts:239-306 | in every run, under every policy and with any codes: a stream has been told to end if and only if its open callback failed without the handler throwing, or it was turned away, or the next stream of its device superseded it; said of the events alone |
| StreamEnding.HolderSubscribed | src/interfaces/action.ts:64-70 | where new connections are rejected the subscriber is the stream that found the device free and has not closed, said of the events alone |
| StreamPolicies.SubscribersUseChannels | src/grpc/grpcService.ts:239-247 | only streams with a device subscribe, and only with actions that offer a channel |
| StreamPolicies.UnservedStreamsAreEnded | src/grpc/grpcService.ts:248-286 | a watched stream that asked for the channel is a subscriber or was told to end |
| StreamPolicies.AllOpenStreamsSubscribed | src/interfaces/action.ts:61-111 | with several connections allowed the list is exactly the open streams of the device in opening order |
| StreamPolicies.PublishReachesEachOpenStreamOnce | src/interfaces/action.ts:113-121 | publishing then writes once to each of them |
| StreamPolicies.NewestStreamSubscribed | src/grpc/grpcService.ts:259-274 | closing the previous connection, with the intended code: the subscriber is the newest stream if still open; a late close of an older one changes nothing |
| StreamPolicies.NewestStreamSubscribedExactly | src/grpc/grpcService.ts:259-284 | that holds in all runs if and only if the code thrown is the one the handler looks for |
| StreamPolicies.FirstStreamSubscribed | src/interfaces/action.ts:64-70 | with new connections rejected the subscriber is exactly the stream that found the place free and has not closed |
| StreamPolicies.SubscriberKeepsItsPlace | src/interfaces/action.ts:64-70 | no event but its own close displaces it |
| Lifecycle.CollectStartHooks | src/applicationHooks.ts:36-56 | hooks by level in registration order, after one phase for finished registrations |
| Lifecycle.CollectStopHooks | src/applicationHooks.ts:91-106 | destroy levels as far as they are in use, empty ones included, then the shutdown hooks |
| Lifecycle.StartHooksExactly | src/applicationHooks.ts:36-56 | each phase lists the hooks of its kind and class, in registration order, each once: environment, metrics, others, synchronous, asynchronous |
| Lifecycle.StopHooksExactly | src/applicationHooks.ts:91-106 | the destroy levels list them from the last class to the first, and one phase lists the shutdown hooks |
| Lifecycle.OneLevel | src/applicationHooks.ts:154-179 | every class has exactly one level |
| Lifecycle.StartRespectsLevels | src/applicationHooks.ts:58-79 | under every interleaving a hook begins only after all hooks of earlier phases succeeded, and no hook of a later phase begins after a failure |
| Lifecycle.NextHookBeginsAfterFailure | src/applicationHooks.ts:66-78 | within a phase a hook may begin after another has failed |
| Lifecycle.StopRespectsLevels | src/applicationHooks.ts:108-134 | on stop a hook begins only after all earlier ones settled, failed or not |
| Lifecycle.StopReversesStart | src/applicationHooks.ts:154-179 | if `a` is initialised at an earlier level than `b`, then `b` has been destroyed before a hook of `a`'s level begins |
| Lifecycle.EveryHookAttemptedOnce | src/applicationHooks.ts:108-134 | in a complete stop each hook begins once and settles once, despite failures |
| Lifecycle.StopMakesProgress | src/applicationHooks.ts:108-152 | a stop is never stuck, and every step leaves less to do |
| Lifecycle.OneEntryPerFailure | src/applicationHooks.ts:121-137 | the aggregate error has one entry per failed hook and is thrown if and only if one failed |
| ReflectionRepair.NameTables.BuildPackageMap | src/grpc/reflectionFix.ts:121-136 | the loop over suffixes adds the entries of one package |
| ReflectionRepair.NameTables.CollectTypes | src/grpc/reflectionFix.ts:138-156 | messages at every depth and top-level enums are added under their simple names |
| ReflectionRepair.FullyQualifyTypeName | src/grpc/reflectionFix.ts:270-311 | the search over package parts and candidate packages computes `Qualify` |
| ReflectionRepair.FixMessageTypeNames | src/grpc/reflectionFix.ts:244-268 | every reference of the message and of those nested in it holds its fixed form; true is returned exactly when one changed |
| ReflectionRepair.ApplyFixes | src/grpc/reflectionFix.ts:183-242 | the same for a whole file, in place |
| ReflectionRepair.FixReflectionTypeNames | src/grpc/reflectionFix.ts:55-119 | decoding, indexing, fixing and encoding give the definitions of `FixDefinitions`: only references differ |
| ReflectionFix.PackageMapExactly | src/grpc/reflectionFix.ts:121-136 | under a suffix, once each, exactly the packages that end in it after a dot, as first seen |
| ReflectionFix.TypeMapExactly | src/grpc/reflectionFix.ts:138-181 | under a simple name, once each, exactly the full names declared with it |
| ReflectionNames.FixedForm | src/grpc/reflectionFix.ts:270-311 | a fixed reference is unset, starts with a dot, or is a simple name declared zero or several times |
| ReflectionNames.ResolvesToFirstDeclaring | src/grpc/reflectionFix.ts:284-308 | `s.M` resolves to the first package ending in `s` that declares `M`, whenever there is one |
| ReflectionNames.FullNameKeptExactly | src/grpc/reflectionFix.ts:284-308 | for every dotted reference: `s.M` becomes `.s.M` if and only if no ending of `s` is listed, or in the list of the first listed one `s` stands with no package before it declaring `M`, and declares `M` or heads a list in which nobody does |
| ReflectionFix.FullNameRedirected | src/grpc/reflectionFix.ts:284-308 | a full name is redirected whenever some other package ends in its package |
| ReflectionFix.RedirectedExample | src/grpc/reflectionFix.ts:284-308 | `a.M`, declared, becomes `.x.a.M` because a package `x.a` exists |
| ReflectionMeaning.SimpleNameExactly | src/grpc/reflectionFix.ts:276-289 | over any files: a name without a dot becomes the one full name declared with it, and stays as it is when none or several are |
| ReflectionMeaning.DottedNameExactly | src/grpc/reflectionFix.ts:291-311 | over any files: `s.M` becomes `.p.M` for the first file, among those whose package `p` ends in the longest possible ending of `s`, that declares `M`, or the first of them when none does; with no such file `.s.M` |
| ReflectionMeaning.RepairExactly | src/grpc/reflectionFix.ts:55-119 | every reference of every file of every definition, wherever it stands, is fixed by the declarations of all files |
| ReflectionMeaning.FilesInOrder | src/grpc/reflectionFix.ts:61-80 | the declarations are those of the files of all definitions, taken in order |
| ReflectionMeaning.FileFixedExactly | src/grpc/reflectionFix.ts:183-268 | and nothing but references is changed |
| ReflectionNames.FixRefIdempotent | src/grpc/reflectionFix.ts:270-311 | fixing a fixed reference changes nothing |
| ReflectionFix.RepairIsIdempotent | src/grpc/reflectionFix.ts:55-119 | a second repair, with indexes built anew, returns its input |
| NamespaceTree.MergeIntoNamespace | src/grpc/dynamicClient.ts:529-544 | in place: the target stays a tree, made of its own objects and the source's, and its value becomes `MergeNamed` of the old values |
| NamespaceTree.MergeAll | src/grpc/dynamicClient.ts:538-542 | in whatever order nested objects are listed, the target's value becomes `Merge` |
| NamespaceMerge.MergeIsLeftBiasedUnion | src/grpc/dynamicClient.ts:529-544 | every target path keeps its object; a source path is added exactly when its longest prefix in the target is a namespace with room; nothing else appears |
| NamespaceMerge.MergeTwice | src/grpc/dynamicClient.ts:529-544 | merging the same tree again changes nothing |
| NamespaceMerge.PlantExactly | src/grpc/dynamicClient.ts:291-320 | a placeholder adds the missing namespaces on its path and an empty message at its end, or nothing |
| NamespaceMerge.PlantMakesPathExactly | src/grpc/dynamicClient.ts:291-320 | a placeholder makes its path exist if and only if nothing but namespaces is in the way |
| TypeResolution.FindUnresolvedTypes | src/grpc/dynamicClient.ts:322-367 | a name is returned if and only if some message of the tree has a field whose type is not built in and equals it up to a leading dot, and the lookup does not find it |
| TypeReferences.ReferencesExactly | src/grpc/dynamicClient.ts:326-356 | the nested walks gather exactly what some message refers to that stands, at any depth, below namespaces and messages |
| TypeResolution.ResolveAllTypes | src/grpc/dynamicClient.ts:258-289 | each round tries exactly the names still missing and not yet tried; the root becomes what merging and planting in that order give; when it ends before ten rounds, every reference of the final tree is found or was tried |
| TypeResolution.OneFetchExactly | src/grpc/dynamicClient.ts:270-320 | path by path: what a fetched tree adds and where, and what a placeholder adds; nothing else changes |
| TypeResolution.FetchTypes | src/grpc/dynamicClient.ts:270-286 | one round tries each name once, merging what is fetched and planting a placeholder on failure |
| TypeResolution.NothingFetchedTwice | src/grpc/dynamicClient.ts:258-289 | over all rounds no symbol is fetched twice |
| TypeResolution.ResolutionExtends | src/grpc/dynamicClient.ts:258-320 | whatever the server answers, nothing in the root is removed or replaced |
| NamespaceTree.PlaceAt | src/grpc/dynamicClient.ts:298-319 | in place: new objects only, and the value becomes `Plant` of the old one |
| TypeResolution.CreatePlaceholderType | src/grpc/dynamicClient.ts:291-320 | a name that ends in a dot changes nothing, any other is planted |
| TypeResolution.PlaceholderResolvesExactly | src/grpc/dynamicClient.ts:291-320 | afterwards a message or an enum stands at the full path if and only if nothing but namespaces is in the way and what stood there before, if anything, is a message or an enum |
| TypeResolution.NamespaceIsNotReplaced | src/grpc/dynamicClient.ts:315-319 | a namespace of that name is left and keeps the name unresolved |
| EnumConversion.ConvertEnumValues | src/grpc/dynamicClient.ts:179-222 | updating a copy field by field converts each field from its original value, and recursion ends on recursive types |
| ConversionTheorems.EnumNameConvertedExactly | src/grpc/dynamicClient.ts:205-233 | a declared name in an enum field becomes the number declared with it, the last one if it is declared again; any other string stays |
| ConversionTheorems.StringConverted | src/grpc/dynamicClient.ts:224-233 | what the code makes of a string is what its type reads it as: a boolean, a number, or a declared name |
| EnumConversion.SpreadExactly | src/grpc/dynamicClient.ts:184 | a list spread into an object stands under its positions |
| ConversionTheorems.CompleteExactly | src/grpc/dynamicClient.ts:179-233 | no enum name and no scalar string is left at any depth, lists and map entries included, if and only if every such string of the body stands where the code converts |
| ConversionTheorems.ConvertsAsMeantExactly | src/grpc/dynamicClient.ts:179-233 | the code computes what the declarations mean if and only if every string of the body is treated as it is meant and no list stands for a message |
| ConversionTheorems.PlainTypesConvertCompletely | src/grpc/dynamicClient.ts:179-233 | for types without maps and without lists of scalars nothing is left, whatever the body |
| ConversionTheorems.ShownConvertsBackExactly | src/grpc/dynamicClient.ts:28-33 | a converted body whose enum numbers and scalars are written as strings, as responses show them, in lists and maps too, converts back to itself if and only if every string of what is shown is treated as it is meant |
| ConversionTheorems.UnchangedExactly | src/grpc/dynamicClient.ts:179-233 | a body is left alone if and only if no string of it is where the code changes it and no list is where a message is expected |
| ConversionTheorems.ConvertTwice | src/grpc/dynamicClient.ts:179-233 | conversion is idempotent |
| ConversionTheorems.EnumMapConvertedExactly | src/grpc/dynamicClient.ts:205-218 | a map of enums is returned as it is, so what it means is converted exactly when none of its entries is a declared name |
| ConversionTheorems.MessageMapConvertedExactly | src/grpc/dynamicClient.ts:205-218 | entries of a map of messages: untouched unless the key is a field name of the message, and then treated as that field; all are converted afterwards if and only if their strings stand where that treatment converts |
| ConversionTheorems.ListedScalarsStay | src/grpc/dynamicClient.ts:193-196 | strings in a list of scalars stay, each of which stands for a scalar |
| ConversionTheorems.MapNamesStay | src/grpc/dynamicClient.ts:205-218 | a declared name in a map of enums stays |
| ConversionTheorems.StayingExamples | src/grpc/dynamicClient.ts:179-222 | two concrete bodies that conversion returns as they are |
| ImportTraversal.ParseProtoWithImports | src/grpc/schemaReflection/protoMetadataExtractor.ts:44-79 | one call adds files the import leads to, each with all it leads to, and begins no file twice |
| ImportTraversal.ResolveProtoPath | src/grpc/schemaReflection/protoMetadataExtractor.ts:81-95 | the file is read from the first include directory that has it, and from none only if none has it |
| ImportTraversal.NextExactly | src/grpc/schemaReflection/protoMetadataExtractor.ts:44-95 | a file leads exactly to what its imports name in the first include directory that has them, Google's own files left out |
| ImportTraversal.Extract | src/grpc/schemaReflection/protoMetadataExtractor.ts:13-42 | on every import graph the traversal ends and begins exactly the reachable files, each once |
| ImportTraversal.StartedFromNothing | src/grpc/schemaReflection/protoMetadataExtractor.ts:44-79 | what a traversal adds to nothing is exactly what is reachable from its inputs |
| OneofStripping.StripSyntheticOneofFields | src/grpc/grpcService.ts:659-677 | in place, through objects and lists, shared objects included, for any key order: every visited object is stripped and no other is touched |
| OneofStripping.StrippedIsClean | src/grpc/grpcService.ts:659-666 | no key `_x` holding the text `x` beside a key `x` is left; only such keys are gone, and the rest is unchanged |
| OneofStripping.SecondRunDeletesNothing | src/grpc/grpcService.ts:659-677 | after one run everything the object leads to is clean, and a second run, in any order, changes nothing |
| OneofStripping.OrderIrrelevantExactly | src/grpc/grpcService.ts:659-666 | the result is the same for every key order if and only if no synthetic field names another |

## Left out

- protobufjs itself: parsing, the search rules of `lookup`, and the binary format. Lookups are given maps; the encoder and decoder of descriptors are taken to undo each other, and buffers are told apart by their contents.
- The network, files and timers: reading a file and fetching a symbol are given maps and functions; time-outs and caches are not modelled.
- Tracing, metrics and logging, which change no modelled state.
- SchemaService.HandleGetSchemas: the JSON text of the schemas and definitions, and the registry they come from, are not modelled. An empty `required` list and an absent one are the same here; `definitions` absent and empty are told apart.
- SchemaMeaning.MeaningIsPreserved: assumes that reachable references differ in their last component; `MeaningExactly` does without.
- MeaningExactly.MeaningIsPreservedExactly: assumes that no two reachable references can share a definition name (`GeneratedNames.MayShare`) and that messages key their fields by name, as the library does. Types that share a name also share a definition (`DefinitionNaming.NestedNamesAreShared`), and whether the shapes of two such types agree is not looked into.
- MergeAgreement.MergesExactly: assumes that types with one name print different texts, and that an undeclared type shares its last component with no other. Two types of one name that print the same text may or may not have equal definitions, depending on the names of the types they hold.
- SchemaShadowing.ReferencesResolveExactly: speaks of the requests that wrap a single type, and assumes that no two types can share a definition name (`GeneratedNames.MayShare`); with a shared name a reference resolves, to the other type's definition. For one given root the answer also depends on the order of the fields, and only the two one-way conditions are proved (`EveryReferenceResolves`, `HiddenTypeDangles`).
- ProtoRoundTrip.PrintedMessageReadsBack: the reader skips comments, and names are made of letters, digits, underscores and dots.
- StreamService.GrpcStreamService.OnDestroy: ends the registered connections and forgets them; runs are not continued after it.
- `broadcast`, which publishes to every subscribed device in turn, and the telemetry and request handling around the stream handlers.
- That ending a connection leads to its close event: a close may come at any time, or never.
- NamespaceTree.MergeIntoNamespace: a subtree taken over by the target also stays listed in the source, which the library would unlink it from. Parent links and caches of objects are not modelled. Members that are not nested objects stand for fields, values and methods.
- NamespaceTree.PlaceAt: descends by recursion where the source moves a variable down the tree.
- NamespaceMerge.MergeIsLeftBiasedUnion: assumes that no field or value has the name of a nested object of the same parent, which the library enforces when objects are added.
- TypeResolution.ResolveAllTypes: the lookup from the root is a given function of the tree and the name.
- EnumConversion.ConvertEnumValues: a field's type is taken to resolve to the same type each time; reading a number from a string is a given function; fields are keyed by name.
- ReflectionRepair.FixReflectionTypeNames: only the fields it reads or writes are part of a descriptor here.
- Extraction of methods, comments and HTTP options from the parsed files: field-by-field copying.
- Prototype effects of plain objects, such as a message named `constructor`, a key found by `in` on a prototype, or the numbers that protobufjs puts on the prototype of an enum's values, by which `values[name]` also finds a number written as a string.
- Copying of headers, error-code tables, version choice, timestamps, locks around action execution and the moleculer and openapi parts: settled by case analysis, or resting on libraries that are not part of this model.
