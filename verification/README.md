# Verified model of the GDB MCP server

A Dafny model of the parts of `gdb-mcp` whose behaviour is not evident from any
single function: the compiler that flattens JSON Schemas for MCP clients, the
GDB/MI command exchange and the session state it feeds, the thread and frame
selection bracket of the inspection services, the session registry and the
one-daemon-per-project protocol under concurrency, the command-line tree builder and
its list coercion, and the lifecycle, campaign and batch loops with the text
codecs below them.

GDB, the schema validator and regular expressions are arbitrary oracles: the theorems
hold for all of their answers. Of the operating system, process starts, source files
and the cookie file may fail at any access; what else is taken for granted is listed
under "Left out". Code that updates things step by step is a method or a class proved
against a function of its inputs, and the theorems are about those functions and about
runs of them.

| module | what it is about |
|---|---|
| `JsonValues`, `Options` | JSON documents and optional values |
| `SchemaNormalizer` | the normalizer: inlining, union flattening, merging |
| `SchemaAcceptance` | what a schema accepts, from the JSON Schema 2020-12 texts, and merging |
| `SchemaFlattening` | the whole normalizer against that meaning: no value is lost |
| `SchemaInlining` | what every union becomes, and where nothing changes at all |
| `ActionUnions` | the theorems applied to unions of objects told apart by an `action` |
| `SchemaRecursion` | recursive definitions, judged with their own meaning |
| `SchemaReferences` | combinators, references and kept definitions of the output |
| `DanglingReferences` | exactly when every reference of the output resolves |
| `MiRecords`, `MiExchange`, `MiRouting` | records, one command exchange, where each record goes |
| `SessionRuntime`, `CommandRunner` | session state, and what an answered command does to it |
| `InspectionSelection` | capture, switch, query, restore |
| `SessionRegistry`, `DaemonProtocol` | the two concurrent protocols |
| `DottedAssignments`, `ListCoercion` | command-line trees and the validation retry loop |
| `MiCommands`, `StdinPump` | MI quoting and the stdin line splitter |
| `Lifecycle`, `Campaign`, `Workflow` | start and stop, campaigns, batches and histories |

## What turned out false of the code

Each of these has a concrete input and a statement of exactly when the property holds.

- A query for another thread reads frame 0 instead of the requested frame when the
  requested number equals the captured frame number
  (`InspectionSelection.CoincidingFrameIsMissed`; `RequestedFrameReached`).
- A selection that GDB reported only in part is not put back, by a successful call or by
  one that fails without reporting it
  (`InspectionSelection.MissingThreadIsNotRestored`, `RefusedSwitchMovesTheFrame`,
  `FailedQueryMovesTheFrame`; `EndsWhereItBegan` for every outcome that reports no
  failed restore).
- A source file that cannot be read as text raises inside the bracket and leaves the
  debugger switched (`InspectionSelection.RaisingReadIsNotRestored`; on a raise
  `GetSourceContext` ends where the switch led, and `SwitchLeadsNowhere` says when that
  is where it began).
- A result record without a token that follows the command's own result replaces it in
  the parsed response (`MiRouting.UntokenizedResultReplacesOwn`;
  `ParsedResultIsOwnIff`); if it is an error, a command that ran and stopped is rejected
  and its stop is lost (`CommandRunner.StrayErrorLosesTheStop`;
  `RunningCommandEndsAtItsStop`).
- A lost transport leaves the session ready without a controller when dropping the
  controller raises (`CommandRunner.RaisingExitLeavesReady`; `FatalExchangeFailsIff`).
- A command can succeed and leave the session failed without a controller
  (`CommandRunner.RefreshLosesTheTransport`; `SucceedsWithoutTransportIff`).
- A start can succeed without a controller when the confirm or probe command loses the
  transport (`Lifecycle.ReadyWithoutController`; `ReadyHasControllerIff`).
- The end of a shutdown clears the mark of a close that began after it, so a session
  being closed can be resolved (`SessionRegistry.ShutdownUnmarksAClose`;
  `ResolvedWhileClosingIff`).
- Two servers of one project can run when the cookie cannot be written after the first
  has started, or cannot be read inside the lock (`DaemonProtocol.FailedWriteLeavesTwo`;
  `SecondServerIff`).
- A batch step whose stop goes into a full history reports no stop
  (`Workflow.FullHistoryHidesAStop`; `BatchReportsLastStop`).
- The merge of two property schemas is documented to accept whatever either side
  accepts (`src/gdb_mcp/mcp/schema_normalizer.py:255-260`); a left `false` for extra
  properties that the right side lacks, and an `enum` on one side only, lose values, at
  any depth (`SchemaAcceptance.LeftFalseLosesAValue`, `OneSidedEnumLosesAValue`,
  `NestedEnumLosesAValue`; `LeftFalseKeepsIff`, `OneSidedEnumKeepsIff`, and
  `MergeKeepsIff` for every two schemas).
- A text among the definitions, inlined under a property named `$ref`, becomes a
  reference that may dangle (`DanglingReferences.TextDefinitionDangles`;
  `AlwaysResolvesIff`, `OnlyTextsDangle`). No table of the program has one: the only
  caller (`src/gdb_mcp/mcp/schema_normalizer.py:67`) passes the output of Pydantic,
  whose definitions are schemas, as section 8.2.4 of JSON Schema Core 2020-12 requires.

## Model

| member | source | states |
|---|---|---|
| `SchemaNormalizer.MergePropertySchemas` | src/gdb_mcp/mcp/schema_normalizer.py:254-306 | the key-by-key merge loop computes `MergeProperty` for every order in which the right schema's keys come |
| `SchemaNormalizer.MergeKey` | src/gdb_mcp/mcp/schema_normalizer.py:280-302 | one turn of that loop settles its own key and leaves all others as they were |
| `SchemaNormalizer.MergePropertyTables` | src/gdb_mcp/mcp/schema_normalizer.py:296-302 | the inner loop over a shared `properties` table merges shared names recursively and takes over the others |
| `SchemaNormalizer.MergeObjectVariants` | src/gdb_mcp/mcp/schema_normalizer.py:212-251 | the loop over the alternatives computes the fold `MergeVariants` |
| `SchemaNormalizer.KeepCommonRequired` | src/gdb_mcp/mcp/schema_normalizer.py:243-246 | keeps, in order of first appearance, the names every alternative requires |
| `SchemaNormalizer.RequiredEverywhereElements` | src/gdb_mcp/mcp/schema_normalizer.py:243-246 | those names are exactly the listed ones that all alternatives require |
| `SchemaNormalizer.DedupeLoop` | src/gdb_mcp/mcp/schema_normalizer.py:309-314 | the loop computes `Dedupe` |
| `SchemaNormalizer.DedupeKeepsElements` | src/gdb_mcp/mcp/schema_normalizer.py:309-314 | deduplication keeps exactly the elements, each once |
| `SchemaNormalizer.CommonIsIntersection` | src/gdb_mcp/mcp/schema_normalizer.py:269-274 | the common required names of two sides are the intersection |
| `SchemaNormalizer.KeptVariantsElements` | src/gdb_mcp/mcp/schema_normalizer.py:166-174 | a union keeps exactly the alternatives that are schema objects other than the null schema |
| `SchemaAcceptance.MergeAccepts` | src/gdb_mcp/mcp/schema_normalizer.py:254-306 | the merge of two mergeable property schemas accepts every value either accepts, at any nesting depth and for any reading of the other keywords |
| `SchemaAcceptance.MergeStaysMergeable` | src/gdb_mcp/mcp/schema_normalizer.py:234-238 | a merge is mergeable with whatever both of its parts were mergeable with, so pairwise compatibility survives folding |
| `SchemaAcceptance.MergedEnum` | src/gdb_mcp/mcp/schema_normalizer.py:294-295 | the merged `enum` accepts a value exactly when one of the two does |
| `SchemaAcceptance.MergedRequiredIsIntersection` | src/gdb_mcp/mcp/schema_normalizer.py:269-278 | the merge requires exactly the names both sides require |
| `SchemaAcceptance.MergeKeepsIff` | src/gdb_mcp/mcp/schema_normalizer.py:254-306 | exactly which of the values that either side accepts the merge keeps, for any two schemas at any depth: those that every constraint of one side alone accepts, here and wherever both declare the same name |
| `SchemaAcceptance.MergeMeans` | src/gdb_mcp/mcp/schema_normalizer.py:254-306 | exactly what the merge of any two schemas accepts, keyword by keyword and at any depth: both sides' other keywords with the left ones first, a value of either `enum`, the names both require, and for each name what its one or two declarations give |
| `SchemaAcceptance.MergedLabel` | src/gdb_mcp/mcp/schema_normalizer.py:287-290 | titles and descriptions are joined when they differ, and otherwise the one that says something stays |
| `SchemaAcceptance.FlatMergeKeepsIff` | src/gdb_mcp/mcp/schema_normalizer.py:254-306 | when the shared properties are mergeable only the top-level constraints matter |
| `SchemaAcceptance.LeftFalseKeepsIff` | src/gdb_mcp/mcp/schema_normalizer.py:280-286 | with a left `additionalProperties: false` that the right side lacks, a value is kept exactly when each of its names is declared on the right, or on the left with a schema that accepts its value |
| `SchemaAcceptance.LeftFalseLosesAValue` | src/gdb_mcp/mcp/schema_normalizer.py:280-286 | two schemas and an object that the second accepts and the merge refuses |
| `SchemaAcceptance.OneSidedEnumKeepsIff` | src/gdb_mcp/mcp/schema_normalizer.py:291-295 | with an `enum` on one side only, a value is kept exactly when it is in that list |
| `SchemaAcceptance.OneSidedEnumLosesAValue` | src/gdb_mcp/mcp/schema_normalizer.py:291-295 | two schemas and a text that the second accepts and the merge refuses |
| `SchemaAcceptance.NestedLoss` | src/gdb_mcp/mcp/schema_normalizer.py:296-302 | a value that a merge loses is lost by the merge of any two schemas that declare the two for one name |
| `SchemaAcceptance.NestedEnumLosesAValue` | src/gdb_mcp/mcp/schema_normalizer.py:291-302 | two schemas and an object lost through a one-sided `enum` one level down |
| `SchemaAcceptance.MergedVariantsAccept` | src/gdb_mcp/mcp/schema_normalizer.py:212-251 | folding any list of pairwise mergeable object alternatives accepts every value any of them accepts |
| `SchemaAcceptance.MergedVariantsRequire` | src/gdb_mcp/mcp/schema_normalizer.py:240-246 | the folded object requires exactly the names all alternatives require |
| `SchemaAcceptance.MergedVariantsBound` | src/gdb_mcp/mcp/schema_normalizer.py:212-251 | conversely, what the folded object accepts is an object with those names; when all alternatives are closed it has only names some alternative declares |
| `SchemaAcceptance.MergedVariantsMean` | src/gdb_mcp/mcp/schema_normalizer.py:212-251 | exactly what the folded object accepts, for any alternatives |
| `SchemaAcceptance.FoldedIsMerged` | src/gdb_mcp/mcp/schema_normalizer.py:231-238 | the folded table holds exactly the declared names, each with the merge of its declarations in order |
| `SchemaAcceptance.FoldedEnumIsUnion` | src/gdb_mcp/mcp/schema_normalizer.py:234-238 | the `enum` of a property declared by several alternatives, such as a discriminator, is the union of theirs |
| `SchemaFlattening.NormalizeAccepts` | src/gdb_mcp/mcp/schema_normalizer.py:106-201 | the whole normalizer never loses a value: for every flattenable schema and definition table the output accepts what the input accepts, a recursive reference meaning the same on both sides (null alternatives: for null-free values) |
| `SchemaFlattening.AnnotatedAccepts` | src/gdb_mcp/mcp/schema_normalizer.py:149-151 | annotations next to `$ref` or a union do not change what is accepted |
| `SchemaFlattening.ConstToEnumAccepts` | src/gdb_mcp/mcp/schema_normalizer.py:134-135 | turning `const` into `enum` loses no value, also when an `enum` was there |
| `SchemaInlining.InliningIsExact` | src/gdb_mcp/mcp/schema_normalizer.py:106-201 | whenever every union has one alternative besides null ones the normal form accepts exactly the null-free values the schema accepts, through properties, items and references and with a recursive reference meaning the same on both sides; all values if there are no null alternatives |
| `SchemaInlining.UnionReads` | src/gdb_mcp/mcp/schema_normalizer.py:155-201 | a union with one kept alternative accepts exactly what that alternative accepts once normalized, and a union of unlike alternatives what its first kept one accepts |
| `SchemaInlining.EmptyUnionReads` | src/gdb_mcp/mcp/schema_normalizer.py:179-182 | a union that keeps no alternative accepts exactly null if it had a null one, and everything otherwise |
| `SchemaInlining.MergedUnionReads` | src/gdb_mcp/mcp/schema_normalizer.py:185-201 | a union of several object shapes accepts exactly the objects that have the names all of them require, whose declared names hold what the merge of their declarations accepts, and that have no other names if all are closed |
| `SchemaInlining.KeptInOrder` | src/gdb_mcp/mcp/schema_normalizer.py:166-174 | the kept alternatives stay in order |
| `SchemaInlining.MixedUnionKeepsIff` | src/gdb_mcp/mcp/schema_normalizer.py:187-190 | a union of unlike alternatives keeps exactly the values of its first kept one, judged before normalization |
| `SchemaInlining.MixedUnionLosesAValue` | src/gdb_mcp/mcp/schema_normalizer.py:187-190 | a text or a number becomes a text, so a number it accepted is refused |
| `SchemaInlining.OptionalField` | src/gdb_mcp/mcp/schema_normalizer.py:155-192 | an optional field becomes its normalized alternative with its annotations, without a null default |
| `SchemaInlining.ReferenceSiblings` | src/gdb_mcp/mcp/schema_normalizer.py:140-152 | a reference that cannot be followed stays as it is; one that can gives way to its normalized target, whose keywords its own siblings replace |
| `SchemaInlining.UnionSiblings` | src/gdb_mcp/mcp/schema_normalizer.py:155-192 | every sibling of a union stays, except a null default where null was an alternative, and a union that is no list stays as it is |
| `SchemaInlining.PlainSiblings` | src/gdb_mcp/mcp/schema_normalizer.py:115-137 | the keywords of any other schema stay, except that `discriminator` goes and `const` becomes an `enum` unless there is one |
| `SchemaInlining.ConstIsOneValueEnum` | src/gdb_mcp/mcp/schema_normalizer.py:134-135 | without an `enum` beside it, `const` and the one-value `enum` accept the same values |
| `ActionUnions.ActionUnionFlattenable` | src/gdb_mcp/mcp/schema_normalizer.py:155-251 | every union of closed objects that declare their actions, given in place or by reference, with any further properties and required names, meets the conditions of the flattening theorem when shared normalized properties are mergeable |
| `ActionUnions.ActionUnionKeepsValues` | src/gdb_mcp/mcp/schema_normalizer.py:155-251 | flattening such a union loses no value |
| `ActionUnions.ActionUnionIsPlausible` | src/gdb_mcp/mcp/schema_normalizer.py:155-251 | and accepts only objects whose names some alternative declares, with the names all alternatives require, and an action that some alternative offers |
| `ActionUnions.MergedActions` | src/gdb_mcp/mcp/schema_normalizer.py:212-251 | the merged discriminator's `enum` lists exactly the actions of the alternatives |
| `ActionUnions.SimpleUnionIsActionUnion` | src/gdb_mcp/mcp/schema_normalizer.py:155-251 | a union of requests whose properties hold no further schemas, in place or one reference away, is such a union when the properties they share merge as they stand |
| `ActionUnions.SessionQueryIsActionUnion` | src/gdb_mcp/mcp/schemas/session.py:21-43 | the session query request, two actions by reference of which one requires a session, is such a union, whatever its annotations, bounds and further plain keywords |
| `SchemaReferences.NormalizePlain` | src/gdb_mcp/mcp/schema_normalizer.py:106-201 | over acyclic definitions with annotation-only siblings the output has no `$ref`, `oneOf`, `anyOf`, `discriminator` or `const` in any schema position |
| `SchemaReferences.NormalizeWithin` | src/gdb_mcp/mcp/schema_normalizer.py:106-201 | normalizing introduces no reference from outside a set of names closed under the definitions and the texts among them that can be referred to |
| `SchemaReferences.PruneDefs` | src/gdb_mcp/mcp/schema_normalizer.py:496-507 | the worklist keeps exactly the definitions reachable by a chain of references from the initial ones |
| `SchemaReferences.RefNamesIff` | src/gdb_mcp/mcp/schema_normalizer.py:477-493 | the collected names are exactly those of the references at any position of the document |
| `SchemaReferences.RefNameIff` | src/gdb_mcp/mcp/schema_normalizer.py:143-143 | the name of a reference is the part after its last slash |
| `DanglingReferences.AlwaysResolvesIff` | src/gdb_mcp/mcp/schema_normalizer.py:87-103 | for every table whose definitions refer to definitions: all schemas over it without dangling references have an output whose every reference, also inside re-normalized definitions, resolves in its `$defs`, exactly when every text that can be referred to names a definition and each definition, kept alone, is self-contained |
| `DanglingReferences.NoReferenceDangles` | src/gdb_mcp/mcp/schema_normalizer.py:87-103 | so it is when no definition that can be referred to is a text |
| `DanglingReferences.OnlyTextsDangle` | src/gdb_mcp/mcp/schema_normalizer.py:87-103 | and exactly then, when no text names a definition |
| `DanglingReferences.NormalizeIsLocal` | src/gdb_mcp/mcp/schema_normalizer.py:106-201 | the normal form depends only on the definitions that can be reached |
| `DanglingReferences.UncontainedDefinitionDangles` | src/gdb_mcp/mcp/schema_normalizer.py:477-507 | a definition that is not self-contained dangles in the output of a schema that only mentions it |
| `DanglingReferences.TextDefinitionDangles` | src/gdb_mcp/mcp/schema_normalizer.py:140-152 | every text that can be referred to and names no definition has a schema whose output has a dangling reference |
| `SchemaReferences.NormalizeInputSchema` | src/gdb_mcp/mcp/schema_normalizer.py:87-103 | the entry point computes `NormalizeInput`, pruning through the worklist |
| `SchemaReferences.InputFailsIff` | src/gdb_mcp/mcp/schema_normalizer.py:87-103 | it fails exactly when the normal form of the root is no object and has references; definitions are published exactly when there are references |
| `SchemaReferences.InputKeepsValues` | src/gdb_mcp/mcp/schema_normalizer.py:87-103 | the published schema accepts every value the input schema accepts, whatever the references left in it mean |
| `SchemaReferences.InputIsPlain` | src/gdb_mcp/mcp/schema_normalizer.py:87-103 | over acyclic definitions the published schema is free of the flattened keywords |
| `SchemaRecursion.UnrollIsExact` | src/gdb_mcp/mcp/schema_normalizer.py:140-152 | when the oracle reads references as the definitions say, following a reference any number of times accepts the same values |
| `SchemaRecursion.NormalizedHasNoUnion` | src/gdb_mcp/mcp/schema_normalizer.py:106-201 | a flattenable schema is free of `oneOf` and `anyOf` afterwards, also where references stay |
| `SchemaRecursion.RecursiveInputKeepsValues` | src/gdb_mcp/mcp/schema_normalizer.py:87-152 | the published schema under any meaning of its own re-normalized definitions accepts every value, however deep, that the input schema accepts under any meaning of its own, recursive definitions included |
| `SchemaRecursion.Carry` | src/gdb_mcp/mcp/schema_normalizer.py:87-152 | what a union-free schema accepts under an oracle that its definitions support it accepts under every meaning of them |
| `SchemaRecursion.RecursiveInputKeepsReading` | src/gdb_mcp/mcp/schema_normalizer.py:87-152 | the same with one meaning on both sides, bare reference cycles included |
| `SchemaRecursion.BareCycleIsNotKept` | src/gdb_mcp/mcp/schema_normalizer.py:140-152 | a definition that refers to itself only, with a meaning of the input and one of the output that accepts less |
| `SchemaRecursion.MeaningIsKept` | src/gdb_mcp/mcp/schema_normalizer.py:87-103 | without unions other than optional ones every meaning of the input definitions is a meaning of the published ones, on null-free values where null alternatives are dropped |
| `SchemaRecursion.RecursiveInliningIsExact` | src/gdb_mcp/mcp/schema_normalizer.py:87-152 | without unions other than optional ones the published schema accepts exactly the same (null-free) values, recursive definitions included, each judged with its own definitions |
| `SchemaRecursion.PublishedHasNoUnion` | src/gdb_mcp/mcp/schema_normalizer.py:87-103 | neither the published schema nor one of its definitions has a union |
| `SchemaRecursion.RecursiveOutput` | src/gdb_mcp/mcp/schema_normalizer.py:87-103 | what is published for a definition that refers to itself: its normal form in place of the reference and as the definition, no further unrolled |
| `MiRecords.ParseMiResponses` | src/gdb_mcp/transport/mi_parser.py:13-35 | the loop over the records computes `Parse` |
| `MiRecords.ParsedNotices` | src/gdb_mcp/transport/mi_parser.py:26-35 | the parsed notifications are the notify records in order |
| `MiRecords.ParsedResultIsLast` | src/gdb_mcp/transport/mi_parser.py:23-26 | the parsed result is the last result record, or none |
| `MiRecords.ParsedStreams` | src/gdb_mcp/transport/mi_parser.py:16-21 | console, log and output payloads go to their own lists, in order |
| `MiExchange.MiClient.SendCommandAndWait` | src/gdb_mcp/transport/mi_client.py:167-335 | the polling loop computes `Exchange`; the token advances once, the controller is dropped exactly on fatal outcomes, a controller whose exit raises escapes in their place, and the return on an idle poll is unreachable |
| `MiExchange.MiClient.Collect` | src/gdb_mcp/transport/mi_client.py:264-317 | the loop over one batch absorbs every record, or those before the first fatal one |
| `MiExchange.MiClient.Exit` | src/gdb_mcp/transport/mi_client.py:129-138 | the controller is dropped whether or not its exit raises |
| `MiExchange.ExchangeOutcome` | src/gdb_mcp/transport/mi_client.py:204-335 | a plain return happens exactly when some prefix of the turns brings the own result and, for class running, a later stop, and then at the first such turn; a timeout exactly when all turns are clean and none does |
| `MiExchange.LostIff` | src/gdb_mcp/transport/mi_client.py:167-335 | a command is lost exactly when it cannot be written, or some turn is not clean and none before it answers the command; a raising exit then escapes |
| `MiExchange.FatalIff` | src/gdb_mcp/transport/mi_client.py:276-284 | GDB is given up exactly on a console or log text that holds one of two phrases, in any case |
| `MiRouting.CollectedFlags` | src/gdb_mcp/transport/mi_client.py:286-307 | the loop's flags mean: an own result arrived, its class, and a stop arrived while that class was running |
| `MiRouting.RoutingPartitions` | src/gdb_mcp/transport/mi_client.py:286-317 | the command and asynchronous lists are the marked and the unmarked records of the stream, in arrival order, marks being defined without the loop |
| `MiRouting.SelectPartitions` | src/gdb_mcp/transport/mi_client.py:286-317 | the two lists together hold every record exactly once |
| `MiRouting.ForeignResultsAreDropped` | src/gdb_mcp/transport/mi_client.py:286-317 | a result with another command's token never reaches the command's records |
| `MiRouting.PlainReturnIff` | src/gdb_mcp/transport/mi_client.py:204-335 | the same without the loop: a plain return exactly when some clean prefix of the turns holds an own result and, if its class is running, a stop that came after it |
| `MiRouting.ParsedClassIsOwn` | src/gdb_mcp/session/command_runner.py:144-152 | when results carry tokens, the parsed class is that of the command's own last result |
| `MiRouting.ParsedResultIsOwnIff` | src/gdb_mcp/transport/mi_client.py:286-317 | the parsed result is the last one with the own token or none, and is the command's own exactly when some own result is followed by no result without a token |
| `MiRouting.UntokenizedResultReplacesOwn` | src/gdb_mcp/transport/mi_client.py:308-309 | a stream where a result without a token replaces the own one |
| `MiRouting.NoticesOfExchange` | src/gdb_mcp/transport/mi_client.py:300-317 | the notifications among the command's records are the deferred stops, and all other notifications are among the asynchronous ones in arrival order |
| `MiRouting.AsyncNotices` | src/gdb_mcp/transport/mi_client.py:300-317 | and these are all notifications but the deferred stops, stale stops included |
| `MiRouting.FirstDeferredStop` | src/gdb_mcp/transport/mi_client.py:300-307 | the first of them is the first stop after the own running result |
| `SessionRuntime.RunMirrors` | src/gdb_mcp/session/runtime.py:94-249 | after any sequence of operations the top-level state, stop reason and exit code are the selected inferior's, or the defaults |
| `SessionRuntime.StepMirrors` | src/gdb_mcp/session/runtime.py:367-427 | every single operation keeps that |
| `SessionRuntime.UnselectedUpdateIsLocal` | src/gdb_mcp/session/runtime.py:367-406 | updating an unselected inferior changes its record and the count, and nothing else |
| `SessionRuntime.OthersUntouched` | src/gdb_mcp/session/runtime.py:183-249 | adding, selecting or removing one inferior leaves the others' records alone |
| `SessionRuntime.SelectedInferior` | src/gdb_mcp/session/runtime.py:183-192 | selecting an inferior forgets thread and frame and shows its record, a new one if it was not known, and counts it; selecting none shows the defaults |
| `SessionRuntime.InventoryWithSelection` | src/gdb_mcp/session/runtime.py:194-219 | an inventory selects the reported inferior, keeps the records of the reported ids alone and leaves thread and frame |
| `SessionRuntime.InventoryWithoutSelection` | src/gdb_mcp/session/runtime.py:194-219 | without a reported selection it selects the least known inferior, or none |
| `SessionRuntime.RemovalLeaves` | src/gdb_mcp/session/runtime.py:232-249 | removing the selected inferior selects the least one left without thread and frame; removing another leaves the selection alone |
| `SessionRuntime.ReadyLeaves` | src/gdb_mcp/session/runtime.py:128-149 | every field of a session that becomes ready, from those before |
| `SessionRuntime.ResetsLeave` | src/gdb_mcp/session/runtime.py:94-171 | a failure and a stop leave nothing loaded, selected or known but the histories, and a startup not even these |
| `SessionRuntime.UpdateLeaves` | src/gdb_mcp/session/runtime.py:367-406 | which record an update writes, when it selects its inferior and when it shows it |
| `SessionRuntime.EnsuredInferior` | src/gdb_mcp/session/runtime.py:221-230 | a missing record is added and counted, and nothing else changes |
| `SessionRuntime.InferiorTable.NoAliasing` | src/gdb_mcp/session/runtime.py:204-230 | two inferiors never share a record object |
| `SessionRuntime.InferiorTable.Rebuild` | src/gdb_mcp/session/runtime.py:204-211 | the rebuilt dictionary has the known records of the listed ids and new ones for the others |
| `SessionRuntime.InferiorTable.Overwrite` | src/gdb_mcp/session/runtime.py:384-386 | updating a record object in place changes that inferior and no other |
| `SessionRuntime.Runtime.Reset` | src/gdb_mcp/session/runtime.py:106-126 | clears everything per run, and keeps the histories |
| `SessionRuntime.Runtime.BeginStarting` | src/gdb_mcp/session/runtime.py:94-104 | a start clears the histories too |
| `SessionRuntime.Runtime.Close` | src/gdb_mcp/session/runtime.py:165-171 | a stop clears everything per run and keeps the histories |
| `SessionRuntime.Runtime.BecomeReady` | src/gdb_mcp/session/runtime.py:128-149 | the object does what `MarkReady` does to its view |
| `SessionRuntime.Runtime.Select` | src/gdb_mcp/session/runtime.py:183-192 | selects, forgets thread and frame, and mirrors |
| `SessionRuntime.Runtime.Inventory` | src/gdb_mcp/session/runtime.py:194-219 | replaces the table by the reported inferiors and selects the reported or smallest one |
| `SessionRuntime.Runtime.Ensure` | src/gdb_mcp/session/runtime.py:221-230 | adds a missing record and raises the count |
| `SessionRuntime.Runtime.Remove` | src/gdb_mcp/session/runtime.py:232-249 | removes a record and, when it was selected, selects the smallest remaining |
| `SessionRuntime.Runtime.Update` | src/gdb_mcp/session/runtime.py:367-406 | updates one record in place, and the top-level fields exactly when it is selected |
| `SessionRuntime.Runtime.SynchronizeSelected` | src/gdb_mcp/session/runtime.py:408-427 | copies the selected record to the top, creating it if missing |
| `SessionRuntime.Runtime.Record` | src/gdb_mcp/session/runtime.py:340-365 | appends a stop event and trims in place |
| `CommandRunner.NotifyAll` | src/gdb_mcp/session/command_runner.py:242-299 | group events take effect in order, the first stop is remembered, and topology changes are noticed |
| `CommandRunner.Stop` | src/gdb_mcp/session/command_runner.py:304-332 | one stop moves the selection, updates the stopped inferior and records the event |
| `CommandRunner.HandleResponse` | src/gdb_mcp/session/command_runner.py:230-372 | the whole update is `UpdateAfter`, the transport is lost exactly when the inventory refresh loses it, and its exception escapes before the stop is handled |
| `CommandRunner.EventsAreLocal` | src/gdb_mcp/session/command_runner.py:247-281 | each inferior goes its own way: after all events of a response its record is what the events that name it, in order, made of it (added, running, exited with its reason, removed) |
| `CommandRunner.UnnamedExit` | src/gdb_mcp/session/command_runner.py:258-270 | an exit that names no inferior is that of the selected one |
| `CommandRunner.RefreshesIff` | src/gdb_mcp/session/command_runner.py:301-302 | GDB is asked for its inferiors exactly when a named inferior was added or removed and something stopped |
| `CommandRunner.RefreshLeaves` | src/gdb_mcp/session/command_runner.py:374-412 | what the answer, or a dead transport, then does to the session |
| `CommandRunner.ResponseWithoutStop` | src/gdb_mcp/session/command_runner.py:333-334 | without a stop the selected inferior runs exactly if the result says so |
| `CommandRunner.EffectLeaves` | src/gdb_mcp/session/command_runner.py:336-372 | what loading, attaching, detaching, switching and the fork settings do to the session |
| `CommandRunner.ExecuteCommand` | src/gdb_mcp/session/command_runner.py:95-228 | result, session state and controller for every outcome of the exchange; an error result leaves the session untouched |
| `CommandRunner.ReturnedResult` | src/gdb_mcp/session/command_runner.py:193-228 | a call that returned plainly is rejected, leaving everything as it was, exactly when the result that decides about it is an error |
| `CommandRunner.TimedOutStillRunningIff` | src/gdb_mcp/session/command_runner.py:154-192 | a call that timed out is reported as still running exactly when its caller allows it and the command was answered by running or the selected inferior runs |
| `CommandRunner.TimedOutView` | src/gdb_mcp/session/command_runner.py:154-155 | and leaves the session as a plain return with the same records would |
| `CommandRunner.UnsentResult` | src/gdb_mcp/session/command_runner.py:104-122 | without a controller nothing happens, and a command that cannot be sent fails the session |
| `CommandRunner.FatalExchangeFailsIff` | src/gdb_mcp/session/command_runner.py:38-53 | losing the transport marks the session failed, with everything but the histories cleared, exactly when dropping the controller does not raise; otherwise the session is as it was |
| `CommandRunner.RaisingExitLeavesReady` | src/gdb_mcp/transport/mi_client.py:129-138 | a session that stays ready without a controller |
| `CommandRunner.SucceedsWithoutTransportIff` | src/gdb_mcp/session/command_runner.py:95-372 | a successful command leaves the session failed and without a controller exactly when the inventory refresh after its stop loses the transport |
| `CommandRunner.RefreshLosesTheTransport` | src/gdb_mcp/session/command_runner.py:301-372 | one batch with a new inferior and a stop, after which a dead transport leaves a successful command and a failed session |
| `CommandRunner.SessionNotices` | src/gdb_mcp/session/command_runner.py:140-152 | no notification is lost on the way to the session: it sees the deferred stops and then all others, each in arrival order |
| `CommandRunner.StopFollowsOwnRunning` | src/gdb_mcp/session/command_runner.py:230-334 | with a deferred stop in the stream the response is handled as the group events in arrival order and then the first stop after the own running result, whatever stale stop came earlier |
| `CommandRunner.RunningCommandEndsAtItsStop` | src/gdb_mcp/session/command_runner.py:95-372 | from the wire to the result: a command that returns plainly while its class is running succeeds, leaving the session as that stop and its own effect make it, exactly when no error result without a token replaced its own and no refresh exception escapes; otherwise it is rejected with the session untouched, or raises |
| `CommandRunner.TokenizedRunningCommand` | src/gdb_mcp/session/command_runner.py:95-372 | when results carry tokens it succeeds, and the recorded event and record are those of the stop, from its payload |
| `CommandRunner.StrayErrorLosesTheStop` | src/gdb_mcp/session/command_runner.py:193-206 | one batch whose error result without a token makes the runner reject a command that ran and stopped |
| `CommandRunner.RecordedStop` | src/gdb_mcp/session/command_runner.py:304-372 | after the command's own effect the last event and the end of the history are those of the stop, field by field from its payload, and the stopped inferior's record is too, exactly unless the command attached to it after it had exited or gave no reason |
| `CommandRunner.StopLeaves` | src/gdb_mcp/session/command_runner.py:304-332 | everything one stop leaves, from its payload: exited with reason and code for the three exit reasons, paused without a code for any other, the selection, the event and the history |
| `CommandRunner.StopsChangeNothing` | src/gdb_mcp/session/command_runner.py:242-299 | stops interleaved with group events change nothing in the notification pass |
| `CommandRunner.ExecutionMirrors` | src/gdb_mcp/session/command_runner.py:95-372 | every call, whatever its outcome, notifications and effect, keeps the top-level fields equal to the selected inferior's record |
| `InspectionSelection.InspectionContext.Capture` | src/gdb_mcp/session/inspection/base.py:81-111 | captures what GDB reports and caches it |
| `InspectionSelection.InspectionContext.Restore` | src/gdb_mcp/session/inspection/base.py:113-143 | fails exactly when one of its commands is refused; otherwise debugger and cache are at what was captured |
| `InspectionSelection.InspectionContext.SelectForInspection` | src/gdb_mcp/session/inspection/base.py:145-176 | where the switch leads, whether anything changed, and that nothing moved when it says so |
| `InspectionSelection.InspectionContext.RestoreIfChanged` | src/gdb_mcp/session/inspection/base.py:178-187 | restores exactly when something was switched, and fails exactly when a command of the restore is refused |
| `InspectionSelection.InspectionContext.ErrorWithRestore` | src/gdb_mcp/session/inspection/base.py:189-209 | an error that reports a failed restore exactly when a command of it is refused, switched or not |
| `InspectionSelection.RequestedFrameReached` | src/gdb_mcp/session/inspection/base.py:160-174 | the query runs at the requested frame exactly when no thread switch was needed, or the number differs from the captured one, or it is 0 |
| `InspectionSelection.QueryReached` | src/gdb_mcp/session/inspection/base.py:145-176 | whatever was captured, a query runs in the requested thread, and exactly when at the requested frame |
| `InspectionSelection.CapturedInFull` | src/gdb_mcp/session/inspection/base.py:113-209 | with both parts captured a call ends where it began and its query runs where the request says |
| `InspectionSelection.EndsWhereItBegan` | src/gdb_mcp/session/inspection/base.py:113-209 | exactly when a call that reports no failed restore, successful or not, ends where it began, by what was captured and how far the switch came |
| `InspectionSelection.InspectionContext.Enter` | src/gdb_mcp/session/inspection/base.py:81-209 | the opening all clients share: where it leads, how far it comes and where a refused switch ends |
| `InspectionSelection.InspectionContext.Close` | src/gdb_mcp/session/inspection/base.py:178-209 | the closing all clients share: it succeeds exactly when the query and every restore command were answered, and reports a failed restore exactly when one was not |
| `InspectionSelection.InspectionContext.AnsweredIff` | src/gdb_mcp/session/inspection/base.py:81-187 | all commands of a call are answered exactly when the bracket is opened, the queries are answered and it is closed |
| `InspectionSelection.InspectionContext.EvaluateExpression` | src/gdb_mcp/session/inspection/memory.py:90-133 | succeeds exactly when each of its commands, counted one by one, is answered, and reports a failed restore exactly when one that puts the selection back is not; when both parts are reported the selection is as before for every other pattern of failures, the query ran where asked and the cache agrees; when a part is missing, where it ran and ends |
| `InspectionSelection.InspectionContext.GetVariables` | src/gdb_mcp/session/inspection/variables.py:36-72 | the same |
| `InspectionSelection.InspectionContext.GetRegisters` | src/gdb_mcp/session/inspection/variables.py:74-159 | the same, with up to three queries inside the bracket and names that may be unknown |
| `InspectionSelection.InspectionContext.GetFrameInfo` | src/gdb_mcp/session/inspection/threads.py:125-168 | the same, and exactly when the cache agrees afterwards |
| `InspectionSelection.InspectionContext.GetBacktrace` | src/gdb_mcp/session/inspection/threads.py:84-123 | the same, for the thread alone; a refused switch puts nothing back |
| `InspectionSelection.InspectionContext.Disassemble` | src/gdb_mcp/session/inspection/disassembly.py:43-267 | the same, with a feature probe whose answer does not matter, an address range query and a failing command builder inside |
| `InspectionSelection.InspectionContext.GetSourceContext` | src/gdb_mcp/session/inspection/source.py:29-178 | the same, with location and file failures inside; a file read that raises leaves the debugger where the switch led |
| `InspectionSelection.SwitchLeadsNowhere` | src/gdb_mcp/session/inspection/source.py:157-157 | exactly when that is where it began: the selected thread was asked for, if any, and the selected frame is left |
| `InspectionSelection.RaisingReadIsNotRestored` | src/gdb_mcp/session/inspection/source.py:157-157 | an undecodable file leaves the debugger in the other thread, and the cache disagreeing |
| `InspectionSelection.CoincidingFrameIsMissed` | src/gdb_mcp/session/inspection/base.py:168-174 | variables of thread 2, frame 3 asked for from thread 1, frame 3 come from frame 0 |
| `InspectionSelection.MissingThreadIsNotRestored` | src/gdb_mcp/session/inspection/base.py:113-143 | a successful evaluation leaves the debugger in the other thread when GDB did not report the selected one |
| `InspectionSelection.RefusedSwitchMovesTheFrame` | src/gdb_mcp/session/inspection/base.py:189-209 | an evaluation whose switch is refused ends at frame 0 without reporting it, when GDB did not report the selected frame |
| `InspectionSelection.FailedQueryMovesTheFrame` | src/gdb_mcp/session/inspection/threads.py:149-154 | the same for frame information of the selected thread, where nothing was to be switched |
| `SessionRegistry.RunKeepsInv` | src/gdb_mcp/session/registry.py:48-273 | in every state of every interleaving: published ids are below the next id, each registered or removed; closers hold the registered session; marked ids belong to a close or shutdown in flight |
| `SessionRegistry.PublishedOnce` | src/gdb_mcp/session/registry.py:82-103 | no id is published twice |
| `SessionRegistry.RemovedForGood` | src/gdb_mcp/session/registry.py:209-273 | a removed id is never registered again |
| `SessionRegistry.QuiescentIsUnmarked` | src/gdb_mcp/session/registry.py:209-273 | with no close or shutdown in flight nothing is marked as closing |
| `SessionRegistry.ResolveIsSafe` | src/gdb_mcp/session/registry.py:132-150 | a resolved session was unmarked at the lock point, published and not removed |
| `SessionRegistry.ResolveIff` | src/gdb_mcp/session/registry.py:132-150 | resolving an id gives exactly the session that a start published under it, when no step removed it and no mark is on it; it is reported as closing exactly when it is marked by the history of steps, and as not found otherwise |
| `SessionRegistry.RegisteredIff` | src/gdb_mcp/session/registry.py:82-273 | a session is filed under an id exactly when a start published it there and no later step removed it |
| `SessionRegistry.ResolvedSessionsDiffer` | src/gdb_mcp/session/registry.py:82-150 | two ids never resolve to the same session |
| `SessionRegistry.MarkedIff` | src/gdb_mcp/session/registry.py:209-273 | an id is marked exactly when a step marked it and no later step unmarked it |
| `SessionRegistry.ResolvedWhileClosingIff` | src/gdb_mcp/session/registry.py:209-273 | a registered session that a thread is closing is resolved exactly when, since that close began, a second close of the id gave up or a shutdown ended, and no close of it has begun after that |
| `SessionRegistry.ClosingIsNotResolved` | src/gdb_mcp/session/registry.py:209-256 | without shutdowns and simultaneous closes of one id, a session being closed is not resolved |
| `SessionRegistry.ShutdownUnmarksAClose` | src/gdb_mcp/session/registry.py:209-273 | a run in which the end of a shutdown makes a session being closed resolvable |
| `SessionRegistry.RegistryObject.AllocateSessionId` | src/gdb_mcp/session/registry.py:48-54 | the lock region hands out the next id |
| `SessionRegistry.RegistryObject.ResolveSession` | src/gdb_mcp/session/registry.py:132-150 | the lock region computes `ResolveIn` |
| `SessionRegistry.RegistryObject.BeginClose` | src/gdb_mcp/session/registry.py:209-215 | the first lock region of a close is the protocol's marking step |
| `SessionRegistry.RegistryObject.FinishClose` | src/gdb_mcp/session/registry.py:250-254 | the last one removes the session only if it is still the registered one |
| `SessionRegistry.RegistryObject.AbortClose` | src/gdb_mcp/session/registry.py:240-248 | a close that gives up unmarks its id |
| `SessionRegistry.RegistryObject.BeginShutdown` | src/gdb_mcp/session/registry.py:258-264 | takes all sessions and marks exactly them |
| `SessionRegistry.RegistryObject.FinishShutdown` | src/gdb_mcp/session/registry.py:270-271 | the end of a shutdown unmarks every id |
| `DaemonProtocol.RunKeepsInv` | src/gdb_mcp/client/daemon.py:265-412 | in every state of every interleaving in which no failure of the cookie file lets go of a running server: the lock has one holder, what the holder read is still in the file, and every running server is the one the cookie names or the holder is starting |
| `DaemonProtocol.OneServer` | src/gdb_mcp/client/daemon.py:265-382 | at most one server of the project runs at any time of such a run |
| `DaemonProtocol.SecondServerIff` | src/gdb_mcp/client/daemon.py:197-342 | after a step a second server can be started without further failures exactly when the step let go of a running one: the write of its cookie failed, or a read inside the lock missed the cookie naming it |
| `DaemonProtocol.FailedWriteLeavesTwo` | src/gdb_mcp/client/daemon.py:332-341 | a run with two servers after one failed write |
| `DaemonProtocol.ResolvedWasAlive` | src/gdb_mcp/client/daemon.py:265-382 | every resolve returns a server that was running when this client probed it, alone if no failure had let go of one |
| `DaemonProtocol.WritingWasReady` | src/gdb_mcp/client/daemon.py:265-342 | a client about to write the cookie has seen its server answer |
| `DaemonProtocol.CookieKeepsServer` | src/gdb_mcp/client/daemon.py:393-412 | remembering and forgetting a session never change which running server is named |
| `DaemonProtocol.RememberedIff` | src/gdb_mcp/client/daemon.py:393-412 | in every run, whatever failed, the cookie holds a session exactly when a client recorded it and since then none was recorded or forgotten and no cookie removed or written |
| `DaemonProtocol.RecordsWhatWasAsked` | src/gdb_mcp/client/daemon.py:393-400 | what a client records is what it was last asked to |
| `DaemonProtocol.ResolvingSucceeds` | src/gdb_mcp/client/daemon.py:265-382 | whenever the lock is free a client can resolve, by its own steps and without failures, to a running server that the cookie names |
| `DaemonProtocol.LiveServerNeedsNoLock` | src/gdb_mcp/client/daemon.py:364-371 | a running server that the cookie names is resolved without the lock, whoever holds it |
| `DottedAssignments.AssignmentTarget.AssignDottedValue` | src/gdb_mcp/client/parsers.py:76-104 | the walk that creates mappings on its way computes `Assign`, and a failing assignment leaves the mapping unchanged |
| `DottedAssignments.AssignSucceeds` | src/gdb_mcp/client/parsers.py:81-99 | an assignment fails exactly when its path passes through a value or ends at a mapping |
| `DottedAssignments.AssignChanges` | src/gdb_mcp/client/parsers.py:81-104 | it changes its own path and the mappings on the way; every other path is untouched |
| `DottedAssignments.FoldAgrees` | src/gdb_mcp/client/parsers.py:76-104 | folding assignments succeeds exactly when no path is a strict prefix of another; then every path holds its one value or the list of its values in order |
| `DottedAssignments.SplitJoins` | src/gdb_mcp/client/parsers.py:80-80 | splitting at dots loses nothing |
| `DottedAssignments.PartsHaveNoDots` | src/gdb_mcp/client/parsers.py:80-80 | and leaves no dot in a part |
| `DottedAssignments.JoinSplits` | src/gdb_mcp/client/parsers.py:80-80 | so the path is the only one of dot-free parts that joins to the text |
| `ListCoercion.MappingNode.CoercePath` | src/gdb_mcp/client/parsers.py:137-171 | the walk down a location wraps in place exactly the value there, or nothing |
| `ListCoercion.MappingNode.WrapPath` | src/gdb_mcp/client/parsers.py:151-171 | the dictionaries on the way and beside it hold what they held, the last one a list of its value |
| `ListCoercion.MappingNode.DeepCopy` | src/gdb_mcp/client/parsers.py:180-180 | the copy holds the same payload and shares no dictionary with the original |
| `ListCoercion.WrapShrinks` | src/gdb_mcp/client/parsers.py:137-171 | each wrap strictly shrinks the set of places that hold something other than a list |
| `ListCoercion.WrapWidens` | src/gdb_mcp/client/parsers.py:137-171 | each wrap keeps the candidate equal to the payload up to one-element lists |
| `ListCoercion.CoerceIff` | src/gdb_mcp/client/parsers.py:137-171 | a location is coerced exactly when, without a leading action, it spells a path of keys to a value that is neither null nor a list, found by a lookup of its own; then there is a list of that value, and every path apart from it holds what it held |
| `ListCoercion.ActionIff` | src/gdb_mcp/client/parsers.py:190-191 | the action that may lead a location is the text under that key |
| `ListCoercion.RoundCoercesAll` | src/gdb_mcp/client/parsers.py:190-197 | one round coerces all it can: none of its errors can be coerced after it |
| `ListCoercion.RoundLeavesTheRest` | src/gdb_mcp/client/parsers.py:190-197 | and paths apart from its errors are untouched |
| `ListCoercion.RetriedIff` | src/gdb_mcp/client/parsers.py:182-200 | the rounds before the last are exactly those with list errors only, one of them at a place that can be coerced |
| `ListCoercion.MappingNode.CoerceAll` | src/gdb_mcp/client/parsers.py:190-197 | one round coerces the errors in order, reports whether anything changed, and if not none could be coerced |
| `ListCoercion.RetriesTighten` | src/gdb_mcp/client/parsers.py:174-200 | for every validator, after n retries the candidate is the payload up to one-element lists and n places have been used up |
| `ListCoercion.ValidateWithListCoercion` | src/gdb_mcp/client/parsers.py:174-200 | ends for every validator, with the verdict on the last candidate; every earlier round led to a retry, the last did not, and no dictionary of the caller is written |
| `MiCommands.EscapeMiString` | src/gdb_mcp/transport/mi_commands.py:14-32 | the character loop computes `Escape` |
| `MiCommands.ReadsBack` | src/gdb_mcp/transport/mi_commands.py:14-32 | reading an escaped string up to its closing quote gives the string back, whatever follows |
| `MiCommands.JoinReadsBack` | src/gdb_mcp/transport/mi_commands.py:47-51 | reading a joined list of quoted strings gives the list back |
| `MiCommands.ExecArgumentsRoundTrip` | src/gdb_mcp/transport/mi_commands.py:47-51 | parsing a built `-exec-arguments` command recovers every argument list |
| `MiCommands.CliCommandRoundTrip` | src/gdb_mcp/transport/mi_commands.py:61-64 | parsing a wrapped CLI command recovers every command |
| `MiCommands.CommandsAreOneLine` | src/gdb_mcp/transport/mi_commands.py:14-64 | built commands hold no raw newline, carriage return or tab |
| `StdinPump.Pump` | src/gdb_mcp/mcp/stdio_input.py:43-76 | what is delivered depends on the concatenated input and the consumer alone: every item, or those before the first one it refuses |
| `StdinPump.ChunkingDoesNotShow` | src/gdb_mcp/mcp/stdio_input.py:55-76 | two ways to cut the same input into chunks deliver the same |
| `StdinPump.LinesAppend` | src/gdb_mcp/mcp/stdio_input.py:63-72 | cutting a longer input is cutting its beginning and going on from the rest |
| `StdinPump.LinesAreTheInput` | src/gdb_mcp/mcp/stdio_input.py:63-72 | the lines and the rest concatenate to the input |
| `StdinPump.LinesEndInNewlines` | src/gdb_mcp/mcp/stdio_input.py:63-72 | each line ends in its only newline, and the rest has none |
| `StdinPump.EndMarkerLast` | src/gdb_mcp/mcp/stdio_input.py:72-76 | the end marker is emitted once, last |
| `StdinPump.EmittedIsTheInput` | src/gdb_mcp/mcp/stdio_input.py:63-76 | what is emitted, put together, is the input, an unterminated last line included |
| `StdinPump.DeliveredInFull` | src/gdb_mcp/mcp/stdio_input.py:43-76 | a consumer that refuses nothing gets every byte of every chunk, and the end |
| `Lifecycle.ManagedSession.Start` | src/gdb_mcp/session/lifecycle.py:108-393 | once startup has begun every failure leaves the session failed without a controller; success happens exactly when `Starts` says, ready, with a controller exactly if the transport is still there |
| `Lifecycle.ManagedSession.Configure` | src/gdb_mcp/session/lifecycle.py:225-365 | the commands of a start, in order, for all replies |
| `Lifecycle.ManagedSession.RunAll` | src/gdb_mcp/session/lifecycle.py:490-521 | the environment and init loops stop at the first command that cannot be sent or is not answered |
| `Lifecycle.ManagedSession.CleanupFailedStart` | src/gdb_mcp/session/lifecycle.py:434-442 | leaves a failed session without a controller |
| `Lifecycle.ManagedSession.Stop` | src/gdb_mcp/session/lifecycle.py:395-410 | leaves no controller even when the exit raises |
| `Lifecycle.ReadyHasControllerIff` | src/gdb_mcp/session/lifecycle.py:269-365 | a successful start has a controller exactly when no command it sent lost the transport |
| `Lifecycle.HealthyStart` | src/gdb_mcp/session/lifecycle.py:155-393 | with a healthy debugger an acceptable request starts exactly when all its variables can be set |
| `Lifecycle.StartsIff` | src/gdb_mcp/session/lifecycle.py:225-365 | exactly when a request starts, reply by reply: a refused environment or init command fails it, a refused confirm or probe command does not |
| `Lifecycle.RunAllIff` | src/gdb_mcp/session/lifecycle.py:490-521 | a stretch of commands goes through exactly when each can be sent and is answered with the transport there for it |
| `Lifecycle.StartSession` | src/gdb_mcp/session/registry.py:82-103 | a failed start publishes nothing and leaks no controller; a successful one publishes under the allocated id |
| `Lifecycle.ReadyWithoutController` | src/gdb_mcp/session/lifecycle.py:269-365 | a start that reports success without a controller |
| `Campaign.MatchIsFirstApplicable` | src/gdb_mcp/session/campaign.py:318-355 | a run matches exactly when some trigger applies, and the reported one is the first in priority |
| `Campaign.PhaseIff` | src/gdb_mcp/session/campaign.py:112-249 | exactly how an iteration ends: startup error, setup error, escaping exception, a match, or on to the next when it starts, its setup succeeds, its run returns and no trigger applies |
| `Campaign.Attempt` | src/gdb_mcp/session/campaign.py:112-249 | how one iteration ends, with no controller but its own touched |
| `Campaign.RunUntilFailure` | src/gdb_mcp/session/campaign.py:105-316 | summaries are numbered 1..n and only the last can match; n is the failing iteration or the requested count; it ends at the first iteration that matches or raises; one controller at most at any time and none left |
| `Workflow.HistoryIsTheLastOnes` | src/gdb_mcp/session/runtime.py:340-365 | trimming after each event is trimming once at the end |
| `Workflow.HistoryOfARun` | src/gdb_mcp/session/runtime.py:340-365 | after any run the history is exactly the last min(n, limit) events |
| `Workflow.RecordsThroughRuntime` | src/gdb_mcp/session/runtime.py:340-346 | recording through the session state gives that history |
| `Workflow.StopReportedBelowLimit` | src/gdb_mcp/session/workflow.py:138-143 | a step that records stops reports the last one when the history was below its limit, and none otherwise |
| `Workflow.BatchReportsLastStop` | src/gdb_mcp/session/workflow.py:65-109 | the same for every step of every batch, as an equivalence |
| `Workflow.ResultsAreNumbered` | src/gdb_mcp/session/workflow.py:79-90 | each result carries its step's number and status |
| `Workflow.FailuresAreCounted` | src/gdb_mcp/session/workflow.py:91-92 | the error count is the number of steps that fail |
| `Workflow.HistoryOfABatch` | src/gdb_mcp/session/workflow.py:65-109 | after any steps the history is the newest of the events before the batch and the stops of those steps |
| `Workflow.FullHistoryHidesAStop` | src/gdb_mcp/session/workflow.py:138-143 | a step that records a stop into a full history and reports none |
| `Workflow.ExecuteBatch` | src/gdb_mcp/session/workflow.py:65-109 | with fail-fast the results are the shortest prefix ending at the first error; every result, the error count and the final history are those of the steps run |

## Left out

- Schema notes: the conditional-requirement and accepted-field texts (`src/gdb_mcp/mcp/schema_normalizer.py:329-474`) only change descriptions.
- Schema cache: `_freeze`, `_thaw` and the per-model cache copy values.
- JSON equality is structural: Python's `True == 1` is not modelled, nor the type error of an unhashable name in a `required` list.
- SchemaAcceptance.MergeKeepsIff: where two object schemas meet, `enum` is a list and `properties` an object, as JSON Schema has them, and no keyword that interacts with the merged ones is there.
- SchemaRecursion.RecursiveInputKeepsValues: the kept definitions are asked to be flattenable with one another, which is how the code normalizes them, and none published to be a bare reference to another: such a cycle has several meanings (`BareCycleIsNotKept`) and section 9.4.1 of JSON Schema Core 2020-12 forbids it; that every recursive table has a meaning is not shown (`ChainsAreMeant` gives one that has), and the theorem holds for each it has.
- SchemaFlattening.NormalizeAccepts: unions with a sibling other than an annotation, heterogeneous unions (`SchemaInlining.MixedUnionKeepsIff` says what they keep) and `null` values in place of dropped null alternatives, which the normalizer narrows on purpose.
- SchemaInlining.UnionSiblings: the notes appended to descriptions of discriminated unions are not modelled.
- CommandRunner.EventsAreLocal: exits name their inferior, as GDB's do; `UnnamedExit` says what one that does not name it does.
- SchemaAcceptance semantics: `patternProperties`, `minContains`, `maxContains` and the `unevaluated` keywords are excluded because they interact with the interpreted ones; every other keyword is an oracle.
- Payload parsing: inferior ids, exit codes, thread ids and frame levels arrive already parsed, and console payloads as text or not.
- Command texts: which effect a command has on the session is given, not read from its text.
- Transcripts: the command transcript, log messages, timestamps and result rendering.
- Waiting and interrupting: `wait_for_stop`, `interrupt` and their locks.
- Wall-clock time is a sequence of polling turns; running out of them is the timeout.
- InspectionSelection.InspectionContext.Disassemble: cached feature flags, payload normalization and memory reading are not modelled, since they do not move the selection.
- InspectionSelection.InspectionContext.GetSourceContext: the clamping of the source window is not modelled.
- Inspection commands are taken to bring no stop notification that would move the cached selection.
- SessionRegistry.RunKeepsInv: interrupts such as `KeyboardInterrupt` inside a close are not steps.
- DaemonProtocol.RunKeepsInv: probes are accurate, the lock file can be opened and clients do not crash; an explicit server address, `daemon_status` and `stop_daemon`, which removes the cookie without the lock, are not steps.
- DottedAssignments.AssignmentTarget.AssignDottedValue: nested mappings are values inside one field, so aliasing between a nested mapping and an outside holder is not captured; the values assigned are strings.
- ListCoercion.MappingNode.DeepCopy: the dictionaries of a payload form a tree, as command lines build them; a dictionary shared between two places is not modelled. The walk down a path is recursive where the source loops.
- StdinPump.Pump: decoding lines as UTF-8 is not modelled.
- Lifecycle.ManagedSession.Start: program arguments, core files, attach targets and the collected warnings only fill the result.
- Campaign.RunUntilFailure: capture bundles are an outcome only, and regular expressions are an oracle.
- Workflow.ExecuteBatch: a step is the stops it records and whether it fails; its rendered result is not modelled.
- The HTTP application, argument parsing, request models, sockets and process spawning.
