# Verified models of the agent platform's scripts and engines

The repository keeps several promises that its tests can only sample: a comparison of process bundles
that ignores names, a graph merge that loses nothing, a trace boundary that replays cannot double, a
published API shape that never moves under its version, a vector migration that can be stopped anywhere,
release tags that never move, and a verification package that a recipient can check. This project models
the code behind each promise in Dafny, with the code's own branches and error paths, and proves what the
code keeps over every input, every run and every order of failures.

Code that computes a value is a function; code that loops over a queue, a page or a list is a method with
a loop, proved equal to a function; code that changes a store, a registry, a file or a context is a class.
The stores themselves are small assumed specifications: a set of relationships, a map that replaces on
equal id, a journal, a collection paged in the order of its ids, any order consistent with distance, a
registry of tags, two files.

`dafny verify dfyconfig.toml` checks the whole project.

## The parts

- **Comparing process bundles** (`Bundles`, `Ordering`, `Pairing`, `Walk`, `Routes`, `Readings`,
  `Canonical`, `Isomorphism`, `Diffs`, `Echo`). A bundle is a selection table, chaining tables behind
  stages, stages of steps, terminals and task kinds. `Pairing` is the pairing of two tables' rows; `Walk`
  the lock-step walk over two bundles; `Routes` and `Readings` what the pairing is read for; `Canonical`
  the breadth-first search that renames stages, and `Isomorphism` the proof that its form is a complete
  invariant; `Echo` a bundle read against its own renaming.
- **Merging duplicate nodes** (`GraphMerge`, `GraphProps`, `GraphRun`). Nodes, typed relationships with
  properties, find-or-create on the two ends, the type and the `iri`, and detach-delete. `GraphMerge` is about the
  facts, `GraphProps` about the properties, and `GraphRun` has the loops.
- **The trace boundary** (`Boundary`, `BoundaryTimes`, `BoundaryHandler`). A state machine of effects and journal
  writes, with crashes and raises between any two; what its stored times are; and the handler as a class whose
  every attempt is a stretch of a schedule of that machine.
- **The published shape and its lock** (`Json`, `Components`, `Published`, `Annotations`, `Texts`, `ShapeLock`,
  `LockText`, `LockRuns`, `LockCuts`). References are those of section 4.8.23 of the OpenAPI Specification 3.1.0.
  `Published` says what is kept of a document in the document's own terms. The lock file is text: the model prints,
  splits and reads it, and `LockText` says what its lines mean.
- **Relocating vectors** (`Blankness`, `Backfill`, `Relocation`, `VerifySelf`).
- **Release tags** (`Retag`, `ReleaseTags`, `ReleaseValues`).
- **The verification package** (`Canvas`, `Pricing`, `Package`, `Dataset`, `DatasetRows`, `Agreement`). The pricing
  engine is not part of this model: a price build-up is a fixed function of its inputs, and nothing more
  is assumed of it.

## Where the code does not do what is said of it

The models follow the code. Each of these has a lemma with an input on which it shows, named first, and one
with the exact condition under which the promise holds.

- `dropped_routes` can be empty for a draft that stops short: a stage the trigger declares may be paired
  with a name the draft ends at (`Routes.DeclaredTerminalIsMissed`, `Routes.NoDroppedRouteSimulates`).
- `wrong_excludes` does not step past a step without `excludes`, so a stage can read wrong against itself
  (`Echo.SecondBarIsMisread`, `Readings.OwnBarsExactly`).
- A relationship between two duplicates is lost when one canonical node is absent; the script prints only
  a skip (`GraphMerge.RunLosesRelationship`, `GraphMerge.LostExactlyStranded`).
- A relationship is rebuilt with its properties, and one without an `iri` is merged into every relationship of its
  type between the two nodes, so values of the canonical node's own are overwritten
  (`GraphProps.MergeOverwritesValue`, `GraphProps.ValueSurvivesExactly`).
- A re-emit is called idempotent. It lands one observation, but with the times of its own attempt, which lie after
  the work (`BoundaryTimes.ReEmitMovesTimes`, `BoundaryTimes.ReEmitExactly`, `BoundaryTimes.CoversExactly`).
- References inside a kept security scheme are not followed, so a document without dangling references can
  be published with one (`Components.PublishedDangles`, `Components.FilteringDangles`).
- A reference inside an `example` moves the shape when nothing else reaches what it names, though
  annotations are said not to (`Annotations.ExampleReferenceMovesShape`,
  `Annotations.AnnotationsMoveShapeExactly`).
- The lock file is emptied before it is rewritten, so a run that dies there loses its rows and another
  hash is then accepted for a version already locked (`LockRuns.CutForgets`, `LockCuts.RowsKeptExactly`).
- `verify_self` says it cannot fail on a row that is indexed. A distance of exactly nought is read as
  missing, so a page of exact duplicates is not widened; and the wide page can be full too
  (`VerifySelf.TwinsFail`, `VerifySelf.AlwaysFoundExactly`).
- A dry run of the retag leaves a manifest that `ours_rows` accepts although its tags were never made
  (`ReleaseTags.DryRunTagsNothing`, `ReleaseTags.DryRunExactly`).
- A release file pins one digest for each repository, so of two images of one repository rendered at two
  digests only the last is pinned (`ReleaseValues.FirstDigestIsDropped`,
  `ReleaseValues.EveryImagePinnedExactly`).
- `verify_manifest` compares the price and the step amounts both sides have, and nothing else: unit
  prices, bases and steps cut off the end are not looked at (`Package.UnitPriceIsNotCompared`,
  `Package.TamperExactly`).
- `datasets_agree` reports differences between equal tables, since one side sorts prices as numbers and the
  other as text (`Dataset.TiesDisagree`, `Dataset.SameTablesAgreeExactly`).

## Model

| member | source | states |
|---|---|---|
| Pairing.PairRows | scripts/socratic_measure.py:257-281 | the loops that pair two tables' rows compute the pairing that `PairedExactly` tells row by row |
| Pairing.PairedExactly | scripts/socratic_measure.py:257-281 | for any two tables: a row pairs with a row exactly when they spell their `when` alike, the first so spelt of the draft with the last of the expected; or when each is its table's only row left over whose one condition is on `outcome` and which goes on, or the only one which ends |
| Pairing.PairedRowsFacts | scripts/socratic_measure.py:257-281 | each pair is of one row of either table, no row is used twice, and the two fit: spelt alike, or both left over, both verbs, and both going on or both ending |
| Pairing.LiteralPairs | scripts/socratic_measure.py:265-271 | where `when`s are distinct, rows that spell their `when` alike are always paired |
| Pairing.PairingIsSymmetric | scripts/socratic_measure.py:257-281 | where `when`s are distinct, swapping the two bundles swaps every pair and makes no other |
| Pairing.LeftExactly | scripts/socratic_measure.py:264-279 | for any two tables: what the literal pass pairs, which rows of either table it leaves, each row by its place |
| Walk.PairDefinitions | scripts/socratic_measure.py:331-360 | the worklist terminates on any process graph, cyclic ones too, and computes the pairing of stages the rows below are about |
| Walk.WalkedFacts | scripts/socratic_measure.py:331-350 | the walk pairs stages one to one; each pair ends two paths of paired rows of one length from both selection tables; neither side is a terminal |
| Walk.UnrivalledIsWalked | scripts/socratic_measure.py:331-350 | whatever conflicts lie elsewhere: a lock-step path none of whose pairs has a rival ends at a pair that the walk holds |
| Walk.WalkedIsConsistent | scripts/socratic_measure.py:338-349 | a stage the walk keeps meets the same partner along every link out of every pair |
| Walk.WalkedExactly | scripts/socratic_measure.py:331-350 | where lock-step paths pair stages one to one, the walk pairs exactly the stages such paths reach |
| Walk.AddDeclaredKeeps | scripts/socratic_measure.py:351-359 | declared stages are paired by place, keep the pairing one to one, and never change a pair of the walk |
| Walk.AddDeclaredTakes | scripts/socratic_measure.py:351-359 | a place of the two lists whose stages are paired neither before nor at an earlier place is paired, and at every place one of the two stages ends up paired |
| Walk.PairedStagesFacts | scripts/socratic_measure.py:331-360 | the whole pairing is one to one, keeps the walk's, and beyond it holds only stages at the same place of two declared lists of one length; of such lists every free place is paired |
| Routes.NoDroppedRouteSimulates | scripts/socratic_measure.py:700-731 | with no dropped route, the draft follows every run of the expected process, and its ends tell the expected ends apart, exactly when no stage a run goes on to is paired with a name the draft ends at |
| Routes.DroppedRoutesIsExact | scripts/socratic_measure.py:700-731 | where runs reach every expected table, the list is empty, and no such stage is paired, exactly when the draft simulates the expected process |
| Routes.DraftSimulatesExpected | scripts/socratic_measure.py:331-360 | with the pairing the source reads it by, an empty list means simulation for every draft whose declared stages are none of its terminals |
| Routes.SimulatesHasNoDeadStage | scripts/socratic_measure.py:715-730 | a draft that simulates the expected process pairs no stage a run goes on to with an end of its own |
| Routes.DeclaredTerminalIsMissed | scripts/socratic_measure.py:351-359 | two bundles for which the list is empty and the draft does not simulate: a declared stage that is a terminal of the draft |
| Readings.DroppedStepsIsExact | scripts/socratic_measure.py:683-697 | a stage is reported exactly when its described steps do not embed, in order, in its counterpart's steps |
| Readings.Counterpart | scripts/socratic_measure.py:691-694 | the steps a stage is read against are those of the one draft stage paired with it, or none |
| Readings.WrongExcludesExactly | scripts/socratic_measure.py:734-750 | for any two bundles: a stage's step is reported exactly when it has `excludes` and, of the counterpart's steps behind the one read last, the first of its kind bars other names, or there is none; a read that finds none uses them all up |
| Readings.WrongRequiresExactly | scripts/socratic_measure.py:754-758 | required details are reported exactly when the two triggers do not name the same ones as often, an absent list naming none |
| Readings.OwnBarsExactly | scripts/socratic_measure.py:734-750 | any steps read against themselves report no wrong bar exactly when no barring step has, between it and the barring step before it, an earlier step of its kind left over once a step was found for each empty `excludes` there |
| Readings.OrderedBarsFindThemselves | scripts/socratic_measure.py:741-750 | that holds wherever no step without `excludes` stands before one of its kind that bars someone |
| Echo.EchoWalked | scripts/socratic_measure.py:331-350 | on tables that spell each `when` once, a bundle walked against its renaming pairs every stage a run reaches with its own renaming, and nothing else |
| Echo.EchoPaired | scripts/socratic_measure.py:331-360 | on such tables, with the declared lists, every reached or declared stage is paired with its own renaming, and nothing else |
| Echo.EchoDropsNoRoute | scripts/socratic_measure.py:700-731 | a renamed draft drops no route exactly when the expected tables are tidy: distinct `when`s, non-empty `then`s, every stage routed to known |
| Echo.EchoDropsNoStep | scripts/socratic_measure.py:683-697 | on such tables, a renamed draft drops no step exactly when every stage with a step is reached or declared |
| Echo.SelfReadsClean | scripts/socratic_measure.py:683-731 | a bundle read against itself drops no step and no route exactly under both conditions |
| Echo.SelfBarsExactly | scripts/socratic_measure.py:734-758 | on tables that spell each `when` once, a bundle reads no wrong bar in itself exactly when each known stage's bars are found for themselves and no other stage has `excludes`; it never reads a wrong requirement |
| Echo.SelfReadsAllClean | scripts/socratic_measure.py:683-758 | a bundle read against itself is clean in all four readings exactly when its tables are tidy, every stage with a step is reached or declared, and every stage's bars are found for themselves |
| Echo.SecondBarIsMisread | scripts/socratic_measure.py:741-750 | a bundle of one stage with two sign-offs, the second of which bars the requester, is reported when read against itself |
| Canonical.Found | scripts/socratic_measure.py:77-108 | the search names stages only, and each once |
| Canonical.NameTarget | scripts/socratic_measure.py:80-88 | a row's `then` is given its name in the form, a new stage the next one |
| Canonical.ReadRows | scripts/socratic_measure.py:90-106 | reading a table's rows in order of their `when` names the stages the search finds there, and gives the table's rows |
| Canonical.Canonicalise | scripts/socratic_measure.py:68-114 | the queue terminates and gives the canonical form, which `CanonicalIsExact` tells apart by the bundles' own fields |
| Ordering.StringLessAt | scripts/socratic_measure.py:90 | text is ordered by the first letter apart, and an end comes first |
| Ordering.WhenLessAt | scripts/socratic_measure.py:90 | the rows are read in order of the first pair of their `when`s apart, by its field and then its value |
| Ordering.SortIsStable | scripts/socratic_measure.py:90 | rows that spell their `when` alike keep their order |
| Isomorphism.FoundIsReachable | scripts/socratic_measure.py:77-111 | the form defines exactly the stages reachable from the selection table, each once |
| Isomorphism.CanonicalIsExact | scripts/socratic_measure.py:68-114 | on tables that spell each `when` once, two canonical forms are equal exactly when a one-to-one renaming of reachable stages carries one bundle to the other: the same rows to stages renamed and ends alike, and steps alike in kind, audience, deadline, the words and reasons they or their task kinds hold, in barring someone, and in what a signal accepts |
| Isomorphism.StepsAlike | scripts/socratic_measure.py:95-104 | the steps of two stages give one entry of the form exactly when they agree, step by step, in those fields |
| Isomorphism.StepIsRead | scripts/socratic_measure.py:95-104 | what the form keeps of a step: its kind, audience and deadline, whether it bars anyone, and, as multisets, the words and reasons of its task kind or its own |
| Isomorphism.RenamingChangesNothing | scripts/socratic_measure.py:68-114 | the form of any bundle, also one that spells a `when` twice, does not change under any one-to-one renaming of stages, tables, ends, task kinds and step ids |
| Isomorphism.RowOrderChangesNothing | scripts/socratic_measure.py:90-106 | on tables that spell each `when` once, the form does not change under any order of the rows of each table |
| Isomorphism.EqualFormsIsomorphic | scripts/socratic_measure.py:68-114 | equal forms give the renaming itself: the stages found, paired by the order they were found in |
| Diffs.WalkIsExact | scripts/socratic_measure.py:117-125 | the paths reported are exactly the places where the two values part |
| Diffs.NoDiffsIsEqual | scripts/socratic_measure.py:117-125 | nothing is reported exactly when the two values are equal |
| Diffs.NoSemanticDiffs | scripts/socratic_measure.py:128-135 | no semantic difference is reported exactly when the forms are equal, and so, on such tables, exactly when such a renaming carries one bundle to the other |
| GraphMerge.UriMapCanonises | scripts/merge_compact_into_canonical.py:88-118 | none of the 27 canonical names is itself a compact one, and each is the full form of its compact one |
| GraphMerge.RemapPropsSettles | scripts/merge_compact_into_canonical.py:122-131 | remapped properties name no compact node, and remapping again changes nothing |
| GraphMerge.MergedHolds | scripts/merge_compact_into_canonical.py:134-226 | a find-or-create adds the fact asked for, ends, type and literal `iri`, no other, and loses none |
| GraphMerge.MergedMakesNoTwins | scripts/merge_compact_into_canonical.py:187-226 | it finds before it creates: where no two relationships have the same ends, type and `iri`, none come to |
| GraphRun.Graph.Rebuild | scripts/merge_compact_into_canonical.py:134-226 | one relationship is rebuilt between the images of its ends when both are there, under its type and the `iri` it has |
| GraphRun.Graph.RebuildAll | scripts/merge_compact_into_canonical.py:134-226 | one loop rebuilds each listed relationship once, in some order, and counts them |
| GraphRun.Graph.MigrateOne | scripts/merge_compact_into_canonical.py:134-226 | a node is skipped exactly when it or its canonical node is absent, and the summary says which; a dry run changes nothing; otherwise its incoming relationships are rebuilt in some order, then its outgoing ones, and it is detached and deleted |
| GraphMerge.MigratedByFacts | scripts/merge_compact_into_canonical.py:134-226 | whatever those orders, every fact then holds at the images of its ends where both are there, none holds at the node, and no other is gone or new |
| GraphRun.Graph.Run | scripts/merge_compact_into_canonical.py:229-246 | the whole run, over the map in any order: the nodes and facts it leaves; no twins where there were none; no URI-valued property left naming a compact node where only relationships of the duplicates did; a relationship that is not stranded keeps its type, `iri` and property names, and each value no rebuilt relationship that may be merged into it has otherwise; and no value is made up |
| GraphProps.MoveEdgeCleans | scripts/merge_compact_into_canonical.py:122-226 | a relationship rebuilt names no compact node in its URI-valued properties, and those it is merged into stay clean |
| GraphProps.MigratedByStands | scripts/merge_compact_into_canonical.py:134-226 | a migration, in any order, leaves a relationship standing with its type, iri, property names, and those values that no rebuilt relationship which may be merged into it has otherwise |
| GraphProps.MigratedBySources | scripts/merge_compact_into_canonical.py:122-226 | every value it leaves some relationship had that was there first, between the same nodes as the map reads them |
| GraphProps.ValueSurvivesExactly | scripts/merge_compact_into_canonical.py:166-226 | whatever is rebuilt, in whatever order, a relationship that is there keeps a value exactly when the last one merged into it that has the property has that value |
| GraphProps.MergeOverwritesValue | scripts/merge_compact_into_canonical.py:166-226 | for any compact name, a store in which migrating it replaces the canonical node's own value by the duplicate's |
| GraphMerge.TakeOne | scripts/merge_compact_into_canonical.py:229-246 | whether a node is migrated does not depend on what was migrated before it, and single migrations compose |
| GraphMerge.MergeIsQuotient | scripts/merge_compact_into_canonical.py:134-246 | with every canonical node there, and every compact one a class, the result is the quotient: no compact node remains, every fact, with the `iri` it has or with none, holds between the images of its ends, and no other fact holds |
| GraphMerge.TwoIrisStayTwo | scripts/merge_compact_into_canonical.py:187-226 | two relationships that are not stranded and have different `iri`s leave two, each with its own |
| GraphMerge.LostExactlyStranded | scripts/merge_compact_into_canonical.py:134-246 | in the store any run leaves, a relationship's fact stands where its ends were taken exactly when it does not join a migrated node to one whose image is not there; and no relationship that says the same is left exactly when all that said so did |
| GraphMerge.RunLosesRelationship | scripts/merge_compact_into_canonical.py:134-246 | for any two compact names, a well-formed store from which a run loses its one relationship |
| GraphMerge.NothingLeft | scripts/merge_compact_into_canonical.py:229-246 | after a run nothing is left to migrate, so a second run changes nothing |
| Boundary.StepKeeps | baml_shared/telemetry.py:106-275 | every step, crash and raise keeps the identity, the context, the store and the count of emissions |
| Boundary.AtMostOneBoundary | baml_shared/telemetry.py:106-275 | over every schedule at most one boundary observation is added, under the journaled span id, and every span of the work has the journaled ids for its parent |
| Boundary.ContextIsRestored | baml_shared/telemetry.py:172-206 | however the block is left, the ambient context is then the one the handler was entered in |
| Boundary.EmittedOncePerLoss | baml_shared/telemetry.py:209-275 | the emit step runs once and once more for each journal write lost, and an answer it gives is a boundary that landed |
| Boundary.ReplaysAddNothing | baml_shared/telemetry.py:151-206 | replays are handed the ids journaled first, and once work and emit are journaled no replay adds to the store |
| Boundary.EveryExitShows | baml_shared/telemetry.py:106-141 | with a recording span in place of the non-recording parent, a schedule adds a boundary observation for every time the block is left, replays included |
| BoundaryTimes.WorkComesFirst | baml_shared/telemetry.py:134-141 | in every schedule the work was journaled before any emission that lands |
| BoundaryTimes.CoversExactly | baml_shared/telemetry.py:172-206 | the times a boundary lands with cover the work exactly when the attempt that journaled the work emits it, or the clock had not moved; those of a later attempt start after the work |
| BoundaryTimes.ShowsLast | baml_shared/telemetry.py:209-275 | the store shows the times of the emission that landed last |
| BoundaryTimes.ReEmitExactly | baml_shared/telemetry.py:126-141 | a boundary emitted again keeps its ids, and leaves the observation as it was exactly when the clock stood still from the entering of the first block to the leaving of the second |
| BoundaryTimes.ReEmitMovesTimes | baml_shared/telemetry.py:126-275 | for any trace, span and times, an execution whose boundary landed with the times of the work and ends up shown after it |
| BoundaryHandler.Handler.MintIds | baml_shared/telemetry.py:151-168 | with tracing on the trace given is journaled with the fresh span, otherwise no trace; and what was journaled is handed back on every replay |
| BoundaryHandler.Handler.EnterParent | baml_shared/telemetry.py:172-199 | entering makes the journaled ids the ambient parent, or leaves the context as it was where untraced, and adds nothing to the store |
| BoundaryHandler.Handler.Work | baml_shared/telemetry.py:134-141 | the spans of the work are stored under the ambient parent; journaled work is not run again and adds none |
| BoundaryHandler.Handler.LeaveParent | baml_shared/telemetry.py:198-206 | leaving stamps the end and hands the context back |
| BoundaryHandler.Handler.EmitBoundary | baml_shared/telemetry.py:209-275 | the boundary is written under the journaled span id with its stamped times, or nothing is; the answer is the span id only when it landed |
| BoundaryHandler.Handler.EmitStep | baml_shared/telemetry.py:134-141 | the emit is run once and its answer journaled; a journaled one is not run again |
| BoundaryHandler.Handler.Attempt | baml_shared/telemetry.py:106-275 | every attempt, whatever befalls it, adds a stretch of a schedule and ends in the context it was called in. One that nothing befalls finishes: traced, each span of its work is stored under the trace and span journaled first, and the boundary under that span, from entry to exit, where the batch lands, with the answer journaled; untraced, the spans are stored where it was called and no boundary is; a replay of a finished execution changes neither journal nor store |
| Components.ReachedIsLeast | scripts/generate_ingest_openapi.py:68-92 | the references reached are the least set that holds the paths' own and is closed under references |
| Components.CloseComponents | scripts/generate_ingest_openapi.py:68-92 | the worklist terminates and keeps exactly the schemas reached and the security schemes reached or required |
| Components.FilterOps | scripts/generate_ingest_openapi.py:95-105 | the operations kept, with the components they reach |
| Published.FilteredExactly | scripts/generate_ingest_openapi.py:68-105 | what is kept, by the document's own text: an operation the choice takes, at its place; a schema that a `$ref` names in such an operation or in a schema kept; a security scheme such an operation lists under `security`, or that is named so |
| Published.RefsExactly | scripts/generate_ingest_openapi.py:44-55 | the references read off a value are those that some `$ref` in it spells, however deep |
| Published.FollowsExactly | scripts/generate_ingest_openapi.py:68-92 | what the closure reaches is what a chain of references leads to from a kept operation |
| Published.KeptByTag | scripts/generate_ingest_openapi.py:108-112 | an operation is of a tag when its `tags` list it, and stable unless its `x-stability` is `preview` |
| Components.FiltersCompose | scripts/generate_ingest_openapi.py:95-112 | filtering by one choice of operations and then by another is filtering by both at once |
| Components.FilteringTwiceIsOnce | scripts/generate_ingest_openapi.py:95-112 | filtering a filtered document changes nothing |
| Components.PublishedThenStable | scripts/generate_ingest_openapi.py:95-133 | the stable part of what is published under a tag is what the tagged, stable operations reach in the whole document |
| Components.OnlyTheKeptCounts | scripts/generate_ingest_openapi.py:95-105 | documents that agree on what is kept filter to one document |
| Components.FilteredDanglesExactly | scripts/generate_ingest_openapi.py:68-112 | any document filters to one with no dangling reference exactly when all that is reached, and all that a kept scheme refers to, is there, and a kept scheme refers only to what is reached from a kept operation or required by one |
| Components.FilteringDangles | scripts/generate_ingest_openapi.py:68-112 | for a document with no dangling reference that comes down to the second: no kept scheme refers to a component that is neither reached from a kept operation nor a scheme one requires |
| Components.SchemeByReferenceDangles | scripts/generate_ingest_openapi.py:68-92 | wherever the operation of such a document is kept, it has no dangling reference and what is left of it has one |
| Components.PublishedDangles | scripts/generate_ingest_openapi.py:68-112 | for any scheme and tag, a document with no dangling reference that is published under the tag, and read for its shape, with one |
| Annotations.StripTwice | scripts/generate_ingest_openapi.py:115-126 | stripping is idempotent, in name position and out of it |
| Annotations.StrippedAt | scripts/generate_ingest_openapi.py:115-126 | at every path, stripping takes away exactly what stands under an annotation keyword that is not a name; all else stands where it stood, stripped |
| Annotations.DropsExactly | scripts/generate_ingest_openapi.py:34 | exactly five keys are taken away where they are keywords |
| Annotations.NamesExactly | scripts/generate_ingest_openapi.py:35-37 | exactly nine keys hold names, under which such a key is kept |
| Annotations.SameButIsSameStripped | scripts/generate_ingest_openapi.py:115-126 | two values strip alike exactly when they differ only in annotations |
| Annotations.StripKeepsRefs | scripts/generate_ingest_openapi.py:115-126 | stripping keeps every reference where annotations hold none |
| Annotations.ShapeExactly | scripts/generate_ingest_openapi.py:129-133 | any two documents have one shape exactly when their stable parts are the same but for annotations: the `openapi` line, the stable operations at each path, and each schema and scheme they lead to, under the same names |
| Annotations.AnnotationsMoveShapeExactly | scripts/generate_ingest_openapi.py:95-133 | any two documents that differ only in annotations have one shape exactly when their stable operations sit at the same paths, reach the same schemas and reach or require the same schemes |
| Annotations.OwnAnnotationsExactly | scripts/generate_ingest_openapi.py:95-133 | a document's annotations move its shape exactly when taking them all away first changes those names |
| Annotations.AnnotationsDoNotMoveShape | scripts/generate_ingest_openapi.py:129-133 | so annotations that hold no reference never move it |
| Annotations.PreviewDoesNotMoveShape | scripts/generate_ingest_openapi.py:129-133 | preview operations, and components only they reach, do not move the shape |
| Annotations.ShapeOfStablePart | scripts/generate_ingest_openapi.py:129-133 | the shape of a document is the shape of its stable part |
| Annotations.ExampleReferenceMovesShape | scripts/generate_ingest_openapi.py:129-133 | for every schema and tag, two documents that differ only in an example and have different shapes, as has what is published of them |
| ShapeLock.HeaderReadsBack | scripts/generate_ingest_openapi.py:28-32 | the header reads as no row |
| ShapeLock.RowReadsBack | scripts/generate_ingest_openapi.py:140-160 | a row put after text that ends a line reads back as the old rows and that one |
| ShapeLock.SeparatorReadsBack | scripts/generate_ingest_openapi.py:155-157 | the line feed put after an unended line changes no row |
| LockText.ReadLineExactly | scripts/generate_ingest_openapi.py:140-147 | every line is blank, a comment, one word, or a version and a hash and then anything, and never two of these; the first two change no row, one word cannot be read, and the last is that row |
| LockText.ReadLinesExactly | scripts/generate_ingest_openapi.py:140-147 | a lock file is read unless some line is one word, and a version is locked at a hash exactly when the last line that has a row of it has that hash |
| LockText.PlanExactly | scripts/generate_ingest_openapi.py:150-160 | what is planned for a lock file, by what stands on its lines: refused when the version is listed and locked at another hash, nothing when at this one, and otherwise the text, ended by a line feed, with the row behind it |
| LockRuns.Files.Write | scripts/generate_ingest_openapi.py:178-192 | refusal before either file, then the document, then the lock; the whole new state |
| LockRuns.Files.Check | scripts/generate_ingest_openapi.py:195-214 | the verdict of a check, which writes nothing |
| LockRuns.AppendAddsOneRow | scripts/generate_ingest_openapi.py:150-160 | an appended text extends the old one and reads as the old rows plus one, for a version not there before |
| LockRuns.LockOnlyGrows | scripts/generate_ingest_openapi.py:178-192 | a run extends the lock file exactly unless it dies with less written than was there |
| LockRuns.PartOfRowReadsBack | scripts/generate_ingest_openapi.py:140-147 | what is read where a row is cut short: the rows as they were, with a row of part of the hash, or nothing, for the file cannot be read where the cut is in the version or just behind it |
| LockRuns.RunsKeepRows | scripts/generate_ingest_openapi.py:178-192 | over every sequence of runs none of which cuts the file, each lock text is a prefix of the last and no row is lost or changed |
| LockRuns.OneHashPerVersion | scripts/generate_ingest_openapi.py:150-192 | two runs that finish under one version wrote one hash, whatever ran between them |
| LockRuns.OneShapePerVersion | scripts/generate_ingest_openapi.py:129-192 | unless the hash collides on the two, the documents have one shape, and so the stable parts of what they publish are the same but for annotations |
| LockRuns.RefusalWritesNothing | scripts/generate_ingest_openapi.py:178-184 | a run refuses exactly when its version is locked at another hash, and then writes neither file |
| LockRuns.LockIsNeverAhead | scripts/generate_ingest_openapi.py:185-190 | the lock file changes only after the whole document is written |
| LockRuns.CheckIsWriteChangesNothing | scripts/generate_ingest_openapi.py:178-214 | a check passes exactly where a run to the end would finish and change nothing |
| LockRuns.CheckAfterWrite | scripts/generate_ingest_openapi.py:178-214 | a check of the same document passes right after a run that finished |
| LockRuns.CutForgets | scripts/generate_ingest_openapi.py:188-190 | a run that dies as the lock file is emptied loses its rows, and any hash is accepted next |
| LockCuts.BooksStay | scripts/generate_ingest_openapi.py:150-192 | over every sequence of runs none of which dies in it, the lock file is the header and one line for each row |
| LockCuts.DeadRunKeepsExactly | scripts/generate_ingest_openapi.py:140-192 | a run that dies in it keeps exactly the rows whose line is whole but for its line feed; and none where the cut is in a version or just behind it, for the file cannot be read |
| LockCuts.RowsKeptExactly | scripts/generate_ingest_openapi.py:140-192 | so every row is kept exactly when the run does not die there, or dies past the last of them and not in its own version |
| LockCuts.UnreadStays | scripts/generate_ingest_openapi.py:140-192 | a lock file that cannot be read stays as it is whatever runs follow, and so does the document |
| Blankness.KindsPartition | scripts/backfill_vector_space.py:210-248 | every uri is named, blank or ambiguous: named exactly when the loose form refuses it, blank exactly when it is also a known spelling |
| Blankness.AmbiguousExactly | scripts/backfill_vector_space.py:208-248 | what is left undecided, by the length and ending of the uri |
| Blankness.KindExactly | scripts/backfill_vector_space.py:208-248 | what a uri is, by its letters: when it is a known blank spelling, when it only looks like one, and when it names something |
| Backfill.Collection.Replace | scripts/backfill_vector_space.py:404-411 | a put replaces the one object with that id |
| Backfill.PageStarts | scripts/backfill_vector_space.py:287-291 | with the cursor at the last row walked, a page starts at the next row, and is empty only at the end |
| Backfill.Run.Relocate | scripts/backfill_vector_space.py:376-411 | the outcome, in the order the source decides it, and the row as put back: its id, its properties, its own vector under the name |
| Backfill.OutcomeExactly | scripts/backfill_vector_space.py:376-411 | which of the outcomes a row comes to, by its own fields: what it is, whether it is chosen, whether the name is filled, and whether it has a vector |
| Backfill.Run.TakeRow | scripts/backfill_vector_space.py:467-519 | one turn of the inner loop is one step of the walk |
| Backfill.Run.Go | scripts/backfill_vector_space.py:461-545 | the paged loop, with pages of any size, is the walk over the rows in order, as far as it got |
| Backfill.WalkKeepsPlaces | scripts/backfill_vector_space.py:461-519 | a walk changes no id and no row it has not come to |
| Relocation.PartitionHolds | scripts/backfill_vector_space.py:217-235 | wherever the run can end, outcomes and skipped rows sum to the rows walked |
| Relocation.WalkIsCareful | scripts/backfill_vector_space.py:492-516 | wherever the run can end: the first row sent is checked before anything else is sent; a failed check is the last thing done; with `--verify-every n`, no row is sent while n stand unchecked; and checks are made only when due |
| Relocation.WalkTouches | scripts/backfill_vector_space.py:376-411 | wherever the run is stopped, a row is as it was or has met its fate: moved only if chosen, named, unfilled and with a vector |
| Relocation.WalkSoFar | scripts/backfill_vector_space.py:467-489 | while the run goes on, every row walked has met its fate and every outcome is tallied exactly |
| Relocation.FinishedExactly | scripts/backfill_vector_space.py:467-526 | a run that finishes, at the end or at its limit, has given every row between offset and limit its fate and every outcome its tally |
| Relocation.CleanExitExactly | scripts/backfill_vector_space.py:545-581 | the exit code is 0 or 2; and 0 exactly when no chosen row is ambiguous and some chosen row has a uri, or no row is wanted, or the collection is known to have none |
| Relocation.MovedFacts | scripts/backfill_vector_space.py:404-411 | a moved row keeps its id and properties, holds its own vector under the name, and moves no more |
| Relocation.TurnsTouch | scripts/backfill_vector_space.py:461-545 | over any runs, with any options and stopped anywhere, each row is as it was or has its own vector moved |
| Relocation.InterruptedRunsConverge | scripts/backfill_vector_space.py:461-545 | whatever runs came first, a complete run leaves the collection one complete run alone would have left |
| Relocation.SettledStaysPut | scripts/backfill_vector_space.py:461-545 | after that no run writes a row or finds one to move |
| Relocation.DryRunExactly | scripts/backfill_vector_space.py:461-545 | a dry run over everything writes nothing, and reports nothing to move exactly on a settled collection |
| Relocation.DryRunPredicts | scripts/backfill_vector_space.py:376-545 | a dry run that finishes foretells every tally of a run of the same selection with `--apply` that finishes: as many to move as that one moves, and each other outcome as often |
| Relocation.SecondRunCounts | scripts/backfill_vector_space.py:376-545 | a finished run made again changes no row, and counts as already named the rows it counted so before and those it moved; each other outcome as often |
| VerifySelf.Verify | scripts/backfill_vector_space.py:320-373 | the two queries, each stopped at the first listing of the row, come to the verdict |
| VerifySelf.YesMeansFound | scripts/backfill_vector_space.py:346-361 | yes exactly when the first page lists the row near or with no distance given, or shows ties that fill it and the wide page lists the row so |
| VerifySelf.IndexedExactly | scripts/backfill_vector_space.py:320-373 | for any two pages consistent with distance, an indexed row is found exactly when the first lists it, or shows no distance of exactly nought and the wide one lists it |
| VerifySelf.AlwaysFoundExactly | scripts/backfill_vector_space.py:320-373 | an indexed row is found in every order consistent with distance exactly when the other rows no farther than it do not fill the first page; or do not fill the wide one, and none of them at exactly nought fits on the first |
| VerifySelf.FewTiesAlwaysFound | scripts/backfill_vector_space.py:323-331 | with no more ties than the first page holds, an indexed row is always found |
| VerifySelf.TwinsFail | scripts/backfill_vector_space.py:333-373 | for every page size, an indexed row among exact duplicates that is not found |
| Retag.Registry.Create | scripts/retag_images_by_digest.py:255-264 | a create sets one tag or, failing, may or may not have set it |
| Retag.Registry.MakePlan | scripts/retag_images_by_digest.py:94-121 | every service is decided from what its two tags read as |
| Retag.Registry.Retag | scripts/retag_images_by_digest.py:201-289 | plan, refuse as a whole, or tag one service at a time: what the run leaves and reports, wherever it dies |
| ReleaseTags.PlanDivides | scripts/retag_images_by_digest.py:94-121 | the five lists of a plan hold each service once, under its verdict |
| ReleaseTags.VerdictExactly | scripts/retag_images_by_digest.py:94-121 | what is decided of a service, by what its two tags read as |
| ReleaseTags.RefusedExactly | scripts/retag_images_by_digest.py:124-138 | a plan goes ahead exactly when every service has a digest and its release tag is absent or already there |
| ReleaseTags.RefusalCode | scripts/retag_images_by_digest.py:124-138 | the code of a refusal: 4 when some release tag names another digest, else 1 when one cannot be read, else 3 when an image is missing |
| ReleaseTags.ExitExactly | scripts/retag_images_by_digest.py:201-289 | the code a run exits with, by what is true of the registry and of the creates: 4, 1, 3, 1 and 0; and a refused run leaves the registry as it was |
| ReleaseTags.ManifestExactly | scripts/retag_images_by_digest.py:201-289 | whatever code a run exits with, its manifest lists: each service whose release tag stands or was made, with its digest; what is missing; and what failed |
| ReleaseTags.RegistryExactly | scripts/retag_images_by_digest.py:224-267 | and the registry it leaves: the release tags it made, each at the digest of the commit's tag, and every other tag as it was |
| ReleaseTags.OtherEnds | scripts/retag_images_by_digest.py:201-267 | a run with no services does nothing, and one dies only among its creates |
| ReleaseTags.RunKeepsTags | scripts/retag_images_by_digest.py:224-267 | no run moves or removes any tag, wherever it dies and whichever creates fail |
| ReleaseTags.ReleaseTagNeverMoves | scripts/retag_images_by_digest.py:94-138 | over any runs, and any other pushes that leave alone a release tag that is there, a release tag once set keeps its digest |
| ReleaseTags.OursRows | scripts/write_release_values.py:117-134 | a manifest is refused exactly when something is missing or failed, a service is not pinned, or a pin is no digest |
| ReleaseTags.AcceptedExactly | scripts/write_release_values.py:117-134 | that condition, by the manifest's own lists and the letters of its digests |
| ReleaseTags.CleanExit | scripts/retag_images_by_digest.py:224-289 | a run that exits 0 leaves a manifest that is accepted and pins each service to the digest the commit's tag named, which its release tag then names |
| ReleaseTags.OneVersionOneDigest | scripts/retag_images_by_digest.py:94-138 | two runs of one version that exit 0 pin one digest for each service, whatever the commits and whatever happened between |
| ReleaseTags.Mismatches | scripts/retag_images_by_digest.py:144-155 | the services whose tags do not read as the manifest pins them |
| ReleaseTags.NoMismatchExactly | scripts/retag_images_by_digest.py:144-155 | there are none exactly when every pin's tag can be read and stands at it |
| ReleaseTags.VerifyExactly | scripts/retag_images_by_digest.py:158-198 | the code `verify` exits with: 2 for a manifest of another version, or of nothing; 1 where some pin's tag does not read back or some control resolves; 3 where an image is missing; and 0 otherwise |
| ReleaseTags.CleanExitReadsBack | scripts/retag_images_by_digest.py:144-198 | after a clean exit that was not a dry run nothing mismatches, and `verify` exits 0 if no control resolves |
| ReleaseTags.DryRunExactly | scripts/retag_images_by_digest.py:246-252 | a dry run that exits 0 writes nothing, its manifest is accepted, and its tags stand only if there was none to make |
| ReleaseTags.DryRunTagsNothing | scripts/retag_images_by_digest.py:246-289 | for any image built and not yet released, a dry run that exits 0 with an accepted manifest and a release tag that is not there |
| ReleaseTags.TriesCanBeFinished | scripts/retag_images_by_digest.py:224-289 | after any tries of one release, cut short anywhere, a run that goes through exits 0 |
| ReleaseValues.SplitRendered | scripts/write_release_values.py:108-114 | an image splits into the registry, repository and digest it was rendered from, whatever its tag |
| ReleaseValues.ThirdPartyRows | scripts/write_release_values.py:137-152 | the loop over rendered images gives the rows, or the refusal |
| ReleaseValues.PinnedExactly | scripts/write_release_values.py:137-152 | nothing is refused exactly when every third-party image has a digest that its registry confirms |
| ReleaseValues.RefusedAtFirst | scripts/write_release_values.py:144-151 | a refusal gives the fault of the first image that has one: no digest, or one not confirmed |
| ReleaseValues.RowsAreConfirmed | scripts/write_release_values.py:137-152 | every row is the confirmed digest of a third-party image, and every such image has a row |
| ReleaseValues.EveryImagePinnedExactly | scripts/write_release_values.py:137-152 | every third-party image is pinned to the digest it is rendered with exactly when no repository is rendered at two |
| ReleaseValues.FirstDigestIsDropped | scripts/write_release_values.py:137-152 | any repository rendered at two digests its registry confirms: nothing is refused, and the first image is pinned to the digest of the second |
| ReleaseValues.OursAreNotReplaced | scripts/write_release_values.py:174-177 | no third-party row replaces a row of the release's own services |
| Canvas.ParsedExactly | agent_fleet/cost_agent/canvas.py:133-141 | a canvas's answers are taken exactly when each has an id and no two the same |
| Canvas.Resolve | agent_fleet/cost_agent/canvas.py:113-199 | shape, then entitlement, then exportability: the loops compute the outcome |
| Canvas.FaultExactly | agent_fleet/cost_agent/canvas.py:113-199 | what a canvas is refused for, and with what: the first answer with no id or an id twice, the ids out of scope, or every answer that cannot be exported with its code |
| Canvas.AcceptedExactly | agent_fleet/cost_agent/canvas.py:113-199 | a canvas is accepted exactly when it is well formed, no answer is about a lot out of scope, and some exportable answer is about a lot |
| Canvas.EntitlementComesFirst | agent_fleet/cost_agent/canvas.py:143-153 | a well-formed canvas is refused for entitlement exactly when one answer is about a lot out of scope, whatever else it holds |
| Canvas.ExportedFacts | agent_fleet/cost_agent/canvas.py:155-199 | the answers split into exported and refused, once each; the lots are the entitled lots some exported answer is about, in entitled order, and not none |
| Canvas.ShownAndRefused | agent_fleet/cost_agent/canvas.py:155-199 | the sections are those some exported answer asks for, in page order; an answer is refused by name exactly when it has no verb, one that is not exported, or no lot where it needs one, and its code says which |
| Canvas.OneAnswerExactly | agent_fleet/cost_agent/canvas.py:113-199 | a canvas of one answer about one lot is exported with that lot exactly when the lot is entitled |
| Canvas.BothSpellings | agent_fleet/cost_agent/canvas.py:75-84 | both spellings of a verb, with any space around them, name it |
| Canvas.VerbExactly | agent_fleet/cost_agent/canvas.py:75-84 | a verb is named by one of its two spellings with any space around, and by nothing else |
| Canvas.LotNumberReadsBack | agent_fleet/cost_agent/canvas.py:87-95 | a lot's number reads back from a number and from its digits |
| Canvas.LotNumberExactly | agent_fleet/cost_agent/canvas.py:87-95 | a lot is named by a whole number or by digits with any space around, and by nothing else |
| Canvas.AnswerExactly | agent_fleet/cost_agent/canvas.py:133-141 | an answer's id is text that is not all space; its verb and subject are what stands under their names |
| Canvas.AsksForExactly | agent_fleet/cost_agent/canvas.py:155-170 | an answer asks for the lot it names when its verb is about one lot, and for every entitled lot when it is the trend |
| Canvas.OutOfScopeExactly | agent_fleet/cost_agent/canvas.py:143-153 | an answer is out of scope exactly when its verb is about one lot and it names one that is not entitled |
| Canvas.VerbsExactly | agent_fleet/cost_agent/canvas.py:50-73 | which verbs are exported, which of them are about one lot, and which section shows which |
| Texts.StripExactly | agent_fleet/cost_agent/canvas.py:75-95 | what `strip` leaves: the piece that neither starts nor ends with space, or nothing |
| Package.BuildManifest | agent_fleet/cost_agent/export.py:128-192 | one check for each lot, in order, as the engine gives it, or none at all where a lot or its rates are not in the model |
| Pricing.RatesExactly | agent_fleet/cost_agent/export.py:88-91 | a lot's rates are those of its year at the vintage asked for, or the first of its year when none is or an empty one |
| Package.CheckReadsBack | agent_fleet/cost_agent/export.py:128-192 | where a decimal's text reads back, what a check records reads back as the lot's own figures, the rates it was priced at, and each step, the price and the unit price these give |
| Package.VerifyManifest | agent_fleet/cost_agent/export.py:195-231 | the loops report the problems the lemmas are about |
| Package.ProblemsExactly | agent_fleet/cost_agent/export.py:195-231 | each problem reported names the lot of a check whose price differs, or that lot and the step that differs; and every such is reported |
| Package.NoProblemExactly | agent_fleet/cost_agent/export.py:195-231 | nothing is reported exactly when every check agrees with what its own inputs and rates give |
| Package.BuiltVerifies | agent_fleet/cost_agent/export.py:128-231 | a manifest as the engine built it verifies |
| Package.TamperExactly | agent_fleet/cost_agent/export.py:195-231 | altered figures are reported exactly when a price differs, or a step amount within the steps both record |
| Package.UnitPriceIsNotCompared | agent_fleet/cost_agent/export.py:195-231 | in any manifest the engine builds, any unit price can be altered and nothing is reported |
| Package.BuildPackage | agent_fleet/cost_agent/export.py:248-309 | a package is made exactly for a known recipient entitled to a lot, lots within the entitlement, sections asked for, and every lot priced; it carries the entitled lots asked for, in entitled order; and a refusal names its reason |
| Package.ExportCanvas | agent_fleet/cost_agent/measures.py:1112-1245 | from an accepted canvas the package carries exactly the canvas's lots, one check each in order, and its manifest verifies |
| Agreement.CheckIsOfLot | agent_fleet/cost_agent/export.py:128-192 | the figures a check records are those of the lot itself, though they pass through text |
| Agreement.ManifestAgreesWithDataset | agent_fleet/cost_agent/export.py:505-525 | the dataset's price, unit price and step rows say what the manifest says |
| Dataset.DatasetsAgree | agent_fleet/cost_agent/export.py:451-502 | the comparison of two sorted tables, given up after eight problems |
| Dataset.ReportedExactly | agent_fleet/cost_agent/export.py:451-502 | what is reported: lots that differ, counts that differ, and each place whose rows differ until nine problems are found |
| Dataset.AgreeExactly | agent_fleet/cost_agent/export.py:451-502 | nothing is reported exactly when both sides, as sorted, are the same lists |
| Dataset.SameTablesAgreeExactly | agent_fleet/cost_agent/export.py:451-502 | of equal tables nothing is reported, in whatever order the page lists its rows, exactly when any two rows of one key read alike or have prices that text orders as the numbers do |
| Dataset.AgreeByOrder | agent_fleet/cost_agent/export.py:474-498 | of equal tables whose rows tie only with their own copies, nothing is reported exactly when the database's order by number is the page's order by text |
| Dataset.AgreeIsSameTables | agent_fleet/cost_agent/export.py:451-502 | nothing reported means that both containers hold the same rows as many times; and, where rows of one key are so told apart, exactly that |
| Dataset.KeyedIsUnambiguous | agent_fleet/cost_agent/export.py:474-498 | rows with a key are so told apart |
| Dataset.TiesDisagree | agent_fleet/cost_agent/export.py:474-498 | two rows of one key, priced 9.00 and 10.00: two equal tables are reported to differ |
| DatasetRows.RowsOf | agent_fleet/cost_agent/export.py:352-448 | the rows of every lot, in order, or none where a lot cannot be priced |
| DatasetRows.LotRowsExactly | agent_fleet/cost_agent/export.py:390-435 | the rows of a lot, each at its place with its category, name, period, hours and price: the labor lines, the months, at the first level-of-effort rate, the suppliers, the four figures, the steps and the two totals |
| DatasetRows.AllRowsExactly | agent_fleet/cost_agent/export.py:370-448 | the rows of a package are those of its lots, lot after lot, each priced at the first vintage of its year |
| DatasetRows.LotKeyedExactly | agent_fleet/cost_agent/export.py:391-436 | a lot's rows have the key exactly when its labor kinds, months, suppliers and steps have distinct names |
| DatasetRows.RowsKeyedExactly | agent_fleet/cost_agent/export.py:352-448 | a package's rows have the key exactly when, besides, no lot is asked for twice |

## Left out

- Reading bundle files into tables: stage names that fall back to the file's name, rows that are not
  dictionaries, and the selection a trigger names when its own is absent.
- The order in which reports list what they found; `dropped_steps`, `dropped_routes`, `wrong_excludes` and
  `semantic_diffs` are modelled as the set of what they report.
- `wrong_approvals`, `wrong_outcomes`, `rewritten_slots` and the user that answers from a bank: they rest on
  setters that are not part of this model, or repeat the readings above.
- Parallel relationships that agree in both ends, type and all properties are one relationship, and a node
  is its uri; several nodes under one uri are not modelled.
- Spans of the work that open under another span of the work take that span for their parent; only the
  spans opened directly under the boundary are modelled. The trace body's projected fields are not.
- References to component kinds other than schemas and security schemes; the generator leaves those
  components out. Tag selection and the version written by `filter_openapi` are an operation predicate.
- SHA-256 and JSON text: the shape is the stripped document itself, and a hash is any function of it.
- A document file cut short by a crash is modelled as the first part of its text; loss of both files with
  the disk is not.
- Backfill.Run.Go: does not model a live writer beside the run, so the collection changes only by the run's
  own puts; the selection of uris and the listings are inputs or prints.
- Relocation.PartitionHolds: does not model an interrupt between the two increments of one row, after which
  the tallies are off by one; an interrupt comes before a row.
- VerifySelf.AlwaysFoundExactly: distances are real numbers, not floating-point ones, and none is below nought by
  more than the tolerance.
- Retag.Registry.Retag: a read that answers is truthful, and the only registry errors are a tag that cannot
  be read and a create that fails; pushes by others come between runs.
- ReleaseTags.VerifyExactly: whether the registry holds the control's fake digest is an input.
- The rendering of the chart, the text of the release file, and the registry client behind `head`.
- Canvas.LotNumberReadsBack: does not model `isdigit` and `int` on digits outside ASCII, or numbers that are
  not whole.
- Package.BuildPackage: section names are an enumeration, so an unknown section cannot be asked for.
- A lot's direct labor is a figure of the lot, not the sum of its labor lines, and the first vintage of a
  fiscal year is part of the state.
- The rates table and the `rate` column of the dataset, which `datasets_agree` does not compare.
- The engines behind the stores, HTTP, Kubernetes, Helm, pages, charts, prompts and embedding clients.
