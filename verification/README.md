# UpStage backend: a verified model of its stateful core

This project models the parts of the UpStage backend (`src/upstage_backend`) that keep
hard state: the transaction protocol of GraphQL requests on one event loop, the event
archive service, the `parent_stage` assignment table, the event log with its recordings,
and the cascade that deletes a user. Each part is an imperative model (classes, loops)
proved against specification functions, and lemmas about those functions.

`dafny verify dfyconfig.toml` checks everything.

| modules | what they model |
|---|---|
| `SessionLayer`, `EventLoop`, `LoopFreeze`, `LockTimeout`, `Resolvers` | sessions with pending, flushed and committed writes; any number of requests interleaved between awaits, with and without the boundary and the lock timeout; the resolvers that yield or commit themselves |
| `DbContext` | `request_session`, `finish_request_transaction` and the root-mutation boundary, with every call failing or not |
| `ArchivePipeline`, `ArchiveJoin`, `ArchiveFates`, `ArchiveService` | subscriber, bounded queue, N writers and the stop flag, over every interleaving |
| `AssignmentSpec`, `AssignmentTable`, `AssignmentService`, `StageAttributes` | the id-ordered link table, the plain per-stage lists it refines, the loops that rewrite it, and the attributes a duplicate copies |
| `TimelineTrim`, `TopicMatch`, `SlugAllocation`, `EventLog`, `EventStore` | gap compression, LIKE/ILIKE topic patterns, slugs, sweeps, recordings, trimmed copies |
| `AccessLists`, `Descriptions`, `MediaDeletion`, `UserDeletionSpec`, `UserDeletion`, `UserDeletionTheorems`, `UserDeletionObstacles` | player access, media descriptions, and `delete_user` over the tables it touches and those that hold it back |
| `Prelude`, `Text` | Option, Result, lower-casing, decimal numerals |

## How the code is read

A request is a list of root mutations; a mutation is a list of synchronous slices separated
by awaits. A statement that is flushed locks its row until commit or rollback. The driver
blocks the only thread, so a statement that needs a row locked by a *suspended* request
waits for a lock that nobody can free: that is the state `Stuck`, and `LockTimeout` adds the
refusal that ends it after five seconds. Tables are sequences or maps keyed by increasing
ids, and a query without an ordering is read in id order. Clocks, file results, the outcome
of every database call of the session layer, the caller's permission and the JSON parser and
printer are parameters. A stored JSON text is kept beside what the parser makes of it, which may
be an error or one of the limits of Python 3.12's parser.

## What turned out to hold only under a condition

Each of these is proved with its exact condition, and where the condition can fail there is a
lemma at a failing input.

- The event loop freezes behind a request exactly when one of its mutations gives the loop back
  with a flushed write outstanding (`LoopFreeze.FreezesExactly`). With the lock timeout no state
  stays frozen, and a refused mutation keeps just what it had committed itself (`LockTimeout`).
- Saving a recording copies every row of the stage created in the window, rows of other
  performances included; it replays the live board faithfully exactly when no such row exists
  (`EventLog.RecordingIsFaithful`, `EventLog.RecordingRepeatsOldRows`).
- Sweep matches with ILIKE and an underscore in a slug is a wildcard: sweeping one stage leaves
  another's board alone, on every table of three-part topics, exactly when the slugs do not
  overlap up to case and underscores (`EventLog.SweepIsLocal`). Slugs from `get_short_name` never do.
- The same wildcard makes deleting a user remove live rows of other people's surviving stages:
  a row goes exactly when the pattern of a slug of the deleted user matches its topic, and the
  owner of the slug `%` takes every row whose topic has two slashes
  (`UserDeletionTheorems.LiveEventsLost`, `UserDeletionTheorems.UnderscoredDeletion`,
  `UserDeletionTheorems.PercentDeletion`).
- A trimmed timestamp is stored in the unit of the row it came from, and reads back as
  itself exactly on that unit's side of 10^12 (`TimelineTrim.StorageRoundTrip`); a trim of
  rows in mixed units replays in order exactly when no millisecond row precedes a second one
  (`EventLog.TrimOrderInMixedUnits`, `EventLog.MixedUnitsReverse`).
- A put suspended on the full queue when the last writer leaves can still go through and
  strand its message (`ArchivePipeline.ShutdownStrandsExactlyPendingPuts`).
- `queue.join()` can still return exactly when no payload accepted so far makes the parser raise
  something other than its two expected errors, and a writer is alive to take what is queued
  (`ArchiveJoin.JoinCanReturn`). `ArchiveJoin.PayloadThatCrashes` is a five-step run to the crash. In
  `main.py` the dead writer's exception then makes the `TaskGroup` cancel its siblings, which are
  the model's Cancel steps.
- If closing the session itself fails with something that is not an ordinary exception, the
  context variable is not restored (`DbContext.Context.RequestSession`).
- Many rows keep a user from being deleted, even by an administrator. The deletion goes through
  exactly under `UserDeletionSpec.Deletable`, a condition on the tables before it, and otherwise
  changes nothing (`UserDeletion.Database.DeleteUserMutation`): the three guards; an "admin" account,
  or its email free; no access list quoting the id that is nested too deep; a placeholder; for every
  stage of theirs, stored access that can be read for the caller; for every media item that goes, a
  description of its own that can be read, no description of another item left that mentions its file
  and cannot be rewritten, and no failure in the file system or the payloads; and no row that the cascade
  does not visit and a foreign key protects. `UserDeletionObstacles` has an ordinary account that goes
  and an input for each obstacle. Two kinds of descriptions are not covered: those whose `frames` is a
  string or an object, and those holding strings the database cannot encode.
- By what it does to the rows, deleting a user keeps all references valid exactly when the user does not
  own the placeholder and no row of `asset_attribute`, `performance_config`, `live_performance_mqtt_config`
  or the three profile tables points at what goes (`UserDeletionTheorems.DeletionKeepsReferences`,
  `UserDeletionTheorems.ConfigurationDangles`); where that fails the foreign keys refuse the deletion,
  so one that goes through keeps them (`UserDeletionTheorems.DeletableKeepsReferences`).
- A surviving stage's placeholder links are exactly the links it had of the placeholder or else of
  the first substituted item it showed, so there is one exactly when there was one
  (`UserDeletionTheorems.PlaceholderLinksExactly`, `MediaDeletion.PairTwiceGivesTwo`).
- The deleted id becomes audience exactly when the parser hits neither of its limits and each consulted
  access group is a list in a row whose stored text quotes the id, or does not name it; the text comes from
  the stage form unread, so an escaped id is missed, and a number of 5000 digits makes every lookup raise
  (`UserDeletionTheorems.DeletedUserIsAudience`, `AccessLists.EscapedIdEscapes`, `AccessLists.LongNumberRaises`).
- A duplicated stage takes the last value of an attribute name its source stores twice, where the
  source reads the first: it reads a name alike exactly when those two are equal, and alike whatever the
  values exactly when the name is stored once at most (`StageAttributes.CopyReadsAsSource`,
  `StageAttributes.CopyIsFaithful`, `StageAttributes.RepeatedNameReadsDifferently`).

## Model

| member | source | states |
|---|---|---|
| SessionLayer.RunAccountsForChanges | src/upstage_backend/global_config/db_context.py:85-112 | committed, flushed and pending writes always partition the changes made so far, in order |
| SessionLayer.CommittedIsEffect | src/upstage_backend/global_config/schema.py:55-78 | what the session commits for a mutation is all its changes on success, else only those before its last explicit commit |
| SessionLayer.NoLocksLeft | src/upstage_backend/stages/services/media.py:64-73 | a slice with no flush after its last commit gives the loop back without a row lock |
| EventLoop.NeverBlocked | src/upstage_backend/global_config/schema.py:43-78 | in a state where no session holds a lock, any ready request runs, and the state after it again holds none |
| EventLoop.NoBlockingOverRuns | src/upstage_backend/global_config/schema.py:43-78 | for any number of disciplined requests and any interleaving, no row lock is held at any yield and no write ever waits |
| EventLoop.EveryRequestFinishes | src/upstage_backend/global_config/db_context.py:115-144 | every turn spends one unit of a finite measure; when it is spent every request is closed |
| EventLoop.AdvanceConserves | src/upstage_backend/global_config/schema.py:55-78 | a turn moves writes from what a request still owes to what is committed, and neither adds nor drops any |
| EventLoop.MutationsAreAtomic | src/upstage_backend/global_config/schema.py:55-78 | in every interleaving a request's committed writes are a prefix of, and at its end equal to, the in-order effect of its mutations |
| EventLoop.DisciplineNeverFreezes | src/upstage_backend/stages/services/media.py:64-73 | with the boundary and the await discipline no interleaving freezes the loop |
| EventLoop.FlushedWriteAcrossYieldFreezes | src/upstage_backend/global_config/schema.py:43-54 | a first slice that yields with a flushed write outstanding, because it awaits or because there is no boundary, lets a second request freeze the loop |
| LoopFreeze.TidyNeverBlocks | src/upstage_backend/stages/services/media.py:64-73 | while no slice but the last of a mutation ends with a flushed write, no turn of any interleaving blocks |
| LoopFreeze.FreezesExactly | src/upstage_backend/stages/services/media.py:64-73 | with the boundary in place some second request, whether it flushes its write, leaves it to its commit, or has that commit refused, can freeze the loop behind a program exactly when a slice other than a mutation's last ends with a flushed write |
| LoopFreeze.DisciplinedYieldsClean | src/upstage_backend/stages/services/media.py:64-73 | a mutation without an await between a flush and its commit yields with nothing flushed |
| LoopFreeze.FailureNeverWaits | src/upstage_backend/global_config/schema.py:58-62 | a mutation that fails before it has sent a write waits for nobody and commits nothing |
| LockTimeout.SharesAreAtomic | src/upstage_backend/global_config/database.py:20-31 | with the lock timeout, for any programs and any interleaving, a closed request's log is one share per mutation in order: its effect, or what it had committed before an operation with writes to send was refused |
| LockTimeout.RefusalMeetsALock | src/upstage_backend/global_config/database.py:20-31 | whatever is refused was about to send a write to a row that another request holds locked |
| LockTimeout.CleanRunsRefuseNobody | src/upstage_backend/stages/services/media.py:64-73 | requests that yield with no flushed write outstanding are never refused, in any interleaving |
| LockTimeout.NoStateIsFrozen | src/upstage_backend/global_config/database.py:20-31 | with the timeout every turn of every reachable state ends |
| LockTimeout.TimedRunsEnd | src/upstage_backend/global_config/database.py:20-31 | no run with refusals is longer than the work there was |
| EventLoop.TwoTouches | tests/unit/test_graphql_mutation_transaction_boundary.py:135-144 | two flush-only mutations of one row freeze the loop without the boundary and do not with it |
| Resolvers.UploadMediaKeepsRules | src/upstage_backend/stages/services/media.py:75-103 | uploadMedia never awaits on a lock; when it fails after its commit only a new asset type is kept |
| Resolvers.UpdateMediaKeepsRules | src/upstage_backend/stages/services/media.py:105-166 | updateMedia crosses its file await with unflushed changes only; it keeps nothing when a payload is over the cap, only a new asset type when a lookup refuses or the files fail, else everything |
| Resolvers.MediaAwaits | src/upstage_backend/stages/services/media.py:75-150 | each resolver gives the loop back once per size it checks and once for its files, if there are any |
| Resolvers.AssetCrossesUnflushed | src/upstage_backend/stages/services/media.py:132-150 | the file await is crossed with the asset's change pending, nothing flushed, and only a new asset type committed |
| Resolvers.FlushBeforeFilesFreezes | src/upstage_backend/stages/services/media.py:132-134 | flushing before that await would let another request freeze the loop, boundary or not |
| Resolvers.LastAccessCommitsItself | src/upstage_backend/stages/services/stage.py:593-601 | updateLastAccess commits its one update and gives the loop back without a lock even with no boundary |
| Resolvers.LastAccessOfUnknownStage | src/upstage_backend/stages/services/stage.py:597-599 | for an unknown stage nothing is locked or kept and the transaction is rolled back |
| DbContext.Context.FinishRequestTransaction | src/upstage_backend/global_config/db_context.py:85-112 | ends an open transaction, keeps its writes exactly on a successful commit, rolls a refused commit back, leaves a commit that died without rollback, and is a no-op when nothing was begun |
| DbContext.Context.EndTransactionAfterRootMutation | src/upstage_backend/global_config/schema.py:43-78 | a settled root mutation leaves no transaction unless its commit died, and keeps its writes exactly when it returned a value and the commit went through; other fields change nothing |
| DbContext.Context.CommitOrRollBack | src/upstage_backend/global_config/db_context.py:124-139 | the calls made after the body and what is raised, for every pattern of failures |
| DbContext.EndIsTeardown | src/upstage_backend/global_config/db_context.py:124-144 | close comes last and once, commit at most once and only after a normal body with work, a refused commit is rolled back and raised, success means nothing was raised, and what is raised is fatal exactly when the body or a call was |
| DbContext.Context.RequestSession | src/upstage_backend/global_config/db_context.py:115-144 | for every nesting and failure pattern the context variable returns to its value exactly when close did not fail fatally, and every session opened is closed; the log only grows, by what a successful commit finds pending or flushed, and without nesting by exactly the reference meaning of the operations |
| DbContext.PlainHandlerMeans | src/upstage_backend/global_config/db_context.py:115-139 | that meaning, without early ends: all changes when body and commit go well, otherwise those through the last explicit commit |
| DbContext.FinishIsEffect | src/upstage_backend/global_config/db_context.py:85-112 | what was committed on the way and what ending the transaction commits are the worth of its operations |
| ArchivePipeline.StepKeepsInv | src/upstage_backend/event_archive/writer.py:52-89 | no step loses, duplicates or invents a message, overfills the queue or unbalances the unfinished counter |
| ArchivePipeline.Conservation | src/upstage_backend/event_archive/main.py:47-66 | in every reachable state each accepted message is in exactly one of queue, writers' hands, persisted, dropped, failed or cancelled; the counter is queued plus unacknowledged |
| ArchivePipeline.PersistedOnce | src/upstage_backend/event_archive/writer.py:69-89 | no message is inserted twice, and a persisted one is nowhere else |
| ArchivePipeline.JoinMeansSettled | src/upstage_backend/event_archive/main.py:64-66 | the counter reaches zero only when the queue is empty and every accepted message has been dealt with |
| ArchivePipeline.CleanShutdown | src/upstage_backend/event_archive/writer.py:52 | with no put suspended when the last writer leaves normally, queue and counter are and stay empty and every message was persisted, dropped or logged as failed |
| ArchivePipeline.ShutdownStrandsExactlyPendingPuts | src/upstage_backend/event_archive/subscriber.py:54-68 | the queue stays empty in every continuation exactly when no put was suspended at that step |
| ArchivePipeline.CrashBlocksJoin | src/upstage_backend/event_archive/writer.py:51-64 | a writer that died holding a message leaves the counter above zero for ever |
| ArchiveJoin.ZeroMeansNoPoison | src/upstage_backend/event_archive/writer.py:25-44 | in every reachable state a zero counter means no accepted payload makes the parser raise unexpectedly |
| ArchiveJoin.DrainStep | src/upstage_backend/event_archive/writer.py:52-89 | otherwise, while something is unfinished, a live writer has a step that brings the end nearer |
| ArchiveJoin.JoinCanReturn | src/upstage_backend/event_archive/main.py:64-66 | from every reachable state some continuation brings the counter to zero exactly when no accepted payload is such and a writer is alive to take what is queued |
| ArchiveJoin.PayloadThatCrashes | src/upstage_backend/event_archive/writer.py:62-70 | five steps from the start to a writer dead on such a payload, from where no continuation reaches zero |
| ArchiveFates.FateOfEachPayload | src/upstage_backend/event_archive/writer.py:25-71 | in every reachable state a message that was dealt with was dropped exactly when its payload is undecodable, and persisted, failed or cancelled exactly when it parses |
| ArchiveFates.DeadHands | src/upstage_backend/event_archive/writer.py:25-71 | a writer that died with a message in its hands died of one that neither parses nor is undecodable |
| ArchiveFates.OneRowEach | src/upstage_backend/event_archive/writer.py:72-83 | no two rows come from one message |
| ArchivePipeline.ReplayIsArrivalOrder | src/upstage_backend/stages/services/stage_operation.py:92-103 | with strictly increasing arrival times every replay of a stage's live board is its persisted messages still shown, in arrival order, however the writers interleaved and whatever sweeps took or the cursor passed |
| ArchivePipeline.DecodeExactly | src/upstage_backend/event_archive/writer.py:25-44 | the decoder hands over the parsed value of bytes or text, rejects bad UTF-8 bytes, bad JSON and other types, and lets anything else through |
| ArchiveService.Archive.OnMessage | src/upstage_backend/event_archive/subscriber.py:54-68 | a listening subscriber is gone once stop is set, still listening after a retained or statistics message, else about to put the message with its arrival time |
| ArchiveService.Archive.ResumePut | src/upstage_backend/event_archive/subscriber.py:62-68 | a put goes through exactly when there is room, at the end of the queue and of the counter |
| ArchiveService.Archive.ResumeDecode | src/upstage_backend/event_archive/writer.py:25-71 | bytes or text that parsed go on to be saved; bad UTF-8 bytes, bad JSON and other types are dropped and acknowledged; anything else ends the writer unacknowledged |
| ArchiveService.Archive.ResumePersist | src/upstage_backend/event_archive/writer.py:72-91 | a commit or a logged failure is acknowledged next, a cancellation at once and without a row |
| ArchiveService.Archive.ResumeSaving | src/upstage_backend/event_archive/writer.py:72-83 | a commit leaves one row with the message's topic, parsed value and arrival time, anything else none |
| ArchiveService.Archive.Schedule | src/upstage_backend/event_archive/main.py:47-66 | any interleaving of subscriber and writers from an empty start is a run of the model, ends with every message accounted for, and leaves as rows exactly the persisted messages |
| AssignmentSpec.FirstWantIsFirst | src/upstage_backend/stages/services/assignment.py:83-86 | a stage id repeated in the input counts once, with its first settings |
| AssignmentSpec.FirstRowFound | src/upstage_backend/stages/services/assignment.py:70-80 | the row a survivor keeps is the earliest of its pair |
| AssignmentSpec.SyncResult | src/upstage_backend/stages/services/assignment.py:70-107 | after a sync the item is on exactly the wanted stages: survivors on their smallest-id row under explicit or kept settings, new ones on new rows |
| AssignmentSpec.SyncHeals | src/upstage_backend/stages/services/assignment.py:70-80 | no (stage, asset) pair of the synced item is left twice |
| AssignmentSpec.SyncSparesOthers | src/upstage_backend/stages/services/assignment.py:66-72 | every row of every other item is untouched, in place |
| AssignmentSpec.SyncIdempotent | src/upstage_backend/stages/services/assignment.py:45-107 | an identical second sync changes nothing, ids included |
| AssignmentTable.SyncRefines | src/upstage_backend/stages/services/assignment.py:45-107 | on each stage's list a sync drops the item, refreshes it at its place, or appends it |
| AssignmentTable.AssignRefines | src/upstage_backend/stages/services/media.py:46-62 | assignMedia sets its stage's list to the items sent, each with the exit settings it had, and touches no other stage |
| AssignmentTable.SnapshotRefines | src/upstage_backend/stages/services/assignment.py:6-23 | a snapshot of a stage, of an item, of both or of all holds exactly the pairs asked for that have a row, each with the settings of its last row |
| AssignmentTable.NotStageRefines | src/upstage_backend/stages/services/stage.py:396 | deleting a stage empties its list only |
| AssignmentTable.DropAssetRefines | src/upstage_backend/stages/services/media.py:262-265 | deleting an item's links removes it from every list and keeps the order of the rest |
| AssignmentTable.TableRefinesLists | src/upstage_backend/stages/db_models/stage.py:27-36 | over every run of these mutations, from any table, each stage shows what a plain ordered list would |
| AssignmentTable.IdsStayAscending | src/upstage_backend/stages/db_models/stage.py:27-36 | ids keep rising in row order, so ordering by primary key is row order |
| AssignmentTable.DuplicateCopiesLinks | src/upstage_backend/stages/services/stage.py:434-460 | a duplicate shows the same multiset of items and settings, and no other stage changes |
| AssignmentService.ParentStage.SyncAssetAssignments | src/upstage_backend/stages/services/assignment.py:45-107 | the three loops with their dictionary, seen set and deletes produce exactly the specified table |
| AssignmentService.ParentStage.AssignMedia | src/upstage_backend/stages/services/media.py:46-62 | unknown stages and strangers are refused unchanged; otherwise delete and re-add loops produce the specified table |
| AssignmentService.ParentStage.QuickAssign | src/upstage_backend/studio_management/services/studio.py:664-684 | an unknown asset or stage changes nothing; otherwise it is a sync that keeps all settings |
| AssignmentService.ParentStage.CopyData | src/upstage_backend/stages/services/stage.py:449-460 | the link loop appends one copy per fetched row under new ids |
| StageAttributes.AttributeTable.UpdateStageAttribute | src/upstage_backend/stages/services/stage.py:366-385 | an empty value changes nothing, any other is what the pair reads next, and no other pair reads differently |
| StageAttributes.AttributeTable.CopyAttributes | src/upstage_backend/stages/services/stage.py:434-447 | the copy reads, per name, the last non-empty value of its source, and no other stage reads differently |
| StageAttributes.CopyReadsAsSource | src/upstage_backend/stages/services/stage.py:434-447 | a copy reads a name as its source does exactly when the name's first row holds what its last non-empty row holds |
| StageAttributes.CopyIsFaithful | src/upstage_backend/stages/services/stage.py:434-447 | it does so for all values exactly when the source stores the name once at most |
| TimelineTrim.CompressSortedTimesMs | src/upstage_backend/performance_config/timeline_trim.py:25-37 | the loop keeps the length and the first time and caps every gap at the pause; a negative pause is an error |
| TimelineTrim.CompressionUnique | src/upstage_backend/performance_config/timeline_trim.py:25-37 | capped gaps and a first time leave no freedom |
| TimelineTrim.CompressionOfSorted | src/upstage_backend/performance_config/timeline_trim.py:25-37 | sorted times stay sorted, never later than they were, with no gap above the pause |
| TimelineTrim.CompressionIdentity | src/upstage_backend/performance_config/timeline_trim.py:25-37 | nothing changes exactly when no gap exceeds the pause |
| TimelineTrim.CompressionComposes | src/upstage_backend/performance_config/timeline_trim.py:25-37 | compressing by p then q is compressing once by the smaller |
| TimelineTrim.CompressionIdempotent | src/upstage_backend/performance_config/timeline_trim.py:25-37 | compressing twice by one pause is compressing once |
| TimelineTrim.StorageRoundTrip | src/upstage_backend/performance_config/timeline_trim.py:7-22 | a stored time reads back as itself exactly on its own unit's side of the threshold |
| TimelineTrim.StorageRoundTripCanFail | src/upstage_backend/performance_config/timeline_trim.py:7-22 | a time on the wrong side of the threshold reads back as another |
| SlugAllocation.ShortNameShape | src/upstage_backend/stages/services/stage.py:462-466 | a base slug has only lower-case letters, digits and single hyphens |
| SlugAllocation.ShortNameKeepsLetters | src/upstage_backend/stages/services/stage.py:462-466 | every letter and digit of the name is in its slug, in order and in lower case |
| SlugAllocation.ShortNameByWords | src/upstage_backend/stages/services/stage.py:462-466 | a word is lower-cased, the blanks after it become one hyphen, and the slug of the rest follows |
| SlugAllocation.GetShortName | src/upstage_backend/stages/services/stage.py:462-476 | the search ends, within as many suffixes as there are slugs, on the least free one |
| SlugAllocation.CandidatesDiffer | src/upstage_backend/stages/services/stage.py:468-476 | different suffixes give different slugs |
| TopicMatch.StageOfTopic | src/upstage_backend/stages/services/stage.py:489-492 | for a slug without percent, backslash and slash, a three-segment topic matches its pattern exactly when the middle segment has its length and equals it wherever it is not an underscore, under ILIKE up to case |
| TopicMatch.LikeImpliesILike | src/upstage_backend/stages/services/stage_operation.py:92-103 | whatever a read matches, a sweep matches |
| TopicMatch.UnderscoreLeaks | src/upstage_backend/stages/services/stage.py:489-492 | a slug with an underscore also matches the topics of other slugs |
| TopicMatch.PercentSlug | src/upstage_backend/studio_management/services/studio.py:343-346 | the pattern of the slug % matches exactly the topics with two slashes |
| EventLog.SweepMovesLiveView | src/upstage_backend/stages/services/stage.py:489-508 | a sweep into a fresh performance empties the live view and gives the performance exactly that view |
| EventLog.SweepKeepsPerformances | src/upstage_backend/stages/services/stage.py:489-508 | a sweep changes no row of an older performance |
| EventLog.SweepSparesOtherStage | src/upstage_backend/stages/services/stage.py:489-508 | another stage's live view survives exactly when no live row answers to both patterns |
| EventLog.SweepIsLocal | src/upstage_backend/stages/services/stage.py:489-508 | over all tables of three-part topics, sweeping one stage leaves another's view alone exactly when the slugs do not overlap up to case and underscores |
| EventLog.CursorResumes | src/upstage_backend/stages/services/stage_operation.py:92-103 | a client that comes back with a cursor gets exactly the rows beyond it, none twice |
| EventLog.AllocatedSlugsAreIndependent | src/upstage_backend/stages/services/stage.py:462-508 | stages named by get_short_name are independent whenever their slugs differ |
| EventLog.RecordingIsFaithful | src/upstage_backend/performance_config/services/performance.py:194-235 | a saved recording replays each live message of its window once exactly when no stale row is in the table |
| EventLog.LiveDuringMembers | src/upstage_backend/performance_config/services/performance.py:207-215 | the live messages of a window are the live rows whose topic matches the slug and that were created strictly inside it |
| EventLog.RecordingRepeatsOldRows | src/upstage_backend/performance_config/services/performance.py:207-222 | one row of another performance in the window makes the recording show what the live board never did |
| EventLog.SortEventsSorts | src/upstage_backend/performance_config/services/performance.py:126-140 | the trim's order is a sorted permutation of the source rows |
| EventLog.InOrderByTime | src/upstage_backend/performance_config/services/performance.py:126-140 | in that order times never fall, and rows of one time come by id |
| EventLog.SortTimeExactly | src/upstage_backend/performance_config/services/performance.py:128-138 | the time is a chat message's numeric clock, else its arrival in milliseconds, a value below 10^12 being seconds |
| EventLog.TrimKeepsContents | src/upstage_backend/performance_config/services/performance.py:152-171 | a trimmed copy has the same topics and bodies; each row keeps its unit, and of its payload only a chat clock changes, to the nearest whole millisecond |
| EventLog.TrimReadsBack | src/upstage_backend/performance_config/services/performance.py:142-171 | on modern clocks every stored timestamp of a trimmed copy reads back as its compressed time |
| EventLog.TrimReplaysInOrder | src/upstage_backend/performance_config/services/performance.py:126-173 | in one unit the copy replays in the source's sort order with no gap above the pause |
| EventLog.TrimOrderInMixedUnits | src/upstage_backend/performance_config/services/performance.py:126-173 | in mixed units it does exactly when no millisecond row precedes a second one |
| EventLog.MixedUnitsReverse | src/upstage_backend/performance_config/services/performance.py:165-171 | one millisecond row before one second row is replayed in reverse |
| EventStore.Store.SweepStage | src/upstage_backend/stages/services/stage.py:478-508 | goes through exactly when the stage exists, the caller is let through and some live row answers to its slug; then the live board is empty, the new performance shows what it showed, and no other performance changes |
| EventStore.Store.SaveRecording | src/upstage_backend/performance_config/services/performance.py:194-235 | goes through exactly when the caller is allowed and some row of the stage was created strictly between the recording's start and now; inserts one copy of each under the recording, which then shows the live messages of that window exactly when no stale row is there; every other performance and the live board are unchanged |
| EventStore.Store.DeletePerformance | src/upstage_backend/performance_config/services/performance.py:176-192 | removes the performance and exactly its events |
| EventStore.Store.DuplicateWithTrimmedPauses | src/upstage_backend/performance_config/services/performance.py:92-174 | the new performance has its own name and exactly one copy per source row: the same topics and bodies, each at its compressed time in its source's unit, and nothing else changes |
| EventStore.Store.Archive | src/upstage_backend/event_archive/writer.py:73-83 | an archived message is one new live row and changes no performance |
| EventStore.AppendBatch | src/upstage_backend/performance_config/services/performance.py:152-171 | rows added for one performance change no other's view |
| AccessLists.ScrubSparesOthers | src/upstage_backend/studio_management/services/studio.py:304-327 | scrubbing a user's id changes nobody else's permission, for any stored text and value |
| AccessLists.ScrubShutsOut | src/upstage_backend/studio_management/services/studio.py:304-327 | the scrubbed id is audience exactly when the parser hits no limit and each consulted group is a list in a row whose text quotes the id, or does not name it |
| AccessLists.QuotesExactly | src/upstage_backend/studio_management/services/studio.py:306-313 | the query selects a text exactly when the id stands in it between two quotation marks |
| AccessLists.EscapedIdEscapes | src/upstage_backend/stages/services/stage.py:353 | an id escaped in the stored text is not scrubbed and keeps its role |
| AccessLists.LongNumberRaises | src/upstage_backend/studio_management/services/studio.py:315-319 | a stored number beyond the digit limit keeps its row from being scrubbed and makes every lookup on it raise |
| AccessLists.LookupRaises | src/upstage_backend/stages/services/stage_operation.py:65-90 | the lookup raises exactly for someone else's stage whose stored access the parser gives up on, or whose first group, or second if the first does not name the user, is a scalar |
| AccessLists.RolesExactly | src/upstage_backend/stages/services/stage_operation.py:65-90 | the owner is the owner whatever is stored; others are players exactly when the first of two groups names them, editors when only the second does |
| AccessLists.PermissionGranted | src/upstage_backend/stages/services/stage.py:268-280 | a caller is let through exactly as the owner, or where the lookup does not raise as an administrator or an editor |
| AccessLists.CleanRow | src/upstage_backend/studio_management/services/studio.py:304-327 | one turn of the scrub: an error exactly on a fetched text nested too deep, else the row with its lists filtered, or as it was |
| AccessLists.ScalarGroupRaises | src/upstage_backend/stages/services/stage.py:268-280 | a scalar where a group is expected makes the permission lookup raise, whoever asks |
| UserDeletion.Database.EnsureAdminUser | src/upstage_backend/stages/scripts/scaffold_base_media.py:283-309 | finds the account by name or creates it, fails exactly when there is none and its email is taken, and changes no existing row |
| UserDeletion.Database.EnsurePlaceholderAsset | src/upstage_backend/stages/scripts/scaffold_base_media.py:312-349 | finds the placeholder by location or creates it for the admin; a failed file copy raises exactly when there is no row yet |
| UserDeletion.Database.ScrubAccessLists | src/upstage_backend/studio_management/services/studio.py:304-327 | the loop rewrites exactly the rows that the query fetches, that hold a list, and that the scrub changes; it raises exactly when it fetches a text nested too deep |
| UserDeletion.Database.CleanupUserReferences | src/upstage_backend/studio_management/services/studio.py:292-328 | removes exactly the user's sessions, codes and grants besides |
| UserDeletion.Database.DeleteStage | src/upstage_backend/stages/services/stage.py:387-409 | goes through exactly when the caller is let through and no configuration refers to one of its performances, and then removes the stage, its links, scenes, attributes, performances and their events, and its live rows |
| UserDeletionSpec.ScrubKeepsMayDelete | src/upstage_backend/stages/services/stage.py:268-280 | scrubbing one user does not change what anyone else may delete |
| UserDeletion.Database.SubstitutePlaceholder | src/upstage_backend/studio_management/services/studio.py:380-402 | each link of the asset goes if its stage showed the placeholder before the loop, else is repointed under its id |
| UserDeletion.Database.CleanupAssets | src/upstage_backend/assets/services/asset.py:567-611 | raises exactly when the asset's own description cannot be read or one that mentions its file cannot be rewritten; otherwise removes its remaining links, tags, licences and grants and rewrites those descriptions |
| UserDeletion.Database.RemoveAsset | src/upstage_backend/studio_management/services/studio.py:371-375 | removing one media item goes through exactly when it is `Removable`, and leaves its links substituted or gone, its row and its grants gone, and the descriptions rewritten |
| UserDeletion.Database.DeleteAssetsOf | src/upstage_backend/studio_management/services/studio.py:354-377 | the media loop goes through exactly when, by the tables before it, every item that goes can be removed; it then reassigns kept kinds and removes the rest, as specified for all of them at once |
| UserDeletion.Database.DeleteUser | src/upstage_backend/studio_management/services/studio.py:262-290 | goes through exactly under `Deletable`, a condition on the tables before it; then every table is what the specification says, and the content action did to the user's media what it is for |
| UserDeletion.Database.DeleteUserMutation | src/upstage_backend/global_config/schema.py:58-62 | with the boundary's rollback a deletion that does not go through leaves every table as it was |
| UserDeletionSpec.ContentActionMeans | src/upstage_backend/studio_management/services/studio.py:255-278 | with DELETE_ALL none of the user's media is left but the placeholder; else avatars, props and backdrops are left under the admin, otherwise unchanged, and the rest is gone |
| UserDeletionObstacles.OrdinaryGoes | src/upstage_backend/studio_management/services/studio.py:262-290 | a user with a stage, a performance and media, and nothing in the way, can be deleted |
| UserDeletionObstacles.HelloBlocks | src/upstage_backend/assets/services/asset.py:568-569 | a sound described as plain text keeps its owner undeletable |
| UserDeletionObstacles.NoteBlocks | src/upstage_backend/assets/services/asset.py:599-605 | so does a note without frames on anybody's media that names a file that goes |
| UserDeletionObstacles.SomeonesNoteBlocks | src/upstage_backend/assets/services/asset.py:599-605 | somebody else's prop with such a note is enough for the ordinary account |
| UserDeletionObstacles.TakenEmailBlocks | alembic/versions/baseline001_schema.sql:1279-1280 | with no admin account and its email taken nobody can be deleted |
| UserDeletionObstacles.ConfigurationBlocks | alembic/versions/baseline001_schema.sql:1476-1517 | a performance configuration of the user's, or anybody's for their performance, keeps an account undeletable, though every reference is valid |
| UserDeletionObstacles.ScalarGroupBlocks | src/upstage_backend/stages/services/stage.py:268-280 | a scalar group on one of their stages does, for an administrator too |
| UserDeletionObstacles.LongNumberBlocks | src/upstage_backend/stages/services/stage_operation.py:79-83 | a number beyond the digit limit on one of their stages does |
| UserDeletionObstacles.DeepListBlocks | src/upstage_backend/studio_management/services/studio.py:315-319 | a list nested too deep that quotes their id does, on anybody's stage |
| UserDeletionSpec.EventsWithoutMore | src/upstage_backend/studio_management/services/studio.py:340-349 | deleting the stages one by one removes the same events as deleting them together |
| Descriptions.RewriteRow | src/upstage_backend/assets/services/asset.py:604-610 | one fetched row: an error exactly when it is not an object with a list of frames it can search, else the list with every query part cut and the file taken out once |
| Descriptions.RewrittenFrames | src/upstage_backend/assets/services/asset.py:604-610 | every frame is kept up to its first question mark, and the first that is then the file is taken out |
| Descriptions.LookUpFrames | src/upstage_backend/assets/services/asset.py:567-583 | reading a media item's own description raises exactly when it does not decode, has no keys to test or subscript, or holds frames that cannot be iterated and looked up |
| Descriptions.TokenFrames | src/upstage_backend/studio_management/services/studio.py:426-441 | the substitution reads what does not decode as empty, and raises exactly on a value without `get`, frames it cannot iterate, or a frame that is not a string |
| Descriptions.RemovesOne | src/upstage_backend/assets/services/asset.py:608-609 | the file goes from the list once; a second mention stays |
| Descriptions.RewriteIsKin | src/upstage_backend/assets/services/asset.py:599-611 | a rewritten description raises for itself, or for a later rewrite, exactly when it did before |
| MediaDeletion.DescriptionsLeft | src/upstage_backend/studio_management/services/studio.py:364-375 | after any number of removals the descriptions left are those of the items left, each as it was or rewritten |
| MediaDeletion.PassesInTurn | src/upstage_backend/studio_management/services/studio.py:364-375 | a removal in the middle of the loop raises exactly when the tables before the loop, without the items gone first, say so |
| MediaDeletion.SubstituteNext | src/upstage_backend/studio_management/services/studio.py:371-376 | substituting the next asset and removing its links extends the exact joint result by that asset |
| MediaDeletion.PlaceholderLinksAreSourceLinks | src/upstage_backend/studio_management/services/studio.py:364-402 | over all removed assets, a stage's placeholder links are exactly the links it had of their source |
| MediaDeletion.PairTwiceGivesTwo | src/upstage_backend/studio_management/services/studio.py:385-401 | a pair linked twice becomes two placeholder links |
| MediaDeletion.SubstitutedOnce | src/upstage_backend/studio_management/services/studio.py:385-399 | a stage without the placeholder gets it once exactly when it showed the asset once |
| UserDeletionTheorems.DeleteUserHappens | src/upstage_backend/studio_management/services/studio.py:262-290 | a successful deletion on tables with valid references meets the hypotheses of the theorems |
| UserDeletionTheorems.DeletionKeepsReferences | src/upstage_backend/studio_management/services/studio.py:262-378 | by what it does to the rows, every reference is valid and none names the user exactly when the user owns no placeholder and no row of an unvisited table points at what goes |
| UserDeletionTheorems.ConfigurationDangles | alembic/versions/baseline001_schema.sql:1476-1477 | done row by row, a deletion would leave someone else's configuration for a removed performance dangling |
| UserDeletionTheorems.DeletableKeepsReferences | alembic/versions/baseline001_schema.sql:1397-1517 | a deletion that goes through on valid references leaves valid references and no row that names the user |
| UserDeletionTheorems.DescriptionsKept | src/upstage_backend/assets/services/asset.py:599-611 | every description left is of media left and is as it was or rewritten, and as it was if it mentions no file that goes |
| UserDeletionTheorems.PlaceholderLinksExactly | src/upstage_backend/studio_management/services/studio.py:380-402 | on every surviving stage the placeholder links are exactly those of the placeholder or else of the first substituted item it showed, and one exactly when there was one |
| UserDeletionTheorems.OnePlaceholderEach | src/upstage_backend/studio_management/services/studio.py:380-402 | with unique pairs before, pairs stay unique and a surviving stage that showed substituted media has exactly one placeholder link |
| UserDeletionTheorems.SurvivingLinksUntouched | src/upstage_backend/assets/services/asset.py:585-588 | links to surviving media on surviving stages keep their rows, ids included; any other link left is a repointed one |
| UserDeletionTheorems.BystandersUntouched | src/upstage_backend/studio_management/services/studio.py:330-378 | other people's stages, media, scenes, recordings and grants are the same rows as before |
| UserDeletionTheorems.LiveEventsLost | src/upstage_backend/studio_management/services/studio.py:340-348 | a live event goes exactly when the pattern of a slug of the deleted user matches its topic; for a plain slug when its middle segment agrees with it, for % always; other people's slugs do not matter |
| UserDeletionTheorems.UnderscoredDeletion | src/upstage_backend/studio_management/services/studio.py:343-346 | deleting the owner of the slug a_b takes a live row of someone else's surviving stage axb |
| UserDeletionTheorems.PercentTakesEveryRow | src/upstage_backend/studio_management/services/studio.py:343-346 | deleting the owner of the slug % takes every live row whose topic has two slashes, and if that is their only stage no other |
| UserDeletionTheorems.PercentDeletion | src/upstage_backend/studio_management/services/studio.py:343-346 | with it goes a live row of someone else's surviving stage axb |
| UserDeletionTheorems.PermissionsOfOthersStay | src/upstage_backend/stages/services/stage_operation.py:65-90 | on every surviving stage everyone else's permission is what it was |
| UserDeletionTheorems.DeletedUserIsAudience | src/upstage_backend/studio_management/services/studio.py:304-327 | the deleted id is audience on a surviving stage exactly when the stored list shuts it out: no parser limit, and each consulted group a list in a row whose text quotes the id, or one that does not name it |
| UserDeletionTheorems.EscapedUserStaysPlayer | src/upstage_backend/studio_management/services/studio.py:306-313 | user 7 stays a player where the stored list escapes the 7 |
| UserDeletionTheorems.LongNumberKeepsRaising | src/upstage_backend/stages/services/stage_operation.py:79-83 | where the stored list holds a number beyond the digit limit the lookup still raises for the deleted id |

## Left out

- Float rounding: timestamps are reals, and only Python's `round` of the chat clock is modelled.
- Lower-casing and LIKE: ASCII letters only; a pattern that ends in a backslash raises in Postgres and is not modelled.
- Slugs with a backslash or a slash, or with a percent sign beside other text, and topics of other than three parts: LIKE itself is modelled for them, the theorems about sweeps and boards are not stated for them.
- JSON text: a stored attribute is its text beside its parse, and the parser and printer are parameters; nothing is assumed about them.
- `idle_in_transaction_session_timeout`: the model has no clock for a transaction that a suspended request leaves open; only the lock timeout is modelled.
- Atomic steps: code between two awaits is one step, for the archive and for requests; what asyncio and SQLAlchemy do inside a step is not modelled.
- The archive's 10-second wait for `join`, its reconnects, and the end of its process after a crash: the model covers any number of steps before and after them.
- Query order: `.first()` and unordered queries are read in id order; sorting by timestamp is stated as a predicate because ties are free.
- AssignmentTable.DuplicateCopiesLinks: states the multiset only, because the query behind it has no order.
- UserDeletion.Database.DeleteUser: does not state the counts in its message.
- UserDeletion.Database.CleanupAssets: does not model a `frames` that is a string or an object, nor strings the database cannot hold (a NUL or a lone surrogate escaped in the JSON); an element of a list of frames that is not a string is reduced to whether looking it up, and searching it, raises.
- File removal: frame files and media files are not modelled; whether removing them fails is a parameter.
- Payload and scene substitution: rewriting file URLs inside JSON texts on user deletion is not modelled; the rows keep their identity, and whether it fails is a parameter.
- The small tables as one: sessions, codes, grants, tags, licences and the unvisited tables are one tagged table in the deletion model. `stage_license` has an ORM class but no table in the schema and is not in it.
- Constraints of the database: on user deletion the unique email and the foreign keys are modelled; elsewhere a refused flush is one of the ways a mutation settles.
- Resolvers.UploadMediaKeepsRules: the lookups inside a slice are reduced to one read each, since reads take no lock.
- `update_stage_assignment`, `assign_user_to_default_stage`, size totals, upload caps, notifications, pagination and search: easy or not delivering the obvious property.
- MQTT and broker connections, mail, payment, captcha, tokens, password hashing, video and PDF tools: calls with no local property.
- WebSocket session fallback, migrations, seed scripts, installers and development tools.
