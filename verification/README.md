# Verified model of the brain's core protocols

A Dafny 4.11 model of the parts of this repository that carry an algorithm or a protocol, with proofs
about every input, every run or every reachable state. `dafny verify dfyconfig.toml` checks all of it.

| file | what it models | main results |
|---|---|---|
| EventStream, QueryChat, QueryChatTheorems | the event-stream format and the chat panel's incremental reader | independence from chunk boundaries; the round trip holds exactly for clean frames; what a bubble shows is what the server said |
| PollRun, Reattach, Resume | the bounded poll of a run, and coming back to a thread | exact run of polls against any server; a poll's patches reach no other bubble; exactly when a bubble is left streaming |
| IngestQueue, AsyncWorker | the graph service's worker loop before and after the patch, over its queue | landed or gone; re-pushing is safe if and only if there is one worker; the old loop dies behind a healthy accept path |
| LandedWatermark | the clock-based verdict the brain draws from that order | safe if and only if the margin covers the slack and the lag of back-filled stamps |
| ParentGraph, NewEdges, TaskActions, TaskForest, ManyEdits, TaskHierarchy | the task actions, their cycle guard and the two-level display | the bounded walk is exact reachability; exactly which actions, unguarded writes, and overlapping edits, however many, keep a forest; exactly which lists the display shows whole |
| SchemaHardening, SchemaNodes, SchemaMeaning, SchemaInPlace | the in-place rewrite of JSON schemas and what it does to their meaning | which dicts of the tree are closed, and that the hardened schema means the closed reading of the original, no more and no less |
| ProjectCreation, CreateProjectAction | project creation under interleaving and failure at every call | one row per slug, grants only to the inserter, success means complete |
| ArcCorrections | the correction recompute, one request per partition | exactly the edits of partitions that were not accepted stay |
| MeetingPairs | the distinct-pair count | counts equal set cardinalities and ignore order |
| ExpressionScan, SmallModel | the bracket scanner and the tiny interpreter of the image build | extraction is exact; the shipped expression decides as documented in every environment |
| BrandForm, Frontmatter, SeedTables, SeedDecisions, Slug | forms, parsers and the slug normaliser | round trips with exact conditions; a slug is the words of the name |
| Text, Writes | the string primitives and the outcomes of a database write these share | |

Methods follow the source where the source changes things step by step (a class for the panel, the task
store, the arcs panel, the worker, the database and the dicts of a schema; loops for loops). Each is
proved against a function of its inputs or its old state, and what the source promises is proved about
that function.

Text is a sequence of characters. Network and database calls are parameters: a call returns what the
caller of the model says it returns, a database write may fail before or after taking effect, a query may fail
and then finds nothing, and servers answer arbitrarily. Authorisation decisions are booleans. The event-stream format is the subset of the WHATWG
HTML Living Standard, sections 9.2.5 and 9.2.6, that the panel reads; schema validity follows JSON Schema
Core, draft 2020-12 (section 10.3.2.3 for `additionalProperties`).

## What the proofs found

- `slugify` strips dashes before it cuts at 64 characters, so a slug may end in the dash at the cut and a
  second application removes it: for every name, if and only if its joined words are longer than 64
  characters with a dash as the 64th (`Slug.NeedsTwoIff`); 63 times the letter a followed by "-b" is
  one (`Slug.SixtyThreeAs`).
- A closing frontmatter fence whose line does not end is found but not cut off: the whole content becomes the
  body, if and only if no newline follows the fence (`Frontmatter.BodyIsWholeIff`).
- A decision of tier 0, and no other, is read back without a tier (`SeedDecisions.TierRoundTrip`).
- The landed verdict of `lib/graph/reconcile.ts` is safe for rows whose creation stamp lags behind their pushes
  by at most some lag if and only if the margin is at least the slack plus that lag
  (`LandedWatermark.SafeIffMarginCoversSlackAndLag`). So the insisted margin strictly above the slack is one more
  than first-seen rows need, and the shipped constants stand a back-filled stamp up to 540000 ms late and none
  later (`LandedWatermark.ShippedMarginStandsLag`).
- The patched worker loop survives `Exception`, not every exception: one outside that class still ends it
  (`IngestQueue.PatchedSurvives` states what the loop needs, `IngestQueue.DeadForever` what follows).
- Hardening reads names as schemas: a property table is taken for a schema when it has a property called
  "properties". Its meaning is lost if and only if, besides, the name `additionalProperties` was open in it
  (`SchemaMeaning.TableMeaningKeptIff`). Literals under `const` keep their meaning if and only if they hold
  nothing hardening would close (`SchemaMeaning.LiteralMeaningKeptIff`).
- An arc edit saved while the request that carries its key is in flight is dropped unsent when that request
  is accepted (`ArcCorrections.LateEditIsLost`). The panel reports a correction as not saved when nothing is
  left to save if and only if every request was accepted and the closing reload throws
  (`ArcCorrections.NoticeIsWrongIff`).
- The unguarded parent write of `scripts/brain-tasks.ts` closes a cycle if and only if the task was reachable
  from the parent (`TaskForest.UnguardedWriteKeepsForestIff`). Two dashboard edits interleaved between reading
  the edges and writing close one if and only if each task was already reachable from the parent the other one
  gets (`TaskForest.InterleavedEditsKeepForestIff`). More than two may close one although no two of them do:
  three tasks without parents, each put under the next (`ManyEdits.ThreeEditsCloseACycle`). However many are
  written, they keep a forest if and only if no edited task is led back to itself, from each new parent up to
  the first edited task (`ManyEdits.EditsKeepForestIff`).
- The tasks page loads every project of a team (`lib/access/structured-windows.ts:23-36`), while a row key names
  one task per project only (`postgres/schema.sql:1275`). A child is on screen once for each root that carries
  its parent key (`TaskHierarchy.ShownTimes`), so the list is shown whole if and only if each child has
  exactly one (`TaskHierarchy.ScreenIsTheListIff`): the child of a root whose key another project uses too is
  shown twice (`TaskHierarchy.ChildOfTwoProjects`), and two tasks whose parent keys name each other across
  projects are both hidden (`TaskHierarchy.CrossedKeysAreHidden`), against the comment at
  `components/kanban/task-hierarchy.tsx:72-73`.
- A reattached bubble is to show the partial answer until the run is no longer streaming
  (`docs/design/query-background-stream.md:78-79`). Once a partial answer has been shown the bubble counts as
  answered (`components/query-chat.tsx:230-235`), and the end of the run is written to it only if it is a failure: a bubble
  opened without an answer is left streaming if and only if some poll brought text and the run was not seen to fail,
  also when it is seen to complete (`Resume.OpenedIsLeftStreamingIff`, `Resume.CompletedRunLeftStreaming`).
- The cycle guard of `updateTaskAction` ignores the error of its edge query (`app/actions/tasks.ts:195-202`; a
  failed query answers null data, `lib/db/pg/query-builder.ts:261-265`) and then walks over no edges. An edit
  accepted that way keeps a forest if and only if its parent does not lead back to the task
  (`TaskForest.UnreadEditKeepsForestIff`); a task can be put under its own child
  (`TaskForest.UnreadEdgesCloseALoop`). No other action ever breaks a forest (`TaskForest.StepKeepsForestIff`).
- Of a frontmatter file whose lines end in a carriage return and a newline only the empty fields are read: the
  pattern's `.` and `$` stop at the carriage return (`Frontmatter.ReturnDropsField`,
  `Frontmatter.ReturnsKeepEmptyFields`).
- `oversizedGroups` counts notes only because the keys of a note are distinct: a group has as many entries as notes
  if and only if no note repeats its key (`MeetingPairs.GroupIsItsNotesIff`). `lib/meetings/event-identity.ts:157`
  collects them in a set, so the count is right for the notes the program makes
  (`MeetingPairs.OversizedCountsNotes`).

## Model

| member | source | states |
|---|---|---|
| EventStream.CutIsTheCutting | components/query-chat.tsx:342-344 | taking frames off at each first blank line yields the one division of a text that rebuilds it, ends every frame at its first separator and leaves none in the tail |
| EventStream.CutAppend | components/query-chat.tsx:340-344 | chunk invariance: a text read in two parts with the tail kept gives the frames and tail of one pass, wherever the cut falls, also inside a separator |
| EventStream.DispatchedAreClean | components/query-chat.tsx:345-351 | whatever text arrives, every dispatched frame has a trimmed one-line event name and non-empty one-line data |
| EventStream.FrameSays | components/query-chat.tsx:345-351 | a frame of any lines is named by its last event line, "message" without one, and its data is that of all its data lines put together |
| EventStream.ReadRawFrame | lib/api/sse.ts:11 | a clean printed frame is read back as that frame |
| EventStream.RawFramesCut | lib/api/sse.ts:10-12 | the concatenation of printed clean frames divides into exactly those frames with an empty tail |
| EventStream.StreamRoundTrip | lib/api/sse.ts:10-12 | printing a list of frames and reading the text gives the list back with nothing left over if and only if every name is a trimmed line and every payload a non-empty line |
| QueryChat.QueryChat.Ask | components/query-chat.tsx:269-362 | a blank or concurrent question changes nothing; otherwise exactly one bubble is added and no other changes: a refused or unreachable response leaves it empty and failed with its message, a broken stream failed with the deltas that came, a closed one not streaming |
| QueryChat.QueryChat.Receive | components/query-chat.tsx:296-359 | a refused or unreachable response marks the bubble failed with its message; a stream that ends cleanly marks a still streaming bubble done; one that breaks marks it failed |
| QueryChat.QueryChat.ReadStream | components/query-chat.tsx:311-353 | the chunked read loop leaves the bubble and thread id that one pass over the concatenated text would |
| QueryChat.QueryChat.DrainBuffer | components/query-chat.tsx:342-352 | draining the buffer handles its complete frames in order and leaves the separator-free tail |
| QueryChat.QueryChat.HandleFrame | components/query-chat.tsx:313-335 | one frame changes only its own bubble, the gathered text and the thread id, as the fold `Handle` does; what the fold shows is QueryChatTheorems.ReplaySays |
| QueryChat.ReadRawText | components/query-chat.tsx:345-350 | the line loop reads event and data as the fold over the frame's lines does |
| QueryChatTheorems.ReplaySays | components/query-chat.tsx:316-331 | after any list of server events the bubble holds the concatenated deltas, the last sources, the last thread id and the last verdict |
| QueryChatTheorems.AskShowsWhatWasSent | components/query-chat.tsx:308-356 | end to end: events printed by the server and cut anywhere by the network are shown as sent, and the bubble is done when the server gave no verdict |
| QueryChatTheorems.NoiseIsSkipped | components/query-chat.tsx:332-334 | frames that are not JSON, are null where a field is read, or name an unknown event leave no trace wherever they stand |
| QueryChatTheorems.NeverLeftStreaming | components/query-chat.tsx:354-358 | however a turn ends, its bubble does not stay streaming |
| QueryChatTheorems.BrokenShowsWhatCame | components/query-chat.tsx:308-359 | a stream that breaks off anywhere: the bubble keeps what the events that came whole said and shows the failure with its message, whatever verdict came before |
| QueryChat.AnswerIsAllText | components/query-chat.tsx:308-324 | whatever frames arrive, the answer is the concatenation of the texts of the deltas among them |
| QueryChatTheorems.UnfinishedFrameIsDropped | components/query-chat.tsx:337-353 | text after the last separator of a closed stream changes nothing |
| PollRun.Poll | components/query-chat.tsx:80-113 | against any server: at most `maxPolls` requests, the watched ids are nulls followed by one id, partials are that run's in order, and a result is given exactly when that run settles inside the budget: failed if and only if its status is "error", with its error, and with an answer if and only if it is done and names a message |
| PollRun.StreakIsDetermined | components/query-chat.tsx:80-98 | how many polls a watch gets through is determined by the server and the abort signal |
| PollRun.UuidGroups | components/query-chat.tsx:62-67 | the ids let through are those of five groups of 8, 4, 4, 4 and 12 hexadecimal digits with dashes between |
| Reattach.MessagesToExchanges | components/query-chat.tsx:38-45 | one bubble per user message in order, answered by the last assistant message before the next user message |
| Reattach.AnswerIsLast | components/query-chat.tsx:42 | the text a bubble gets is that of the last assistant message before the next user message |
| Reattach.PollTouchesOnlyItsTarget | components/query-chat.tsx:203-214 | in any interleaving of poll patches with a new question's updates, every bubble but the poll's own ends as without the poll |
| Reattach.OwnBubbleFollowsPoll | components/query-chat.tsx:203-214 | in any such interleaving the poll's own bubble ends as its patches alone make it |
| Resume.OpenThread | components/query-chat.tsx:189-251 | opening a thread: what the poll's partials, its result, the signal and the closing request make of the bubbles, against any server |
| Resume.LeftStreamingIff | components/query-chat.tsx:203-249 | the bubble is left streaming if and only if it was open to the poll, said so before or since a partial answer, and neither a failure nor the stored thread came in its place |
| Resume.OpenedIsLeftStreamingIff | docs/design/query-background-stream.md:78-79 | a stored bubble is left streaming if and only if it had no answer, some poll brought text and the run was not seen to fail; so the design's "until" does not hold |
| Resume.CompletedRunLeftStreaming | components/query-chat.tsx:230-235 | for instance when the first poll brings text and the second that the run is done and its answer stored |
| Resume.FailedRunIsShown | components/query-chat.tsx:222-225 | a run seen to fail is shown as failed, with its message and the last partial answer, on a bubble that was open to the poll |
| Resume.StoredAnswerIsFetched | components/query-chat.tsx:234-245 | where nothing was shown yet, a run that is done with a stored answer brings the stored thread |
| Resume.NothingElseIsWritten | components/query-chat.tsx:208-249 | in every other case the bubbles are as the partial answers left them |
| Reattach.SettledStays | components/query-chat.tsx:212 | a bubble that is answered and not streaming is out of the poll's reach for good |
| IngestQueue.StepKeepsInv | graphiti/verify-single-worker.py:4-8 | conservation at every step and for any number of workers: each accepted ticket is resolved, in flight or queued exactly once, and what is queued is the unbroken end of the accept log |
| IngestQueue.StepKeepsOrder | graphiti/verify-single-worker.py:5-7 | with one worker the accept log is resolved, then in flight, then queued, in order, after every step |
| IngestQueue.RunKeepsInv | graphiti/patch-resilient-worker.py:32-44 | both invariants hold in every reachable state |
| IngestQueue.LandedOrGone | graphiti/verify-single-worker.py:4-7 | with one worker, an episode accepted before one that has landed is resolved, neither queued nor in flight |
| IngestQueue.AllowedMeansNotLive | graphiti/verify-single-worker.py:6-7 | when the re-push rule allows an episode, no entry of it is queued or in flight |
| IngestQueue.GuardedRunsKeepOneLive | graphiti/verify-single-worker.py:4-9 | in every run that re-pushes only by the rule, each episode has at most one queued or in-flight entry |
| IngestQueue.RePushSafeIffSingleWorker | graphiti/verify-single-worker.py:7-9 | the rule never duplicates queued work if and only if there is at most one worker |
| IngestQueue.TwoWorkersDuplicate | graphiti/verify-single-worker.py:57-63 | with two workers a run that follows the rule reaches a state with two live entries of one episode |
| IngestQueue.ProgressInOrder | graphiti/patch-resilient-worker.py:32-44 | n ended jobs resolve the first n accepted entries whatever the jobs raised, and only events that stop a loop cost a worker |
| IngestQueue.PatchedSurvives | graphiti/patch-resilient-worker.py:36-44 | the patched loop loses no worker in any run without cancellation and without an exception outside `Exception` |
| IngestQueue.FinishLosesWorkerIff | graphiti/patch-resilient-worker.py:24-44 | at the end of a job the patched loop is lost exactly by cancellation or an exception outside `Exception`, the original one exactly by anything raised |
| IngestQueue.NoDeadlock | graphiti/patch-resilient-worker.py:32-36 | while a loop is alive and work is pending, a take or a finish is possible |
| IngestQueue.DeadForever | graphiti/patch-resilient-worker.py:3-7 | with no loop left every step is an accept, the queue grows by one at each, and nothing is resolved or lands again |
| IngestQueue.OriginalDiesOnFirstException | graphiti/patch-resilient-worker.py:24-30 | in the original loop with one worker the first job that raises is the last one ever resolved |
| AsyncWorker.AsyncWorker.Put | graphiti/verify-single-worker.py:65-78 | accepting a request queues one job per message in order, never blocks, and is a run of the step system |
| AsyncWorker.AsyncWorker.TakeTurn | graphiti/patch-resilient-worker.py:32-44 | one turn of the loop hands out the oldest job and leaves exactly the state the job's ending calls for; it is a run of the step system |
| AsyncWorker.AsyncWorker.Work | graphiti/patch-resilient-worker.py:24-44 | the whole loop computes the state its turns call for, keeps the queue invariants and resolves tickets in accept order |
| AsyncWorker.PatchedStaysAlive | graphiti/patch-resilient-worker.py:39-44 | under turns whose jobs return or raise an `Exception` the patched loop is still running at the end |
| AsyncWorker.ServedTurn | graphiti/patch-resilient-worker.py:34-44 | a turn that hands out a job resolves the oldest queued one, lands it if it lands, and leaves the loop running exactly when it returned or raised an `Exception` the loop catches |
| AsyncWorker.IdleTurn | graphiti/patch-resilient-worker.py:34-37 | a turn that hands out none only lets the queue grow, and ends the loop exactly when it was cancelled while it waited |
| AsyncWorker.UncaughtIsTheEnd | graphiti/patch-resilient-worker.py:36-37 | after a job that is cancelled or raises what the loop does not catch, no later turn resolves or lands anything and the queue stays |
| AsyncWorker.WaitCancelledIsTheEnd | graphiti/patch-resilient-worker.py:36-37 | the same after a cancellation of the waiting loop |
| LandedWatermark.Watermark | lib/graph/reconcile.ts:582-596 | the collection loop finds the newest stamp among the anchoring rows, counts them, and finds none when the skew is unknown |
| LandedWatermark.LostMeansGone | lib/graph/reconcile.ts:143-149 | when no anchor's creation stamp is later than its pushes by more than a lag, a row judged lost with a margin of at least slack plus lag may be pushed again by the rule, and no push of it is queued or in flight |
| LandedWatermark.SafeIffMarginCoversSlackAndLag | lib/graph/reconcile.ts:143-151 | over every pass whose anchors lag at most so much, the verdict is safe if and only if the margin is at least the slack plus the lag |
| LandedWatermark.SafeIffMarginCoversSlack | lib/graph/reconcile.ts:156-159 | for rows created before their first push the verdict is safe in every pass if and only if the margin is at least the slack |
| LandedWatermark.ShippedMarginStandsLag | lib/graph/reconcile.ts:129-156 | with the shipped constants the verdict is safe if and only if creation stamps lag at most 540000 ms |
| LandedWatermark.BackfilledRowMisjudges | lib/graph/reconcile.ts:150-151 | with the shipped constants, for every larger lag there is a pass within it that judges a waiting row lost |
| ParentGraph.WalkFinds | app/actions/tasks.ts:204-210 | the walk of at most size + 1 steps answers exactly whether the task's own key is reachable from the proposed parent, for any finite map with dangling parents or cycles |
| ParentGraph.ReachedEarly | app/actions/tasks.ts:195-197 | pigeonhole: what is reachable is reachable within as many steps as there are edges |
| ParentGraph.NewEdgeOnCycleIffReached | app/actions/tasks.ts:195-208 | a new parent edge puts the task on a cycle if and only if the task was reachable from that parent |
| ParentGraph.NewEdgeAddsNoOtherCycle | app/actions/tasks.ts:179-181 | an accepted edge puts no key on a cycle that was not on one before |
| TaskActions.TaskStore.Move | app/actions/tasks.ts:52-83 | which refusal is given and in which order, also where the task cannot be read; a write that takes effect changes exactly the status and clears the raw status, whatever is reported |
| TaskActions.TaskStore.Create | app/actions/tasks.ts:85-134 | the verdict over both key attempts, each of which may clash, work, or fail before or after taking effect; at most one row appears, under a key that was free |
| TaskActions.TaskStore.Update | app/actions/tasks.ts:152-219 | the verdict for every pattern of queries that fail, with the parent checked by reachability where the edges were read; which refusal is given when; a write that takes effect gives each given field its value (an empty date none, the priority normalised, the parent trimmed) and keeps the others; a refused edit changes nothing |
| TaskActions.TaskStore.CheckParent | app/actions/tasks.ts:183-212 | the imperative checks and walk give the verdict stated through reachability; without the edges, nothing but the task itself and a missing parent is refused |
| TaskActions.TaskStore.ReadEdges | app/actions/tasks.ts:195-203 | the edge map read row by row in any order is the project's edge map, and a failed query gives no edges |
| TaskForest.Perform | app/actions/tasks.ts:52-219 | the store's methods take exactly the steps the run theorems are about |
| TaskForest.EdgesAfterWrite | app/actions/tasks.ts:215 | one row written over itself or inserted under a free key changes one edge of its own project and no other |
| TaskForest.StepKeepsUnique | postgres/schema.sql:1275 | every action keeps row keys unique per project |
| TaskForest.StepAddsNoCycle | app/actions/tasks.ts:179-213 | but for an edit let pass whose parent leads back, no action puts a key on a cycle that was not on one before, whatever cycles and dangling parents the data holds |
| TaskForest.ReadEdgesCloseNoLoop | app/actions/tasks.ts:195-210 | where the edges were read the guard lets no such edit pass |
| TaskForest.StepKeepsForestIff | app/actions/tasks.ts:179-213 | any action keeps a forest a forest if and only if it is not such an edit |
| TaskForest.RunsStayForestIff | app/actions/tasks.ts:179-213 | from a forest, every state of a run is one if and only if no action of the run is such an edit |
| TaskForest.RunsKeepForest | app/actions/tasks.ts:179-181 | every sequence of atomic create, move and update actions keeps row keys unique, and a forest a forest where the edges of its edits were read |
| TaskForest.UnreadEditKeepsForestIff | app/actions/tasks.ts:195-215 | in a forest, an edit accepted with its edges unread keeps it one if and only if its parent does not lead back to the task |
| TaskForest.UnreadEdgesCloseALoop | app/actions/tasks.ts:195-215 | in any forest with a task below another, putting the upper under the lower with the edges unread is accepted and closes a cycle |
| TaskForest.UnguardedWriteKeepsForestIff | scripts/brain-tasks.ts:161 | in a forest the unguarded parent write is harmless if and only if the task was not reachable from the parent |
| ParentGraph.TwoNewEdgesAcyclicIff | app/actions/tasks.ts:195-210 | two new parent edges, each accepted against one acyclic graph, keep it acyclic if and only if not each task was reachable from the other one's new parent |
| TaskForest.InterleavedEditsKeepForestIff | app/actions/tasks.ts:179-215 | any two edits of different tasks, accepted against the edges of one forest and both written, keep a forest if and only if they do not put each task below the other |
| NewEdges.NewEdgesAcyclicIff | app/actions/tasks.ts:195-210 | any number of parent edges put into an acyclic graph keep it acyclic if and only if going from each task's new parent up the old graph to the next task with a new edge never comes round |
| ManyEdits.EditsKeepForestIff | app/actions/tasks.ts:198-215 | any list of edits written one after the other onto a forest, whatever each was checked against, keeps it one if and only if no edited task is led back to itself that way |
| ManyEdits.ThreeEditsCloseACycle | app/actions/tasks.ts:198-215 | in any forest, of three parentless tasks each is let under the next, no two of these edits meet, and together they close a cycle |
| TaskForest.InterleavedEditsCloseACycle | app/actions/tasks.ts:198-215 | in any forest, of two parentless tasks of one project the edits that put each under the other are both accepted and together close a cycle |
| TaskHierarchy.Bucket | components/kanban/task-hierarchy.tsx:69-85 | the loops compute the buckets and roots, each in input order, with a bucket exactly for each loaded parent that has children |
| TaskHierarchy.BucketsHold | components/kanban/task-hierarchy.tsx:72-85 | a task is a root if its parent key is absent, empty or no loaded task's, and otherwise in that key's bucket; nothing else is in a bucket |
| TaskHierarchy.BucketsPartition | components/kanban/task-hierarchy.tsx:72-85 | every task is in the root list or in the bucket of its parent, with its own multiplicity, and nowhere else |
| TaskHierarchy.RenderedCount | components/kanban/task-hierarchy.tsx:99-113 | for any roots and any list: a task is on screen for each time it is a root and once more per copy for each root that carries its parent key |
| TaskHierarchy.ShownTimes | components/kanban/task-hierarchy.tsx:69-113 | in any list a root is on screen as often as it is loaded, and a child that often for each root that carries its parent key |
| TaskHierarchy.ScreenIsTheListIff | components/kanban/task-hierarchy.tsx:72-73 | for any list: the screen shows exactly the loaded tasks if and only if every child has exactly one root carrying its parent key |
| TaskHierarchy.DistinctShownTimes | components/kanban/task-hierarchy.tsx:99-113 | of pairwise different tasks each child is on screen once per such root, and to show the list is to show each task exactly once |
| TaskHierarchy.ShownOnceOrNever | components/kanban/task-hierarchy.tsx:99-113 | where no two loaded tasks share a key, a task is shown once if it is a root or its loaded parent is, and otherwise not at all |
| TaskHierarchy.AllShownIffTwoLevels | components/kanban/task-hierarchy.tsx:72-113 | where no two loaded tasks share a key, every loaded task is rendered exactly once if and only if no task's loaded parent is itself a child |
| TaskHierarchy.ChildOfTwoProjects | lib/access/structured-windows.ts:23-36 | with roots of one key in two projects a child of that key is on screen twice, though keys are unique per project and no loaded parent is a child |
| TaskHierarchy.CrossedKeysAreHidden | components/kanban/task-hierarchy.tsx:72-73 | two tasks of two projects whose parent keys name each other are both hidden |
| SchemaHardening.HardenIsOnlyClosed | graphiti/patch-strict-schema.py:36-53 | the hardened tree is the one tree that differs from the original only in free `additionalProperties` slots of object nodes, all of them closed |
| SchemaHardening.HardenIsComplete | graphiti/patch-strict-schema.py:14-15 | afterwards every object node is closed or carries a sub-schema |
| SchemaHardening.HardenFixesComplete | graphiti/patch-strict-schema.py:37-47 | hardening changes nothing exactly on trees that are already complete |
| SchemaHardening.HardenIsIdempotent | graphiti/patch-strict-schema.py:34-53 | a second run changes nothing |
| SchemaNodes.EveryDict | graphiti/patch-strict-schema.py:44-52 | at every place of the tree: a dict with type "object" or with properties, whose slot holds no dict, gains exactly `additionalProperties: false`; any other dict keeps its keys and its slot is only hardened inside; all other values are hardened in place |
| SchemaNodes.DictStays | graphiti/patch-strict-schema.py:37-52 | every dict of the schema is still in its place in hardened form, if no list stands in a slot above it |
| SchemaNodes.ObjectDictRefusesOtherKeys | graphiti/patch-strict-schema.py:14-17 | an object valid under such a dict after hardening has only keys of its hardened property table, anywhere in the tree |
| SchemaInPlace.HardenInPlace | graphiti/patch-strict-schema.py:34-53 | the recursion that writes into the dicts turns the tree they spell into its hardened form, touching only its own dicts |
| SchemaInPlace.CloseFreeSlot | graphiti/patch-strict-schema.py:44-47 | the one write of the helper happens exactly on a free slot and sets it to false |
| SchemaMeaning.HardenedImpliesClosed | graphiti/patch-strict-schema.py:14-17 | whatever the hardened schema accepts at some depth, the closed reading of the original accepts at that depth, when literals hold nothing hardening would close; no condition on names |
| SchemaMeaning.ClosedImpliesHardened | graphiti/patch-strict-schema.py:37-47 | the converse, when moreover every property table keeps its meaning: it is not taken for a schema, or the name then closed was refused before |
| SchemaMeaning.HardenedMeansClosed | graphiti/patch-strict-schema.py:14-17 | under those two conditions the hardened schema and the closed reading of the original, which also refuses undeclared keys at every free slot, accept the same values |
| SchemaMeaning.TableMeaningKeptIff | graphiti/patch-strict-schema.py:44-47 | a schema that is one property table, with or without a schema for other keys, keeps its closed reading if and only if the table is not taken for a schema or the name it would close was not open |
| SchemaMeaning.PlainTableMeaningKeptIff | graphiti/patch-strict-schema.py:44-47 | without a schema for other keys: if and only if the table is not taken for a schema with `additionalProperties` declared open |
| SchemaMeaning.DeclaredImpliesClosed | graphiti/patch-strict-schema.py:14-17 | whatever a schema accepts at some depth, its closed reading accepts if at every object node with a free slot the value's keys are declared |
| SchemaMeaning.AgreeOnDeclared | graphiti/patch-strict-schema.py:14-17 | under the conditions of `HardenedMeansClosed` the hardened schema and the original accept the same values among those whose keys are all declared |
| SchemaMeaning.HardeningNarrows | graphiti/patch-strict-schema.py:37-43 | whatever the hardened schema accepts, the original accepts, when literals hold nothing hardening would close |
| SchemaMeaning.LiteralMeaningKeptIff | graphiti/patch-strict-schema.py:48-52 | a schema that is one literal keeps its meaning if and only if the literal holds nothing hardening would close |
| SchemaMeaning.PropertyNamedPropertiesIsLost | graphiti/patch-strict-schema.py:44 | for instance open properties "properties" and "additionalProperties" together lose the second, while "properties" alone is harmless |
| ProjectCreation.StepKeepsInv | app/actions/projects.ts:37-87 | any database call of any request, failing or not, keeps: one row per slug, grants only to the request's own inserts, every request's stage true of the database |
| ProjectCreation.RunsKeepInv | app/actions/projects.ts:37-87 | so does every run, under any interleaving, with requests stopping anywhere |
| ProjectCreation.CreatedMeansComplete | app/actions/projects.ts:80-87 | from a state before any request, a request told it created the project has a new row under its own team and slug, its member's grant and the row's pointer all in place |
| ProjectCreation.OneWinnerPerSlug | app/actions/projects.ts:13-19 | in every reachable state, of all requests for one slug of a team at most one is told it created it |
| ProjectCreation.GrantsOnlyAfterOwnInsert | app/actions/projects.ts:74-80 | every new grant is made by a request past its own insert of that row, to its own member |
| ProjectCreation.DuplicateArmGrantsNothing | app/actions/projects.ts:60-68 | a request that has clashed adds no row and no grant in any continuation |
| ProjectCreation.StrandedStaysStranded | app/actions/projects.ts:66-68 | a row that no request is about to grant gains no grant from this action in any run |
| ProjectCreation.ClashHealsPointer | app/actions/projects.ts:44-59 | a clash whose heal works leaves the existing row with its pointer, and grants and rows as they were |
| CreateProjectAction.Database.CreateProject | app/actions/projects.ts:20-88 | for every pattern of failing calls: the reply, and every row, grant and pointer left behind; the writes are a run of the interleaved system |
| CreateProjectAction.ReplySays | app/actions/projects.ts:24-88 | each reply is given exactly when: which call failed and how, whether the slug was taken, whether the name or the membership was missing |
| CreateProjectAction.MadeLeaves | app/actions/projects.ts:80-88 | a request told it created the project has left exactly its row, the grant to its member and the pointer |
| CreateProjectAction.ClashLeaves | app/actions/projects.ts:43-70 | one told that the name is in use has left no row and no grant |
| CreateProjectAction.Database.GrantAndPoint | app/actions/projects.ts:80-104 | the grant comes first, a failed grant stops before the pointer, and nothing else changes |
| CreateProjectAction.Database.HealDuplicate | app/actions/projects.ts:43-70 | the duplicate arm sets at most the existing row's pointer and reports an unhealed one |
| ArcCorrections.KeyRoundTrip | components/learning/arcs-panel.tsx:83-95 | a composite key is taken apart into the partition and id it was made of if and only if the partition's name is not empty and holds no bar |
| ArcCorrections.GroupByPartition | components/learning/arcs-panel.tsx:113-118 | one batch per partition that has corrections, with all of them in order |
| ArcCorrections.ArcsPanel.SaveEdit | components/learning/arcs-panel.tsx:85-89 | a blank draft changes nothing; any other is stored trimmed under its key |
| ArcCorrections.ArcsPanel.Recompute | components/learning/arcs-panel.tsx:91-165 | which requests are planned, how many are sent, what is left of the edits and what is reported, for every pattern of replies and of edits made meanwhile; without pending edits nothing changes; without edits meanwhile, exactly when the notice is wrong |
| ArcCorrections.ArcsPanel.SendPosts | components/learning/arcs-panel.tsx:119-140 | only an accepted request drops the keys of its batch; a thrown error ends the loop |
| ArcCorrections.PostsPartition | components/learning/arcs-panel.tsx:112-118 | every request holds a single partition and the requests hold every pending correction exactly once |
| ArcCorrections.AfterPostsHas | components/learning/arcs-panel.tsx:130-139 | a key is gone after n requests if and only if nothing put it there or an accepted request dropped it after its last save; otherwise it holds its latest text |
| ArcCorrections.UnsavedEditsStay | components/learning/arcs-panel.tsx:130-139 | an edit not made again meanwhile is kept, with its text, if and only if the request of its partition was not accepted |
| ArcCorrections.LateEditIsLost | components/learning/arcs-panel.tsx:134-138 | an edit saved no later than the accepted request that carries its key, and not again, is lost |
| ArcCorrections.AllAcceptedLeavesNothing | components/learning/arcs-panel.tsx:130-139 | when every request was accepted and nothing was edited meanwhile, no edit is left |
| ArcCorrections.NoticeIsWrongIff | components/learning/arcs-panel.tsx:141-162 | without edits meanwhile, nothing is left to save and yet a failure is reported if and only if every request was accepted and the closing reload throws |
| MeetingPairs.PairIdNamesPair | scripts/meeting-pairing-report.ts:191 | for ids without bars a pair id names exactly one unordered pair |
| MeetingPairs.GroupByKey | scripts/meeting-pairing-report.ts:181-182 | the groups hold, per key and in order, a note once for each time it carries the key |
| MeetingPairs.TallyOne | scripts/meeting-pairing-report.ts:190-198 | the loop body adds one pair as `TallyPair` does; what that means is MeetingPairs.TallyPairCounts |
| MeetingPairs.TallyPairCounts | scripts/meeting-pairing-report.ts:189-206 | looking at one more pair keeps counters, sets and rows equal to the cardinalities over the pairs looked at |
| MeetingPairs.TallyGroup | scripts/meeting-pairing-report.ts:58-62 | a group's loops keep the tally exact and count every two of its members |
| MeetingPairs.SummarisePairs | scripts/meeting-pairing-report.ts:180-209 | cross plus same is the number of distinct pairs sharing a key, cross those of different sources, missed those of different dates, oversized the keys with more than two entries, with one row per pair |
| MeetingPairs.PairIsCounted | scripts/meeting-pairing-report.ts:189-199 | a pair is counted, counted as cross, counted as missed exactly when two notes of those ids share a key, differ in source, and also in date |
| MeetingPairs.GroupIsItsNotesIff | scripts/meeting-pairing-report.ts:163-169 | a group has as many entries as notes carry its key if and only if no note carries the key twice |
| MeetingPairs.OversizedCountsNotes | lib/meetings/event-identity.ts:157-198 | for notes with distinct keys the oversized keys are those that more than two notes carry |
| MeetingPairs.CountsIgnoreOrder | scripts/meeting-pairing-report.ts:173-179 | reordering notes or keys and repeating keys changes none of the counted sets of pairs |
| ExpressionScan.ScanArgument | graphiti/verify-small-model-default.py:41-54 | the scan stops at the first comma or closing bracket outside all brackets, or at the end of the file, and keeps the text up to there |
| ExpressionScan.BracketsAre | graphiti/verify-small-model-default.py:43-45 | the brackets counted are exactly the three pairs |
| ExpressionScan.Extract | graphiti/verify-small-model-default.py:27-57 | any number of anchors but one is refused with that number; otherwise the stripped argument, or the empty case |
| ExpressionScan.StopsBehindIff | graphiti/verify-small-model-default.py:42-53 | the scan stops right behind a text if and only if the text is a whole argument and an end follows |
| ExpressionScan.ExtractReturnsArgument | graphiti/verify-small-model-default.py:27-57 | around one anchor a whole argument followed by an end is returned exactly |
| ExpressionScan.EnclosedIffRun | graphiti/verify-small-model-default.py:41-51 | being a whole argument is the same as a left-to-right bracket count that never stops and ends at zero |
| SmallModel.OrLoop | graphiti/verify-small-model-default.py:148-154 | the loop computes the value of the `or` expression |
| SmallModel.OrPicks | graphiti/verify-small-model-default.py:148-154 | that value is the first operand that is truthy or raises, or else the last one, whatever stands behind it |
| SmallModel.ComparisonSays | graphiti/verify-small-model-default.py:84-94 | equality of values, occurrence of a text in a text, membership of a tuple, and a type error for anything else |
| SmallModel.ShippedDecides | graphiti/Dockerfile:128-129 | the shipped expression makes the three-way decision in every environment and raises exactly when no real model is given and the base URL cannot be split |
| SmallModel.SentinelOnlyBehindProxy | graphiti/verify-small-model-default.py:3-8 | the sentinel is sent if and only if no real model is given and the base URL has the proxy's path |
| SmallModel.PrintIsNeutral | graphiti/verify-small-model-default.py:157-175 | every printed expression whose constants hold no comma or bracket is passed by the scan back at depth zero |
| SmallModel.PrintedIsExtracted | graphiti/verify-small-model-default.py:27-57 | such an expression printed behind the one anchor is extracted whole and unchanged |
| BrandForm.ToValues | components/admin/brand-manager.tsx:71-83 | the form holds exactly the list and text fields of the profile, each under its own composite key |
| BrandForm.ToProfile | components/admin/brand-manager.tsx:86-103 | the profile holds exactly the fields whose text is not blank, and no empty section |
| BrandForm.KeyIsInjective | components/admin/brand-manager.tsx:78 | two places share a composite key only if they are the same, for section names without dots |
| BrandForm.FieldRoundTrip | components/admin/brand-manager.tsx:91-98 | a field survives flattening and assembling if and only if it is in the form's normal shape |
| BrandForm.CleanLinesSay | components/admin/brand-manager.tsx:94 | each line of a list field that is not blank is kept, trimmed, in its place |
| BrandForm.LeftOutIffBlank | components/admin/brand-manager.tsx:91-95 | a field is left out exactly when nothing but white space is typed in it |
| BrandForm.AssembledIsNormal | components/admin/brand-manager.tsx:85-103 | whatever is typed, the saved profile is in the normal shape |
| BrandForm.FormRoundTrip | components/admin/brand-manager.tsx:70-103 | opening a profile and saving it unedited gives it back if and only if it is normal |
| BrandForm.SaveOpenSave | components/admin/brand-manager.tsx:70-103 | what the form has saved once it saves again unchanged |
| BrandForm.SectionsAreDotFree | components/admin/brand-manager.tsx:19-66 | the shipped section table meets the condition the composite keys need |
| Frontmatter.ParseFrontmatter | scripts/seed-demo.ts:29-41 | without an opened and closed fence no fields and the content as body; otherwise the fields of the lines between, later ones winning, and the text behind the closing line |
| Frontmatter.ValueRoundTrip | scripts/seed-demo.ts:37-38 | a value is read back as written if and only if it is trimmed, one line and unquoted at both ends |
| Frontmatter.QuotedIsRead | scripts/seed-demo.ts:38 | a clean value in quotes of either kind is read without them |
| Frontmatter.FieldIff | scripts/seed-demo.ts:37 | a line gives a field exactly when a word of letters, digits and underscores and a colon stand in front and no line end follows, under that word |
| Frontmatter.ClosingFound | scripts/seed-demo.ts:31 | the closing fence found is the printed one, whatever follows it |
| Frontmatter.FrontmatterRoundTrip | scripts/seed-demo.ts:29-41 | printed word-named clean fields and any body, also one with fences in it, come back as they were |
| Frontmatter.SectionsOf | scripts/seed-demo.ts:29-41 | whatever follows the closing fence, on its line or after, the fields come back as printed and the body is the text behind the first newline, or the whole content where there is none |
| Frontmatter.BodyIsWholeIff | scripts/seed-demo.ts:34 | the whole content becomes the body if and only if no newline follows the closing fence |
| Frontmatter.ReturnDropsField | scripts/seed-demo.ts:37-38 | a printed field with a carriage return behind it is read if and only if its value is empty |
| Frontmatter.ReturnsKeepEmptyFields | scripts/seed-demo.ts:36-39 | of lines that all end in a carriage return exactly the empty fields are read |
| SeedTables.TableRoundTrip | scripts/seed-demo.ts:43-50 | a printed document of trimmed cells without bars gives back its rows of cells, whatever prose and separator lines stand between them |
| SeedTables.RowKeptIff | scripts/seed-demo.ts:49 | a printed row is kept exactly when some cell holds more than dashes, colons and blanks |
| SeedTables.ColumnIsRead | scripts/seed-demo.ts:55-64 | the cell found by name is the cell of that column wherever the column stands, and empty where it is missing |
| SeedTables.TaskReadIff | scripts/seed-demo.ts:58-65 | a row gives a task exactly when its cell under "id" is not empty |
| SeedTables.TaskTableRoundTrip | scripts/seed-demo.ts:52-66 | a printed task table comes back as its tasks under any order and capitals of its columns, with columns other than the id left out at will and columns of other names among them |
| SeedDecisions.TierRoundTrip | scripts/seed-demo.ts:88 | a printed tier is read back if and only if it is not zero |
| SeedDecisions.TierWithMore | scripts/seed-demo.ts:88 | text behind the digits of a tier is not looked at, with or without a sign |
| SeedDecisions.PrefixesDiffer | scripts/seed-demo.ts:72 | no column name starts with two of the prefixes looked for |
| SeedDecisions.ColumnIsRead | scripts/seed-demo.ts:72-90 | the cell found by prefix is the cell of that column under any order |
| SeedDecisions.DecisionReadIff | scripts/seed-demo.ts:82-92 | a row gives a decision exactly when its number, or its first cell where it has none, is not empty |
| SeedDecisions.DecisionTableRoundTrip | scripts/seed-demo.ts:68-93 | a printed decision table, with no tier 0, comes back as its decisions under any order of its columns, any text behind their prefixes and columns of other names among them, also without a number column where the first cell is the key |
| Slug.SlugIsWords | lib/ids.ts:24-31 | a slug is the runs of letters and digits of the lowered name joined by single dashes, cut at 64 characters |
| Slug.SlugifyShape | lib/ids.ts:24-31 | every slug has at most 64 characters of the alphabet with no leading and no doubled dash, and a trailing dash only at the cut |
| Slug.SlugAlphabet | lib/ids.ts:24-31 | at most 64 characters, each a letter a-z, a digit or a single dash, none of these in front |
| Slug.NoSlugIff | lib/ids.ts:24-31 | a name has no slug exactly when nothing in it, lowered, is a letter a-z or a digit |
| Slug.LowerShows | lib/ids.ts:27 | what each character, lowered, shows in a slug: a letter or digit, or nothing |
| Slug.WordsKeepLetters | lib/ids.ts:28 | the words of a text hold each of its letters a-z and digits once, in order, and nothing else |
| Slug.SlugifyFixes | lib/ids.ts:24-31 | the names that are their own slug are exactly the finished slugs |
| Slug.SlugifySettles | lib/ids.ts:29-30 | one application settles a name if and only if the result does not end in a dash; two always do |
| Slug.NeedsTwoIff | lib/ids.ts:29-30 | every name needs a second application if and only if its joined words are longer than 64 characters with a dash as the 64th |
| Slug.CutBehindDash | lib/ids.ts:29-30 | a word of 63 characters, a dash and another word slug to the word with a dash, and again to the word alone |

## Left out

- User interface: rendering, charts, dialogs, local storage and the spinner flags around the modelled actions.
- Network, database client, authentication and authorisation: they are parameters, outcomes or booleans of the model.
- JSON and UTF-8 decoding: the panel's parser is a parameter, and the server's serialiser is assumed to give one non-empty line that the parser undoes.
- The order in which React applies state updates: each update of the panel is one assignment, in program order; Reattach adds arbitrary interleavings of a poll with a question.
- Resume.OpenThread: shows the partial answers when the poll has returned, not between its requests; Reattach.OwnBubbleFollowsPoll shows that what is asked in between does not change the poll's bubble.
- A poll response whose body is JSON null: `pollRun` throws there outside its own catch, and the poll model starts behind that check.
- verify-single-worker.py as code: its syntax-tree counts are the shape assumed of the queue (one worker, one unbounded queue, one job per message).
- The brain's own reconcile bookkeeping (throttle, parking, REST path, pending deletes): LandedWatermark models the anchors and the verdict of the lookup path only, for a pass with no push in flight, a constant clock skew, and presence that proves a landing.
- IngestQueue.GuardedRunsKeepOneLive: takes the re-push rule as its hypothesis; the edits that push an item again without the rule are outside it.
- ProjectCreation.StepKeepsInv: the pointer helper and the grant helper are single calls that take effect or not; what they do inside is not part of this model, nor is deleting a project.
- CreateProjectAction.Database.CreateProject: error texts are reduced to which reply is given.
- SchemaMeaning.ClosedImpliesHardened: where a table has a property "properties", does not declare `additionalProperties` and stands beside a schema for other keys, the condition does not ask whether that schema accepts anything; SchemaMeaning.TableMeaningKeptIff does.
- TaskActions.TaskStore.Update: timestamps, the scheduled projection and the priority normaliser (a parameter) are not modelled; each action is one atomic step, and ManyEdits.EditsKeepForestIff says exactly when that matters.
- SchemaInPlace.HardenInPlace: lists are values and the dicts form a tree; a dict shared between two places is not covered.
- SchemaMeaning.HardenedMeansClosed: covers boolean schemas, type, enum, const, required, properties, additionalProperties, items, anyOf and references into the definitions; `not`, `oneOf`, patterns and the numeric keywords are not modelled.
- SmallModel.ShippedDecides: works on the expression tree; Python's parser is not modelled, `get` is only the environment's, and a split URL is seen only through its path.
- MeetingPairs.SummarisePairs: for unique ids without bars; the formatting of a row, the hours between two notes and the series and conference diagnostics are left out, and groups are visited in first-seen order.
- Frontmatter.ParseFrontmatter: a field called `__proto__`, which a JavaScript object treats apart, is stored like any other.
- SeedDecisions.TierRoundTrip: integers are unbounded, so the precision JavaScript loses above 2^53 is not modelled.
- Slug.SlugIsWords: lower-casing is exact for what a slug can see (A-Z, the Kelvin sign and the dotted capital I); other characters keep their case, which no slug shows.
- BrandForm.ToValues: the table is a parameter whose section names hold no dot, which BrandForm.SectionsAreDotFree shows of the shipped one; sections and fields are visited in any order.
- The backfill, connector and admin commands under `scripts/`: they read rows, reshape them one at a time and write them back.
- The patch scripts' rewriting of a file: replacing the one occurrence of a text.
