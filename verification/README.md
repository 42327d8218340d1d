# Desktop host: verified models

The repository is a desktop host: a PHP worker, Rust plugins, a page in a web view and the
stateful components between them. This project models the protocols and data structures whose
guarantees are about whole runs, and proves those guarantees for every run, every
interleaving and every input the code is written for.

The models have the same shape throughout. A specification on values (functions, or a state
machine whose `Next` takes one step of one party) says what a component does; lemmas prove
what that means over arbitrary sequences of steps; and classes and methods in the form of the
code are proved to take exactly those steps. What the outside decides (when a thread runs, a
response is lost, a process crashes, a disk step fails, a clock reads) is a parameter, so a
theorem holds for every choice. Where the code falls short of what one would like, the
condition under which it does hold is stated and proved in both directions.

| file | models |
|---|---|
| `UndoManager.dfy` | the undo manager: transactions, roll-back, the entry limit |
| `VirtualViewport.dfy` | which rows are rendered, and the compressed scroll range, over `real` |
| `PluginProtocol.dfy`, `PluginHost.dfy` | the plugin's message loop, the pipe and reader thread, the host's client and slot |
| `EventDelivery.dfy` | the bounded event history, the events endpoint, the bridge's poll loop |
| `WorkerPool.dfy` | isolation keys over window parents, sticky workers, capacity |
| `JobScheduler.dfy` | the job threads, their shared journal, crashes and restarts |
| `BundleCopy.dfy` | copying a project with exclusions and symbolic links |
| `MenuValidation.dfy`, `MenuState.dfy` | the menu validator, and the two native menu implementations |
| `SpanExport.dfy` | the span queue, batches and counters |
| `GrantStore.dfy` | persistent file grants and their file |
| `ProjectFingerprint.dfy` | the bytes hashed for a project, and the use of a startup snapshot |
| `TerminalOutput.dfy` | terminal sessions and captured process output |
| `SampleWindow.dfy` | the sample windows and their percentiles |
| `TraceContext.dfy` | the `traceparent` header, section 3.2 of W3C Trace Context |
| `Utf8.dfy` | UTF-8 and the lossy conversion of paths to text |
| `Outcomes.dfy`, `Sequences.dfy`, `Arithmetic.dfy`, `Identifiers.dfy`, `Sorting.dfy` | shared definitions |

Limits of the code that the statements make explicit:

- Neither `undo` nor `redo` looks at an open transaction. Each is safe exactly when it has
  nothing to do or no operation is open (`UndoSafeExactly`, `RedoSafeExactly`), and a few
  legal calls lead to a failure (`RedoFailureIsReached`).
- Message writers measure a line without its newline and readers with it, so a message of
  exactly the limit is written and then refused (`DeliveredExactlyBelowTheLimit`).
- On an empty poll the endpoint reads the latest id after searching, and an event published
  in between is skipped for good (`PollKeepsCaughtUpExactly`, `SkippedForever`). Event ids
  saturate at the largest 64-bit number (`SaturatedHubIsSilent`); long before that, the bridge
  keeps its cursor as a JavaScript number, which is exact up to 2^53 and then makes an event be
  dispatched again (`RoundedCursorRepeats`). The results about windows are bounded accordingly.
- Cyclic parents of windows pass validation, and two windows of one cycle can then have
  different keys (`CyclesAreValid`); the depth guard of the key walk fires for
  exactly the windows that run into a cycle (`GuardFiresExactly`).
- A graceful stop during the last attempt of a job, or during one that succeeds, still
  records a finished cycle (`StopEndsTheThread`, `StoppedJobRecoversExactly`). When the end of
  a cycle cannot be written, a later update of another job may publish it
  (`UnwrittenEndRestartsExactly`).
- The two menu implementations differ on the empty identifier (`OutcomesAgreeExactly`), and
  outside Linux a validated menu is refused when the platform cannot read an accelerator
  (`BuildSucceedsExactly`).
- The exported counter saturates, so the counters add up exactly when the collector never
  claims to reject more spans than it was sent (`SpansAreConservedExactly`).
- A failed save under a random id already in use removes the older grant
  (`GrantKeepsConsistentExactly`); a grant whose target cannot be resolved stays usable until
  the process ends (`FailureLeavesGrantExactly`); saving does not check the size that loading
  allows (`ReloadReturnsTheGrantsExactly`).
- Paths are hashed after a lossy conversion to UTF-8, so projects whose paths are not UTF-8
  can share a fingerprint (`StrangeNamesCollide`). A path's text tells it from every other one
  exactly when it is UTF-8 without the replacement character (`UnambiguousExactly`); among
  UTF-8 paths the fingerprint is exact (`HashedExactlyInUtf8`).
- Without overscan the last partly visible row can be missed (`OverscanIsNeeded`); a window of
  8,000,000 pixels or more cannot scroll a longer list (`ScrollShowsExactly`).
- Only version 00 of the trace header is accepted, where W3C Trace Context lets a receiver
  try to read later versions.

## Model

| member | source | states |
|---|---|---|
| UndoManager.StepKeepsTimeline | crates/pam-desktop-shell/assets/workstation.js:30-42 | every call keeps the document equal to the oldest retained state with the undo stack and then the open transaction replayed on it, and keeps the redo stack replayable |
| UndoManager.RunKeepsTimeline | crates/pam-desktop-shell/assets/workstation.js:30-42 | the same law over every run of begin, record, commit, rollback, undo and redo, the base moving only when the limit drops an entry |
| UndoManager.UndoKeepsTimeline | crates/pam-desktop-shell/assets/workstation.js:37 | undo brings the document to the replay of all entries but the last |
| UndoManager.UndoRedo | crates/pam-desktop-shell/assets/workstation.js:37-38 | redo right after undo restores document and both stacks exactly |
| UndoManager.RedoUndo | crates/pam-desktop-shell/assets/workstation.js:37-38 | undo right after redo restores document and both stacks exactly |
| UndoManager.UndosThenRedos | crates/pam-desktop-shell/assets/workstation.js:37-38 | after any number of undos the same number of redos restores everything |
| UndoManager.RollbackIsNeutral | crates/pam-desktop-shell/assets/workstation.js:33-36 | a transaction of any recorded edits, rolled back, leaves document and both stacks as they were |
| UndoManager.CommitUndoesAsOne | crates/pam-desktop-shell/assets/workstation.js:33-40 | a committed transaction is one undo step, whose undo returns to the document before `begin` |
| UndoManager.RecordUndoesAsOne | crates/pam-desktop-shell/assets/workstation.js:34-40 | an edit recorded outside a transaction is one entry under the default title, and one undo step |
| UndoManager.RunKeepsBound | crates/pam-desktop-shell/assets/workstation.js:30-42 | undo and redo entries together never exceed the limit, for any calls whatever |
| UndoManager.UndoSafeExactly | crates/pam-desktop-shell/assets/workstation.js:37 | undo with `k` entries and `m` open operations keeps the timeline of every document if and only if `k == 0` or `m == 0` |
| UndoManager.RedoSafeExactly | crates/pam-desktop-shell/assets/workstation.js:38 | redo with `k` redo entries and `m` open operations keeps the timeline of every document if and only if `k == 0` or `m == 0` |
| UndoManager.RedoFailureIsReached | crates/pam-desktop-shell/assets/workstation.js:30-42 | record, undo, begin and record, all legal, lead a new manager to a state in which redo leaves a document that no replay explains |
| UndoManager.UndoManager.Begin | crates/pam-desktop-shell/assets/workstation.js:33 | opens a transaction, or throws and changes nothing when one is open |
| UndoManager.UndoManager.Record | crates/pam-desktop-shell/assets/workstation.js:34 | takes the model's record step |
| UndoManager.UndoManager.Commit | crates/pam-desktop-shell/assets/workstation.js:35 | takes the model's commit step |
| UndoManager.UndoManager.Rollback | crates/pam-desktop-shell/assets/workstation.js:36 | takes the model's rollback step, undoing in reverse order |
| UndoManager.UndoManager.Undo | crates/pam-desktop-shell/assets/workstation.js:37 | takes the model's undo step and reports whether there was an entry |
| UndoManager.UndoManager.Redo | crates/pam-desktop-shell/assets/workstation.js:38 | takes the model's redo step and reports whether there was an entry |
| UndoManager.UndoManager.PushEntry | crates/pam-desktop-shell/assets/workstation.js:40 | pushes, drops the oldest entry over the limit and forgets the redo stack |
| VirtualViewport.RangeCovers | crates/pam-desktop-shell/assets/workstation.js:54 | with overscan every item that intersects the viewport is in the range |
| VirtualViewport.OverscanReaches | crates/pam-desktop-shell/assets/workstation.js:54 | around a visible item as many items before it as the overscan, and one fewer after it, are in the range too |
| VirtualViewport.RangeSpan | crates/pam-desktop-shell/assets/workstation.js:54 | every range, whether anything is in it or not, spans at most ceil(size / estimate) + 2 * overscan items |
| VirtualViewport.RangeIsBounded | crates/pam-desktop-shell/assets/workstation.js:54 | a range with items lies inside the list, and without the overscan and one item it is smaller than the window |
| VirtualViewport.OverscanIsNeeded | crates/pam-desktop-shell/assets/workstation.js:54 | ranges always cover the visible items if and only if overscan is at least 1 |
| VirtualViewport.ScrollRoundTrip | crates/pam-desktop-shell/assets/workstation.js:55 | scrolling to a position and reading the scroll bar back gives that position, or the end of the list, whatever the compression |
| VirtualViewport.FittingListIsNotCompressed | crates/pam-desktop-shell/assets/workstation.js:52-55 | for a list of at most 8,000,000 pixels the offset is the scroll position itself |
| VirtualViewport.EndOfBarIsEndOfList | crates/pam-desktop-shell/assets/workstation.js:52-55 | at the end of the scroll bar the offset is at the end of the list, however it is compressed |
| VirtualViewport.EndOfBarShowsLastItem | crates/pam-desktop-shell/assets/workstation.js:54-55 | and the last item is in the rendered range there |
| VirtualViewport.ScrollToIndexShowsItem | crates/pam-desktop-shell/assets/workstation.js:54-55 | after `scrollToIndex(i)` item `i` is in the rendered range, for every list and every window height from 1 to below 8,000,000 |
| VirtualViewport.ScrollShowsExactly | crates/pam-desktop-shell/assets/workstation.js:52-55 | `scrollToIndex` shows every item of every list if and only if the window is lower than 8,000,000 pixels |
| VirtualViewport.Mount.Render | crates/pam-desktop-shell/assets/workstation.js:55 | exactly the rows of the range are mounted, rows that stay are reused, and the renderer is called once for each row that is new |
| VirtualViewport.RenderRows | crates/pam-desktop-shell/assets/workstation.js:55 | the loop over the range: the next row map, taken over from the mounted one or made, and how many were made |
| PluginProtocol.ServeWithIo | crates/pam-desktop-plugin/src/lib.rs:110-183 | one valid reply for each line, in order, carrying its id, until the input ends or a line cannot be served, and exactly why it stops |
| PluginProtocol.HostRequestsValidExactly | crates/pam-desktop-protocol/src/lib.rs:641-656 | what the host writes passes request validation exactly for the handshake and for identifiers, with an id that is not zero |
| PluginProtocol.ServedExactly | crates/pam-desktop-plugin/src/lib.rs:120-183 | which requests are answered, with what status, payload, events or fault, and which end the loop |
| PluginProtocol.ServedLinesAreAccepted | crates/pam-desktop-protocol/src/lib.rs:641-726 | `validate_for` accepts every line the SDK loop writes as the reply to the line it read |
| PluginProtocol.HappenOwes | crates/pam-desktop-shell/src/plugin.rs:238-280 | handling, reading and crashing never make a process owe a reply to anything but the request it was given |
| PluginProtocol.HappensOwes | crates/pam-desktop-shell/src/plugin.rs:238-280 | the same over every interleaving of plugin, reader thread and crash |
| PluginProtocol.HappensQuiet | crates/pam-desktop-plugin/src/lib.rs:120-183 | a process that owes nothing stays so and handles nothing, however long it runs |
| PluginProtocol.FirstMessageAnswers | crates/pam-desktop-shell/src/plugin.rs:302-364 | the first message in the channel is the reply produced for the request that is owed, and once it is taken nothing is owed |
| PluginProtocol.DeliveredExactlyBelowTheLimit | crates/pam-desktop-shell/src/plugin.rs:260-320 | an undisturbed exchange delivers its reply if and only if both encodings are strictly below the limit |
| PluginHost.FirstWordDecides | crates/pam-desktop-shell/src/plugin.rs:330-362 | the first poll that brings something decides: a cancellation, then the deadline, then the very first message of the channel, which is returned |
| PluginHost.SilenceTimesOut | crates/pam-desktop-shell/src/plugin.rs:330-362 | a request to which nothing comes back times out |
| PluginHost.CalmInvokeExactly | crates/pam-desktop-shell/src/plugin.rs:110-164 | an exported command of a ready plugin, undisturbed, gives the caller exactly what the plugin returned, payload and events or fault, if and only if both encodings are below the limit; otherwise the request is too large or the plugin unavailable |
| PluginHost.CalmStartExactly | crates/pam-desktop-shell/src/plugin.rs:165-191 | an undisturbed start gives a client if and only if the metadata is valid, names the configured plugin and equals the pinned one, and the handshake fits below the limit |
| PluginHost.PluginClient.Request | crates/pam-desktop-shell/src/plugin.rs:302-364 | the exact result and process for any interleaving, under the specification that the two results above describe; an accepted reply is the one the plugin produced for this request, under a new id, and the client owes nothing afterwards |
| PluginHost.PluginClient.Await | crates/pam-desktop-shell/src/plugin.rs:330-362 | the receive loop, with cancellation, deadline and channel in this order at each turn |
| PluginHost.PluginClient.Boot | crates/pam-desktop-shell/src/plugin.rs:283-300 | returns the metadata the plugin was built with exactly when the handshake request is answered |
| PluginHost.PluginSlot.Restart | crates/pam-desktop-shell/src/plugin.rs:165-191 | ready exactly when the start succeeds: a fresh client that was sent nothing but the handshake; pinned metadata never changes |
| PluginHost.PluginSlot.Invoke | crates/pam-desktop-shell/src/plugin.rs:110-164 | the exact result, with timeouts, cancellations, crashes and restarts anywhere; a returned payload or fault is what the plugin returned for this very request; a failed request is not replayed; validation of an SDK plugin's reply never fails |
| PluginHost.PluginSlot.InvokeClient | crates/pam-desktop-shell/src/plugin.rs:116-164 | the same once the slot has a client; after a failure there is a client again exactly when the recovery start succeeds |
| EventDelivery.HubHolds | crates/pam-desktop-shell/src/event_hub.rs:35-53 | the hub holds the newest 256 events under consecutive ids |
| EventDelivery.PollFinds | crates/pam-desktop-shell/src/event_hub.rs:83-98 | a search finds exactly the visible events after the cursor that are still remembered, in order |
| EventDelivery.PollKeepsCaughtUpExactly | crates/pam-desktop-shell/src/gateway.rs:1557-1580 | a round trip keeps a window complete if and only if no visible event was forgotten before it saw it and, on an empty result, none was published between the endpoint's two reads |
| EventDelivery.RunKeepsCaughtUp | crates/pam-desktop-shell/src/gateway.rs:3495-3514 | over lossy responses a window that polls while at most 256 events lie beyond its cursor has dispatched every visible event up to it exactly once and in order |
| EventDelivery.PollDeliversAll | crates/pam-desktop-shell/src/gateway.rs:1557-1580 | after a poll that arrives, everything published before the poll has been dispatched |
| EventDelivery.RunKeepsOrder | crates/pam-desktop-shell/src/gateway.rs:3495-3514 | whatever is lost or forgotten, nothing is dispatched twice or out of order |
| EventDelivery.OnlyOwnEvents | crates/pam-desktop-shell/src/event_hub.rs:83-98 | over any run a window dispatches only events that were published, with their name, payload and target, and meant for it or for all |
| EventDelivery.ExactlyOwnEvents | crates/pam-desktop-shell/src/gateway.rs:3495-3514 | an attentive window has, of all events published up to its cursor, exactly those meant for it |
| EventDelivery.SkippedForever | crates/pam-desktop-shell/src/gateway.rs:1572-1578 | an event the cursor has passed without dispatching it is never dispatched |
| EventDelivery.SaturatedHubIsSilent | crates/pam-desktop-shell/src/event_hub.rs:35-53 | once every id is used, nothing published later is found by an up-to-date window |
| EventDelivery.RoundedCursorRepeats | crates/pam-desktop-shell/src/gateway.rs:3495-3514 | just beyond 2^53 the rounded cursor makes the window ask again, and the same event is dispatched twice |
| EventDelivery.AttemptsAreSteps | crates/pam-desktop-shell/src/gateway.rs:3495-3514 | the turns of the poll loop, with everything published before and during each, are a run of the system, so the results about runs hold of the loop |
| EventDelivery.EventHub.Publish | crates/pam-desktop-shell/src/event_hub.rs:35-53 | the hub's state is the one its whole log determines |
| EventDelivery.EventHub.Search | crates/pam-desktop-shell/src/event_hub.rs:55-74 | publications are waited for up to the first search that finds something or the deadline, and that search is returned |
| EventDelivery.EventHub.Events | crates/pam-desktop-shell/src/gateway.rs:1557-1580 | the endpoint: the search, what is published in its gap, and the cursor it answers with |
| EventDelivery.BridgeWindow.Turn | crates/pam-desktop-shell/src/gateway.rs:3495-3514 | one request, and if its response arrives the new cursor and each event once |
| EventDelivery.BridgeWindow.PollLoop | crates/pam-desktop-shell/src/gateway.rs:3495-3514 | the loop is exactly that sequence of turns, for any publications and losses |
| WorkerPool.IsolationKey | crates/pam-desktop-shell/src/gateway.rs:408-432 | isolated by window the key is the window itself; by workspace it is the root if there is one, in any case the ancestor after at most one step more than there are windows, and exactly that many if and only if the parents run into a cycle; it is a registered window |
| WorkerPool.CyclesAreValid | crates/pam-desktop-protocol/src/lib.rs:1047-1070 | a bootstrap with cyclic parents that validation accepts, in which two windows of the cycle have different keys |
| WorkerPool.KeyRegistered | crates/pam-desktop-protocol/src/lib.rs:1027-1072 | every key of a validated application is one of its windows |
| WorkerPool.GuardFiresExactly | crates/pam-desktop-shell/src/gateway.rs:416-431 | the depth guard fires if and only if the chain of parents has no root |
| WorkerPool.AcyclicHasRoots | crates/pam-desktop-shell/src/gateway.rs:416-431 | with acyclic parents the guard never fires and the walk ends at the root |
| WorkerPool.SameKeyExactly | crates/pam-desktop-shell/src/gateway.rs:408-432 | two windows have the same key if and only if they share a root ancestor |
| WorkerPool.PickSucceeds | crates/pam-desktop-shell/src/gateway.rs:867-904 | a registered key always finds a worker: capacity cannot run out, by counting keys against windows |
| WorkerPool.RunKeepsPrepared | crates/pam-desktop-shell/src/gateway.rs:816-904 | the pool of a validated application stays able to serve every registered window over any sequence of requests |
| WorkerPool.RunExtends | crates/pam-desktop-shell/src/gateway.rs:878-904 | over any sequence of requests a key never loses or changes its worker |
| WorkerPool.CountSuffices | crates/pam-desktop-shell/src/gateway.rs:816-829 | an isolated pool has a worker for each window and never fewer than configured; a shared one has the configured number, or none without parallel commands |
| WorkerPool.SameWorkerSameKey | crates/pam-desktop-shell/src/gateway.rs:816-904 | any two requests of a run are served, and by the same worker if and only if their windows have the same key |
| WorkerPool.IsolationHolds | crates/pam-desktop-shell/src/gateway.rs:408-432 | any two requests of a run are served; isolated by window they share a worker if and only if they come from the same window, and by workspace with acyclic parents if and only if their windows share a root |
| WorkerPool.WorkerPool.RequestKeyed | crates/pam-desktop-shell/src/gateway.rs:867-904 | picks the key's worker, or the next free one, exactly as the model does |
| JobScheduler.StepKeepsInvariant | crates/pam-desktop-shell/src/scheduler.rs:200-260 | every step of every thread, and a crash and restart, keeps each job's own entry and its place in the cycle recorded |
| JobScheduler.RunKeepsInvariant | crates/pam-desktop-shell/src/scheduler.rs:200-260 | the same over every interleaving |
| JobScheduler.CrashInvariant | crates/pam-desktop-shell/src/scheduler.rs:48-61 | a crash loses exactly the updates made since the last one that reached the file |
| JobScheduler.ReopenedJournalHoldsOwnUpdates | crates/pam-desktop-shell/src/scheduler.rs:43-129 | after any run, over any number of crashes and restarts and with disk failures anywhere, the reopened journal holds for each persistent job its own last published update of the whole run, and for every other name what the file held at the beginning |
| JobScheduler.RestartReadsFile | crates/pam-desktop-shell/src/scheduler.rs:63-78 | after a crash a thread begins with the delay that its own entry in the file gives, whatever other threads do and however often the process crashes before it runs |
| JobScheduler.InterruptedCycleRestartsAtOnce | crates/pam-desktop-shell/src/scheduler.rs:63-92 | a job whose cycle had started and not finished at a crash, a cycle cut short by a failed journal write included, begins again with a wait of zero, after at most `maximum_attempts` runs in that cycle |
| JobScheduler.FinishedCycleWaitsRest | crates/pam-desktop-shell/src/scheduler.rs:63-106 | a cycle whose end reached the file is followed, after a crash and whatever the others do, by a wait for what is left of the interval since then |
| JobScheduler.AttemptIsRecorded | crates/pam-desktop-shell/src/scheduler.rs:80-92 | before a job runs its attempt is on disk, as running and with its number |
| JobScheduler.UnknownJobWaitsInitially | crates/pam-desktop-shell/src/scheduler.rs:63-72 | a job that is not persistent, or of which the file knows nothing, begins with its initial delay |
| JobScheduler.RestingJobKeepsItsDeadline | crates/pam-desktop-shell/src/scheduler.rs:63-106 | a job between cycles at a crash begins again with a wait for exactly its recorded deadline |
| JobScheduler.UnwrittenEndRestartsExactly | crates/pam-desktop-shell/src/scheduler.rs:94-129 | a job whose finished cycle could not be written waits for its deadline if another update has published it since, and otherwise begins at once |
| JobScheduler.StopEndsTheThread | crates/pam-desktop-shell/src/scheduler.rs:208-258 | where a stop during attempt `k` leaves the thread, whatever the run and the disk do: in mid-cycle exactly when the run failed and was not the last |
| JobScheduler.StoppedJobRecoversExactly | crates/pam-desktop-shell/src/scheduler.rs:63-79 | before its deadline a stopped job runs at once if and only if it was stopped between two attempts of a cycle |
| JobScheduler.CycleRunsUntilSuccess | crates/pam-desktop-shell/src/scheduler.rs:214-245 | an undisturbed cycle runs the job until the first success or the last attempt allowed, never fewer times and never more |
| JobScheduler.CycleRests | crates/pam-desktop-shell/src/scheduler.rs:246-258 | after the end of a cycle the thread rests for the interval and begins with a first attempt |
| JobScheduler.BackoffDoubles | crates/pam-desktop-shell/src/scheduler.rs:234-245 | for validated jobs the first retry waits the configured delay, each further one twice as long, and never as long as the saturation of the clock |
| JobScheduler.JobJournal.OpenAt | crates/pam-desktop-shell/src/scheduler.rs:48-61 | opens empty without a file and with the contents of a good one, and fails exactly when the file cannot be read or decoded |
| JobScheduler.JobJournal.InitialDelay | crates/pam-desktop-shell/src/scheduler.rs:63-78 | the delay before the first run of a job, with and without a record |
| JobScheduler.JobJournal.Update | crates/pam-desktop-shell/src/scheduler.rs:108-129 | memory changes first; the file changes only when the rename succeeds |
| JobScheduler.JobRunner.Attempts | crates/pam-desktop-shell/src/scheduler.rs:208-258 | the retry loop follows the thread model and runs the job at most `maximum_attempts` times |
| JobScheduler.JobRunner.WaitOrStop | crates/pam-desktop-shell/src/scheduler.rs:445-457 | each wait is for the time due in its phase: the initial delay, the backoff of the attempt or the interval |
| JobScheduler.JobRunner.Run | crates/pam-desktop-shell/src/scheduler.rs:200-265 | the whole thread, its delays included, follows the model, whatever the clock, the disk, the runs and stop requests do |
| BundleCopy.ExcludedExactly | crates/pam-desktop-shell/src/packager.rs:855-894 | excluded is exactly what lies at or below a reserved name, an environment file, the source of a plugin, a vendor directory inside vendor, or a configured path |
| BundleCopy.ExclusionIsInherited | crates/pam-desktop-shell/src/packager.rs:855-894 | everything below an excluded path is excluded |
| BundleCopy.PruningIsFiltering | crates/pam-desktop-shell/src/packager.rs:722-745 | not entering excluded directories leaves exactly what filtering every path would leave |
| BundleCopy.CopyIsFilteredUnfolding | crates/pam-desktop-shell/src/packager.rs:691-793 | a copy succeeds if and only if no unexcluded walk ends in a fault, and is then the full unfolding of the project through its links, filtered by the exclusions; a reported error is a real fault |
| BundleCopy.BundleHoldsExactly | crates/pam-desktop-shell/src/packager.rs:691-894 | the copy holds an item if and only if the unfolding does and neither its path nor any path above it is barred by one of these rules |
| BundleCopy.PluginBinariesAreShipped | crates/pam-desktop-shell/src/packager.rs:855-866 | everything under `plugins/bin` that no other rule bars is copied |
| BundleCopy.PluginSourcesStayOut | crates/pam-desktop-shell/src/packager.rs:855-866 | nothing under any other directory of `plugins` is |
| BundleCopy.ReportedCycleIsReal | crates/pam-desktop-shell/src/packager.rs:701-719 | a reported cycle names an unexcluded path that re-enters a directory above it |
| BundleCopy.ReEntryIsRefused | crates/pam-desktop-shell/src/packager.rs:701-719 | a project with an unexcluded path that re-enters a directory above it is never copied |
| BundleCopy.FailsWithCycleExactly | crates/pam-desktop-shell/src/packager.rs:701-719 | when no other kind of fault exists, the copy fails with a cycle if and only if some unexcluded path re-enters |
| BundleCopy.Copier.Directory | crates/pam-desktop-shell/src/packager.rs:701-758 | terminates on every finite graph, restores the stack on success and on error, and writes exactly the tree of the specification |
| BundleCopy.Copier.Entries | crates/pam-desktop-shell/src/packager.rs:720-755 | the loop over the entries, which ends at the first error |
| BundleCopy.Copier.Entry | crates/pam-desktop-shell/src/packager.rs:722-753 | one entry: exclusion, directory, file or link |
| BundleCopy.Copier.Symlink | crates/pam-desktop-shell/src/packager.rs:760-793 | one link: its checks in order, then the directory or file behind it |
| MenuValidation.CheckItemsAgree | crates/pam-desktop-protocol/src/lib.rs:1575-1633 | threading the id set and the counter through the recursion accepts exactly fine entries with ids distinct from each other and from those already seen, and adds them up |
| MenuValidation.AcceptsExactlyWellFormed | crates/pam-desktop-protocol/src/lib.rs:1447-1633 | exactly the forests with depth at most 8, distinct ids, at most 256 items and every per-kind rule are accepted |
| Identifiers.AcceleratorsExactly | crates/pam-desktop-protocol/src/lib.rs:1973-2005 | accepted accelerators are exactly distinct modifiers, in any case of letters, and an alphanumeric key of at most 24 characters, joined by plus signs in at most 64 |
| Identifiers.IdentifierGrows | crates/pam-desktop-protocol/src/lib.rs:1956-1971 | identifiers begin with a letter and grow by letters, digits, dots, dashes and underscores up to 64 characters |
| Identifiers.VersionGrows | crates/pam-desktop-protocol/src/lib.rs:2052-2069 | versions begin with a digit and grow by version characters up to 64 |
| Identifiers.TextGrows | crates/pam-desktop-protocol/src/lib.rs:2032-2050 | texts grow by characters that are no control characters, up to a limit in bytes of UTF-8 |
| MenuValidation.ItemLedger.ValidateItem | crates/pam-desktop-protocol/src/lib.rs:1575-1633 | the recursive validator with its mutable set and counter does what the specification does |
| MenuValidation.ItemLedger.ValidateItems | crates/pam-desktop-protocol/src/lib.rs:1549-1552 | the loop over the items stops at the first error |
| MenuValidation.ValidateMenus | crates/pam-desktop-protocol/src/lib.rs:1447-1457 | the loop over the menus shares one set and one counter |
| MenuValidation.ValidateShell | crates/pam-desktop-protocol/src/lib.rs:1447-1476 | the menu and tray part of a shell is accepted if and only if it is well-formed |
| MenuState.SetItemIsSetFlat | crates/pam-desktop-shell/src/native_shell.rs:562-586 | searching and changing the tree changes exactly the first matching item of the flat list, or nothing |
| MenuState.BuildMirrors | crates/pam-desktop-shell/src/native_shell.rs:705-791 | the handle map of a validated menu that could be built has every item that is no separator, with its state |
| MenuState.BuildSucceedsExactly | crates/pam-desktop-shell/src/native_shell.rs:753-791 | building a validated menu succeeds if and only if the platform reads every accelerator in it, and then gives that map |
| MenuState.UpdateAgrees | crates/pam-desktop-shell/src/native_shell.rs:683-696 | an update by non-empty id succeeds on both sides or on neither, changes exactly one item, and keeps the tree valid and the map in agreement |
| MenuState.RunAgrees | crates/pam-desktop-shell/src/native_shell.rs:562-791 | the same over any sequence of updates |
| MenuState.PlatformsAgree | crates/pam-desktop-shell/src/native_shell.rs:562-791 | from a validated menu both implementations show the same state after any updates, and the next one succeeds on both or on neither |
| MenuState.OutcomesAgreeExactly | crates/pam-desktop-shell/src/native_shell.rs:562-696 | outcomes agree if and only if the id is not empty, the update is for a checkbox, or there is no separator |
| MenuState.HandleShowsUpdate | crates/pam-desktop-shell/src/native_shell.rs:683-696 | an update through the map succeeds exactly for an item that is there (and a checkbox, to be checked), which then shows what was asked for; nothing else changes |
| MenuState.TreeShowsUpdate | crates/pam-desktop-shell/src/native_shell.rs:562-586 | an update of the tree gives the item with the id the state that was asked for and leaves the others as they were |
| MenuState.FindCheckedAgrees | crates/pam-desktop-shell/src/native_shell.rs:588-598 | the tree search for a checkbox's state finds what its handle shows |
| MenuState.SetItemIn | crates/pam-desktop-shell/src/native_shell.rs:562-586 | the recursive loop returns at its first hit with exactly the change of the specification |
| MenuState.FindCheckedIn | crates/pam-desktop-shell/src/native_shell.rs:588-598 | the recursive loop finds what the specification finds |
| MenuState.LinuxTray.Apply | crates/pam-desktop-shell/src/native_shell.rs:416-428 | an update of the tree the tray owns |
| MenuState.LinuxTray.Activate | crates/pam-desktop-shell/src/native_shell.rs:588-598 | selecting a checkbox flips the state the search finds |
| MenuState.NativeTray.BuildInto | crates/pam-desktop-shell/src/native_shell.rs:753-791 | fills the handle map, children before their submenu, or fails at an accelerator the platform cannot read |
| MenuState.NativeTray.Apply | crates/pam-desktop-shell/src/native_shell.rs:683-696 | an update through the handle map |
| SpanExport.RunBalance | crates/pam-desktop-shell/src/desktop_otlp.rs:91-113 | over any interleaving the counters and queues account for all offered spans plus what the collector over-claimed |
| SpanExport.SpansAreConservedExactly | crates/pam-desktop-shell/src/desktop_otlp.rs:264-298 | offered spans equal queued, batched, exported, rejected, dropped and abandoned ones if and only if the collector never claims more than a batch |
| SpanExport.CountersMean | crates/pam-desktop-shell/src/desktop_otlp.rs:264-298 | over any run `rejected` is the sum of the answers, `dropped` the spans that were lost, and `exported` the answered spans without the rejected ones, up to over-claims |
| SpanExport.HonestCounters | crates/pam-desktop-shell/src/desktop_otlp.rs:264-298 | with an honest collector these are the three counters exactly |
| SpanExport.OfferAcceptsExactly | crates/pam-desktop-shell/src/desktop_otlp.rs:91-113 | a span is accepted exactly while the thread lives and the queue has room, and is then the last in it |
| SpanExport.BatchesCarryAcceptedSpans | crates/pam-desktop-shell/src/desktop_otlp.rs:264-298 | batches hold 1 to `batch_size` spans, and their concatenation with what is still waiting is the accepted spans in order |
| SpanExport.Exporter.Export | crates/pam-desktop-shell/src/desktop_otlp.rs:91-113 | accepts the span while the queue has room and counts it as dropped otherwise |
| SpanExport.Exporter.ExportBatch | crates/pam-desktop-shell/src/desktop_otlp.rs:264-298 | one turn of the export loop is a run of the model that gathers until the batch is full or the time is over, adding a span at each arrival, and then sends |
| SpanExport.Exporter.SendBatch | crates/pam-desktop-shell/src/desktop_otlp.rs:286-297 | one batch is sent and counted by the answer |
| GrantStore.GrantKeepsConsistentExactly | crates/pam-desktop-shell/src/native.rs:1022-1063 | whatever step fails, the file decodes to exactly the map in memory, at most 128 entries, if and only if a failed save did not reuse an id |
| GrantStore.RunKeepsConsistent | crates/pam-desktop-shell/src/native.rs:1022-1063 | the same over any calls with fresh ids |
| GrantStore.ReloadReturnsTheGrantsExactly | crates/pam-desktop-shell/src/native.rs:1367-1391 | loading returns exactly the map that was saved if and only if its encoding is within 1 MiB |
| GrantStore.GrantSucceedsExactly | crates/pam-desktop-shell/src/native.rs:1022-1063 | a call succeeds if and only if the selection is good and, for a persistent one, its target is resolved, there is room for it and the disk works |
| GrantStore.GrantPersistsExactly | crates/pam-desktop-shell/src/native.rs:1036-1056 | a persistent call that succeeds leaves a file with the earlier grants and its own id, target and access; any other call leaves the grants of the file as they were |
| GrantStore.PersistentGrantsExactly | crates/pam-desktop-shell/src/native.rs:1022-1063 | over any calls with fresh ids the persistent grants are the earlier ones and exactly those of the persistent calls that succeeded, each with its own target and access |
| GrantStore.RestartLoadsExactly | crates/pam-desktop-shell/src/native.rs:1367-1426 | and a restart loads exactly these |
| GrantStore.LoadSucceedsExactly | crates/pam-desktop-shell/src/native.rs:1367-1391 | a file is loaded if and only if it is within the size and number allowed and every id and path is well-formed |
| GrantStore.RestartKeepsGrants | crates/pam-desktop-shell/src/native.rs:1367-1426 | after any calls with fresh ids a restart loads the persistent grants, at most 128 |
| GrantStore.FailureLeavesGrantExactly | crates/pam-desktop-shell/src/native.rs:1022-1063 | a call fails and leaves its id usable if and only if the selection is good, the grant persistent and its target cannot be resolved; every other failure leaves nothing, every success its id, and no call touches another id |
| GrantStore.UsableGrantsExactly | crates/pam-desktop-shell/src/native.rs:1022-1063 | over any run of calls with unused ids the usable grants are the earlier ones, those returned, and those of the calls that could not resolve their target |
| GrantStore.GrantServices.Persist | crates/pam-desktop-shell/src/native.rs:1393-1426 | only a completed rename changes the file |
| GrantStore.GrantServices.GrantPath | crates/pam-desktop-shell/src/native.rs:1022-1063 | inserts, saves and rolls back exactly as the model does |
| ProjectFingerprint.RecordInjective | crates/pam-desktop-shell/src/startup_snapshot.rs:99-110 | a record (text of the path, zero byte, length, contents) and what follows it can be told apart from any other |
| ProjectFingerprint.StreamInjective | crates/pam-desktop-shell/src/startup_snapshot.rs:95-113 | equal streams come from equal lists of path texts and contents |
| ProjectFingerprint.HashedExactly | crates/pam-desktop-shell/src/startup_snapshot.rs:95-113 | the hashed bytes of two projects are equal if and only if their sorted inputs look the same as text |
| ProjectFingerprint.HashedExactlyInUtf8 | crates/pam-desktop-shell/src/startup_snapshot.rs:95-113 | when all paths are UTF-8, the hashed bytes are equal if and only if the inputs are, in whatever order directories list them |
| ProjectFingerprint.OrderIsForgotten | crates/pam-desktop-shell/src/startup_snapshot.rs:98 | the listing order of directories never matters, whatever the names are |
| ProjectFingerprint.StrangeNamesCollide | crates/pam-desktop-shell/src/startup_snapshot.rs:105 | two projects that differ in one name that is not UTF-8 are hashed alike |
| Utf8.LossyFixesExactly | crates/pam-desktop-shell/src/startup_snapshot.rs:105 | the lossy conversion leaves a path as it is if and only if it is UTF-8 |
| Utf8.UnambiguousExactly | crates/pam-desktop-shell/src/startup_snapshot.rs:105 | no other path has the same text if and only if the path is UTF-8 without the replacement character |
| ProjectFingerprint.Fingerprint | crates/pam-desktop-shell/src/startup_snapshot.rs:95-113 | the loop feeds the digest exactly those bytes |
| ProjectFingerprint.OneFileBytes | crates/pam-desktop-shell/src/startup_snapshot.rs:99-110 | the bytes of a project with one file: header, name, zero byte, eight bytes that read back as the length, contents |
| ProjectFingerprint.SnapshotLoadsExactly | crates/pam-desktop-shell/src/startup_snapshot.rs:35-84 | a snapshot is used exactly when its schema, protocol and fingerprint match and its bootstrap allows and passes it |
| ProjectFingerprint.SnapshotUsedExactly | crates/pam-desktop-shell/src/startup_snapshot.rs:35-84 | a published bootstrap is used again if and only if the inputs look the same as text (with UTF-8 paths: are unchanged) and the bootstrap allows and passes it |
| TerminalOutput.ReadReturnsNextBytes | crates/pam-desktop-shell/src/process_runner.rs:362-411 | one call returns the next bytes in order, fewer than 256 KiB + 16 KiB, leaves nothing waiting below 256 KiB, and says "not running" exactly when the command has exited and the reader has ended below that limit, with the exit code of the command |
| TerminalOutput.ChunkArrives | crates/pam-desktop-shell/src/process_runner.rs:312-325 | a chunk that the terminal writes is returned by the next call, which then says whether that was all |
| TerminalOutput.RunReturnsPrefix | crates/pam-desktop-shell/src/process_runner.rs:312-411 | over any interleaving with the reader thread the replies concatenate to a prefix of the bytes sent |
| TerminalOutput.NotRunningMeansComplete | crates/pam-desktop-shell/src/process_runner.rs:362-411 | "not running" is reported only when the replies so far are everything the terminal ever sends |
| TerminalOutput.EndIsReported | crates/pam-desktop-shell/src/process_runner.rs:362-411 | after the end, each call that still says "running" has taken a full 256 KiB, so the end is reported in time |
| TerminalOutput.PtySession.ReadPty | crates/pam-desktop-shell/src/process_runner.rs:362-411 | the two receive loops and the waiting receive do what the specification says |
| TerminalOutput.PtySession.Reader | crates/pam-desktop-shell/src/process_runner.rs:312-325 | the reader thread's steps on the bounded channel |
| TerminalOutput.Drain | crates/pam-desktop-shell/src/process_runner.rs:486-508 | keeps the first MiB of a process's output and reports overflow exactly when there was more |
| TerminalOutput.OutputIsAll | crates/pam-desktop-shell/src/process_runner.rs:497-506 | without an error the output is everything that was read |
| TerminalOutput.CappedIsBeginning | crates/pam-desktop-shell/src/process_runner.rs:502-504 | what is kept is the beginning of the output, all of it or the first MiB |
| TerminalOutput.Collect | crates/pam-desktop-shell/src/process_runner.rs:510-521 | returns the whole output as text, or fails exactly when reading failed, it exceeded 1 MiB or it is not UTF-8 |
| SampleWindow.RunHoldsLast | crates/pam-desktop-shell/src/gateway.rs:758-767 | after any run of samples the window is exactly the last 2,048 |
| SampleWindow.Samples.Record | crates/pam-desktop-shell/src/gateway.rs:758-767 | keeps that law with the in-place queue |
| SampleWindow.Samples.Percentile | crates/pam-desktop-shell/src/gateway.rs:769-783 | reports the percentile of the last 2,048 samples |
| SampleWindow.PercentileRank | crates/pam-desktop-shell/src/gateway.rs:769-783 | the reported value is a retained sample, at least `p` percent of the samples are no larger, and at most `p` percent of the others, rounded up, are smaller |
| SampleWindow.PercentileMonotone | crates/pam-desktop-shell/src/gateway.rs:769-783 | a higher percentile is never smaller |
| SampleWindow.PercentileExtremes | crates/pam-desktop-shell/src/gateway.rs:769-783 | 0 gives the least retained sample and 100 the greatest |
| SampleWindow.PercentileMissingExactly | crates/pam-desktop-shell/src/gateway.rs:776-782 | there is no percentile if and only if the window is empty, or `p` is over 100 and there are two samples or more |
| SampleWindow.PercentileForgetsOrder | crates/pam-desktop-shell/src/gateway.rs:769-783 | percentiles depend on the retained samples, not on their order |
| TraceContext.ParsedPrintsBack | crates/pam-desktop-shell/src/desktop_otlp.rs:379-397 | every accepted header is a valid context that prints back to the same text |
| TraceContext.PrintedParsesBack | crates/pam-desktop-shell/src/desktop_otlp.rs:56-63 | every valid context is read back from its header unchanged |
| TraceContext.AcceptsExactlyGrammar | crates/pam-desktop-shell/src/desktop_otlp.rs:379-397 | the parser accepts exactly the position-by-position grammar of version 00 |
| TraceContext.HeaderFields | crates/pam-desktop-shell/src/desktop_otlp.rs:392-396 | the two identifiers and the eight flags are read from their places, the sampled flag from the last digit |
| TraceContext.HeaderInjective | crates/pam-desktop-shell/src/desktop_otlp.rs:56-63 | no two valid contexts share a header |

## Left out

- Plugins that do not use the SDK: a process that writes arbitrary lines is covered only as far as the reader thread and `validate_for` go.
- JSON: encoding is taken to be faithful, and only the size of an encoded message is kept.
- Integrity checks, process start and environment of plugins: a launch is refused or runs, as a parameter.
- The plugin supervisor's lookup of a slot by identifier, and one lock for each slot: only easy members.
- Pages that reload, and a hub that restarts, while a window keeps its cursor: a run is one page against one hub.
- A reload that swaps bootstrap and worker pool under separate locks: pool results are for one pair.
- Cancellation map and request counters of the gateway: what they promise depends on when the web framework drops handlers.
- Asynchronous undo operations that overlap, and operations that throw: each call completes before the next.
- Rounding of floating-point numbers in the viewport; row positions and other DOM properties.
- I/O errors while copying a bundle other than unreadable and unsupported entries, and components of excluded paths that are not plain names.
- Shortcuts and quick actions of a shell: flat lists with the same kind of duplicate check.
- MenuState.LinuxTray.Apply: the loop over the items is the code's, but the items are values that are put back into their sequence, so aliasing of nested vectors does not arise.
- How platforms read accelerators: a function of the text that building a menu consults; appending an item to a native menu does not fail.
- Paths as they are outside Unix, which are not sequences of bytes.
- Which files are inputs of the fingerprint; SHA-256 is any function that keeps the two compared streams apart.
- Overflow of the 64-bit telemetry counters and of job clocks beyond the saturation that is modelled.
- Poisoned locks: no thread panics while it holds one.
- Base64 of terminal output, terminal input and resizing, and the removal of a session.
- SampleWindow.PercentileRank: samples are unbounded naturals; the code's are 64-bit, which changes nothing in comparisons.
- HTTP serving, dialogs, secrets, updates, window state and packaging for the operating systems: I/O or user interface.
