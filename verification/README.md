# A model of the cross-session message bridge

Cross Session Codex carries messages between local coding sessions. Each session has a *worker*
with a durable SQLite inbox, an app-server connection over which it notifies its Codex thread, a
registry entry under which other sessions find it, and an MCP front end. This project models the
parts of it where correctness depends on more than one function and proves their properties for
all inputs and all runs.

| file | what it models |
|---|---|
| `Inbox.dfy` | the inbox table, the wake record and the acknowledgement revision, one function per committed transaction |
| `InboxSafety.dfy` | the inbox invariant and the life of a row, over every run |
| `InboxExact.dfy` | what each transaction does, said of the rows with literal limits |
| `Store.dfy` | the `Store` class: the scans, per-ID updates and metadata writes that make up each transaction |
| `WakeLatch.dfy` | `BeginWake`, `Notice`, `FinishWake` and reconciliation, racing with other transactions and crashes |
| `Admission.dfy`, `Readmission.dfy` | the inbound policy and the re-admission pass after it changes, alone and among other transactions |
| `Paging.dfy` | cursor paging under a row limit and a byte budget |
| `Outbound.dfy`, `Receipts.dfy` | the sender's delivery table, and receipts between peers over a lossy, reordering channel |
| `Launch.dfy` | launches and shutdowns that share an app-server directory |
| `Names.dfy`, `Renames.dfy` | the shared name registry |
| `AppClient.dfy`, `Mcp.dfy` | the two concurrent call tables |
| `Drops.dfy` | batched reports of dropped messages |
| `Envelope.dfy`, `Codec.dfy` | the message envelope and its decoder |
| `Sockets.dfy`, `UnixTable.dfy` | the Linux socket inventory used before a shutdown, and the text of the kernel's Unix table |
| `ReleaseTag.dfy` | the release tag recogniser |
| `Base.dfy` | shared values |

Each protocol is a state with an `Event` datatype, `Enabled` saying when an event can happen, and
`Apply` giving the state after it. `Runs` and `Run` extend both to sequences of events, so a lemma
about `Run` is a statement about every interleaving. Clocks, UUIDs, process liveness, kernel tables
and Unicode and HTML tables are parameters. Objects that the program updates in place are classes;
each method is proved equal to the function or event that specifies it.

Findings about the code, each stated as lemmas:

* The comment at `internal/bridge/store.go:517-518` promises that a notice is never replayed blindly.
  That holds in the sense of `NoBlindReplay`: the second of two notices without a rejection in between
  belongs to an attempt with a strictly larger acknowledgement revision. The acknowledgement need not
  fall between the two submissions, though: it may land after the attempt began and before its notice
  went out. `OvertakenBeforeSubmission` gives such a run and `RepeatExactly` shows that this is exactly
  when a second notice can follow with no acknowledgement in between.
* A shutdown scans the recorded owners under the app-server lock, but `start` and `enable_messaging`
  can give a thread another socket without that lock (`internal/bridge/manager.go:180-279`,
  `internal/bridge/worker.go:808-828`). `MovedDuringShutdown` is a run in which a thread with a live
  owner is moved to the socket behind the scan, and `SignalIsSafe` shows that such a move is the only
  way for SIGTERM to meet a live owner. The connection count may still refuse that shutdown.
* The read budget is applied message by message, so a page without messages is not checked against it,
  and nothing bounds the rest of the response: it carries `delivery_error`
  (`internal/bridge/worker.go:242-248`), which may be an error text from the app-server
  (`internal/bridge/worker.go:608`) read under a limit of 64 MiB (`internal/bridge/appserver.go:131`).
  `PageFits` states the exact condition, `OversizedEmptyPage` a successful page that is too large, and
  `OversizedInfoBlocksReads` that the same text makes every other read fail.
* A row of the Unix socket table survives printing and reading if and only if its path does not start
  with a blank (`RowRoundTrip`).

## Model

| member | source | states |
|---|---|---|
| Inbox.OldestHeld | internal/bridge/store.go:163-174 | the row evicted from a full held queue is a held row received no later than any other held row |
| InboxSafety.AcceptOrder | internal/bridge/store.go:106-184 | accepting keeps (peer, wire ID) and row IDs unique, equal bodies of one peer ten seconds apart, and at most twenty rows of a peer in every ten-second window |
| InboxSafety.AcceptCount | internal/bridge/store.go:156-178 | accepting raises only its own queue, by at most one, and never beyond a full queue, eviction included |
| InboxSafety.MoveCounts | internal/bridge/store.go:320-332 | a transition conserves rows: the queue left loses and the queue entered gains exactly the number of distinct named rows |
| InboxSafety.MoveKeepsValid | internal/bridge/store.go:293-364 | an acknowledgement, release, decline or expiry with any list of IDs, repetitions included, keeps the whole inbox invariant |
| InboxSafety.DropStaleExact | internal/bridge/store.go:407-407 | exactly the terminal rows older than seven days go |
| InboxSafety.KeepNewestThins | internal/bridge/store.go:408-408 | of the history exactly the lesser of its size and the limit stays, and no unread or held row goes |
| InboxSafety.KeepNewestDropsOldest | internal/bridge/store.go:408-408 | history removed to make room is never newer than terminal history that is kept |
| InboxSafety.ExpireKeepsValid | internal/bridge/store.go:379-416 | maintenance keeps the whole inbox invariant |
| InboxSafety.ExpireBounds | internal/bridge/store.go:387-416 | after maintenance no held row is older than 300 s, no terminal row is older than seven days, and at most 1000 terminal rows remain |
| InboxSafety.ExpireKeepsHistory | internal/bridge/store.go:407-408 | maintenance deletes nothing recent while the history is within its limit |
| InboxSafety.PerformKeepsValid | internal/bridge/store.go:106-595 | every transaction keeps the inbox invariant: queue bounds, pacing, uniqueness and wake coherence |
| InboxSafety.PerformAllKeepsValid | internal/bridge/store.go:106-595 | so does every sequence of transactions |
| InboxSafety.ReachableInbox | internal/bridge/store.go:106-595 | every inbox reached from an empty database has at most 50 unread and 100 held rows, the pacing and uniqueness laws, and a coherent wake |
| InboxSafety.UnreadStays | internal/bridge/store.go:293-416 | one operation leaves an unread row unchanged unless it acknowledges that row |
| InboxSafety.UnreadNeverLost | internal/bridge/worker.go:702-719 | in every run an unread row stays until an acknowledgement names it |
| InboxSafety.ExpireDrops | internal/bridge/store.go:400-414 | maintenance drops a row, in the state it then has, only if it is history older than seven days or no newer than any row of a full history |
| InboxSafety.RowLifecycle | internal/bridge/store.go:293-416 | rows move only from held to unread, declined or expired and from unread to read, keep their message, and vanish only at maintenance, where a held row past its time is expired and a terminal row is stale or crowded out by newer history |
| InboxSafety.RowOrigin | internal/bridge/store.go:106-416 | every row after an operation comes from an earlier row, unchanged or along one of those edges, or is the one just accepted |
| InboxExact.AcceptExactly | internal/bridge/store.go:115-162 | a message is a duplicate, over the rate, refused for a full queue or stored, each if and only if its condition on the rows holds: the same wire ID from the peer or its body within 10 s, 20 rows of the peer in 10 s, 50 unread |
| InboxExact.AcceptLeaves | internal/bridge/store.go:163-183 | a dropped message changes nothing; a stored one is the new last row, and an oldest held row is expired and reported exactly when a hundred are held and the message joins them |
| InboxExact.RefusedExactly | internal/bridge/store.go:295-319 | a transition is refused if and only if it is a release and the unread rows with the distinct named held rows exceed 50 |
| InboxExact.TransitionExactly | internal/bridge/store.go:320-362 | otherwise every named row in the state left is in the state entered, every other row is as it was, the revision grows by one exactly when an acknowledgement named an unread row, and the wake is cleared exactly when that overtook a success or nothing is unread |
| InboxExact.ExpireLeaves | internal/bridge/store.go:387-414 | the bounds after maintenance with their numbers |
| InboxExact.ExpireSpares | internal/bridge/store.go:391-414 | unread rows and held rows up to 300 s old are spared |
| InboxExact.ExpireLoses | internal/bridge/store.go:400-414 | a row is lost only if it is processed and over seven days old, or there are a thousand processed rows none of which is older |
| InboxExact.AttemptExactly | internal/bridge/store.go:519-547 | an attempt is recorded if and only if a row is unread and nothing is latched, with its ID and the current revision |
| InboxExact.ReachableExactly | internal/bridge/store.go:106-595 | in every reachable inbox at most 50 unread, 100 held, 20 rows of a peer in any 10 s, and two rows of a peer differ in wire ID and, within 10 s, in body |
| Store.SelectExact | internal/bridge/store.go:185-211 | a read of a state returns exactly its rows, and as many as the count |
| Store.SelectUnique | internal/bridge/store.go:185-211 | a read never returns a row twice |
| Store.ChangedExact | internal/bridge/store.go:320-332 | the reported changes are exactly the rows that moved, each once |
| Store.SelectAgedExact | internal/bridge/store.go:391-399 | the rows reported expired are exactly the held rows past their time |
| Store.MoveAgedIds | internal/bridge/store.go:391-402 | transitioning the collected IDs expires exactly the aged rows |
| Store.Store.constructor | internal/bridge/store.go:44-52 | a new database is empty and satisfies the invariant |
| Store.Store.Recent | internal/bridge/store.go:123-149 | the scan counts the peer's rows of the last ten seconds and finds a repeated body |
| Store.Store.Accept | internal/bridge/store.go:106-184 | the stepwise transaction has the specified new state and verdict, error cases included |
| Store.Store.Releasing | internal/bridge/store.go:300-315 | the capacity count of a release counts each named held row once, however often it is listed |
| Store.Store.MoveEach | internal/bridge/store.go:320-332 | one conditional update per listed ID moves exactly the named rows and reports each once |
| Store.Store.Transition | internal/bridge/store.go:293-378 | all or nothing: refused without any change when a release does not fit, otherwise rows, revision, wake and report as specified |
| Store.Store.FindAged | internal/bridge/store.go:387-399 | the hundred-row scan misses no aged held row |
| Store.Store.Expire | internal/bridge/store.go:379-416 | the maintenance transaction has the specified new state and report |
| Store.Store.BeginWake | internal/bridge/store.go:519-547 | an attempt is recorded exactly when something is unread and nothing is latched |
| Store.Store.FinishWake | internal/bridge/store.go:557-595 | the outcome is recorded only on the attempt it belongs to, and clears it when rejected, drained or overtaken |
| WakeLatch.StepKeepsSound | internal/bridge/worker.go:545-615 | every step of the notification protocol, a crash included, keeps the invariant that an attempt under way is latched or has been acknowledged past |
| WakeLatch.RunKeepsSound | internal/bridge/worker.go:545-615 | the invariant holds in every run and the acknowledgement revision never decreases |
| WakeLatch.NoBlindReplay | internal/bridge/store.go:517-595 | in every run with crashes anywhere, two notices without a rejection in between belong to attempts with strictly increasing acknowledgement revisions |
| WakeLatch.UnknownStaysLatched | internal/bridge/worker.go:557-581 | an attempt whose outcome is never learnt stays latched, through crashes and acknowledgements, while the unread queue is never empty |
| WakeLatch.AttemptStaysLatched | internal/bridge/worker.go:589-595 | this holds of every attempt that any run from an empty database makes |
| WakeLatch.LatchOpensExactly | internal/bridge/store.go:333-362 | a latch opens if and only if the queue drained, the attempt was rejected, an acknowledgement overtook a success, or success was learnt after an acknowledgement |
| WakeLatch.SuccessYieldsToAck | internal/bridge/store.go:333-350 | after a success is learnt at the current revision the wake stays pending until the first acknowledgement of an unread row clears it, even one that leaves others unread |
| WakeLatch.UncertainOutlastsAck | internal/bridge/store.go:346-349 | after an uncertain outcome the same acknowledgement leaves it latched while something is unread |
| WakeLatch.ExpireUnread | internal/bridge/store.go:403-414 | maintenance never changes the number of unread rows |
| WakeLatch.RepeatExactly | internal/bridge/worker.go:589-612 | after a notice, another can follow with neither rejection nor acknowledgement in between if and only if an acknowledgement came between its attempt and its submission |
| WakeLatch.OvertakenBeforeSubmission | internal/bridge/worker.go:589-595 | a run from an empty database that reaches such a state |
| Admission.HeldScan | internal/bridge/worker.go:845-848 | the hundred-row scan sees every held row once |
| Admission.ReadmitOne | internal/bridge/worker.go:849-868 | one turn changes only the row at hand, as the policy decides, and stops exactly for lack of room |
| Admission.Readmit | internal/bridge/worker.go:845-869 | after the pass the unread queue is full or no held row is admissible or refused, and rows changed only as the policy allows |
| Readmission.StepKeepsSound | internal/bridge/worker.go:845-869 | the pass, each count and transition a transaction of its own among any others, keeps what it has settled |
| Readmission.RunKeepsSound | internal/bridge/worker.go:845-869 | so does every interleaving |
| Readmission.PassSettles | internal/bridge/worker.go:845-869 | with accepts, acknowledgements, releases, declines and expiry between its steps, the pass stops early only at a full unread queue, and when it completes every message held at its start is one the policy holds or is no longer held |
| Readmission.ActsAsDecided | internal/bridge/worker.go:849-868 | a step of the pass changes no row but the one at hand, releasing it if held and admissible, declining it if held and refused |
| Paging.FittingExact | internal/bridge/store.go:244-263 | the rows taken fit the budget and with one more they would not |
| Paging.Fill | internal/bridge/store.go:244-263 | the loop takes exactly that many rows |
| Paging.Cut | internal/bridge/store.go:235-273 | messages, remaining count, has_more, cursor and the too-large error of one page |
| Paging.ReadPage | internal/bridge/store.go:217-274 | the whole read, a vanished cursor included |
| Paging.FilledPageFits | internal/bridge/store.go:241-271 | a page with messages plus its newline fits the response limit, because 129 bytes cover the later rewrites |
| Paging.PageFits | internal/bridge/store.go:241-273 | any successful page fits if and only if it has messages or the rest of the response fits by itself |
| Paging.CursorGoneExactly | internal/bridge/store.go:224-229 | a read is refused for its cursor if and only if no row has that ID |
| Paging.PageSize | internal/bridge/store.go:230-263 | a page has at most limit messages, and fewer only if nothing is left or the next one would exceed the budget |
| Paging.OversizedEmptyPage | internal/bridge/store.go:235-241 | a read of an empty inbox that succeeds with a response over the limit |
| Paging.TooLargeExactly | internal/bridge/store.go:255-258 | a read is refused as too large if and only if rows are left and the first of them does not fit |
| Paging.OversizedInfoBlocksReads | internal/bridge/store.go:255-258 | once the rest of the response reaches the limit, exactly the reads with rows left are refused |
| Paging.NextCursor | internal/bridge/store.go:224-230 | the ID of a row read is a cursor from which exactly the remaining rows follow |
| Paging.PageStep | internal/bridge/store.go:267-272 | a page is a prefix of what is left, counts the remainder exactly, and points where the rest begins |
| Paging.ChainReadsAll | internal/bridge/store.go:217-274 | following next_after yields every remaining row once in rowid order with exact counts, in at most one page more than there are rows |
| Paging.ChainExists | internal/bridge/store.go:244-263 | if each message fits a response, following the cursors reaches the end |
| Paging.ReadingIsComplete | internal/bridge/worker.go:696-701 | from the start, the pages are exactly the rows of the chosen state |
| Outbound.EndsReadExactly | internal/bridge/store.go:500-511 | "read" is absorbing and is reached if and only if the addressed peer reported it |
| Outbound.ReceiptSticks | internal/bridge/store.go:423-432 | a local write result never replaces a recipient's status |
| Outbound.StrangersIgnored | internal/bridge/store.go:500-512 | receipts from another process or a reused PID have no effect on any history |
| Outbound.AnyOrderEndsRead | internal/bridge/store.go:468-515 | every order of write result, acceptance and acknowledgement ends in "read" |
| Outbound.WritesDecide | internal/bridge/store.go:423-432 | without a report of the peer a row is failed if and only if some write failed, sent_unconfirmed if and only if it was written and none failed, else sending |
| Outbound.AcceptedExactly | internal/bridge/store.go:500-511 | with no other report a row is accepted if and only if an acceptance came before any write failed |
| Outbound.LastReportStands | internal/bridge/store.go:500-511 | "read" aside, the last report that is not an acceptance stands, or gives way to an acceptance after "held" or "released" |
| Outbound.LateAcceptance | internal/bridge/store.go:506-508 | acceptances change no report but "held" and "released" |
| Outbound.Outbox.constructor | internal/bridge/store.go:44-52 | the table starts empty |
| Outbound.Outbox.Sent | internal/bridge/store.go:423-432 | a write result touches only its own row, as the state rule says |
| Outbound.Outbox.Correlate | internal/bridge/store.go:468-515 | each row named in the first 101 IDs hears the receipt once, every other row is untouched |
| Receipts.ControlStep | internal/bridge/worker.go:702-735 | the statuses sent for an acknowledgement, release or decline are earned by the rows that moved |
| Receipts.ArriveStep | internal/bridge/worker.go:340-372 | the statuses sent for an arriving message are earned by what the inbox committed |
| Receipts.MaintainStep | internal/bridge/worker.go:493-499 | the statuses sent for expired messages are earned by rows that left the held queue as expired |
| Receipts.ArrivalIsReported | internal/bridge/worker.go:355-372 | an arriving message queues exactly its own receipt, stored or dropped, after that of the row it evicted |
| Receipts.MoveIsReported | internal/bridge/worker.go:720-733 | every row a transition moves has its own status, and there are no others |
| Receipts.AgeIsReported | internal/bridge/worker.go:493-499 | every held row over 300 s has its own "expired" status, and there are no others |
| Receipts.SendIsRecorded | internal/bridge/store.go:417-422 | a message sent is on the wire and in the table as sending to its target |
| Receipts.ReceiptIsHeard | internal/bridge/worker.go:416-446 | a queued receipt, emitted and delivered, is heard by the message it speaks of as from its sender |
| Receipts.StepKeepsTruth | internal/bridge/worker.go:333-446 | sending, losing, duplicating, reordering, retention, restarting and every other step keep all claims in tables, queues and on the wire true |
| Receipts.RunKeepsTruth | internal/bridge/worker.go:333-446 | so does every run |
| Receipts.ReceiptsAreTrue | internal/bridge/store.go:468-515 | in every run a row in "accepted" or "held" was committed as unread or held by its target, and one in "read", "declined" or "expired" was moved there by it |
| Launch.ProbeIsSound | internal/bridge/lifecycle.go:21-39 | a definite answer of the liveness probe is right, reused PIDs included |
| Launch.ProbeIsExact | internal/bridge/lifecycle.go:28-38 | whenever ps answers about an owner with a start time the answer is definite and right |
| Launch.StepKeepsSound | internal/bridge/launch.go:118-239 | every step of a launch or shutdown, unlocked socket changes and any exit included, keeps the lock and ownership invariant |
| Launch.RunKeepsSound | internal/bridge/launch.go:118-239 | so does every run |
| Launch.OneClientPerThread | internal/bridge/launch.go:26-48 | no thread ever has two live launcher-owned clients, even when probes may answer "unknown" at any time |
| Launch.LaunchGoesOn | internal/bridge/launch.go:37-47 | a resume goes on exactly when no owner is recorded or the owner is known to be gone |
| Launch.LaunchIsRecorded | internal/bridge/launch.go:181-191 | a launch records its process and its socket for its thread, and so it stays while the process lives and nobody moves the thread |
| Launch.LiveOwnerKeepsThread | internal/bridge/launch.go:125-131 | a recorded owner that is still alive is never displaced |
| Launch.NoLaunchAtSignal | internal/bridge/appserver_stop.go:30-134 | SIGTERM is never sent while a launch is in its critical section |
| Launch.SignalIsSafe | internal/bridge/appserver_stop.go:202-247 | when SIGTERM is sent, a live owner is recorded for the socket if and only if a thread was moved to it without the lock since the shutdown took the lock, was not moved again, and its owner has not exited |
| Launch.NoClientAtSignal | internal/bridge/appserver_stop.go:202-247 | when SIGTERM is sent for a socket, no process launched on it still runs unless its thread was moved |
| Launch.StopKeepsSocket | internal/bridge/appserver_stop.go:30-134 | a shutdown signals the socket it was started for |
| Launch.MovedDuringShutdown | internal/bridge/manager.go:208-279 | a run in which that happens |
| Names.StepKeepsSound | internal/bridge/worker.go:783-839 | starts, renames, abandoned renames, rollbacks, republication with any outcome and exits keep listed names distinct |
| Names.RunKeepsSound | internal/bridge/lifecycle.go:43-79 | so does every run |
| Names.NamesStayUnique | internal/bridge/protocol.go:342-385 | the listing never shows two workers under one name |
| Renames.ScanPasses | internal/bridge/lifecycle.go:55-66 | the check of a name that no listed entry carries passes |
| Renames.FreeNameIsTaken | internal/bridge/worker.go:798-839 | a running worker can rename itself to any name that no other listed entry carries, and the registry then shows it |
| AppClient.StepKeepsSound | internal/bridge/appserver.go:148-245 | every critical section keeps at most one value due on each reply channel |
| AppClient.RunKeepsSound | internal/bridge/appserver.go:148-245 | so does every interleaving, and a closed connection stays closed and empty |
| AppClient.SendNeverBlocks | internal/bridge/appserver.go:190-214 | every send finds its capacity-one channel empty and carries its own call's answer or the loss of the connection |
| AppClient.CallIsPending | internal/bridge/appserver.go:217-227 | until the connection closes, a call gets an ID never used before and waits |
| AppClient.AnswerArrives | internal/bridge/appserver.go:186-200 | the answer to a waiting call is the one value that call receives |
| AppClient.ReceivedIsReal | internal/bridge/appserver.go:186-213 | whatever a call received came over the connection under its ID, or is the loss of the connection |
| AppClient.FailTellsWaiters | internal/bridge/appserver.go:203-214 | losing the connection closes it and tells every waiting call and nobody else |
| AppClient.WaiterIsServed | internal/bridge/appserver.go:217-245 | a waiting call is in the table, about to be answered, or answered; after closing it has its value |
| AppClient.ClosedStaysEmpty | internal/bridge/appserver.go:203-228 | closed implies an empty table for good, and no new call |
| AppClient.RecordedIsCurrent | internal/bridge/appserver.go:324-333 | the recorded flag always speaks of the notice watched now |
| AppClient.RecordedExactly | internal/bridge/appserver.go:166-177 | the recorded flag is set if and only if the watched item was completed while watched without a break until now |
| AppClient.Broadcast | internal/bridge/appserver.go:210-213 | the failure loop sends exactly one loss to every waiting call |
| AppClient.Connection.constructor | internal/bridge/appserver.go:99-144 | a new connection has no calls |
| AppClient.Connection.Call | internal/bridge/appserver.go:217-227 | a call gets a new ID and an empty channel, unless closed |
| AppClient.Connection.Take | internal/bridge/appserver.go:190-193 | a reply takes its own call off the table, an unknown ID nothing |
| AppClient.Connection.Put | internal/bridge/appserver.go:194-200 | the reply taken is sent to its own call |
| AppClient.Connection.Fail | internal/bridge/appserver.go:203-215 | failing closes once and serves every waiting call |
| AppClient.Connection.Return | internal/bridge/appserver.go:228-228 | a returning call leaves the table |
| AppClient.Connection.Watch | internal/bridge/appserver.go:324-332 | watching something else forgets what was recorded |
| AppClient.Connection.Completed | internal/bridge/appserver.go:166-177 | only the watched output sets the recorded flag |
| Mcp.StepKeepsSound | internal/bridge/mcp.go:157-242 | every step keeps cancelled within inflight, one slot per handler, and one handler per key |
| Mcp.RunKeepsSound | internal/bridge/mcp.go:112-257 | so does every run |
| Mcp.OneResponsePerCall | internal/bridge/mcp.go:193-243 | at most 16 handlers; every call gets at most one response, and exactly one once settled unless cancelled in flight |
| Mcp.OnlyOwnCancel | internal/bridge/mcp.go:157-166 | whatever else is cancelled, only a cancellation of its own key can silence a call |
| Mcp.AdmittedAnswered | internal/bridge/mcp.go:193-242 | an admitted call, once settled, has its one response unless its key is cancelled after its admission; earlier cancellations, of a reused ID included, have no effect |
| Mcp.SilencedExactly | internal/bridge/mcp.go:157-166 | in every run a call is silenced if and only if some cancellation of its key found it in flight |
| Mcp.TakenUpExactly | internal/bridge/mcp.go:194-214 | a call is taken up exactly when its key is not in flight and fewer than 16 handlers run; otherwise its refusal is its one response |
| Mcp.Loop.constructor | internal/bridge/mcp.go:113-118 | the tables start empty |
| Mcp.Loop.Receive | internal/bridge/mcp.go:194-204 | a key in flight is refused, any other is entered |
| Mcp.Loop.Admit | internal/bridge/mcp.go:205-214 | a slot is taken, or the key withdrawn and the call refused |
| Mcp.Loop.Cancel | internal/bridge/mcp.go:157-166 | only a key in flight is marked |
| Mcp.Loop.Finish | internal/bridge/mcp.go:235-241 | the response is written unless the call was cancelled in flight, and both marks are cleared |
| Mcp.Loop.Free | internal/bridge/mcp.go:217-217 | the slot is given back |
| Drops.ReasonRecovered | internal/bridge/worker.go:405-406 | the reason is recovered from the batch key if and only if the address has no NUL |
| Drops.KeyInjective | internal/bridge/worker.go:383-383 | NUL-free drops share a batch only with the same address and reason |
| Drops.Summarise | internal/bridge/worker.go:401-406 | one request carries its batch once, in order |
| Drops.Summaries | internal/bridge/worker.go:397-407 | every batch becomes exactly one request, in any map order |
| Drops.ReportedOnce | internal/bridge/worker.go:392-408 | every retained drop is in exactly one request, once, under its own address and reason |
| Drops.NothingTruncated | internal/bridge/store.go:474-480 | no request is long enough for the receiver to cut an ID off |
| Drops.DropBox.constructor | internal/bridge/worker.go:102-102 | no drops are pending at first |
| Drops.DropBox.Add | internal/bridge/worker.go:380-391 | a drop is kept unless its batch or the set of batches is full, and nothing else changes |
| Drops.DropBox.Flush | internal/bridge/worker.go:392-408 | flushing reports all batches and leaves none |
| Envelope.EscapeThenUndo | internal/bridge/protocol.go:421-454 | escaping the closing tag and undoing it only turns escaped tags already present into plain ones |
| Envelope.ReplaceFixes | internal/bridge/protocol.go:454-454 | undoing leaves a text unchanged if and only if it has no escaped tag |
| Envelope.NormalizeIsNormal | internal/bridge/protocol.go:402-413 | a normalised name has at most 64 code points, nothing droppable and no space at either end |
| Envelope.NormalizeIdempotent | internal/bridge/protocol.go:402-413 | normalising twice is normalising once |
| Envelope.NormalizeExactly | internal/bridge/protocol.go:402-413 | a normalised name is the name without dropped code points and the spaces around the rest, cut to 63 and an ellipsis beyond 64 |
| Envelope.NormalIsFixed | internal/bridge/protocol.go:402-413 | a name already normal is unchanged |
| Codec.UnescapeEscape | internal/bridge/protocol.go:421-452 | unescaping an escaped attribute value returns the value |
| Codec.EscapeIsQuotable | internal/bridge/protocol.go:421-421 | an escaped value contains neither quote, and no angle bracket |
| Codec.WordLength | internal/bridge/protocol.go:431-431 | the attribute name found is the longest run of word characters |
| Codec.InnerAttributes | internal/bridge/protocol.go:451-453 | the scanner finds exactly the three attributes the encoder wrote |
| Codec.MatchBuilt | internal/bridge/protocol.go:430-450 | the pattern finds the attribute text and the body of every text of the envelope's shape, whatever the body contains |
| Codec.UniqueShape | internal/bridge/protocol.go:430-430 | a text has the envelope's shape in at most one way |
| Codec.MatchExactly | internal/bridge/protocol.go:430-430 | the pattern matches if and only if the text has the envelope's shape |
| Codec.DecodeFails | internal/bridge/protocol.go:434-447 | each error of the decoder, if and only if the frame calls for it |
| Codec.DecodePlain | internal/bridge/protocol.go:448-460 | a text that is no envelope is its own body, without name, mode or hop chain |
| Codec.AttributesListed | internal/bridge/protocol.go:451-453 | the scanner finds any list of attributes as written |
| Codec.LookupDeclared | internal/bridge/protocol.go:451-453 | the last attribute of a name counts |
| Codec.DecodeEnvelope | internal/bridge/protocol.go:450-460 | an envelope with any attributes gives its body and the name, mode and hop chain they declare |
| Codec.EncodeFails | internal/bridge/protocol.go:415-426 | each refusal of the encoder, if and only if the message calls for it |
| Codec.DecodeUser | internal/bridge/protocol.go:433-461 | the decoder computes its specification, each error case included |
| Codec.FillAttributes | internal/bridge/protocol.go:451-453 | the loop fills the map with the last value of each name |
| Codec.DecodeEncoded | internal/bridge/protocol.go:414-461 | a message with a body and a known mode is encoded or refused for its size, and decoding it gives the body with escaped tags made plain, the normalised name, the mode, the address and the ID |
| Codec.ExactRoundTrip | internal/bridge/protocol.go:414-461 | the body comes back exactly if and only if it has no escaped closing tag |
| Sockets.LinkInode | internal/bridge/appserver_connections_linux.go:184-194 | a descriptor link gives a positive 64-bit inode or nothing |
| Sockets.LinkExactly | internal/bridge/appserver_connections_linux.go:184-194 | a link is understood if and only if it is a positive 64-bit decimal numeral in its brackets |
| Sockets.LinkPrinted | internal/bridge/appserver_connections_linux.go:184-194 | the printed link of an inode gives that inode back |
| Sockets.WantedInodes | internal/bridge/appserver_connections_linux.go:197-206 | the wanted inodes are exactly those of the socket descriptors, and any malformed socket link is an error |
| Sockets.ParseUnix | internal/bridge/appserver_connections_linux.go:269-309 | the map holds exactly the rows with an inode; a bad row, another protocol or a repeated inode is an error, and nothing else is |
| Sockets.ParseOther | internal/bridge/appserver_connections_linux.go:331-357 | the same for the other tables |
| Sockets.PickUnix | internal/bridge/appserver_connections_linux.go:215-220 | the owned Unix sockets are picked |
| Sockets.AddTable | internal/bridge/appserver_connections_linux.go:239-246 | a table adds the owned sockets it lists, and one already known is an error |
| Sockets.ReadTables | internal/bridge/appserver_connections_linux.go:224-251 | tables are read in turn until every socket is classified; a missing table is skipped |
| Sockets.ReadSockets | internal/bridge/appserver_connections_linux.go:196-252 | one reading classifies every owned socket or fails |
| Sockets.Tally | internal/bridge/appserver_connections_linux.go:78-97 | the loop counts distinct listeners and clients on the path and refuses anything else there |
| Sockets.Connections | internal/bridge/appserver_connections_linux.go:50-98 | within scope and deadline, two snapshots and two readings must agree before the count is given |
| Sockets.ClassifySound | internal/bridge/appserver_connections_linux.go:221-247 | later tables change nothing already known and call nothing a Unix socket |
| Sockets.ClassifyExactly | internal/bridge/appserver_connections_linux.go:224-250 | a reading succeeds if and only if some first tables are missing or well formed, repeat no owned socket, are each still needed, and together classify all |
| Sockets.CountIsUnix | internal/bridge/appserver_connections_linux.go:78-91 | sockets of other protocols never affect the count, and every owned socket is listed somewhere |
| Sockets.InventoryExact | internal/bridge/appserver_connections_linux.go:50-98 | the answer is n if and only if the views agree, one distinct inode listens and n + 1 distinct inodes are connected on the path |
| Sockets.DuplicatesDoNotCount | internal/bridge/appserver_connections_linux.go:45-49 | the answer depends on which links exist, not on how many descriptors hold each |
| Sockets.OneMoreSocket | internal/bridge/appserver_connections_linux.go:78-97 | one more socket adds one if it is a client, nothing if unrelated, and is refused if unclassified or of another kind on the path |
| Sockets.SurveyExact | internal/bridge/appserver_connections_linux.go:224-250 | on disjoint, well-formed tables every socket is classified if and only if some table lists it |
| Sockets.OneMoreIsClassified | internal/bridge/appserver_connections_linux.go:224-250 | on such tables one more socket is classified if and only if some table lists it |
| UnixTable.CutFields | internal/bridge/appserver_connections_linux.go:271-282 | the loop cuts a line into its first seven fields and the rest, or finds fewer |
| UnixTable.ReadValues | internal/bridge/appserver_connections_linux.go:283-297 | the seven values are read if and only if the address ends in a colon and every numeral is valid and below 2^64 |
| UnixTable.ParseRow | internal/bridge/appserver_connections_linux.go:270-307 | a line gives the row it spells, or is malformed |
| UnixTable.FieldsSpelled | internal/bridge/appserver_connections_linux.go:272-282 | fields come back whatever the width of the blank gaps between them |
| UnixTable.RowPrinted | internal/bridge/appserver_connections_linux.go:270-307 | reading a printed row, with any widths and gaps, gives the row without the blanks in front of its path |
| UnixTable.RowRoundTrip | internal/bridge/appserver_connections_linux.go:307-307 | the row comes back if and only if its path does not start with a blank |
| UnixTable.ReadUnix | internal/bridge/appserver_connections_linux.go:261-310 | the text of a table gives exactly the entries of its lines, or an error for an incomplete text, a wrong header or a bad row |
| UnixTable.TableRoundTrip | internal/bridge/appserver_connections_linux.go:254-270 | a table written line by line is read line by line |
| ReleaseTag.ValidIdentifiers | internal/release/release.go:428-447 | accepts exactly dot-separated identifiers of the grammar, leading zeros included |
| ReleaseTag.ScanIdentifier | internal/release/release.go:430-441 | tells whether an identifier is valid and whether it is numeric |
| ReleaseTag.ValidNumber | internal/release/release.go:416-423 | accepts exactly the numeric identifiers without leading zeros |
| ReleaseTag.ValidCore | internal/release/release.go:411-425 | accepts exactly three numeric identifiers |
| ReleaseTag.ValidTag | internal/release/release.go:398-426 | accepts a tag if and only if it decomposes into a well-formed version |
| ReleaseTag.DecomposePrint | internal/release/release.go:402-411 | printing a version and cutting it gives the version back |
| ReleaseTag.PrintDecompose | internal/release/release.go:402-411 | whatever decomposes is the printed form of its decomposition |
| ReleaseTag.UniqueDecomposition | internal/release/release.go:402-411 | a tag is a version in at most one way |
| ReleaseTag.AcceptsExactlySemVer | internal/release/release.go:398-447 | the accepted tags are exactly "v" and a version in the grammar of sections 2, 9 and 10 of Semantic Versioning 2.0.0 |

## Left out

- Time is a real number of seconds that never runs backwards; float64 rounding of stored timestamps is not modelled.
- `ack_revision` is an exact integer; the program passes it through a JSON float64 at `internal/bridge/store.go:587`.
- The order of rows with equal arrival times in SQLite's `ORDER BY received` is taken to be rowid order.
- A SQLite or I/O error rolls a transaction back and is the same as not running it; the errors themselves are not modelled.
- Wakes written by older versions without a name, and the `retry_at`, `delivery_waiting` and `delivery_error` metadata with `ResetDelivery`.
- The 30 s backoff after a rejected notice: it is written in a separate transaction and only delays attempts.
- Admission.Readmit: one pass by itself; Readmission.PassSettles is the pass among other transactions, and there promises nothing of messages held only after the scan.
- Paging.PageFits: JSON length is additive and every stored ID is a 36-byte UUID, as the store generates them.
- Paging.ChainReadsAll: the store does not change between the pages, as the cursor contract assumes.
- Receipts.ReceiptsAreTrue: covers "accepted", "held", "read", "declined" and "expired"; "released" and "refused" may be reported without a change at `internal/bridge/worker.go:859-867`, and "dropped" records no row.
- Store.Store.Expire: the deletion of old outbound rows in the same transaction is part of the maintenance event of Receipts.StepKeepsTruth, not of the class.
- Receipts.StepKeepsTruth: a peer keeps its identity across a restart, which loses only its queue of unsent statuses; the program gives it a new PID, under which its receipts no longer match.
- Receipts.ArriveStep: return addresses are honest, so the address in a message is that of its kernel-verified sender.
- Outbound.Outbox.Correlate: a peer is its PID and start time; the rule for peers in another PID domain is not modelled.
- Convergence when a send is recorded as "failed" before "accepted" arrives: the code does not make the two commute.
- Launch.OneClientPerThread: launches through sockets in different directories take different locks and are not covered.
- Launch.SignalIsSafe: active threads and open connections, which can only refuse a shutdown, are not modelled.
- Launch.StepKeepsSound: the unlocked first owner check of a resume, which can only refuse earlier, and the start-up and identity checks of the app-server.
- Names.NamesStayUnique: liveness probes are exact and each worker keeps one owner; sessions that are not bridge workers are not modelled.
- Codec.DecodeEncoded: UTF-8 validity is not modelled, since texts are sequences of code points; the size limit and the HTML entity and Unicode tables are parameters.
- Sockets.ParseOther: the header and field checks of the Internet and netlink tables; their rows are given as inodes or as unreadable.
- UnixTable.ReadUnix: the header's words are separated by ASCII white space only.
- Mcp.OneResponsePerCall: request parsing, `initialize` and the list methods.
- AppClient.Connection.Put: JSON decoding of replies and the refusal of server requests.
- Drops.DropBox.Flush: the status queue behind it may be full and drop a request; batches themselves are never empty.
- Sockets, WebSockets, `ps`, `lsof`, `/proc` and file locks appear only as results, messages and lock steps; file ownership and symlink vetting is left out.
- The macOS connection count, `launch_handshake.go`, `install.go`, the release build, the CLI, hooks and tool schemas would add only easy members.
