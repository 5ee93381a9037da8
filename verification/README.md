# Verified model of the email-to-Matrix bridge

The bridge turns mail (IMAP or Microsoft Graph) into Matrix room events. This project models the
parts of it that carry state, loops or arithmetic, in the form the Go code has them - methods that
change fields, loops over strings and trees, a step machine where goroutines interleave - and proves
what they keep over all inputs, all runs and all interleavings.

| file | what it models |
|---|---|
| `DeltaSync.dfy` | the Graph delta cursor as a step machine: backfills, reconciles, subscription creation and expiry renewal interleave over one row that each reads, modifies and replaces as a whole; the server is any server that names no position beyond what it served |
| `DeltaLoop.dfy` | the page loop, `runBackfill` and `reconcile` as imperative code, and the proof that the loop is a run of that machine |
| `DeltaRuns.dfy` | whole backfills, reconciles, creations and renewals as runs of that machine: what each leaves in the row, and what a server that serves its whole log gets delivered |
| `DeltaSubscriptions.dfy` | which subscription the shared row carries, over every run of that machine |
| `SelfHeal.dfy` | the self-heal pass interleaved with deliveries, over message mappings with several parts and the live events in rooms |
| `BreakerSteps.dfy` | the circuit breaker with every atomic access to the half-open counter a step of its own |
| `BreakerRuns.dfy` | its runs: the state as a function of the calls that ran, who gets to the gate, and runs from a new breaker on in which the gate misbehaves |
| `Breaker.dfy` | the same breaker one call at a time, with the callback that mirrors it into the coordinator |
| `Coordinator.dfy` | the bridge state coordinator against the history of events |
| `Retry.dfy` | the backoff schedule, and the retry loop through the breaker |
| `AgeSort.dfy`, `Threading.dfy` | the thread manager: two maps over shared mutable thread objects, in-place insertion sort, eviction, clean-up, thread determination |
| `UidCursor.dfy`, `UidSteps.dfy`, `UidAccount.dfy` | the last-seen UID of an IMAP mailbox: one check at a time, overlapping checks as a step machine, and the account of every UID over its runs |
| `Dom.dfy`, `Tables.dfy`, `ReaderMode.dfy`, `Breaks.dfy`, `Extract.dfy` | the reader-mode tree passes, table flattening, the whole pipeline, its line breaks, and the bulk pruner |
| `Survival.dfy`, `Pruning.dfy` | what every pass keeps and the pruner takes, read off the tree before it, and what of a mail reaches the end |
| `Utf8.dfy`, `BodySizing.dfy`, `Strippers.dfy`, `Remains.dfy`, `Minify.dfy` | UTF-8 (RFC 3629), truncation, JSON size (RFC 8259, section 7), chunking, the string strippers, what they leave, and what they leave when composed |
| `Common.dfy` | options and sequences without repetitions |

Each imperative method is proved equal to a function of its inputs or of the old state, or its new
state is given outright. What the source promises is proved about that function, and what the
function computes is stated a second time without it: as a predicate on the input, as a run of a
machine, or as the fate of every node, byte or id.

## What came out

Promises that the code does not keep, each with its witness and the exact condition under which it
does:

* Flattening layout tables loses everything outside the cells, a caption for instance
  (`CaptionIsLost`). Which nodes survive is read off the input (`FlatKeepsExactly`); visible text is
  kept exactly when no dissolved table has any outside its cells (`FlatKeepsTextIff`).
* Removing hidden elements a second time can remove more. It removes nothing exactly when every
  font-collapsed element that stays has a child element that stays (`HidingIsStableIff`).
* The limit of two line breaks is not kept once empty blocks are gone; how many breaks stand in a row
  at the end is read off the input (`BreaksAfterCollapse`).
* The minifier's steps each remove all they look for, but removing a script can complete a comment
  (`CommentIsSpliced`). `MinifiedMeans` says when the result is free of comments and scripts.
* Self-heal looks at the last part of a message only. A message whose text arrived and whose last
  attachment did not is delivered again, text included (`TwoPartsCanDuplicate`); with single-part
  messages, or when no part is visible any more, nothing is ever shown twice.
* A stale write-back of the stored Graph row never makes the cursor unsafe, but it puts an old
  subscription back (`RenewalIsLostFromStart`). The row carries the subscription created or renewed
  last throughout a run exactly when no write-back of the run has a subscription stored between its
  load and its write (`SubscriptionsSurviveIff`).
* The half-open gate can be overrun by as many calls as older tokens come back after a reset, and by
  no more (`TokensAreAccounted`). It happens, in a run that starts with a new breaker
  (`GateIsOverrun`), and the counter goes below zero as soon as the first trial call succeeds
  (`CounterGoesNegative`). A call nested inside a trial call, as IDLE recovery makes one, is refused
  while the counter is at its limit (`FullGateRefuses`); an older token that comes back meanwhile lets
  it through.
* `Reset` does not fire the state change callback, so the coordinator can keep showing an open
  circuit (`Breaker.CircuitBreaker.Reset`).
* The first sync of a mailbox that never held a message (UIDNEXT 1) leaves the last UID at 0, so the
  second one skips what arrived in between (`BaselineIsUsableIff`, `EmptyMailboxSkips`).
* Overlapping checks can attempt a message twice. In every run a UID is attempted as often as cursor
  writes named it, less the turns that met it in flight and the lists that still hold it
  (`UidsAreAccounted`), so it is attempted at most once exactly when at most one naming is left over
  (`AttemptedOnceIff`). The cursor moves back exactly when it has passed all that a check found
  (`WriteMovesBackIff`).

And promises that hold more widely than the code seems to trust: the cap of fifty chunks and its
notice are never reached, for well-formed text or not (`CapNeverReached`); the coordinator's fallback
state and the sequential breaker's "too many requests" never occur.

## Model

| member | source | states |
|---|---|---|
| DeltaSync.CursorSafety | pkg/connector/graph_delta.go:48-247 | after any interleaving of any number of backfills, reconciles, subscription creations and renewals, with any page, load or save failing, the stored delta link is empty or names a position before which every readable change was handed to delivery; every finished walk made at most 1000 page fetches |
| DeltaSync.StepIsSafe | pkg/connector/graph_store.go:72-89 | each single step keeps that, whichever goroutine moves, also when the row it writes back as a whole was read long before |
| DeltaSync.Parsed | pkg/connector/graph_delta.go:94-99 | the messages of a page that are handed over are exactly the readable changes it covers |
| DeltaSync.RenewalCanBeLost | pkg/connector/graph_subscription.go:164-180 | from every safe state with a stored link there is a run in which a renewal is stored and then undone by a reconcile that had read the row before |
| DeltaSync.RenewalIsLostFromStart | pkg/connector/graph_subscription.go:164-180 | from the very start, with any subscription and any new expiry, there is a run after which the renewed expiry is stored, and a continuation after which the old one is stored again |
| DeltaSubscriptions.WriteBackKeepsIff | pkg/connector/graph_store.go:72-89 | over every run: after a reconcile, a backfill or a resync writes its copy back, the row carries the subscription created or renewed last if and only if it did when the copy was loaded and no subscription was stored since |
| DeltaSubscriptions.RenewalExtendsIff | pkg/connector/graph_subscription.go:164-180 | over every run: a renewal stores its own copy's subscription with a new expiry, and that extends the latest one, rather than an older one, under the same condition |
| DeltaSubscriptions.SubscriptionsSurviveIff | pkg/connector/graph_delta.go:48-247 | the row carries the subscription created or renewed last throughout a run if and only if no stored write-back of the run has a subscription stored between its load and its write |
| DeltaLoop.WalkFrom | pkg/connector/graph_delta.go:68-138 | a walk asks the server at most 1000 times, for any server |
| DeltaLoop.WalkCovers | pkg/connector/graph_delta.go:68-138 | a walk that ends in a delta link has handed over every readable change before that link, and loses none that was covered before |
| DeltaLoop.WalkIsRun | pkg/connector/graph_delta.go:68-138 | the loop, started anywhere, is a run of the step machine that ends in the machine's state for how the loop ended |
| DeltaLoop.Connector.WalkPages | pkg/connector/graph_delta.go:68-138 | the loop hands over, in order, exactly what the specified walk does, and ends the same way |
| DeltaLoop.Connector.RunBackfill | pkg/connector/graph_delta.go:48-139 | messages are handed over as the walk says; if the walk ended in a delta link and the row exists and can be loaded and saved, the stored link is that one afterwards and the subscription is the old one, and in every other case the row is what it was; cursor safety is kept |
| DeltaLoop.Connector.Reconcile | pkg/connector/graph_delta.go:145-247 | for every path the stored link, the old subscription and what is handed over: the new delta link after a finished walk that could be saved, the old one after one that stopped, and after a resync the backfill's link, the empty one, or the old one if even the clearing failed; cursor safety is kept on all of them |
| DeltaRuns.BackfillIsRun | pkg/connector/graph_delta.go:48-139 | a whole backfill, load and write included, is a run of the step machine, and the machine's stored row and handed positions are those of the method |
| DeltaRuns.ReconcileIsRun | pkg/connector/graph_delta.go:145-247 | the same for a whole reconcile on every path, the backfill after a resync included |
| DeltaRuns.CreationIsRun | pkg/connector/graph_subscription.go:47-160 | a creation stores the new subscription and carries over the link of the row it loaded, if it could load one |
| DeltaRuns.RenewalIsRun | pkg/connector/graph_subscription.go:164-180 | a renewal changes the expiry in the stored row and nothing else |
| DeltaRuns.WalkCompletes | pkg/connector/graph_delta.go:68-138 | with a server that serves its log page by page, a walk ends at the end of the log and hands over every readable change from its link on, once and in order |
| DeltaRuns.StuckWalkStops | pkg/connector/graph_delta.go:124-134 | a page without a delta link whose next link is missing or its own ends the walk after that page |
| SelfHeal.CleanRunsHaveNoDuplicates | pkg/connector/graph_selfheal.go:72-136 | over any interleaving of deliveries, losses and heal steps in which every heal deletion happens when no part of the message is visible, no part of any message is ever visible twice |
| SelfHeal.UncleanDeleteDuplicates | pkg/connector/graph_selfheal.go:119-131 | and only then: a deletion while some part is visible, followed by a complete re-delivery, shows that part twice |
| SelfHeal.SinglePartsNeverDuplicate | pkg/connector/graph_selfheal.go:94-131 | messages of one part are never visible twice, over every run, given that a room answers "not found" only for a missing event |
| SelfHeal.TwoPartsCanDuplicate | pkg/connector/graph_selfheal.go:94-99 | a run of five steps after which a two-part message has its text in the room twice, because only the last part is looked at |
| SelfHeal.OrphanIsHealed | pkg/connector/graph_selfheal.go:115-131 | a message whose only event is gone is visible exactly once after one undisturbed pass |
| BreakerSteps.TokensAreAccounted | pkg/reliability/circuit_breaker.go:82-214 | over every interleaving of calls, resets and time: the counter is the unreleased tokens of this epoch minus the older tokens released since the reset; the trial calls let through never exceed the limit by more than those; closed if and only if failures are below the maximum |
| BreakerSteps.StepIsAccounted | pkg/reliability/circuit_breaker.go:104-190 | every atomic step, under the lock or not, keeps that account |
| BreakerSteps.StaleReleaseAdmitsOneMore | pkg/reliability/circuit_breaker.go:90-94 | in every state the account allows: with the gate full, a token of an older epoch coming back lets exactly one more trial call in |
| BreakerSteps.CounterCanBeNegative | pkg/reliability/circuit_breaker.go:173-176 | in every state the account allows, a sole trial call that succeeds leaves the counter at -1 |
| BreakerSteps.FullGateRefuses | pkg/imap/client.go:1999-2028 | while the counter is at its limit another call, a nested one included, is refused and changes nothing but its own place |
| BreakerRuns.CounterGoesNegative | pkg/reliability/circuit_breaker.go:154-190 | for a gate of one, any maximum of failures and any timeout, a run of a new breaker leaves it closed with the counter at -1 |
| BreakerRuns.GateIsOverrun | pkg/reliability/circuit_breaker.go:82-151 | and another run leaves two trial calls of one epoch running behind that gate |
| BreakerRuns.HistoryIsKept | pkg/reliability/circuit_breaker.go:154-190 | over every interleaving the failure count, the last failure time and closedness are those of the calls that ran since the last reset, as for one caller at a time |
| BreakerRuns.EntryIff | pkg/reliability/circuit_breaker.go:104-151 | at every step: nobody comes to the gate while the breaker is open, a call is refused at the locks only while it is open, before them only within the timeout, and at the gate only when it is full |
| BreakerRuns.OpenGateIff | pkg/reliability/circuit_breaker.go:104-151 | an undisturbed call that finds the breaker open becomes the trial call of a fresh gate if the timeout has passed, and otherwise leaves no trace |
| Breaker.CircuitBreaker.Execute | pkg/reliability/circuit_breaker.go:82-101 | a call runs if and only if the trailing executed failures are below the maximum or the timeout has passed since the last one; a refusal is always "open" and leaves no trace; every state change fires one callback, in an unbroken chain, and reports one event to the coordinator, which then shows the breaker's state |
| Breaker.CircuitBreaker.CheckStateAndIncrement | pkg/reliability/circuit_breaker.go:104-151 | the gate's decision and the counter in every state, half-open included |
| Breaker.CircuitBreaker.RecordResult | pkg/reliability/circuit_breaker.go:154-190 | failures, state, time and counter after a result; a callback exactly when the state changed |
| Breaker.CircuitBreaker.Reset | pkg/reliability/circuit_breaker.go:207-214 | a fresh history; afterwards the coordinator shows the right circuit if and only if it showed a closed one before |
| Breaker.CircuitBreaker.Fire | pkg/imap/client.go:379-407 | one callback makes the coordinator's circuit the new state, by one event |
| Breaker.NewCircuitBreaker | pkg/reliability/circuit_breaker.go:57-72 | refused exactly for limits that are not positive |
| Breaker.TrailingMeans | pkg/reliability/circuit_breaker.go:159-171 | the failure count of the specification is the length of the longest all-failed suffix of the executed calls |
| Coordinator.StateCoordinator.ReportEvent | pkg/coordinator/state_coordinator.go:100-120 | with a login, after every event the last state sent is the one the whole history calls for; throttling only ever drops a repetition, exactly when nothing changed within 30 seconds |
| Coordinator.StateCoordinator.UpdateComponentState | pkg/coordinator/state_coordinator.go:123-185 | the fields are functions of the event history |
| Coordinator.LatestMeans | pkg/coordinator/state_coordinator.go:128-151 | a flag of the history is set if and only if some setting event is followed by no clearing one |
| Coordinator.MeaningMeans | pkg/coordinator/state_coordinator.go:188-219 | every state and error in terms of the events alone: an open circuit and a lost inbox are unreachable, a connection that does not idle is a transient disconnect, with the last inbox event's error or the usual one |
| Coordinator.OpenCircuitMeans | pkg/coordinator/state_coordinator.go:175-184 | the circuit counts as open if and only if some opening event is followed by no closing or half-opening one |
| Coordinator.ConnectedIff | pkg/coordinator/state_coordinator.go:188-219 | the state is Connected if and only if the latest inbox connection, idle and circuit events all say so; Starting is never computed from a history |
| Coordinator.FallbackIsDead | pkg/coordinator/state_coordinator.go:188-219 | the last branch, which falls back to Starting, is never taken whatever the fields are |
| Retry.DelaysGrow | pkg/reliability/retry.go:126-150 | the base delay lies between the initial and the maximum delay, never decreases, and strictly grows until it reaches the maximum |
| Retry.DelaysMultiply | pkg/reliability/retry.go:126-150 | the first base delay is the initial one, each later one is the one before times the factor, up to the maximum |
| Retry.CappedDelay | pkg/reliability/retry.go:130-150 | comparing exponents instead of products, as the source does, yields min(Initial * factor^n, Max) |
| Retry.CalculateDelay | pkg/reliability/retry.go:126-170 | with jitter the delay is the base delay stretched by up to a quarter in proportion to the random number, capped at the maximum; without jitter it is the base |
| Retry.WaitBounds | pkg/reliability/retry.go:101-111 | after a refusal by the breaker the wait is at least 150 seconds, otherwise it is the calculated delay |
| Retry.Sanitized | pkg/reliability/retry.go:57-72 | any configuration becomes a usable one with the source's defaults, and a usable one is left alone |
| Retry.Try | pkg/imap/client.go:1397-1405 | one attempt goes through the breaker when there is one, and is the function's own result otherwise |
| Retry.RetryWithBackoff | pkg/reliability/retry.go:55-123 | between 1 and max(1, MaxAttempts) attempts, each but the last because its error is worth retrying and nobody cancelled; each starts exactly one wait after the one before; the outcome is the last attempt's; for a sole caller and a breaker timeout below 150 seconds two refusals never follow each other |
| Retry.FatalErrorsEnd | pkg/reliability/retry.go:362-378 | nothing is tried again after a success, an authentication error or a permanent one; a loop that fails early fails for such an error, and a cancelled one was cancelled |
| Retry.AllowedAfterWait | pkg/imap/client.go:371-372 | a wait of 150 seconds outlasts any shorter breaker timeout, so the next attempt is let through |
| AgeSort.SortByAge | pkg/email/threading.go:572-580 | the in-place insertion sort computes the specified stable sort |
| AgeSort.InsertInPlace | pkg/email/threading.go:573-579 | its inner loop inserts one entry behind every entry that is not younger, and leaves the rest of the array alone |
| AgeSort.SortedMeans | pkg/email/threading.go:569-580 | the sort yields an ordered permutation |
| Threading.ThreadManager.EvictOldestThreads | pkg/email/threading.go:550-595 | exactly the requested number of entries goes when there are more, for any order the map is walked in; none that goes was used later than one that stays; the index loses exactly the ids of their threads, stays sound, and no longer reaches those threads |
| Threading.ThreadManager.CleanupExpiredThreadsIfNeeded | pkg/email/threading.go:524-547 | at most hourly, exactly the entries not used for a day go, from the cache and from the index |
| Threading.ThreadManager.CacheThread | pkg/email/threading.go:123-141 | the cache holds at most 10000 entries afterwards; below the limit every id of the thread leads to it and all else is unchanged; above it a quarter of the limit goes, oldest first |
| Threading.ThreadManager.UpdateIndex | pkg/email/threading.go:144-159 | the thread id, the message id and every reference of the thread lead to it, all other ids lead where they led |
| Threading.ThreadManager.RemoveFromIndex | pkg/email/threading.go:598-610 | exactly the thread id, the message id and the references of the thread are gone from the index |
| Threading.ThreadManager.GetThreadByID | pkg/email/threading.go:99-117 | after the hourly clean-up, the thread under the receiver's key, else under the bare id, else none; only its last use changes |
| Threading.ThreadManager.CreateNewThread | pkg/email/threading.go:359-411 | a fresh thread with the email's ids, cached under its bare id within the limit; the index gains nothing |
| Threading.ThreadManager.FindThread | pkg/email/threading.go:240-256 | the thread the index gives for In-Reply-To, or else for the first indexed one of the references, oldest first; it contains that id; none if and only if none of them is indexed |
| Threading.ThreadManager.ResolveThread | pkg/email/threading.go:224-237 | the resolver's answer for In-Reply-To, or else for the first reference it knows; none if and only if it knows none of them |
| Threading.ThreadManager.DetermineThread | pkg/email/threading.go:218-264 | forwarded mail gets a thread of its own; else the resolver's answer for the first id it knows among In-Reply-To and then the references decides; else the email joins the thread indexed for the first indexed one of them, which contains that id; else it gets a new thread. The thread gains the email's id and no other, and the size limit and index soundness hold |
| Threading.ThreadManager.JoinIndexed | pkg/email/threading.go:240-263 | the in-memory match: the thread indexed for In-Reply-To or else for the first indexed reference, which contains that id, with both maps and all other indexed threads unchanged; a fresh thread exactly when none of them is indexed |
| Threading.ThreadManager.Place | pkg/email/processor.go:139-143 | after determining and caching, an id of the thread leads to it if and only if the size check removed no entry whose thread has that id, and never to another thread; at most 10000 entries, nothing is removed; every other id leads where it led or nowhere |
| Threading.ThreadManager.PlaceThenReply | pkg/email/processor.go:139-143 | a reply that names an email with an id just placed, in In-Reply-To or in its references behind ids that are not indexed, joins that email's thread whenever the size check removed nothing |
| Threading.LeadsHome | pkg/email/threading.go:240-256 | and also after an eviction, for every id that no evicted entry's thread has |
| Threading.EmailThread.Add | pkg/email/threading.go:279-356 | participants before plus joined equals participants after plus left; joined ones are new, left ones are gone; the thread keeps its ids and gains the email's |
| Threading.AppendUnique | pkg/email/threading.go:514-521 | the item is a member afterwards and nothing else changes membership |
| Threading.WithoutIdsUnreachable | pkg/email/threading.go:537-546 | removing a thread's own ids is enough to make it unreachable, because the index is sound |
| Threading.NoneMeans | pkg/email/threading.go:240-261 | no candidate is chosen if and only if none is known |
| Threading.ReferencesAreFollowed | pkg/email/threading.go:240-261 | the id looked up first is the known one of In-Reply-To, else the first known one of the references |
| UidCursor.Client.CheckNewMessagesFor | pkg/imap/client.go:984-1173 | one check: re-baseline from 0, no change on an error, otherwise every newer UID found is attempted in order unless it is in flight elsewhere, and the cursor becomes the highest; the other mailbox and the in-flight sets are unchanged |
| UidCursor.Client.StartUID | pkg/imap/client.go:1918-1931 | acquired if and only if the UID was not in flight |
| UidCursor.EachUidOnce | pkg/imap/client.go:984-1173 | over any sequential run from a last UID of at least 1 with ascending UIDs (RFC 3501, section 2.3.1.1): the UIDs attempted are exactly those beyond it that a successful search saw, each once, and the cursor is the highest of them |
| UidCursor.LastNeverDecreases | pkg/imap/client.go:1126-1147 | the cursor never moves back |
| UidCursor.CheckIsRound | pkg/imap/client.go:984-1173 | a call of the method with nothing else in flight is one round of such a run |
| UidCursor.WithoutMeans | pkg/imap/client.go:1152-1157 | exactly the listed UIDs that are not in flight are attempted |
| UidCursor.BaselineIsUsableIff | pkg/imap/client.go:1015-1053 | the first sync leaves a usable cursor if and only if UIDNEXT is not 1, that is if the mailbox ever held a message |
| UidCursor.EmptyMailboxSkips | pkg/imap/client.go:1015-1053 | messages that arrive after the first check of a mailbox with UIDNEXT 1 and before the second are attempted in no run |
| UidSteps.NeverTwiceAtOnce | pkg/imap/client.go:1918-1943 | over every interleaving of any number of checks no UID is being processed twice at one moment |
| UidSteps.TurnsAttemptOnce | pkg/imap/client.go:994-1173 | when the stretches from reading to writing the cursor do not overlap, no UID is attempted twice over the whole run and the cursor never moves back, however processing overlaps |
| UidSteps.DoneFirstRepeatsIff | pkg/imap/client.go:994-1173 | of two checks that search together, the second writing when the first has worked off its list: some UID is attempted twice if and only if both replies name it, and the later write wins the cursor |
| UidAccount.UidsAreAccounted | pkg/imap/client.go:1126-1164 | over every interleaving of any number of checks, for every UID: its attempts, the turns that met it in flight and the lists that still hold it add up to the cursor writes that named it |
| UidAccount.AttemptedOnceIff | pkg/imap/client.go:1126-1164 | over every such run no UID is attempted twice if and only if each was named by at most one write more than met it in flight or still hold it |
| UidAccount.QuietAttemptedOnceIff | pkg/imap/client.go:1126-1164 | with all lists worked off a UID was attempted as often as it was named, less the turns that met it in flight; none twice if and only if that leaves at most one each |
| UidAccount.InFlightIsSkipped | pkg/imap/client.go:1152-1163 | a run in which two checks name the same message and it is attempted once, because the second comes to it while the first is at work |
| UidAccount.WriteMovesBackIff | pkg/imap/client.go:1132-1147 | over every run a write moves the cursor back if and only if the cursor has passed everything the check found, which takes another write since the check read it |
| UidAccount.SoleCheckIsRun | pkg/imap/client.go:984-1173 | a check of the step machine that nobody disturbs, whatever is in flight, leaves the cursor and attempts the UIDs of one call of the method |
| Dom.Document.RemoveAll | pkg/email/readermode.go:142-147 | removing everything collected, one node at a time, leaves the tree without those subtrees |
| Dom.Document.RemoveChild | pkg/email/readermode.go:120-124 | exactly the node's subtree goes; a node already detached with an ancestor changes nothing |
| Dom.WithoutSelected | pkg/email/readermode.go:107-148 | collecting first and removing afterwards equals the structural drop, although subtrees are detached while listed nodes are still inside them |
| Dom.WithoutSelectedTop | pkg/email/readermode.go:107-125 | the same when only outermost nodes are collected |
| Tables.UnwrapLayoutTables | pkg/email/readermode.go:211-228 | the in-place pass over the collected post-order list computes the bottom-up rewrite |
| Tables.LinearizeTable | pkg/email/readermode.go:253-282 | detaching and re-inserting node by node replaces the table by the content of its topmost cells |
| Tables.RunIsFlat | pkg/email/readermode.go:211-228 | processing the listed tables one after the other, in the tree as it then is, refines the recursive rewrite |
| Tables.FlatHasNoLayout | pkg/email/readermode.go:211-237 | no layout table is left anywhere |
| Tables.FlatIsIdempotent | pkg/email/readermode.go:211-228 | a second run changes nothing |
| Tables.FlatKeepsOrder | pkg/email/readermode.go:253-282 | the nodes that survive stand in the order they had, none twice |
| Tables.FlatKeepsExactly | pkg/email/readermode.go:211-282 | the flattened tree consists, in order, of exactly the nodes that are no dissolved table and lie in a topmost cell of every table dissolved around them, with their kinds; which tables dissolve and what survives is read off the input |
| Tables.FlatKeepsTextIff | pkg/email/readermode.go:253-282 | every visible character is kept, once and in order, if and only if in the input no dissolved table has visible text outside its cells |
| Tables.CaptionIsLost | pkg/email/readermode.go:253-282 | a table with a caption and no cells disappears with the caption |
| ReaderMode.ToReaderMode | pkg/email/readermode.go:57-86 | the ten in-place passes compute the specified pipeline; Survival says of every node what becomes of it |
| Survival.CleanedKeepsExactly | pkg/email/readermode.go:74-77 | the first five drops leave, in order and unchanged, exactly the nodes that are not, and are not below, a non-rendered element, one its first style attribute hides, a leaf with a collapsed font, an image that is a tracking pixel by its last attributes or not mxc by its first source, or an anchor with no visible text or image left |
| Survival.PictureReachesEnd | pkg/email/readermode.go:57-86 | an image of the mail is in the final tree if and only if the drops leave it, flattening leaves it, pruning leaves it, and it is not below a surplus break |
| Survival.TextReachesEnd | pkg/email/readermode.go:57-86 | every visible text there is after decoding and stripping is in the final tree, or a rule stands where it was a separator |
| Survival.RewordingKeepsExactly | pkg/email/readermode.go:353-395 | decoding and stripping change the text outside pre and code and nothing else |
| ReaderMode.PipelineGuarantee | pkg/email/readermode.go:74-85 | for every tree, options and regular expressions the final tree has no non-rendered element, nothing its style hides, only mxc images that pass the size test, no empty p or div, no h1 and no h2 |
| ReaderMode.CleanedIsClean | pkg/email/readermode.go:74-77 | the first four passes establish their promises together, none undoing another |
| ReaderMode.DropNonRenderedElements | pkg/email/readermode.go:107-125 | the pass computes the structural drop |
| ReaderMode.DropUnresolvableImages | pkg/email/readermode.go:510-555 | images first, then the anchors that are empty now |
| ReaderMode.IsTrackingImage | pkg/email/readermode.go:150-179 | the attribute loop decides the specified predicate, the last of repeated attributes winning |
| ReaderMode.CollapseNoise | pkg/email/readermode.go:400-462 | the three steps compute the specified collapse, including the rules inserted while the tree is walked |
| Survival.CollapseKeepsExactly | pkg/email/readermode.go:400-462 | afterwards the tree holds exactly the nodes that are not, and are not below, the third or a later break of a run or an empty block of the tree before, with a rule and an emptied text for every separator outside pre and code |
| ReaderMode.DemoteHeadings | pkg/email/readermode.go:482-502 | every heading is demoted once |
| Survival.HeadingsAreLowered | pkg/email/readermode.go:482-502 | every heading goes down two levels, but not below the sixth, with its attributes; every other node stays as it is |
| ReaderMode.NoEmptyLeft | pkg/email/readermode.go:442-461 | one pass over empty blocks leaves none |
| ReaderMode.EmptinessIsStable | pkg/email/readermode.go:442-461 | because removing empty blocks never makes another block empty or non-empty |
| ReaderMode.NoLongRuns | pkg/email/readermode.go:402-428 | right after the br step no run of three is left |
| ReaderMode.BrLimitIsNotKept | pkg/email/readermode.go:402-461 | removing an empty block afterwards joins two runs into one of three |
| ReaderMode.BrLimitIsKeptIff | pkg/email/readermode.go:442-461 | the limit survives the removal of empty blocks if and only if it held with empty blocks not counted as interruptions |
| Breaks.BreaksAfterCollapse | pkg/email/readermode.go:400-462 | after the whole pass the breaks beyond two in a row are those the input shows when removed breaks, empty blocks and white space are skipped; so the limit holds at the end if and only if the input shows none |
| ReaderMode.SeparatorsAreRules | pkg/email/readermode.go:430-440 | no separator text is left outside pre and code |
| ReaderMode.HidingIsStableIff | pkg/email/readermode.go:297-323 | a second hiding pass changes nothing if and only if, in the input, every font-collapsed element that stays has a child element that stays |
| ReaderMode.HidingIsNotStable | pkg/email/readermode.go:307-309 | such a tree exists as soon as one style hides and another only collapses the font |
| Extract.LinkedWithinText | pkg/email/extract.go:150-167 | link density never exceeds one, for any tree |
| Pruning.LinkedMeans | pkg/email/extract.go:150-167 | the linked length is that of the text below anchors, nested ones counted once, up to white space |
| Pruning.TrimMeans | pkg/email/extract.go:56-88 | trimming takes white space off both ends, all of it, and nothing else |
| Extract.TrimSuperadditive | pkg/email/extract.go:150-167 | the trimmed lengths of two parts never add up to more than the trimmed length of the whole |
| Extract.PruningRoot | pkg/email/extract.go:39-65 | the loop finds the root at most ten wrappers down, each the only element of its parent and carrying at least 95% of its text |
| Pruning.RootIsDescent | pkg/email/extract.go:39-65 | the root is reached by going down at most ten times into the only element, a generic container with at least 95% of the text, and further only fails because there is none |
| Extract.RootTextWithin | pkg/email/extract.go:39-65 | the text under the pruning root is no more than the whole text |
| Extract.PruneBulkContent | pkg/email/extract.go:72-146 | the method computes the specified pruning; Pruning says which blocks go |
| Pruning.BlocksThatGo | pkg/email/extract.go:96-122 | of the blocks under the root of a tree that is pruned: without keyword and social names a block stays; a keyword block in the last three tenths goes; an earlier one that is no social row goes exactly when more than half of it is linked and it is shorter than 200 bytes; a social row goes when more than 80% is linked |
| Pruning.PrunedKeepsExactly | pkg/email/extract.go:72-146 | of a tree that is pruned every node stays that is not in a boilerplate block under the root, and nothing else does |
| Pruning.PrunesIff | pkg/email/extract.go:94-139 | a tree is pruned if and only if the root has at least three blocks, one of them is boilerplate, and at least 40% of the measured text is outside boilerplate |
| Extract.PruningIsBounded | pkg/email/extract.go:120-146 | the tree is unchanged, or exactly the dropped child blocks of the root are gone, the text of the whole pruned tree is at least 40% of the text measured under the root, and the dropped blocks are at most 60% of all text |
| Extract.TotalWithinText | pkg/email/extract.go:78-96 | blocks and loose text are disjoint parts of the text under the root |
| Extract.KeptPlusLost | pkg/email/extract.go:120-133 | kept and dropped lengths add up to the measured length |
| Utf8.ValidPrefixIsBoundary | pkg/email/processor.go:1437-1442 | a prefix is well-formed UTF-8 if and only if it ends on a rune boundary |
| Utf8.FloorIsNear | pkg/email/processor.go:1437-1442 | backing off to a boundary costs at most three bytes unless an ill-formed sequence starts there |
| Utf8.EncodingIsRune | pkg/email/processor.go:1437-1442 | the encoding of every Unicode scalar value by the table of RFC 3629, section 3, is recognised as one rune, whatever follows |
| Utf8.RuneIsEncoding | pkg/email/processor.go:1437-1442 | and every recognised rune is the encoding of one |
| BodySizing.TruncateUTF8PreserveWords | pkg/email/processor.go:1433-1451 | a text that is too long is cut at the last space less than 512 bytes before the end of its longest well-formed front, and at that end when there is none |
| BodySizing.TruncationKeepsWords | pkg/email/processor.go:1433-1451 | the specified cut meets that description, which speaks of the text's bytes and well-formedness only |
| BodySizing.TruncationIsSafe | pkg/email/processor.go:1433-1451 | the result of truncating well-formed text is well-formed if and only if the limit is 0 or holds the first rune; from 4 on it always is, and at most 514 bytes of the limit stay unused |
| BodySizing.JsonLen | pkg/email/processor.go:1398-1429 | the encoded size of a text lies between its length and six times its length |
| BodySizing.JsonLenIs | pkg/email/processor.go:1398-1429 | for well-formed text the size is the length plus one for each quote, backslash and short control escape, five for each other control character and each of < > &, three for each line separator |
| BodySizing.ShrinkToLimit | pkg/email/processor.go:1228-1241 | the shrink loop computes the specified prefix |
| BodySizing.ShrinkKeepsEnough | pkg/email/processor.go:1228-1241 | the shrunk chunk fits the JSON limit, and a chunk that had to shrink keeps at least 7370 bytes |
| BodySizing.ShrinkIsGentle | pkg/email/processor.go:1228-1241 | a chunk that fits is left alone, and otherwise the loop stops at the first prefix that fits: a prefix at most a tenth or 256 bytes longer does not |
| BodySizing.ChunkKeepsWords | pkg/email/processor.go:1211-1241 | a chunk is the whole text when it fits, and otherwise the text up to the word cut, shorter only when that is too large as JSON |
| BodySizing.ChunkBody | pkg/email/processor.go:1211-1257 | the chunk loop produces the specified chunks, and the notice, present exactly when something is left, names exactly the length of what is left |
| BodySizing.ChunkingConserves | pkg/email/processor.go:1211-1257 | for every input and cap the body is chunk, white space, chunk, white space and so on, then the rest; chunks are not empty, at most 16384 bytes and within the JSON limit |
| BodySizing.CapNeverReached | pkg/email/processor.go:1211-1257 | no body of at most 48 KiB, well-formed or not, needs more than 21 chunks, so nothing is ever omitted |
| BodySizing.WellFormedNeedsFewer | pkg/email/processor.go:1211-1257 | for well-formed text every chunk but the last makes at least 7370 bytes of progress |
| BodySizing.BoundBody | pkg/email/processor.go:1146-1162 | the size step leaves a fitting body alone, bounds any other one by 48 KiB and keeps it well-formed |
| BodySizing.BoundedMeans | pkg/email/processor.go:1146-1162 | a body that fits or is at most 46 KiB is the text; any other one is the text up to the word cut and then the notice |
| BodySizing.BodyParts | pkg/email/processor.go:1146-1258 | any text yields at most 21 events (7 when well-formed), each within the limits, never a notice; together they are the text, or its truncated front and the notice, up to white space between chunks; the formatted body goes out only with a single event that fits with it |
| BodySizing.SplitBody | pkg/email/processor.go:1208-1258 | one event if and only if the body fits with the remaining fields and the target, chunks of the same text otherwise |
| Strippers.RemoveHTMLComments | pkg/email/processor.go:1328-1343 | the loop ends and computes the specified fixed point |
| Strippers.CommentsAreGone | pkg/email/processor.go:1328-1343 | no complete comment remains although removals splice new ones together; the result is an in-order remnant of the input and a fixed point |
| Remains.CommentsGoTextStays | pkg/email/processor.go:1328-1343 | text interleaved with comments comes out as the text alone, byte for byte, when the text itself has no opening mark |
| Strippers.StripTagContent | pkg/email/processor.go:1345-1362 | the loop ends and computes the specified fixed point |
| Strippers.TagsAreGone | pkg/email/processor.go:1345-1362 | no opening of the tag remains in any letter case; the result is an in-order remnant and a fixed point |
| Strippers.NoOpeningInAnyCase | pkg/email/processor.go:1345-1362 | no bytes of the result spell the opening of the tag in capitals, small letters or a mixture |
| Remains.ElementsGoTextStays | pkg/email/processor.go:1345-1362 | text interleaved with elements of the tag in any letter case, the last perhaps never closed, comes out as the text alone, when the text itself has no opening |
| Strippers.CollapseWhitespace | pkg/email/processor.go:1364-1382 | the loop over runes computes the specified collapse, stray bytes respelled as U+FFFD |
| Strippers.CollapseMeans | pkg/email/processor.go:1364-1382 | only single spaces are left as white space, and for well-formed text all other characters are kept in order |
| Strippers.CollapseKeepsGaps | pkg/email/processor.go:1364-1382 | for well-formed text white space is left between two characters exactly where there was some |
| Strippers.CollapseIsIdempotent | pkg/email/processor.go:1364-1382 | collapsing again changes nothing |
| Strippers.BoundedMinifyHTML | pkg/email/processor.go:1295-1326 | at most maxBytes + 19 bytes; cut after the last tag end, newline or space within the limit, or at the limit when there is none |
| Minify.MinifiedMeans | pkg/email/processor.go:1295-1326 | the minified text is well-formed, has single spaces only and never holds an opened style element; it is free of script openings, or of complete comments, if and only if it was before white space was collapsed; it is free of both when there was no script or style element to remove |
| Minify.CommentIsSpliced | pkg/email/processor.go:1295-1343 | a text without a complete comment whose minified form has one, because a script element inside its opening mark is removed |
| Strippers.TrimSpace | pkg/logging/sanitize.go:91-91 | trimming both ends rune by rune computes the specified trimming |
| Strippers.TrimMeans | pkg/logging/sanitize.go:91-91 | it takes off white space, at both ends only, and leaves none there |
| Strippers.SpaceIsPoint | pkg/logging/sanitize.go:91-91 | white space is recognised by code point, for every Unicode scalar value |
| Strippers.CleanedMeans | pkg/logging/sanitize.go:93-101 | of well-formed text exactly the control characters go |
| Strippers.BoundAndClean | pkg/logging/sanitize.go:90-120 | for every input, the trimmed text without control characters, whole when it fits, otherwise a prefix of at most max bytes that is well-formed if and only if the first rune fits, losing at most 3 bytes when max is at least 4 |

## Left out

- Threading.ThreadManager.Place: which of several entries with the same last use an eviction takes is left open, because the source walks a map.
- Threading.ThreadManager.DetermineThread: forwarded detection, address extraction, the generated fallback id and the external resolver's answers are inputs; participants are a set, because the source lists them in map order.
- Strippers.StripTagContent: lower-casing is modelled for ASCII letters; the source's lower-casing of other letters can change lengths.
- Strippers.TagsAreGone: the same lower-casing of ASCII letters.
- Extract.PruneBulkContent: keyword and social-row matching, lower-casing included, are abstract predicates on the block text.
- Survival.TextReachesEnd: decoding and stripping of text are abstract functions.
- ReaderMode.PipelineGuarantee: style, dimension and separator matching are abstract predicates, so nothing is said about which styles hide; parsing, rendering and the final sanitising are library code.
- Dom.Document.RemoveChild: the tree is one value in a field, with node identities instead of pointers; parent pointers and cycles are not represented.
- Tables.FlatKeepsTextIff: compares text without white space.
- Retry.CalculateDelay: floating-point rounding, NaN and infinity are not modelled; jitter is any number in [0, 1).
- Retry.RetryWithBackoff: the sole-caller result says nothing about refusals as "too many requests", which need a second caller; error texts are represented by their category.
- Breaker.CircuitBreaker.Execute: calls neither overlap nor nest, the guarded function does not panic and is represented by its error and finishing time; BreakerSteps covers overlap, nesting and resets.
- Remains.CommentsGoTextStays: says nothing about text in which removals splice an opening mark together; Strippers.CommentsAreGone covers those.
- Coordinator.StateCoordinator.ReportEvent: the info map sent along is left out; of each event, component, kind and error are modelled, the rest is only logged.
- SelfHeal.CleanRunsHaveNoDuplicates: the Matrix framework is represented by one rule, that delivering an already mapped message id is ignored; recovery hooks that delete mappings on purpose do not run.
- DeltaSync.CursorSafety: handing over means that the message was put in the delivery queue or that queueing it failed, which the source only logs. In the second case the cursor passes the message, which gets no mapping, and self-heal looks at mapped messages only. `reconcileRunning` only limits how many reconciles overlap, and any number is covered.
- UidCursor.Client.CheckNewMessagesFor: UIDs are unbounded except for the wrap of UIDNEXT - 1; UIDVALIDITY changes are not checked by the source either.
- UidSteps.TurnsAttemptOnce: the condition is sufficient only; UidAccount.AttemptedOnceIff has the exact one, in terms of the writes and turns of the run.
- BodySizing.BodyParts: attachments, inline images, the participant notice and the text of the formatted body are left out; the JSON sizes of the formatted body and of the other fields are numbers.
- HTTP, IMAP, SQL, the Matrix client, crypto and files: replies and errors are inputs.
- MIME parsing, commands, login, prompts, room names and log texts: formatting and thin library use.
- The startup baseline and backfill of an IMAP connection: it sets the cursor anew on every connect.
- Branches that can not be reached are not written out: the raw slice for an empty chunk and the raw cut for a body that needed no truncation.
