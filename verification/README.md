# Panda: the PIAS kernel module and the flow generator

This project models the two programs of the repository and proves what they do.

**The kernel module** (`PIAS/`) keeps one record per TCP flow in a hash table, counts the bytes each
flow has sent, and marks packets with a priority that falls as the count grows.

- `Machine` has the C integer types; `SequenceNumbers` and `Priority` are the arithmetic of
  `network.c`; `Flows` is the key, the record and the bucket hash.
- `FlowTables` is the chained table: records, lists and the table are classes that are updated in
  place. `Hooks` is the two packet hooks, the send probe and the clear operation, working on that
  table through the pointers that a search returns.
- `FlowMachine` says what one event does, as functions on a map from keys to records. Every hook is
  proved to take the table's contents through one such step, and `Hooks.HandleAll` any sequence of
  hook calls through the machine's run, so the theorems about runs (`TableDomain`, `Aging`,
  `SenderAccounting`, `AckTracking`, `Demotion`) hold of the table. `PacketEffects` says what single
  packets and calls do in terms of their own fields and of nanoseconds.

**The flow generator** (`flow_generator/`) opens connections, hands each to a worker thread, reads
responses and prints statistics; a script computes a size threshold from packet captures.

- `Handoff` is the protocol between the dispatcher and the workers as a state machine;
  `HandoffCounting`, `HandoffFlows`, `HandoffSignals`, `HandoffShortage`, `HandoffRuns`,
  `HandoffProgress` and `HandoffLimits` are its theorems; `EventsPolls` is the slot code itself,
  without interference.
- `CdfTables` and `CdfSampling` load and sample the flow-size distribution; `Transfer` is the response
  transfer; `Statistics` the final statistics; `ByteOrder` the serialisers.
- `PacketHistogram` and `ThresholdSearch` are the threshold script.

## What is taken as given

- A packet is already parsed (4-tuple, flags, sequence numbers, payload length), and it is given
  whether it passes the device filter. Times are inputs in nanoseconds; a difference in microseconds
  is rounded down, which differs from the kernel's division only for a clock that runs backwards.
  Each hook or probe call is one step.
- Parameters of the module are arbitrary C ints. Ints that the code compares with unsigned values
  (thresholds, the sequence gap, a flow's size) are converted as C does.
- The steps of the handoff: the dispatcher tests the limit and counts a flow (one step), reads one
  slot flag at a time without a lock, stores under the slot's mutex, and signals; a worker tests its
  flag and reads the event under the mutex, updates the counters under their lock, and sets its flag
  to idle without a lock. Waking happens only by a signal. Counter updates are atomic: the dispatcher
  adds to `active_flows` without the lock the workers hold, and a lost update is not modelled.
  Four flags of the configuration choose whether storing and signalling is one step, whether
  counting and going idle is one step, whether `epoll_ctl` may fail inside `modify_epoll_event`, and
  whether connections may hang up; the program has the first two off, and the environment decides
  the others. `modify_epoll_event` returns 0 or 1 and its caller tests for less than 0, so a flow
  is counted and handed over whether it fails or not; what a failure does is leave the connection
  registered for writing. Threads and concurrency are unsigned and pass the program's own checks.
- Connections are numbered from 0, a number standing for a descriptor, which is never 0. They are all
  opened at the start and registered for writing. A run may go on after an exit or a failed
  assertion, which makes results about every reachable state only stronger.
- `read` and `write` return whatever the environment chooses; random numbers, the rounding of
  proportions and the lines of files are arguments. `double` is modelled by exact reals.

## Results where the code and its description differ

- `last_timeout_seq` is described as the sequence number of the latest timeout and is compared to tell
  consecutive timeouts, but line 112 of `PIAS/netfilter.c` overwrites it before line 114 compares. So
  with the default parameters no flow is ever aged (`Aging.AgingIffSettings` gives the exact settings)
  and the counter stops at 1 (`Aging.TimeoutsNeverExceedOneIff`).
- `bytes_sent` is described as the bytes sent, but a one-byte segment right after a pure ACK is not
  counted (`SenderAccounting.BytesSentIsTotalIff`, with a run in `SenderAccounting.OneByteMissed`).
  A retransmission that ends more than 67295 behind with a wrap in between, or more than 4294900000
  behind, is counted as new and takes `last_seq` back (`SenderAccounting.AgreesThroughoutIff` is the exact condition,
  `SenderAccounting.OldByteCounted` a run).
- `last_ack` is described as the latest acknowledgement. It fails for two reasons, and
  `AckTracking.TrackedFromFirstIff` says that there are no others. A record starts from 0 and not
  from the connection's own numbers: if the first acknowledgement is above 4294900000, the record
  stays 0 until the farthest one has passed the wrap (`AckTracking.TrackedAtEndIff`,
  `AckTracking.NothingRecordedIff`). And the comparison is wrong about an acknowledgement more than 67295
  away across a wrap, or more than 4294900000 away; a record can then stay where it is, whatever
  follows up to 4294900000 (`AckTracking.StuckAfterWrap`, `AckTracking.StuckIff`).
- The client is described as keeping the number of concurrent flows fixed. A signal sent after the
  unlock can have the same flow served twice (`HandoffLimits.LateSignalRepeats`), exactly when the
  woken worker reads an idle slot (`HandoffSignals.ExactlyOnceRunIff`). A worker that has uncounted
  its flow but is not idle yet can make the client run out of threads and exit, in spite of the check
  that the concurrency is no larger than the threads; it cannot with no more connections than
  threads, unless `modify_epoll_event` fails (`HandoffShortage.NeverOutnumberedIff` is exact).
- The branch for a failing `modify_epoll_event` is never taken. After such a failure a connection can
  be admitted again: it is then served twice, and the client stops while others have not been served
  (`HandoffLimits.AdmittedAgain`), or it is admitted while still being served, which fails an
  assertion (`HandoffLimits.NeverAbortsIff` has the exact condition).
- A connection that hangs up before it is admitted is never taken off `left_flows`, so the client
  never stops (`HandoffFlows.NeverStopsAfterLoss`); one that hangs up while it is served can fail the
  worker's assertion (`HandoffLimits.ResponsesTimedIff`).
- A first line `10000 0` of a distribution is described as no flow below 10000, but drawing 0 gives
  half of the first value (`CdfSampling.HalfOfFirstValue`, `CdfSampling.BelowFirstValue`).
- The comparison given to `qsort` returns 0 or 1, so it is consistent only on rows of equal values
  (`Statistics.CmpConsistentIff`).

## Model

| member | source | states |
|---|---|---|
| SequenceNumbers.Trichotomy | PIAS/network.c:31-39 | on all pairs of 32-bit numbers, exactly one of larger, smaller and equal |
| SequenceNumbers.LargerByDistance | PIAS/network.c:31-39 | the comparison by modular distance: forward steps of 1..67295 always, longer ones only without a wrap |
| SequenceNumbers.WindowOrder | PIAS/network.c:31-39 | on any base plus offsets 0..67295, across a wrap or not, the comparison is the order of the offsets |
| SequenceNumbers.WindowIsExact | PIAS/network.c:31-39 | a forward step is recognised from every base if and only if it is 1..67295 |
| SequenceNumbers.ComparesIff | PIAS/network.c:31-39 | at two offsets less than 2^32 apart the comparison agrees with the offsets if and only if they are at most 67295 apart, or at most 4294900000 with no wrap between them |
| SequenceNumbers.ComparisonHasCycle | PIAS/network.c:31-39 | outside one window it is no order: three numbers form a cycle |
| SequenceNumbers.GapByDistance | PIAS/network.c:42-59 | the gap of distinct numbers is symmetric; it is the forward distance, one less across a wrap |
| SequenceNumbers.GapIsMaximalOnlyOnEqual | PIAS/network.c:52-58 | the gap is 4294967295 exactly for a number and itself |
| Priority.PiasPriority | PIAS/network.c:9-21 | returns the DSCP value of the first level whose threshold is not exceeded, else the last |
| Priority.LevelIsCountIffSorted | PIAS/network.c:13-20 | the level is the number of thresholds strictly below the size, for every size, exactly when the thresholds are sorted as unsigned |
| Priority.LevelMonotone | PIAS/network.c:13-20 | a larger size never gets a higher priority, sorted thresholds or not |
| Flows.HashIsExactProduct | PIAS/flow.c:67-77 | the wrapping 32-bit hash is the unbounded product modulo 256 |
| FlowTables.FlowList.Search | PIAS/flow.c:187-204 | finds the record of a key exactly when the list has one |
| FlowTables.FlowList.Insert | PIAS/flow.c:222-259 | appends a copy at the tail exactly when the key is absent; uniqueness and cached length kept |
| FlowTables.FlowList.Delete | PIAS/flow.c:283-310 | removes the key's record and returns its bytes, at least 1; 0 and no change when absent |
| FlowTables.FlowList.Clear | PIAS/flow.c:333-357 | in any state: empties the list exactly when the cached length is positive |
| FlowTables.FlowTable.constructor | PIAS/flow.c:154-184 | 256 empty lists, the empty map |
| FlowTables.FlowTable.Search | PIAS/flow.c:207-219 | the record of the key, from the bucket of its hash |
| FlowTables.FlowTable.Insert | PIAS/flow.c:262-280 | refines adding to a map; fails exactly on a present key; keeps the table valid |
| FlowTables.FlowTable.Delete | PIAS/flow.c:313-330 | refines removing from a map; returns max(1, bytes_sent), or 0 for an absent key |
| FlowTables.FlowTable.Clear | PIAS/flow.c:360-378 | yields the empty map, relying on the cached lengths |
| FlowTables.SizeIsExact | PIAS/flow.c:253-275 | every cached length is its list's length; the size is their sum and the number of keys |
| FlowTables.PlacesAreUnique | PIAS/flow.c:272-273 | every record sits in its hash bucket, and two places never hold the same key |
| Hooks.UpdateOnData | PIAS/netfilter.c:88-133 | the in-place update of a found record is the step of the machine |
| Hooks.HookFuncOut | PIAS/netfilter.c:27-152 | the outgoing hook takes the table's contents through one step and marks with the priority of that step |
| Hooks.HookFuncIn | PIAS/netfilter.c:155-208 | the incoming hook takes the contents through one step |
| Hooks.TcpSendMsg | PIAS/jprobe.c:17-63 | the send probe takes the contents through one step |
| Hooks.ClearOperation | PIAS/main.c:35-39 | the clear operation takes the contents through one step |
| Hooks.Handle | PIAS/netfilter.c:27-208 | any event takes the contents through one step; the live records are the old ones or new |
| Hooks.HandleAll | PIAS/netfilter.c:27-208 | any sequence of hook, probe and clear calls takes the contents through the machine's run, and every packet is marked as the machine marks it at that point |
| FlowMachine.RunProjects | PIAS/netfilter.c:67-136 | flows do not interfere: over any run a record depends on its own flow's events only |
| PacketEffects.SynInsertsIff | PIAS/netfilter.c:53-76 | a packet adds a flow exactly when it is an on-device TCP SYN, from or to the port or with the port parameter 0, of a flow not yet there; the record starts from its number and time |
| PacketEffects.ClosingRemovesIff | PIAS/netfilter.c:53-85 | and removes one exactly when it is such a FIN or RST without SYN of a flow there |
| PacketEffects.AckMovesIff | PIAS/netfilter.c:165-204 | an incoming packet changes the table exactly when it is an on-device TCP ACK under the same port condition, with the reversed 4-tuple of a flow there and a larger number; it changes last_ack only |
| PacketEffects.SendCallEffect | PIAS/jprobe.c:27-58 | a send call under the port condition records its time; it begins a message when it is the first, or when nothing is outstanding and at least 1000*(idle time + 1) ns have passed |
| PacketEffects.NewDataEffect | PIAS/netfilter.c:88-108 | a packet that ends past last_seq moves position and time and adds its length modulo 2^32; nothing else changes |
| PacketEffects.NoTimeoutEffect | PIAS/netfilter.c:100-133 | one that does not, before 1000*rto_min ns have passed or with nothing outstanding, changes the time only |
| PacketEffects.TimeoutEffect | PIAS/netfilter.c:110-133 | otherwise last_timeout_seq is its last byte, and the counter is 1 unless the threshold is 1 or the gap parameter -1; then it grows to the threshold, where it is cleared and an enabled aging clears the byte count |
| PacketEffects.MarkingIs | PIAS/netfilter.c:75-148 | the marking of any outgoing packet: the DSCP of the first level whose threshold is not below the deciding size, none if that is negative or a filter does not pass; a FIN or RST is decided by max(1, bytes_sent) |
| PacketEffects.FirstPacketsMarkedFirst | PIAS/netfilter.c:75-140 | SYNs and packets of unknown flows are marked like a live flow that has sent nothing, with the first DSCP |
| TableDomain.InTableIffLatestIsOpening | PIAS/netfilter.c:67-84 | over any run, a flow is in the table exactly when the latest of its SYNs, its non-SYN FIN/RSTs and the clears is a SYN |
| TableDomain.OnlyOutgoingAndClearChangeDomain | PIAS/netfilter.c:184-204 | incoming packets and send calls never change which flows are in the table |
| Aging.ConsecutiveAsWritten | PIAS/netfilter.c:112-114 | the consecutive-timeout test as written succeeds only for a threshold of 1 or a gap parameter of -1 |
| Aging.AgingIffSettings | PIAS/netfilter.c:110-131 | some run ages some flow if and only if aging is on and the threshold is 1, or it is 2..65535 and the gap parameter is -1 |
| Aging.NoAgingWithoutSettings | PIAS/netfilter.c:102-131 | under all other settings a packet adds its payload if new and leaves the count alone otherwise |
| Aging.TimeoutsBelowThreshold | PIAS/netfilter.c:116-130 | with a threshold of 1..65535, every reachable record has fewer timeouts |
| Aging.TimeoutsNeverExceedOneIff | PIAS/netfilter.c:112-130 | in every run the counter stays at most 1, exactly unless the threshold is 3 or more and the gap parameter is -1 |
| SenderAccounting.AgreesThroughoutIff | PIAS/netfilter.c:88-108 | for any in-order sender, any interleaving and any number of wraps, the record agrees with the sender's account after every action if and only if every retransmission ends at most 67295 behind the farthest point, or at most 4294900000 behind it with no wrap between |
| SenderAccounting.BytesSentIsCounted | PIAS/netfilter.c:88-108 | after any such run, bytes_sent is the new payload since the last message boundary modulo 2^32, less the missed segments, last_seq is ISN+T or ISN+T+1, and messages counts the boundaries and the first send call modulo 2^16 |
| SenderAccounting.OldSegmentEffect | PIAS/netfilter.c:102-108 | a retransmission that cannot be compared takes last_seq back to its own end |
| SenderAccounting.BytesSentIsTotalIff | PIAS/netfilter.c:90-107 | without boundaries, bytes_sent is all new payload modulo 2^32 exactly when the one-byte segments sent right after a pure ACK number a multiple of 2^32 |
| SenderAccounting.OneByteMissed | PIAS/netfilter.c:90-107 | a pure ACK and a one-byte segment after a SYN: one byte sent, none counted |
| SenderAccounting.WindowIsNeeded | PIAS/netfilter.c:102-108 | the account holds after every run whose retransmissions end within a window if and only if that window is at most 67295 |
| SenderAccounting.OldByteCounted | PIAS/netfilter.c:102-108 | for any larger window, a run in which one old byte is counted again and last_seq goes back |
| SenderAccounting.NothingMissed | PIAS/netfilter.c:90-93 | segments of two bytes or more are never missed |
| SenderAccounting.SegmentEffect | PIAS/netfilter.c:102-108 | a segment that can be compared moves the record exactly when it ends past the farthest point |
| Demotion.LevelNeverDecreases | PIAS/netfilter.c:99-136 | along any run without close or message reset and below 2^32 bytes, the level between any two points never goes back up |
| AckTracking.TrackedIff | PIAS/netfilter.c:196-203 | over any run, last_ack is the farthest acknowledgement at every point if and only if each one is at most 67295 from the farthest before it, or at most 4294900000 with no wrap between |
| AckTracking.TrackedFromFirstIff | PIAS/netfilter.c:196-203 | a new record is right at every point from its first acknowledgement on if and only if that is not above 4294900000 and all later ones can be compared |
| AckTracking.TrackedAtEndIff | PIAS/netfilter.c:196-203 | over runs of comparable acknowledgements not going back behind the first one A, last_ack ends on the farthest exactly when A is not above 4294900000 or the farthest is past the wrap; else it is 0 |
| AckTracking.StuckIff | PIAS/netfilter.c:196-203 | a record on 4294900000 stays there over any run without a close if and only if no acknowledgement is above it |
| AckTracking.StuckAfterWrap | PIAS/netfilter.c:196-203 | a run from a SYN: 4294900000 is recorded, then 67297 further on and 1000000 more are not |
| AckTracking.NothingRecordedIff | PIAS/netfilter.c:196-203 | over any run without a close, last_ack stays 0 throughout if and only if every acknowledgement is 0 or above 4294900000 |
| AckTracking.FirstAckRecordedIff | PIAS/netfilter.c:200-201 | a new record takes its first acknowledgement exactly when that is not above 4294900000 |
| Demotion.MarksNeverImprove | PIAS/netfilter.c:78-148 | in such a run no later data packet of the flow, nor the FIN or RST that ends it, is marked with a higher priority than an earlier data packet; stated of the DSCP values |
| Demotion.ClosingMarkedAsLatest | PIAS/netfilter.c:78-85 | the FIN or RST is marked exactly as the latest data packet, when that left a byte count above 0 and no message began since |
| Demotion.PromotionHasCause | PIAS/jprobe.c:45-55 | one event lowers a live flow's level or removes it only by closing it, resetting its message or wrapping the count |
| Handoff.PushNeverWaits | flow_generator/src/common/thread_poll.c:29-31 | in every configuration the wait inside event_push is unreachable, and a slot without a thread is never chosen |
| Handoff.DeliveredExactlyOnce | flow_generator/src/common/thread_poll.c:18-50 | with store and signal as one step, over every interleaving each slot's events are popped by its worker exactly as pushed: in order, none lost, overwritten or repeated |
| HandoffRuns.PushedIsAdmitted | flow_generator/src/client/client.c:65-77 | in every run of every configuration, the events pushed to all slots and the one on its way are exactly the admitted connections with the flow sizes drawn for them |
| HandoffRuns.PoppedIsAdmitted | flow_generator/src/client/client.c:108-113 | with exactly-once delivery the workers pop only such pairs, no more often than admitted, and all of them by the time the client stops |
| HandoffRuns.OpenAndArmedIff | flow_generator/src/client/client.c:61-124 | in every run a connection is open exactly if no hang-up, short response or complete response with an entry has closed it, and registered for writing exactly if it is open and no admission with a successful modify_epoll_event has taken place |
| HandoffRuns.TimedIff | flow_generator/src/client/client.c:61-124 | it has a time entry exactly if it has been admitted and no hang-up, short or failed response has come since |
| HandoffProgress.StuckIff | flow_generator/src/client/client.c:50-130 | in every configuration, exactly when nothing can happen: all workers wait or have failed their assertion, and the dispatcher has ended or has no connection to admit, or no room, and none to hang up |
| HandoffProgress.StuckIsDone | flow_generator/src/common/thread_poll.c:18-50 | with store and signal as one step, no wakeup is lost: a state where nothing can happen has no flow in progress |
| HandoffProgress.NeverStuck | flow_generator/src/client/client.c:50-93 | no deadlock: while modify_epoll_event does not fail and nothing hangs up, some action is enabled until left_flows is 0 and all is served; with enough threads the exit is not reached either |
| HandoffCounting.CountersInEveryConfig | flow_generator/src/client/client.c:65-129 | in every configuration and reachable state, through late signals, failures and hang-ups: active_flows is the admissions less the finished events, left_flows the connections less the finished events, modulo 2^32 |
| HandoffCounting.CountersAreExact | flow_generator/src/client/client.c:65-77 | with store and signal as one step, whatever modify_epoll_event returns: busy slots are active_flows, less the flow in flight, plus the workers between counting and going idle; left_flows are the connections less the flows admitted and no longer active |
| HandoffShortage.ThreadAlwaysFound | flow_generator/src/client/client.c:125-129 | with store and signal, and completion, as one step each, busy slots never exceed the concurrency and get_valid_thread never fails |
| HandoffShortage.SpareAtAdmit | flow_generator/src/client/client.c:66-77 | with enough threads for the connections, fewer slots are busy than there are threads whenever a flow is admitted |
| HandoffFlows.HandedOverOnce | flow_generator/src/client/client.c:65-77 | while modify_epoll_event does not fail, no connection is handed over twice |
| HandoffFlows.ServedOnce | flow_generator/src/client/client.c:108-113 | with exactly-once delivery as well, none is served twice |
| HandoffFlows.HeldInOnePlace | flow_generator/src/client/client.c:108-124 | with store and signal as one step, no two of the dispatcher, the slots and the workers have the same connection in hand, even when modify_epoll_event fails and connections hang up |
| HandoffFlows.EntriesAreKept | flow_generator/src/client/statistics.c:111-113 | without hang-ups every connection in hand has its time entry, so set_resp_time's assertion holds |
| HandoffFlows.NeverAborts | flow_generator/src/client/statistics.c:121-125 | no connection is admitted whose time entry is in use, if modify_epoll_event does not fail or one flow at a time is asked for |
| HandoffFlows.LostStep | flow_generator/src/client/client.c:61-64 | a connection is lost exactly by a hang-up before it is admitted |
| HandoffFlows.LeftIsExact | flow_generator/src/client/client.c:46-77 | while modify_epoll_event does not fail, left_flows is the connections to be admitted, the active flows and the lost connections; it never wraps |
| HandoffFlows.NeverStopsAfterLoss | flow_generator/src/client/client.c:50-64 | once a connection is lost, left_flows stays positive in every continuation |
| HandoffFlows.AllServedWhenNoneLeft | flow_generator/src/client/client.c:50-93 | when left_flows is 0, no connection waits to be admitted and everything handed over has been popped and counted |
| HandoffLimits.ExactlyOnceIffAtomicSignal | flow_generator/src/common/thread_poll.c:35-45 | delivery is exactly once in every run if and only if the signal is part of the store |
| HandoffLimits.LateSignalRepeats | flow_generator/src/common/thread_poll.c:35-45 | a reachable state in which one pushed event has been popped twice |
| HandoffLimits.ResponsesTimedIff | flow_generator/src/client/statistics.c:111-113 | every complete response finds its time entry, in every run, if and only if the signal is part of the store and nothing hangs up |
| HandoffLimits.NoneLostIff | flow_generator/src/client/client.c:61-64 | while modify_epoll_event does not fail, no connection is lost in any run if and only if nothing hangs up |
| HandoffLimits.AdmittedAgain | flow_generator/src/common/epoll.c:61-73 | a reachable state in which a connection whose modify_epoll_event failed has been served twice and left_flows is 0 with another connection still to be admitted |
| HandoffLimits.HandedOverOnceIff | flow_generator/src/client/client.c:70-77 | no connection is handed over twice, in any run, if and only if modify_epoll_event never fails |
| HandoffLimits.ServedOnceIff | flow_generator/src/client/client.c:108-113 | none is served twice if and only if the signal is part of the store and modify_epoll_event never fails |
| HandoffLimits.StopsServedIff | flow_generator/src/client/client.c:50-93 | left_flows is 0 only when all is served, in every run, under exactly the same two conditions |
| HandoffLimits.NeverAbortsIff | flow_generator/src/client/statistics.c:121-125 | the assertion on admission holds in every run if and only if modify_epoll_event never fails, or the concurrency is 0, or it is 1 and the signal is part of the store |
| HandoffShortage.NeverOutnumberedIff | flow_generator/src/client/client_configs.c:96-99 | for every configuration and number of connections, the client never exits for want of a thread if and only if nothing is admitted at all, or signal and completion are one step each, or modify_epoll_event does not fail and the connections are at most the threads T or, with completion as one step, at most 2T - concurrency + 1 |
| HandoffShortage.OutnumberedExits | flow_generator/src/common/thread_poll.c:23-26 | in all other cases some run with that many connections reaches the exit |
| HandoffSignals.ExactlyOnceRunIff | flow_generator/src/common/thread_poll.c:35-50 | in every configuration, for every run: delivery is exactly once at every point if and only if no woken worker reads its slot while the flag is idle |
| HandoffSignals.PromptSignalsDeliver | flow_generator/src/common/thread_poll.c:35-50 | so it is, if no signal finds its worker waiting at an idle slot |
| HandoffLimits.ScanCompletes | flow_generator/src/common/thread_poll.c:4-15 | the flag-by-flag scan, undisturbed, ends at the first idle slot or in the exit |
| EventsPolls.InitEventsPolls | flow_generator/src/common/thread_poll.c:65-75 | the slots of the machine's initial states |
| EventsPolls.GetValidThread | flow_generator/src/common/thread_poll.c:4-15 | the first idle slot, or -1 |
| EventsPolls.EventPush | flow_generator/src/common/thread_poll.c:18-37 | fills the first idle slot and changes no other; reports when there is none |
| PacketHistogram.CountSamples | flow_generator/scripts/get_optimal_threshold.py:17-23 | each size is mapped to its number of occurrences |
| PacketHistogram.GetData | flow_generator/scripts/get_optimal_threshold.py:13-24 | the strictly ascending list of all sizes with their counts |
| PacketHistogram.PacketsRoundsUp | flow_generator/scripts/get_optimal_threshold.py:39 | the packet count is (size-52)/1448 rounded up |
| PacketHistogram.GetProportion | flow_generator/scripts/get_optimal_threshold.py:33-45 | each key with the rounded share of the running product; a zero total is an error |
| PacketHistogram.ProductIsDirectSum | flow_generator/scripts/get_optimal_threshold.py:37-40 | the running product at a key is the direct sum over the raw samples not above it |
| PacketHistogram.ProportionsAreCumulative | flow_generator/scripts/get_optimal_threshold.py:42-43 | for sizes not below 0 the proportions never decrease and the last is the rounding of 1 |
| PacketHistogram.AtIsShareOfSamples | flow_generator/scripts/get_optimal_threshold.py:33-79 | the value the search reads at t is the rounded exact share of data packets from samples of size at most t |
| ThresholdSearch.GetIndex | flow_generator/scripts/get_optimal_threshold.py:53-67 | the binary search returns the index of the last key not above t, or -1 |
| ThresholdSearch.GetOptimalThreshold | flow_generator/scripts/get_optimal_threshold.py:70-85 | the first integer in [t_min, t_max) with the largest difference, t_min if none is positive; empty tables are an error |
| ThresholdSearch.RangeIsOverlap | flow_generator/scripts/get_optimal_threshold.py:71-76 | the range searched is where both tables have begun and neither has reached its last key |
| ThresholdSearch.DiffIsDistance | flow_generator/scripts/get_optimal_threshold.py:77-79 | the difference maximised is the distance of the two proportions |
| ThresholdSearch.FirstBestUnique | flow_generator/scripts/get_optimal_threshold.py:74-82 | that requirement determines threshold and difference |
| ThresholdSearch.OptimumIsBreakpoint | flow_generator/scripts/get_optimal_threshold.py:70-85 | the threshold is t_min or a key of a table, and a scan of the breakpoints alone finds it and nothing else |
| ThresholdSearch.BreakpointsSuffice | flow_generator/scripts/get_optimal_threshold.py:76-82 | scanning any integers of the range that include the breakpoints gives the same answers as scanning all |
| CdfTables.CdfTable.Resize | flow_generator/src/client/cdf.c:46-57 | doubles a full array with every entry in its place; the capacity is 32*2^k and the entries copied so far are the capacity less 32 |
| CdfTables.CdfTable.Load | flow_generator/src/client/cdf.c:44-71 | loads exactly the lines in order, or stops at a cdf above 1; fewer than twice as many entries are copied; the extremes are those of the lines with 0 and 1 |
| CdfTables.ExtremesAreExtremes | flow_generator/src/client/cdf.c:65-68 | the recorded minimum and maximum are bounds of the cdfs and 0 and 1, and attained |
| CdfSampling.GenRandomCdf | flow_generator/src/client/cdf.c:131-152 | the sampled value for a drawn number |
| CdfSampling.AvgCdf | flow_generator/src/client/cdf.c:89-114 | the mean as the sum of the segments' areas |
| CdfSampling.AverageIsSampledMean | flow_generator/src/client/cdf.c:98-111 | for every sorted table the mean is the sum, over the segments, of the value sampled in the middle times the share of numbers on the segment |
| CdfSampling.AverageIsBounded | flow_generator/src/client/cdf.c:98-111 | for a sorted table from cdf 0 to cdf 1 the mean lies between the first and the last value |
| CdfSampling.RefineKeepsAverage | flow_generator/src/client/cdf.c:89-114 | an interpolated breakpoint strictly inside any segment leaves the mean unchanged |
| CdfSampling.RefineKeepsSample | flow_generator/src/client/cdf.c:116-152 | and the sampled value for every number drawn |
| CdfSampling.EqualXOnlyAtFirst | flow_generator/src/client/cdf.c:116-149 | the equal-x case of interpolate is met only at entry 0 |
| CdfSampling.SampleMonotone | flow_generator/src/client/cdf.c:131-152 | sorted tables sample monotonically |
| CdfSampling.SampleBounded | flow_generator/src/client/cdf.c:131-152 | sampled values lie between 0 and the last value |
| CdfSampling.SampleStrictlyMonotone | flow_generator/src/client/cdf.c:131-152 | strictly increasing tables sample strictly monotonically up to the last cdf |
| CdfSampling.SampleInverted | flow_generator/src/client/cdf.c:131-152 | forward piecewise-linear interpolation undoes sampling on [0, last cdf] |
| CdfSampling.SampleReaches | flow_generator/src/client/cdf.c:131-152 | and sampling undoes it on [0, last value] |
| CdfSampling.BelowFirstValue | flow_generator/src/client/cdf.c:142-145 | values below the first are sampled exactly below the first cdf, and at 0 when that is 0 |
| CdfSampling.HalfOfFirstValue | flow_generator/src/client/cdf.c:142-145 | when the first cdf is 0, drawing 0 gives half of the first value |
| Transfer.WriteResponce | flow_generator/src/common/network.c:235-259 | the loop's result for any results of write; every write is given what is left, at most 65536 bytes |
| Transfer.WriterStops | flow_generator/src/common/network.c:241-258 | the writer returns at the first hard error, with -1, or when the flow size is reached, with that |
| Transfer.ReaderStops | flow_generator/src/common/network.c:195-213 | the reader returns at the first hard error, with -1, at the end of the connection, with 0, or when the flow size is reached, with the bytes read |
| Transfer.ReadResponce | flow_generator/src/common/network.c:189-214 | the loop's result for any results of read |
| Transfer.WriterReturnsFlowSize | flow_generator/src/common/network.c:241-258 | a writer that returns has written everything or met a hard error; until then written plus left is the flow size |
| Transfer.TransferIsExact | flow_generator/src/common/network.c:189-259 | over every interleaving on a lossless channel, a returning writer and a returning reader have moved exactly the flow size, and the close is never taken for a short response |
| Transfer.TransferCanGoOn | flow_generator/src/common/network.c:189-259 | no deadlock: until the reader has returned, something can be read or written |
| Statistics.GetGroupIndex | flow_generator/src/client/statistics.c:150-159 | the first group but the last whose threshold is above the size, else the last |
| Statistics.Aggregate | flow_generator/src/client/statistics.c:239-257 | every group holds exactly its members' times, in order, with their count and sums; no row overflows |
| Statistics.GroupsPartition | flow_generator/src/client/statistics.c:239-257 | the group counters sum to the number of entries in use |
| Statistics.MembersAre | flow_generator/src/client/statistics.c:239-257 | an entry occurs among the members of a group exactly as often as in the table if it is in use and the group is its own, else not at all |
| Statistics.SumsAdd | flow_generator/src/client/statistics.c:255-256 | the sums are those of the single times and sizes |
| Statistics.ArrangedIsSorted | flow_generator/src/client/statistics.c:3-6 | the arrangements in which no earlier value compares above a later one are exactly the sorted one |
| Statistics.CmpConsistentIff | flow_generator/src/client/statistics.c:3-6 | the comparison is antisymmetric on a row if and only if all its values are equal |
| Statistics.PrintStatistics | flow_generator/src/client/statistics.c:239-270 | every group ends with its average and its members' times sorted |
| Statistics.AverageIsMeanRoundedDown | flow_generator/src/client/statistics.c:264-267 | an average fits an int, and for times not below 0 it is the exact mean rounded down |
| Statistics.AverageWithin | flow_generator/src/client/statistics.c:264-267 | an average lies between any bounds of the times of its group, of either sign |
| Statistics.PercentileRank | flow_generator/src/client/statistics.c:203-214 | the percentile's position is inside a non-empty group; at most 99 in 100 values are below it and more than 99 in 100 are not above it |
| Statistics.Percentile99 | flow_generator/src/client/statistics.c:203-214 | the printed percentile is such a value of the group, and 0 for an empty group |
| ByteOrder.Serialize | flow_generator/src/common/common.c:28-57 | writes the big-endian base-256 digits and nothing else |
| ByteOrder.DigitIsShiftedByte | flow_generator/src/common/common.c:32-34 | each shifted and truncated byte is that digit |
| ByteOrder.MostSignificantFirst | flow_generator/src/common/common.c:71-99 | the first byte counts most |
| ByteOrder.Deserialize | flow_generator/src/common/common.c:71-99 | reads the number of the digits; the accumulator never wraps |
| ByteOrder.DigitsThenValue | flow_generator/src/common/common.c:28-99 | deserialise after serialise is the identity on values that fit |
| ByteOrder.ValueThenDigits | flow_generator/src/common/common.c:28-99 | serialise after deserialise is the identity on byte sequences |

## Left out

- Hook and probe registration, sysctl and the parameter table, printing, socket buffers, rewriting of the DSCP field, failing allocations, and freeing the table when the module is unloaded.
- Spinlock races inside the kernel module: each hook call is one atomic step.
- FlowTables.FlowList.Insert: the kernel's intrusive doubly linked list is a sequence of record objects, and the cached length and the size are unbounded integers, so a list of 2^32 records is not modelled.
- Sockets, epoll, name resolution, arguments, CPU affinity, files; the server's main loop and the request payload, which reuse the slot protocol and the serialiser.
- Handoff.DeliveredExactlyOnce: assumes no spurious wakeups and that storing and signalling is one step; HandoffLimits.ExactlyOnceIffAtomicSignal shows that the second is needed, and HandoffSignals.ExactlyOnceRunIff covers the runs without it.
- HandoffCounting.CountersAreExact: assumes atomic counter updates, and store and signal as one step.
- A connection that could not be registered at the start, whose failure create_epoll_event does not look at.
- Liveness of the client loop and of the transfer loops: a loop that has used up the given results is reported as still running.
- ByteOrder.Serialize: one method for every width in whole bytes stands for the three functions of 16, 32 and 64 bits.
- Statistics.PrintStatistics: assumes that qsort ends with no earlier value comparing above a later one, which the C standard does not promise for a comparison that is never negative; growth of the flow table is left out, and the sums are unbounded integers.
- SenderAccounting.AgreesThroughoutIff, AckTracking.TrackedIff: segments and acknowledgements less than 2^32 from the farthest point; a peer cannot go further.
- Statistics.Percentile99: the index is computed exactly; the rounding of the floating-point product with 0.99 is left out.
- CdfSampling.GenRandomCdf: exact reals instead of floating point, the drawn number as an argument, and a table with at least one entry.
- CdfTables.CdfTable.Load: lines are parsed pairs; a line that does not parse leaves an entry unset in the program.
- PacketHistogram.GetProportion: the rounding to four digits is an arbitrary function.
