# websocket-fabric: verified model

A Dafny model of the parts of the `websocket-fabric` library that hold state: message fragmentation and
reassembly, rate limiting, the connection pool, subprotocol negotiation, reconnection delays and the latency
window. `dafny verify dfyconfig.toml` checks everything.

Code that updates fields in place is a class here, each method proved against a function on values. The
properties of whole runs and of all interleavings are then lemmas about those functions. Clock readings,
connection health, fresh connection identifiers, the outcome of a connect and the lateness of a sleep are
parameters.

| module | what it holds |
|---|---|
| `Frames`, `Fragmentation` | frames, and cutting a message into them |
| `WireNumbers` | what goes over the wire and comes off it, in opcode numbers, bits and bytes |
| `Reassembly` | the reassembler's table, and what one frame does to one connection's slot |
| `ReassemblyRuns` | whole runs: calls that leave no trace, where each byte goes, projection to one connection |
| `FragmentGrammar` | accepted frame sequences are those of section 5.4 of RFC 6455 |
| `EndToEnd`, `TwoStepIngest` | cutting and reassembling over any number of interleaved connections; `ingest_frame` in two locked steps |
| `TokenBuckets`, `BucketObservation`, `RateLimiting` | the bucket's closed form, what looking at it changes, the limiter |
| `Admission` | the connection counter under any number of threads |
| `PoolModel`, `PoolSections`, `PoolRuns` | the pool's critical sections, what each leaves field by field, and their interleavings; the ledger |
| `PoolSize`, `PoolWaiting`, `PoolLeases`, `PoolStatistics` | size bound, waiting callers, exclusive leases, reported numbers |
| `ConnectionPools` | the pool as it is kept: vectors and counters changed in place |
| `Subprotocols` | header text, negotiation, handshake |
| `Backoff`, `Metrics` | reconnection delays, latency percentiles |
| `Arithmetic`, `Collections`, `Wrappers` | helpers |

## Where the code and its documentation differ

The model follows the code.

- `ingest_frame` is documented to answer control frames with `Ok(None)` and a timed-out message with an error
  (src/fragmentation.rs:322-333). It hands control frames back as messages (358-360) and drops an overdue
  partial message silently (447-456).
- The example of `split_message` builds `Fragmenter::new(100)` (src/fragmentation.rs:125), which the
  constructor's assertion refuses (95-98).
- `burst_size` is documented as the most tokens that accumulate (src/ratelimit.rs:98). Time spent full stays
  unpaid and buys tokens later, at one instant (`TokenBuckets.IdleTimeIsBanked`). At rates that do not divide
  10^9, the default byte limit among them, rounding alone can add one more (`RoundingSpills`).
  `BurstSizeHoldsExactlyWhen` says for every rate when the burst size is kept, from the numbers in the bucket:
  the tokens there and due must not exceed it; up to 10^9 a second they must leave room for one more when the
  time not used and the time not charged together make a token; above 10^9 no part of a token may be due. At
  rates that divide 10^9 or are multiples of it the tokens there and due decide alone.
- `time_until_full` is named for the time until the bucket is full, but it is rounded to the nearest nanosecond
  (src/ratelimit.rs:267-268), so an exact sleep can end just short (`BucketObservation.ExactSleepFallsShort`).
  `AcquireReturnsExactlyWhen` says for all sleeps when `acquire` then returns: with exact sleeps at the second
  one or never, and never only from two tokens a nanosecond on, when the wait brings whole tokens
  (`ExactSleepsReturnExactlyWhen`, `ExactSleepsStarve`); the first late sleep ends it.
- A pool's semaphore "to limit concurrent connections" (src/pool.rs:177-178) is never acquired, so overlapping
  connects pass `max_connections`; `PoolSizeIsBounded` and `PoolSizeBoundIsReached` give the exact bound.
- `PooledClient::release` (src/pool.rs:564-567) releases, and the `Drop` that follows (576-581) releases again.
  If someone else has the connection by then, it is offered a second time (`ReleasedThenDropped`). Handles can
  be cloned (530-531) and every clone releases, with the same effect and no explicit release
  (`ClonedThenDropped`). `ReleaseIsExclusiveExactlyWhenHarmless` and `RunIsExclusiveExactlyWhen` say exactly when
  that happens.
- `acquire` "will wait until a permit is available" (src/ratelimit.rs:350). For more than the capacity it
  waits forever (`AcquireReturnsExactlyWhen`); banked time does not help, since no refill exceeds the capacity.
- `get` promises a new connection "if the pool has not reached its maximum size" (src/pool.rs:265-268). A
  caller told to wait looks at the free list only (347-380), so it can time out on an empty pool
  (`PoolWaiting.WaitsOnEmptyPool`); whether a call ever connects is settled by its first look
  (`CallConnectsExactlyWhen`).
- A returned connection is kept when "under max limit" (src/pool.rs:390-391). It is taken out before the count,
  so one above the maximum is kept too, and releases never undo the last one too many
  (`PoolSize.ReleasesLeaveOneTooMany`).
- A multiplier above one does not make the delay grow if one multiplication of the initial delay gains less
  than a millisecond (`MaximumReachedExactlyWhen`).
- Delays are cut to whole milliseconds when an attempt is recorded, so the second can be shorter than the first,
  even nothing (`Backoff.FirstDelayMayBeLonger`); `DelaysNeverShrinkExactlyWhen` says when none is.
- `cleanup_all_expired` and rejected frames change no other frame's answer, but they can change what `abort` and
  `in_progress_size` report (`ReassemblyRuns.AbortSeesCleanup`, `SizeSeesCleanup`);
  `TracelessCallsAreInvisible` and `SizesDifferByOverdue` say exactly when and by how much.
- `p999` is not always at least `p99` (`PercentilesAreOrdered` says exactly when).

## Model

| member | source | states |
|---|---|---|
| `EndToEnd.InterleavedRoundTrip` | src/fragmentation.rs:132-415 | any number of connections, each with its own messages and frame size, merged in any order, control frames anywhere, nothing overdue: no frame is refused, every connection gets exactly its messages in order, every control frame comes back in place, the table ends empty |
| `EndToEnd.CleanedRoundTrip` | src/fragmentation.rs:132-462 | the same with `cleanup_all_expired` called anywhere in between, clock readings in order |
| `EndToEnd.ConnectionRoundTrip` | src/fragmentation.rs:352-415 | the same for one connection, whatever the others send |
| `EndToEnd.MergedFramesProject` | src/fragmentation.rs:352-415 | a merged run answers, delivers to, and holds for, each connection what a run of its frames alone would |
| `TwoStepIngest.HalvesActAtomically` | src/fragmentation.rs:366-368 | `ingest_frame` as two critical sections: however the halves of calls for different connections interleave, every connection is answered as by atomic calls, and the table ends the same |
| `EndToEnd.RoundTripExactlyWhen` | src/fragmentation.rs:132-173 | a cut message comes back unchanged if and only if it is text, binary, or a control message that fits one frame; larger ones of other types come back as binary, a small continuation is refused |
| `EndToEnd.SentMessagesParse` | src/fragmentation.rs:132-173 | what a sender emits is a sequence of finished groups, one per message, in order |
| `FragmentGrammar.AcceptanceIsTheGrammar` | src/fragmentation.rs:352-415 | a run has no error if and only if its data frames parse into groups (text or binary, continuations, FIN only on the last; an unfinished group only at the end or when overdue); the messages out and the partial held are those of the parse |
| `FragmentGrammar.PromptAcceptanceIsThePlainGrammar` | src/fragmentation.rs:352-415 | in a run, however long, in which no data frame finds its connection's partial overdue, acceptance is the grammar of section 5.4 of RFC 6455 as it stands, clock left out, with the messages and the partial held of the parse |
| `FragmentGrammar.TimeoutDoesNotMatter` | src/fragmentation.rs:365-366 | such a run gets the answers, messages and partial it would get under a timeout that has not passed by its end |
| `FragmentGrammar.ParsedRunIsAccepted` | src/fragmentation.rs:370-410 | each completed group yields one message of the opening opcode with the payloads joined, however it was cut |
| `FragmentGrammar.ControlFramesStepAside` | src/fragmentation.rs:357-360 | control frames are answered with themselves, whatever their FIN bit, and change nothing for the data frames around them |
| `ReassemblyRuns.TracelessCallsAreInvisible` | src/fragmentation.rs:352-462 | any choice of eager cleanups, rejected frames and control frames can be taken out of any run without changing the answer to any other frame; an abort's report changes if and only if it meets an overdue partial in one of the runs and not in the other |
| `ReassemblyRuns.EagerCleanupIsInvisible` | src/fragmentation.rs:447-462 | two runs that differ only in where they call `cleanup_all_expired` give every frame the same answer |
| `ReassemblyRuns.RejectedFramesAreInvisible` | src/fragmentation.rs:366-414 | without its rejected frames a run rejects nothing and answers the rest as before |
| `ReassemblyRuns.AbortSeesCleanup` | src/fragmentation.rs:429-432 | a run where a cleanup changes what an abort reports (concrete run) |
| `ReassemblyRuns.SizesDifferByOverdue` | src/fragmentation.rs:441-444 | what such calls change in the size reported at any later time is exactly the bytes overdue by then |
| `ReassemblyRuns.SizeSeesCleanup` | src/fragmentation.rs:441-444 | an overdue byte counts until it is swept (concrete table) |
| `ReassemblyRuns.BytesAreConserved` | src/fragmentation.rs:225-273 | over every run, bytes accepted = bytes returned + bytes held + bytes given up, and cached sizes stay equal to the fragments' |
| `ReassemblyRuns.StepConserves` | src/fragmentation.rs:352-462 | the same balance for one call of any kind |
| `ReassemblyRuns.MergedRunProjects` | src/fragmentation.rs:352-462 | with aborts and cleanups too, a merged run looks to each connection like a run of its own |
| `Reassembly.Reassembler.constructor` | src/fragmentation.rs:303-308 | an empty table with the timeout given |
| `Reassembly.Reassembler.IngestFrame` | src/fragmentation.rs:352-415 | table and answer are those of the slot function for this connection; no other entry changes |
| `WireNumbers.ControlNumbers` | src/fragmentation.rs:358-360 | opcodes 8, 9 and 10 answer a close, ping or pong with the payload, whatever is held, and change nothing |
| `WireNumbers.StartNumbers` | src/fragmentation.rs:394-410 | opcodes 1 and 2: refused while a partial is held and not overdue, else a whole text or binary message with FIN, else a new partial stamped now |
| `WireNumbers.ContinuationNumber` | src/fragmentation.rs:370-393 | opcode 0: refused with nothing held, else the payload is appended and with FIN the message returned under the opening type |
| `WireNumbers.UnknownNumbers` | src/fragmentation.rs:411-414 | every other opcode is refused with its number, what is held stays unless overdue |
| `Reassembly.Reassembler.Continue` | src/fragmentation.rs:370-393 | the continuation branch: no entry is an error, a final fragment removes the entry and returns the message |
| `Reassembly.Reassembler.Start` | src/fragmentation.rs:394-410 | the text/binary branch: an entry in progress is an error and stays, a whole message passes through, a first fragment opens an entry |
| `Reassembly.Reassembler.CleanupExpired` | src/fragmentation.rs:447-456 | drops this connection's entry exactly when it is overdue |
| `Reassembly.Reassembler.CleanupAllExpired` | src/fragmentation.rs:459-462 | keeps exactly the entries that are not overdue |
| `Reassembly.Reassembler.Abort` | src/fragmentation.rs:429-432 | removes the entry and says whether there was one |
| `Reassembly.Reassembler.InProgressSize` | src/fragmentation.rs:441-444 | the sum of the cached sizes |
| `Reassembly.PartialMessage.constructor` | src/fragmentation.rs:227-235 | one fragment, its size cached, stamped with the time |
| `Reassembly.PartialMessage.AddFragment` | src/fragmentation.rs:238-241 | the fragment goes to the end, the cached size grows by it, the stamp stays |
| `Reassembly.PartialMessage.IsExpired` | src/fragmentation.rs:244-246 | strictly more than the timeout has passed since the first fragment |
| `Reassembly.PartialMessage.Assemble` | src/fragmentation.rs:253-273 | the loop joins the fragments in order |
| `Fragmentation.SplitIsTheWellCut` | src/fragmentation.rs:132-173 | the frames of a message are the only ones that join to it with none too large, all but the last full, a non-empty tail, FIN on the last alone, an opening opcode on the first alone |
| `Fragmentation.SplitIsWellCut` | src/fragmentation.rs:132-190 | they have that shape, and their number is the rounded-up quotient |
| `Fragmentation.Fragmenter.SplitMessage` | src/fragmentation.rs:132-173 | the chunk loop produces exactly those frames, as many as `calculate_frame_count` says |
| `WireNumbers.BitsOfFrame` | src/fragmentation.rs:136-170 | every frame has its reserved bits clear, FIN is on the last alone, a message in one frame has opcode 1, 2, 9, 10, 8 or 0 by its type, one in several 1 or 2 and then 0 |
| `WireNumbers.BytesOfFrame` | src/fragmentation.rs:152-170 | frame i carries the bytes from i * max on, as many as fit |
| `Arithmetic.CeilDivRoundsUp` | src/fragmentation.rs:184-190 | the frame count covers the size with less than one frame to spare |
| `TokenBuckets.BucketRefinesClosedForm` | src/ratelimit.rs:188-237 | after any run since creation or reset the tokens visible are min(cap, cap + floor((rate*(t-t0) + rounding) / 10^9) - granted); rounding is zero when the rate divides 10^9 and at most rate-1 per refill that adds tokens |
| `TokenBuckets.GrantsAreBounded` | src/ratelimit.rs:216-237 | hence total grants since t0 are bounded, and a request is granted exactly when the closed form covers it |
| `TokenBuckets.RefillAdds` | src/ratelimit.rs:188-213 | tokens and clock advance together, by what was added and what that cost; the cap on the time paid never bites |
| `TokenBuckets.RefillInPlainNumbers` | src/ratelimit.rs:188-213 | without division: a refill adds every whole token earned that fits, charges each the time it takes rounded down, and nothing at rate zero or when the clock has not moved on |
| `TokenBuckets.WaitInPlainNumbers` | src/ratelimit.rs:256-269 | the wait times the rate is the missing tokens times 10^9 to half the rate either way; zero when full, 60 seconds at rate zero, and less than a nanosecond too long |
| `TokenBuckets.StatusReportsWhatCanBeTaken` | src/ratelimit.rs:368-389 | the count reported is the most a request at that instant is granted; the time reported is the wait |
| `TokenBuckets.TryTakesAllOrNothing` | src/ratelimit.rs:329-346 | a request takes all of its amount or nothing and the wait is its answer; zero is granted with the bucket unseen |
| `TokenBuckets.BurstAtAnInstant` | src/ratelimit.rs:207-211 | at rates that divide 10^9, one-token requests at one instant: as many pass as tokens are there and due |
| `TokenBuckets.BurstSizeHoldsExactlyWhen` | src/ratelimit.rs:98-99 | at every rate and for any calls, the burst size bounds an instant if and only if the bucket does not overrun: tokens there and due, plus one when unused and uncharged time make a token (rates to 10^9), within it, and no part of a token due (rates above); at rates that convert without rounding, tokens there and due decide alone |
| `TokenBuckets.OverrunsIsSpilling` | src/ratelimit.rs:188-213 | that test on the bucket's numbers agrees with refilling at that instant until nothing is due or something is left over |
| `TokenBuckets.InstantGrantsAreBounded` | src/ratelimit.rs:188-237 | at every rate, any calls at one instant are granted at most tokens + floor((rate*elapsed + rounding) / 10^9) |
| `TokenBuckets.SettledBoundsGrants` | src/ratelimit.rs:188-237 | when nothing is left over, any calls at one instant are granted at most what repeated refills make available |
| `TokenBuckets.RoundingSpills` | src/ratelimit.rs:207-211 | the default byte limit, one byte taken and 1907 ns later: 1024 tokens there and due, 1025 granted |
| `TokenBuckets.IdleTimeIsBanked` | src/ratelimit.rs:207-211 | burst size 1, ten idle seconds at one a second: eleven pass at once |
| `BucketObservation.ObservationIsFreeExactlyWhen` | src/ratelimit.rs:329-389 | deleting `status` calls and refused requests never changes another outcome if and only if the rate is 0, divides 10^9 or is a multiple of it |
| `BucketObservation.LookingIsInvisible` | src/ratelimit.rs:188-243 | for such rates, any of those calls can go from any run |
| `BucketObservation.RefillsCompose` | src/ratelimit.rs:188-213 | for such rates an earlier refill is absorbed by a later one, at the cap too |
| `BucketObservation.SlowRateShows` | src/ratelimit.rs:207-211 | a slower rate that does not divide 10^9: a run where one look changes a later answer |
| `BucketObservation.FastRateShows` | src/ratelimit.rs:207-211 | a faster rate that is no multiple of 10^9: the same |
| `BucketObservation.WaitingFills` | src/ratelimit.rs:256-269 | sleeping for `time_until_full` fills the bucket if and only if the rate times the time since the last refill covers what is missing times 10^9; a nanosecond more always does |
| `BucketObservation.AcquireReturnsExactlyWhen` | src/ratelimit.rs:351-365 | for all sleeps, when a sole caller returns: at once when the tokens are there; never when the amount exceeds the capacity or the rate is zero; when the first sleep ends if that covers what is missing (a late one does); else when the second one ends, unless the rate is at least two tokens a nanosecond and the wait brought whole tokens; then when the first late sleep ends, or never |
| `BucketObservation.AcquireIsARun` | src/ratelimit.rs:351-365 | the waiting form is a run of equal requests, each refused but perhaps the last: it takes its amount when it returns and nothing otherwise |
| `BucketObservation.NothingIsAcquiredAtOnce` | src/ratelimit.rs:352-354 | zero is had at once, the bucket unseen |
| `BucketObservation.ExactSleepsReturnExactlyWhen` | src/ratelimit.rs:351-365 | with exact sleeps the caller ever returns if and only if the tokens are there, or they fit and the first sleep covers them, or the rate is positive and below two tokens a nanosecond, or the wait brings a part of a token; two sleeps are then enough |
| `BucketObservation.StalledWaits` | src/ratelimit.rs:256-269 | with nothing unpaid and less than half a nanosecond's tokens missing, waits are zero and only a late sleep ends them |
| `BucketObservation.AvailableExactlyWhen` | src/ratelimit.rs:188-213 | an amount is there after a refill if and only if it fits and the unpaid time covers what is missing |
| `BucketObservation.LateSleepSuffices` | src/ratelimit.rs:351-365 | at every positive rate, one sleep that is late at all is enough, whatever came before |
| `BucketObservation.ExactSleepFallsShort` | src/ratelimit.rs:267-268 | three tokens a second, none there: the wait is 333333333 ns and brings none |
| `BucketObservation.ExactSleepsStarve` | src/ratelimit.rs:267-268 | three tokens a nanosecond: the wait is zero and exact sleeps never bring one |
| `BucketObservation.NeverAcquired` | src/ratelimit.rs:351-365 | more than the capacity, or than is there at rate zero, is never granted, however long one sleeps |
| `RateLimiting.TokenBucket.constructor` | src/ratelimit.rs:178-185 | a full bucket, paid up to now |
| `RateLimiting.TokenBucket.Refill` | src/ratelimit.rs:188-213 | the in-place refill follows the specified one |
| `RateLimiting.TokenBucket.TryConsume` | src/ratelimit.rs:216-237 | refill, then take all of the amount or nothing |
| `RateLimiting.TokenBucket.Available` | src/ratelimit.rs:240-243 | refills and reads the tokens |
| `RateLimiting.TokenBucket.TimeUntilFull` | src/ratelimit.rs:256-269 | refills; zero when full, a minute at rate zero, otherwise the time the missing tokens take, to the nearest nanosecond |
| `RateLimiting.TokenBucket.Reset` | src/ratelimit.rs:272-275 | full again, whatever was banked or owed |
| `RateLimiting.RateLimitConfig.Capacity` | src/ratelimit.rs:301-306 | the burst size, raised to 1024 for bytes and to 1 for the others |
| `RateLimiting.RateLimiter.constructor` | src/ratelimit.rs:296-314 | three separate full buckets, messages, bytes and operations each with the rate of their own field |
| `RateLimiting.RateLimiter.TryAcquire` | src/ratelimit.rs:329-346 | this kind's bucket takes the step, the others do not move; zero is always granted; a refusal carries the time until full |
| `RateLimiting.RateLimiter.Acquire` | src/ratelimit.rs:351-365 | the retry loop follows the specified sequence of sleeps, the others do not move |
| `RateLimiting.RateLimiter.Status` | src/ratelimit.rs:368-389 | what is there and when it is full, the others do not move |
| `RateLimiting.RateLimiter.ResetType` | src/ratelimit.rs:400-405 | this kind full, the others unmoved |
| `RateLimiting.RateLimiter.Reset` | src/ratelimit.rs:392-397 | all of them full |
| `Admission.AdmissionIsSafe` | src/ratelimit.rs:463-479 | in every interleaving of any number of threads admitted connections never exceed the maximum, the counter is admitted plus mid-call and so never underflows, and is exact when nobody is mid-call |
| `Admission.RefusedExactlyWhenFull` | src/ratelimit.rs:463-474 | a call will be refused if and only if admitted and mid-call connections fill the limit when it bumps the counter |
| `Admission.RefusedThoughEmpty` | src/ratelimit.rs:464-466 | so a call can be refused with nothing admitted at all (concrete run) |
| `Admission.StepKeepsInvariant` | src/ratelimit.rs:463-479 | every step keeps: counter = calls, winners within the limit |
| `PoolRuns.StepKeepsLedger` | src/pool.rs:283-418 | every step of every caller keeps: distinct identifiers across lists and servers, flags that match the list, balanced books |
| `PoolRuns.LedgerBalances` | src/pool.rs:208-522 | so in every reachable state acquired = released + in use + closed while in use, created = present + swept + dropped while waiting; no subtraction was clamped |
| `PoolSize.PoolSizeIsBounded` | src/pool.rs:283-345 | with at most K connects to a server under way together, connections and connects never exceed max + K - 1, in any interleaving of all operations |
| `PoolSize.SequentialConnectsRespectMax` | src/pool.rs:308-309 | connects that do not overlap never exceed the maximum |
| `PoolSize.PoolSizeBoundIsReached` | src/pool.rs:316-337 | for every maximum and every K some run reaches max + K - 1 |
| `PoolSize.TotalGrowsOnlyByConnecting` | src/pool.rs:327-337 | no step but a finished connect raises a server's total |
| `PoolSize.ReleasesLeaveOneTooMany` | src/pool.rs:390-396 | releasing healthy connections, any number of them, brings a total down to max + 1 and no further |
| `PoolWaiting.WaitersNeverConnect` | src/pool.rs:347-380 | no step of anyone takes a waiting caller to connecting |
| `PoolWaiting.CallConnectsExactlyWhen` | src/pool.rs:283-345 | in every interleaving a call ever connects if and only if its first look found no server, or no healthy connection where it looks and room |
| `PoolWaiting.WaitsOnEmptyPool` | src/pool.rs:347-380 | a run after which a caller waits on an empty pool, looking never helps it, and any newcomer may connect (concrete run) |
| `PoolLeases.DroppedOrClosedHandlesAreExclusive` | src/pool.rs:569-581 | handles never cloned and only dropped or closed: no connection ever has two live holders or is on offer while held, across `close_all` too |
| `PoolLeases.RunKeepsLeases` | src/pool.rs:283-418 | the same with clones and explicit releases, as long as every release is harmless; live handles share a connection only as clones of one |
| `PoolLeases.RunIsExclusiveExactlyWhen` | src/pool.rs:283-581 | a run, clones included, keeps leases exclusive all the way if and only if every release in it, explicit or by a drop, is harmless |
| `PoolLeases.ReleaseIsExclusiveExactlyWhenHarmless` | src/pool.rs:564-581 | an explicit release or a drop keeps leases exclusive if and only if the connection is not in use, or would not be kept, or no other handle holds it |
| `PoolLeases.StaleReleaseIsHarmlessExactlyWhen` | src/pool.rs:564-581 | the drop of a handle released before is harmless if and only if the connection is not in use again or would not be kept |
| `PoolLeases.StepKeepsLeases` | src/pool.rs:283-418 | every other step keeps leases exclusive, and every connection in use has its handle |
| `PoolLeases.ReleasedThenDropped` | src/pool.rs:564-581 | release, another get, the drop, a third get: two live holders (concrete run) |
| `PoolLeases.ClonedThenDropped` | src/pool.rs:530-581 | get, clone, the drop of one, another get: two live holders that are not clones of one (concrete run) |
| `PoolStatistics.CreatedIsAnUpperBound` | src/pool.rs:421-441 | the reported `total_created` is the connections present plus those swept or dropped, so equal to them exactly when there were none |
| `PoolStatistics.StatsAddUp` | src/pool.rs:421-441 | one more server adds one to the servers and its own numbers to each of the other figures |
| `PoolModel.GetExistingMoves` | src/pool.rs:283-314 | the first critical section lends a free healthy connection, or may throw one away and says whether there is room |
| `PoolModel.InsertNewMoves` | src/pool.rs:327-337 | a finished connect adds one connection, in use |
| `PoolModel.PollMoves` | src/pool.rs:355-376 | one look of the waiting loop lends a connection or may throw one away |
| `PoolSections.LookLendsExactlyWhen` | src/pool.rs:357-375 | a look lends if and only if the last free connection is healthy, that one, stamped and marked; an unhealthy one there is dropped and stays counted as created |
| `PoolSections.FirstLookLendsExactlyWhen` | src/pool.rs:285-309 | so does the first look, which uncounts an unhealthy one and otherwise says whether there is room |
| `PoolSections.HealthyLeavesOnlyLent` | src/pool.rs:285-375 | no look takes a healthy connection off the free list without lending it |
| `PoolSections.RunGrantsHealthy` | src/pool.rs:285-375 | in every run, every handle granted without connecting is for a connection free and healthy at that step |
| `PoolSections.WaiterServedExactlyWhen` | src/pool.rs:355-376 | a waiting caller is served if and only if its look finds a healthy connection last in the free list |
| `PoolSections.InsertedConnection` | src/pool.rs:332-337 | a new connection is in use, made and used now, counted as created and acquired |
| `PoolSections.ConnectingAdds` | src/pool.rs:325-344 | a connect that succeeds adds one connection and grants it, whatever became of the server meanwhile |
| `PoolSections.LeavingChangesNoPool` | src/pool.rs:318-353 | a connect that fails and a caller that gives up leave every server alone |
| `PoolModel.ReleaseMoves` | src/pool.rs:383-400 | release moves an identifier in use to the free list when healthy and within the limit, otherwise drops it; others are ignored |
| `PoolSections.ReleasedConnection` | src/pool.rs:386-398 | a released connection is taken out of the ones in use and goes to the end of the free list, stamped, if and only if it is healthy and the others are at most the maximum; otherwise it is uncounted |
| `PoolSections.ReleasedStranger` | src/pool.rs:386-386 | releasing what is not in use changes nothing |
| `PoolSections.ReleasedUntilIdle` | src/pool.rs:145-153 | a connection kept at its release stays through a later cleanup if and only if it is healthy then and the idle timeout has not passed since the release |
| `PoolModel.CloseMoves` | src/pool.rs:403-418 | close removes the identifier wherever it is |
| `PoolSections.ClosedConnection` | src/pool.rs:403-418 | the connection closed is taken out of its list, order kept, and uncounted; one not there changes nothing |
| `PoolSections.CloseAllForgets` | src/pool.rs:494-516 | after `close_all` every server is empty, while handles and waiting callers remain |
| `PoolModel.CleanupMoves` | src/pool.rs:229-234 | cleanup touches only the free list |
| `PoolModel.RetainedMembers` | src/pool.rs:151-153 | exactly the connections that need not be evicted stay |
| `PoolSections.SparedStay` | src/pool.rs:145-153 | a cleanup spares exactly what is in use, or is healthy and was used within the timeout |
| `PoolSections.SparedInOrder` | src/pool.rs:229-234 | in order, and each as often as it occurs |
| `PoolSections.CleanedServer` | src/pool.rs:229-234 | the same of a server; what is in use and all three counters stay |
| `PoolSections.SweepSpares` | src/pool.rs:460-477 | the same of every server in a step of the pool |
| `ConnectionPools.FindPosition` | src/pool.rs:223-224 | the first place with this identifier |
| `ConnectionPools.Retain` | src/pool.rs:231-232 | one pass keeps, in order, exactly the connections that need not be evicted |
| `ConnectionPools.ServerPool.constructor` | src/pool.rs:189-200 | no connections, no counts |
| `ConnectionPools.ServerPool.GetAvailable` | src/pool.rs:208-210 | takes the last free connection |
| `ConnectionPools.ServerPool.RemoveInUse` | src/pool.rs:223-226 | takes out the first connection in use with this identifier, keeping the order of the rest |
| `ConnectionPools.ServerPool.Cleanup` | src/pool.rs:229-234 | filters the free list in order and counts what went |
| `ConnectionPools.ServerPool.Drain` | src/pool.rs:500-511 | empties both lists, free ones first, and resets the created counter |
| `ConnectionPools.ServerPool.TakeUp` | src/pool.rs:291-294 | marks, stamps and moves a connection to the ones in use |
| `ConnectionPools.ServerPool.Look` | src/pool.rs:285-309 | the first critical section on one server |
| `ConnectionPools.ServerPool.LookAgain` | src/pool.rs:357-375 | one look of the waiting loop on one server |
| `ConnectionPools.ServerPool.AddNew` | src/pool.rs:332-337 | a new connection in use, both counters up |
| `ConnectionPools.ServerPool.TakeBack` | src/pool.rs:386-398 | release on one server |
| `ConnectionPools.ServerPool.Discard` | src/pool.rs:406-416 | close on one server |
| `ConnectionPools.ConnectionPool.constructor` | src/pool.rs:253-257 | no servers, the limits given |
| `ConnectionPools.NewPool` | src/pool.rs:250-258 | a pool is made if and only if 0 < minimum <= maximum, otherwise the first thing wrong is the error |
| `ConnectionPools.PoolConfig.Validate` | src/pool.rs:93-106 | nothing is wrong exactly when 0 < minimum <= maximum; a zero minimum is the first complaint, a zero maximum the second |
| `ConnectionPools.ConnectionPool.GetExistingConnection` | src/pool.rs:283-314 | the first critical section changes this server alone; an unknown server may connect |
| `ConnectionPools.ConnectionPool.InsertConnection` | src/pool.rs:327-337 | the second one creates the server if `close_all` or nobody had it |
| `ConnectionPools.ConnectionPool.PollConnection` | src/pool.rs:355-376 | one look changes this server alone |
| `ConnectionPools.ConnectionPool.ReleaseConnection` | src/pool.rs:383-400 | release changes this server alone; an unknown server is ignored |
| `ConnectionPools.ConnectionPool.CloseConnection` | src/pool.rs:403-418 | close changes this server alone |
| `ConnectionPools.ConnectionPool.CleanupAll` | src/pool.rs:460-477 | every server cleaned; the numbers reported are the connections gone and the servers that lost some |
| `ConnectionPools.ConnectionPool.Stats` | src/pool.rs:421-441 | the sums over all servers |
| `ConnectionPools.ConnectionPool.CloseAll` | src/pool.rs:494-516 | no server is left; what is closed afterwards is every connection there was, and as many as there were |
| `Subprotocols.HeaderRoundTrip` | src/subprotocol.rs:205-207 | printing and parsing a list of valid names gives it back, order and repetitions kept |
| `Subprotocols.ParsedHeaderIsStable` | src/subprotocol.rs:623-642 | what is read of any text is valid and survives printing and reading again |
| `Subprotocols.ParseAtComma` | src/subprotocol.rs:626-634 | parsing goes through a comma, wherever it is |
| `Subprotocols.ParseOnePiece` | src/subprotocol.rs:626-634 | without a comma, the trimmed text if it is a valid name, otherwise nothing |
| `Subprotocols.TrimCuts` | src/subprotocol.rs:627-627 | trimming takes white space off both ends, all of it, and nothing else |
| `Subprotocols.ValidNames` | src/subprotocol.rs:266-284 | a name is valid exactly when it is not empty and all alphanumeric, hyphen or underscore |
| `Subprotocols.PaddedName` | src/subprotocol.rs:626-634 | a valid name between white space of any length on either side is read as that name |
| `Subprotocols.OtherPiece` | src/subprotocol.rs:626-634 | a piece that is no valid name between white space is read as nothing |
| `Subprotocols.PrintedText` | src/subprotocol.rs:205-207 | the text printed: the names with a comma and a space between, nothing for none |
| `Subprotocols.ParseHeader` | src/subprotocol.rs:623-642 | the loop collects the valid names in order |
| `Subprotocols.FromSlice` | src/subprotocol.rs:85-115 | the whole list, or the first invalid name as error |
| `Subprotocols.OffersGrow` | src/subprotocol.rs:111-115 | a valid name is appended, an invalid one is the error |
| `Subprotocols.AcceptsExactlyItsOwn` | src/subprotocol.rs:241-254 | the client accepts no answer or one of its own names, unchanged, and nothing else: any other name is the error |
| `Subprotocols.SubprotocolNegotiator.WithProtocol` | src/subprotocol.rs:387-393 | a valid name is supported afterwards, without repetition, and nothing else changes |
| `Subprotocols.SubprotocolNegotiator.Negotiate` | src/subprotocol.rs:558-578 | the leftmost offer the server supports, the first under wildcard, none only if none suits |
| `Subprotocols.SubprotocolNegotiator.ShouldReject` | src/subprotocol.rs:602-605 | exactly when a non-empty offer has no match |
| `Subprotocols.SelectionDependsOnTheSet` | src/subprotocol.rs:558-578 | the selection is unique and does not depend on the order in which the server's names were added |
| `Subprotocols.Handshake` | src/subprotocol.rs:241-254 | offer printed, read, negotiated, answered: the client always accepts, and the selection is the one for the original offer |
| `Backoff.WholeMultiplierClosedForm` | src/reconnect.rs:51-61 | with a whole multiplier the delay after n attempts, in whole milliseconds, is min(max, initial * m^n) |
| `Backoff.NeverAboveEnvelope` | src/reconnect.rs:51-61 | for every multiplier the delay stays below the exponential and, after the first attempt, the maximum |
| `Backoff.NextDelay` | src/reconnect.rs:55-60 | without division, for every multiplier: the next delay is the last one's whole milliseconds multiplied, cut to whole milliseconds and capped by those of the maximum |
| `Backoff.DelaysNeverShrinkExactlyWhen` | src/reconnect.rs:51-61 | with a multiplier of at least one no delay is shorter than the one before if and only if the initial delay is within the maximum and either is whole milliseconds or gains one at first |
| `Backoff.FirstStepDecides` | src/reconnect.rs:51-61 | for every multiplier, if the second delay is not shorter than the first no later one is shorter than the one before |
| `Backoff.FirstDelayMayBeLonger` | src/reconnect.rs:55-60 | 1.5 ms and a multiplier of 1.2: then 1 ms; 0.5 ms and 2: then nothing (concrete configurations) |
| `Backoff.DelaysNeverShrink` | src/reconnect.rs:51-61 | in whole milliseconds, and from the first recorded attempt on, no delay is shorter than the one before |
| `Backoff.RisesToMax` | src/reconnect.rs:51-61 | if the first multiplication gains a millisecond, delays rise strictly to the maximum, within max - initial attempts, and stay |
| `Backoff.NeverLeavesStart` | src/reconnect.rs:51-61 | otherwise the first attempt cuts the delay to whole milliseconds and no later one changes it |
| `Backoff.MaximumReachedExactlyWhen` | src/reconnect.rs:51-61 | so the maximum is reached if and only if the delay starts there or gains a millisecond at first |
| `Backoff.StartAboveMaxIsCut` | src/reconnect.rs:51-61 | an initial delay above the maximum is cut by the first attempt for good |
| `Backoff.ReconnectState.constructor` | src/reconnect.rs:17-25 | no attempts, the initial delay |
| `Backoff.ReconnectState.RecordAttempt` | src/reconnect.rs:51-61 | one more attempt, and the delay that belongs to that many |
| `Backoff.ReconnectState.Reset` | src/reconnect.rs:64-68 | back to no attempts and the initial delay |
| `Backoff.ReconnectState.WaitForNextAttempt` | src/reconnect.rs:76-83 | refused if and only if reconnecting is off or the limit is used up; otherwise wakes after the delay of this many attempts |
| `Backoff.WaitCountsRecords` | src/reconnect.rs:33-83 | in any run of waits, records and resets a wait is let through if and only if fewer attempts than the limit were recorded since the last reset (always without a limit), and takes the delay of that many |
| `Backoff.AttemptsEndExactly` | src/reconnect.rs:33-83 | waiting and recording from a fresh or reset state, exactly `max_attempts` waits are let through, the i-th with the delay of i attempts, and the next is refused; without a limit none is |
| `Metrics.PercentilesAreOrdered` | src/metrics.rs:181-186 | p50 <= p95 <= p99 always; p99 <= p999 if and only if the window holds one sample, more than a hundred, or its two largest are equal |
| `Metrics.PlaceIsRank` | src/metrics.rs:176-186 | the sample at place k is the one number with at most k samples below it and more than k at or below it |
| `Metrics.PercentilesByRank` | src/metrics.rs:168-187 | p50, p95, p99 and p999 are the samples with at most n*50/100, n*95/100, n*99/100 and (n-1)*999/1000 samples below them and more at or below; zeros for no samples |
| `Metrics.WindowIsTheEnd` | src/metrics.rs:108-113 | the window is the end of the history, at most 1000 samples of it |
| `Metrics.PercentilesDependOnTheSamples` | src/metrics.rs:165-188 | order of arrival does not matter |
| `Metrics.IndexesInRange` | src/metrics.rs:181-186 | every index is within the window |
| `Metrics.MetricsCollector.constructor` | src/metrics.rs:42-46 | no samples |
| `Metrics.MetricsCollector.RecordLatency` | src/metrics.rs:105-114 | the window stays the last 1000 samples since the last reset |
| `Metrics.MetricsCollector.Reset` | src/metrics.rs:236-239 | no samples |
| `Metrics.MetricsCollector.LatencyPercentilesNow` | src/metrics.rs:165-188 | the percentiles of that window, zeros when it is empty |

## Left out

- Fixed integer widths: sizes, counters, tokens and times are unbounded; overflow of `u64`, `usize` or the
  `u32` attempt counter and the saturating operations that guard against it do not arise.
- Floating point: tokens due, time paid, time until full and backoff are exact integers here; the
  multiplier is a non-negative fraction, so negative, infinite and NaN ones are not covered.
- Clock reads: one reading per call, and none goes backwards within a run, even where a call reads twice.
- `ingest_frame` by several threads for one connection at a time: its two critical sections are told apart only
  between connections (`TwoStepIngest`); elsewhere a call is one step.
- The compare-exchange retry of `try_consume` and memory orderings: bucket operations are serialised by the
  limiter's mutex, the counter's steps are atomic.
- The error for a kind of limit without a bucket: the constructor makes all three, so it never arises.
- `Fragmenter::new`'s assertion: the results need a positive frame size only, which it enforces.
- `get_with_config` as one method: it is the steps `Get`, `Connected`, `ConnectFailed`, `Look` and `GiveUp`;
  sleeping between looks and the timeout are a free choice of the next step.
- `in_progress_count`, the number of partials held.
- `close` on the connection itself, message traffic of a `PooledClient`, the health-check task beyond the
  cleanup it calls, and `server_stats`, which reads three counters and two lengths.
- Unicode: which characters are alphanumeric or white space is a parameter, with the few facts about comma,
  hyphen, underscore and space that are needed.
- The standard library's sort is modelled by an insertion sort; `PlaceIsRank` does not depend on it.
- `src/client.rs`, `src/server.rs`, `src/compression.rs`, `src/backpressure.rs`, `src/heartbeat.rs`,
  `src/headers.rs`, `src/config.rs`, `src/error.rs`: sockets, foreign codecs, short counters and builders that
  would add only easy members.
