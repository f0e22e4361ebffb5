# Verified model of the ID-generation engine

This project models the engine behind the ID service: the segment allocator, the snowflake
generator, the degradation manager with its fallback router, and the circuit breaker, with the
parts of configuration, database allocation and metadata extraction that their guarantees depend
on. `dafny verify dfyconfig.toml` checks all of it.

Each component is modelled twice. Values and functions (`Generate`, `Run`, `Apply`, `Round`,
`TryConsume`, ...) say what an operation computes; whole runs are folds of them, and the theorems
quantify over runs. Classes with the source's fields (`Node`, `SegmentAlgorithm`, `DoubleBuffer`,
`AtomicSegment`, `QpsWindow`, `DegradationManager`, `AlgorithmRouter`, `CircuitBreaker`) update
those fields step by step, with the source's loops, and their methods are proved against the
value model, new state and answer, so the theorems are about the classes too.

| file | what it models |
|---|---|
| `Words.dfy` | u64 arithmetic, shifts, or, and, masks on naturals |
| `SnowflakeLayout.dfy` | bit packing, masks and widths, the decoding of the parse endpoint |
| `Snowflake.dfy`, `SnowflakeCluster.dfy`, `SnowflakeIdentities.dfy` | one generator driven by an arbitrary clock; many of them interleaved; which node numbers can collide |
| `SnowflakeService.dfy` | what a node's batches and its health check tell their callers |
| `SnowflakeProtocol.dfy`, `SnowflakeOverlap.dfy` | overlapping callers inside one generator, one step per access to its fields, and when they repeat an id |
| `Segment.dfy` | one segment: consumption and the switch test |
| `SegmentProtocol.dfy`, `SegmentProtocolProperties.dfy`, `SegmentPlaces.dfy` | the double buffer under any number of concurrent callers, one step per operation on a shared object |
| `SegmentSerial.dfy`, `SegmentBuffers.dfy` | the same calls one at a time: value model and classes |
| `SegmentAnswers.dfy` | what concurrent callers are told, and what one gets that waited for another's load |
| `SegmentWorkers.dfy` | the same callers on an executor with a fixed number of worker threads |
| `SegmentRuns.dfy`, `SegmentOverlap.dfy` | particular runs of `generate` callers: what overlapping loads do, and the default loader |
| `SegmentSolo.dfy` | the interleaved and the serialized model agree |
| `SegmentAllocation.dfy`, `SegmentOverrun.dfy` | the database rows that ranges come from, and several instances sharing them; what a row does that outgrows its block |
| `QpsWindow.dfy` | the sixty-slot request window |
| `Degradation.dfy`, `DegradationHistory.dfy`, `DegradationBreaker.dfy`, `DegradationManager.dfy` | hysteresis, health checks, the cached choice; how results, passes and recoveries together decide degradation; how a breaker moves and when the choice is made anew |
| `Router.dfy` | the fallback chain |
| `CircuitBreaker.dfy`, `BreakerHistory.dfy`, `BreakerProtocol.dfy` | the circuit breaker, callback by callback and access by access; its counters as functions of what happened |

## How the environment enters

- The clock is a list of readings, in any order, for the snowflake generator and the request
  window; the breaker takes the instant of each callback. A call that has read all its readings
  and still waits is a result of its own (`Waiting`).
- The loader is an oracle. In `SegmentProtocol` its answers are events of the run, and the
  hypothesis on them is that ranges are well formed and share no id with an earlier range. In
  `SegmentSerial` they are a list of ranges and errors, with no hypothesis of disjointness.
  `SegmentOverlap` and `SegmentAllocation` say when the two loaders of the repository meet the
  hypothesis. In `SegmentWorkers` a run also says whether a load gives up its worker. Sizes and ranges are below 2^63, as the database's are; the u64 additions of a run
  then cannot wrap.
- Health answers, generation results and the order in which a map is walked are arbitrary inputs.
- `switch_threshold` and failure ratios are reals.

## What the code does that its documentation does not say

- *Breaker threshold.* `failure_threshold` is documented as a number of consecutive failures, but
  a failure in Closed opens the breaker whatever the thresholds are; only HalfOpen consults them
  (`FailureOpensIff`).
- *Breaker callbacks.* A failure whose swap to Open and store of the deadline both fall between a
  closing call's CAS and its clearing of the deadline leaves the breaker Open without a deadline,
  and then nothing is admitted until another failure or a reset (`RejectingIff`, `RejectsForEver`).
  Every configuration can get there (`EveryBreakerCanReject`).
- *Snowflake callers.* A node's ids are unique when its calls come one at a time. Callers that
  overlap in a new millisecond repeat one exactly when a caller resets the sequence after another
  has taken a number from it, or a number is issued from beyond the mask (`OverlapDuplicatesIff`);
  two callers are enough (`TwoCallersCollide`), and so is a caller waiting for the next
  millisecond while others go on (`WaitingCallerIsOvertaken`). Ids of different nodes never meet,
  however their callers overlap (`NodesStayApart`).
- *Clock health.* A node that once refused a call because the clock was too far behind reports
  itself unhealthy until another call finds the clock behind by less: issuing ids again does not
  clear it (`UnhealthyIff`).
- *Late waiters.* A `generate` that waits for another caller's load in its third attempt is told
  that the segments are exhausted whatever that load brings (`LastRoundWaiterGetsNothing`), and a
  third load of its own comes too late for it (`GenerateAnswers`).
- *Recovered fallbacks.* A fallback that recovers by its results is not considered for the choice
  until something is degraded or the primary recovers (`ResultChooses`).
- *Breaker window.* The failure that starts a new window is not counted in it (`OpensIff`).
- *Probe failures.* An unhealthy probe of a half-open breaker raises the failure counter without
  comparing it to the threshold, so that no number of them degrades an algorithm
  (`ProbesNeverTrip`).
- *Default loader.* Its ranges are a million ids long and start at ten thousand times the clock's
  second. Every run whose loads are pairwise at least 100 seconds apart issues no id twice
  (`SpacedLoadsAreSafe`); loads of which two are less than 100 seconds apart make some run of
  plain `generate` calls issue an id twice (`CloseLoadsDuplicateIff`).
- *Spinning.* A `generate` that finds the loading flag taken spins without yielding its worker
  thread. One more such call than there are workers can jam the executor for good: every worker
  spins while the flag's holder, whose loader suspended, has no worker to release it on
  (`StuckIff`, `EveryPoolCanJam`). A loader that never suspends cannot cause it
  (`NeverSuspendsNeverJams`).
- *Datacenter numbers.* Validation admits datacenters up to 31 while the default layout has three
  bits for them. Nodes with the same worker collide exactly when their datacenters differ by a
  multiple of eight (`DefaultNodesCollideIff`).
- *Threshold 0.* Configuration validation admits a switch threshold of 0, with which a drained
  segment is never replaced (`DrainedSwitchesIff`, `GenerateSucceedsIff`).
- *Lost segments.* `generate` releases the loading flag before it publishes the segment it loaded,
  so even without batches a full segment can be overwritten and lost (`FullSegmentCanBeLost`);
  `StrandsIff` says exactly which steps lose one. No id is issued twice because of it.
- *Metadata.* The parse endpoint decodes snowflake ids with constants 3, 8 and 10, right for every
  id of a configuration exactly when that layout is configured, or a layout without datacenter
  bits that puts the rest in the same places (`ExtractorReadsBackIff`).
- *Buffer keys.* A workspace and a tag are joined with a colon to find their buffer, so two pairs
  can share one (`KeysCollideIff`).
- *Datacenter blocks.* Each datacenter's row starts 10^12 ids after the one before, with no check
  at the end of a block. While no datacenter gives out more than that, no id is issued twice
  (`BlocksSuffice`); as soon as one does, two instances can issue the same id
  (`OverrunOverlapsIff`, `OverrunDuplicatesIff`).
- *Wrap-around.* `try_consume` adds without a check; in a release build the addition wraps, and
  consumption is exact if and only if it does not (`TryConsumeExactIff`).

## Model

| member | source | states |
|---|---|---|
| SnowflakeLayout.ConstructIsPositional | src/core/algorithm/snowflake.rs:226-239 | for every layout below 64 bits and all in-range fields, the or of shifts is the mixed-radix numeral of the fields and fits a u64 |
| SnowflakeLayout.DecodeConstruct | src/core/config/algorithm.rs:57-73 | the configured masks and shifts recover every field of every in-range id |
| SnowflakeLayout.RecoverableIffInRange | src/core/algorithm/snowflake.rs:226-239 | packing loses nothing if and only if every field is within its mask, since `construct_id` itself masks none |
| SnowflakeLayout.ConstructInjective | src/core/algorithm/snowflake.rs:226-239 | in-range fields give equal ids exactly when all of them are equal |
| SnowflakeLayout.OrderIsLexicographic | src/core/algorithm/snowflake.rs:226-239 | numeric order of ids is lexicographic order on timestamp, datacenter, worker, sequence |
| SnowflakeLayout.ExtractorReadsBackIff | src/server/handlers/id_handlers.rs:227-255 | the metadata extractor is right about every id of a configuration if and only if the configured widths lay fields out as its constants assume |
| SnowflakeLayout.ExtractorReadsOwnLayout | src/server/handlers/id_handlers.rs:227-255 | under such a layout every producible id is read back field by field |
| SnowflakeLayout.MisreadId | src/server/handlers/id_handlers.rs:227-255 | for every other layout, a producible id that the extractor misreads |
| Snowflake.WrapTestIsExhaustion | src/core/algorithm/snowflake.rs:170-178 | while the sequence is at most mask + 1, the wrap test fires exactly when the timestamp's sequence numbers are used up |
| Snowflake.RunInv | src/core/algorithm/snowflake.rs:142-224 | after any list of calls and readings the sequence is at most mask + 1 and continues the last stamp, and every issued stamp either continues its predecessor's timestamp or starts a later one at 0 |
| Snowflake.StampsIncrease | src/core/algorithm/snowflake.rs:142-224 | stamps of one node strictly increase over every clock, stalls and backward jumps included, and those of one timestamp are numbered without gaps |
| Snowflake.TimestampCapacity | src/core/algorithm/snowflake.rs:170-184 | at most 2^sequence_bits returned ids carry one timestamp |
| Snowflake.IssuedWereRead | src/core/algorithm/snowflake.rs:118-195 | every issued timestamp was read from the clock, so a bound on readings bounds them |
| Snowflake.IdsIncrease | src/core/algorithm/snowflake.rs:142-239 | the returned numbers themselves strictly increase |
| Snowflake.GenerateSucceedsIff | src/core/algorithm/snowflake.rs:142-195 | a call issues an id exactly when the clock is past the last timestamp, or at it with sequence numbers left, or has to be waited for within the drift threshold and gets past it; it reports a backward clock exactly when the drift exceeds the threshold |
| Snowflake.Node.constructor | src/core/algorithm/snowflake.rs:84-95 | a new node has issued nothing |
| Snowflake.Node.WaitForNextMs | src/core/algorithm/snowflake.rs:132-140 | the loop stops at the first reading past the given timestamp |
| Snowflake.Node.GenerateIdWithTimestamp | src/core/algorithm/snowflake.rs:197-224 | the sequence restarts at the timestamp and the id carries sequence 0 |
| Snowflake.Node.GenerateId | src/core/algorithm/snowflake.rs:142-195 | fields, issued stamps, unread clock readings and answer are those of the state machine |
| Snowflake.Node.BatchGenerate | src/core/algorithm/snowflake.rs:264-301 | makes serialized calls one after another on one clock, exactly until `size` ids are issued, a hundred calls have failed or a call waits; node, failure count and ids are those of these calls, and no id at all is an error |
| Snowflake.ServedIssues | src/core/algorithm/snowflake.rs:279-292 | the stamps that the calls of a batch add to the node are those of its successful replies, in order |
| SnowflakeService.SteadyClockFillsBatch | src/core/algorithm/snowflake.rs:264-301 | if the first `size` readings never go back, start no earlier than the last timestamp and show no millisecond oftener than sequence numbers are left, a batch makes exactly `size` calls and issues one id at each reading |
| SnowflakeService.BatchFailsIff | src/core/algorithm/snowflake.rs:264-301 | a batch ends without an id, and not waiting, if and only if the first hundred readings are all behind the last timestamp by more than the drift threshold |
| SnowflakeService.UnhealthyIff | src/core/algorithm/snowflake.rs:303-313 | over every run the health check fails if and only if the last call that found the clock behind was refused for it |
| SnowflakeCluster.NodesAreIndependent | src/core/algorithm/snowflake.rs:142-195 | interleaving calls on other nodes changes nothing for a node |
| SnowflakeCluster.ClusterUniqueness | src/core/algorithm/snowflake.rs:142-239 | over every interleaving of calls and all clocks, each node's own calls one at a time, nodes with distinct in-range (datacenter, worker) pairs issue no id twice, two nodes or one |
| SnowflakeCluster.SharedIdentityCollides | src/core/algorithm/snowflake.rs:142-239 | two nodes with the same pair, called in one millisecond, issue the same id |
| SnowflakeProtocol.SoloIsGenerate | src/core/algorithm/snowflake.rs:142-195 | at any state of the node, a caller that runs alone, access by access, ends with the fields, stamp, error or wait of the serialized call, for all clock readings |
| SnowflakeProtocol.NodesStayApart | src/core/algorithm/snowflake.rs:142-239 | however callers overlap inside each of two nodes, their ids are equal only if the nodes' in-range numbers and the stamps are the same |
| SnowflakeOverlap.OverlapDuplicatesIff | src/core/algorithm/snowflake.rs:142-195 | any number of callers that read one new millisecond, interleaved in any way until each has its id or waits: a stamp is issued twice if and only if some reset of the sequence follows another caller's `fetch_add`, or an id is issued from a counter beyond the mask |
| SnowflakeOverlap.FewCallersDuplicateIff | src/core/algorithm/snowflake.rs:186-191 | with at most 2^sequence_bits callers, if and only if a reset follows a `fetch_add` |
| SnowflakeOverlap.TwoCallersCollide | src/core/algorithm/snowflake.rs:142-195 | for every layout and millisecond, two callers of a new node can both get sequence 0 |
| SnowflakeOverlap.WaitingCallerIsOvertaken | src/core/algorithm/snowflake.rs:170-178 | with the sequence used up by calls one after another, the next caller waits and the one after it repeats a stamp, so 2^sequence_bits + 2 callers suffice without any race on the reset |
| SnowflakeIdentities.LowBits | src/core/algorithm/snowflake.rs:226-239 | for any numbers, in range or not, the bits below the timestamp are the node's bits and then the sequence |
| SnowflakeIdentities.CanCollideIff | src/core/algorithm/snowflake.rs:142-239 | two nodes can issue the same id, over some calls and clocks, if and only if their numbers put the same bits between timestamp and sequence |
| SnowflakeIdentities.NodeBitsInRange | src/core/algorithm/snowflake.rs:226-239 | numbers within their masks put exactly themselves there |
| SnowflakeIdentities.DefaultNodesCollideIff | src/core/config/app_config.rs:112-116 | in the default layout two nodes can collide if and only if they have the same worker and datacenters equal modulo 8, although datacenters up to 31 pass validation |
| SnowflakeIdentities.EightCollidesWithZero | src/core/algorithm/snowflake.rs:226-239 | datacenter 8 at an even millisecond and datacenter 0 at the next one, with the same worker, issue the same id |
| Segments.TryConsumeExactIff | src/core/algorithm/segment.rs:514-526 | consumption takes exactly `count` ids off the front, or nothing because they are not there, if and only if the u64 addition does not wrap |
| Segments.ApartIff | src/core/algorithm/segment.rs:471-488 | the disjointness used for loaded ranges holds exactly when no id is in both |
| Segments.NeedSwitchIff | src/core/algorithm/segment.rs:600-617 | a segment that held ids is given up if and only if fewer of them are left than the threshold share; an empty one always is |
| Segments.DrainedSwitchesIff | src/core/algorithm/segment.rs:600-617 | a drained segment is given up if and only if it never held an id or the threshold is positive |
| Segments.FullSwitchesIff | src/core/algorithm/segment.rs:600-617 | a full segment is given up if and only if it is empty or the threshold exceeds 1 |
| Segments.SwitchWaste | src/core/algorithm/segment.rs:600-617 | a segment given up holds less than the threshold share of its length |
| SegmentProtocol.MoveConsumes | src/core/algorithm/segment.rs:514-526 | a consuming step takes the next ids of the caller's segment and answers with them, or leaves everything as it is |
| SegmentProtocol.ConsumeKeepsExact | src/core/algorithm/segment.rs:514-526 | handing out the next ids of one of pairwise disjoint segments repeats no id and keeps the issued ids equal to the consumed fronts |
| SegmentProtocol.ApplyKeepsExact | src/core/algorithm/segment.rs:798-904 | every step of every caller and every loader answer keeps these books exact, with sizes and ranges below 2^63 |
| SegmentProtocol.ProperRunIsLegal | src/core/algorithm/segment.rs:514-526 | a run meets the hypotheses of these theorems if its sizes are below 2^63 and its loads are well formed, below 2^63 and pairwise disjoint |
| SegmentProtocol.NoIdIssuedTwice | src/core/algorithm/segment.rs:798-904 | under every interleaving of any number of `generate` and `batch_generate` callers no id is issued twice, and the issued ids are exactly [start, current) of the loaded segments |
| SegmentProtocol.ProperRunsIssueNoIdTwice | src/core/algorithm/segment.rs:798-904 | no id is issued twice, with the hypotheses read off the events alone |
| SegmentProtocolProperties.LoadedIsIssuedPlusUnissued | src/core/algorithm/segment.rs:580-598 | at every reachable state loaded = issued + unissued, wherever swaps have put the segments |
| SegmentProtocolProperties.AnswersPartitionIssued | src/core/algorithm/segment.rs:798-904 | every issued id is in exactly one caller's answer, and every answer is the number of consecutive ids of one segment that the caller asked for |
| SegmentAnswers.LoadErrorIff | src/core/algorithm/segment.rs:817-822 | over every run, without any hypothesis, a finished caller was answered with a load error if and only if the loader failed it while it waited, which happens once at most |
| SegmentAnswers.ExhaustedIff | src/core/algorithm/segment.rs:798-849 | a finished `generate` whose load did not fail is exhausted if and only if it found no room three times |
| SegmentAnswers.BatchExhaustedIff | src/core/algorithm/segment.rs:856-890 | a finished batch of at least one id is exhausted if and only if it found its segment too full to be given up |
| SegmentAnswers.WaiterGetsNextIds | src/core/algorithm/segment.rs:813-838 | a caller that waited for a load, or finds a segment in next, gets the next ids of the range that was published or installed, as many as it asked for, within six steps of its own and without a load, if the range has room and nobody disturbs it |
| SegmentAnswers.LastRoundWaiterGetsNothing | src/core/algorithm/segment.rs:830-849 | a `generate` that waits in its third round is exhausted, whatever was published or installed |
| SegmentProtocolProperties.FlagMeansOneLoader | src/core/algorithm/segment.rs:562-578 | the loading flag is set exactly when one `generate` is between winning the CAS and `finish_loading`; there are never two |
| SegmentProtocolProperties.FlagReleased | src/core/algorithm/segment.rs:817-822 | the winner releases the flag whether the load succeeded or failed |
| SegmentProtocolProperties.SomeoneCanMove | src/core/algorithm/segment.rs:798-904 | no deadlock if every caller has a thread of its own: while a caller is unfinished, some caller has a step that changes the state |
| SegmentWorkers.StuckIff | src/core/algorithm/segment.rs:818-834 | on a fixed number of workers, with a loader that suspends its caller or not at each load, after any run and while a caller is unfinished, nothing can ever move again if and only if the flag is set and every worker runs a spinner |
| SegmentWorkers.JammedHolderHasNoWorker | src/core/algorithm/segment.rs:818-834 | the flag's holder is then off the workers |
| SegmentWorkers.JammedForEver | src/core/algorithm/segment.rs:831-834 | whatever arrives and whatever the loader answers, a jammed pool stays jammed and issues nothing more |
| SegmentWorkers.EveryPoolCanJam | src/core/algorithm/segment.rs:798-849 | for every number of workers some run of `generate` callers jams them |
| SegmentWorkers.NeverSuspendsNeverJams | src/core/algorithm/segment.rs:818-834 | if no load suspends its caller, no run jams the pool |
| SegmentProtocolProperties.GenerateProgresses | src/core/algorithm/segment.rs:798-849 | every step of a `generate` that is not a spin lowers its rank |
| SegmentProtocolProperties.GenerateIsBounded | src/core/algorithm/segment.rs:798-849 | a `generate` takes at most 39 steps of its own under every schedule, spinning aside |
| SegmentPlaces.SegmentsHaveOnePlace | src/core/algorithm/segment.rs:580-598 | at every reachable state no segment is in two of current, next and the callers' hands |
| SegmentPlaces.StrandsIff | src/core/algorithm/segment.rs:821-835 | a segment gets out of reach exactly by a `set_next` over it or a swap that replaces it as current |
| SegmentPlaces.StrandedForEver | src/core/algorithm/segment.rs:580-598 | a segment out of reach stays so in every continuation |
| SegmentPlaces.FullSegmentCanBeLost | src/core/algorithm/segment.rs:817-829 | with `generate` callers only, a legal run loses a full segment of ten ids, because the flag is released before `set_next` |
| SegmentSerial.RoomIsUsed | src/core/algorithm/segment.rs:802-810 | a call whose current segment has room gets exactly the next ids and loads nothing |
| SegmentSerial.CallsKeepBalance | src/core/algorithm/segment.rs:798-904 | every serialized mix of calls keeps the books balanced, by count and by length, and gives segments up only by the switch test |
| SegmentSerial.LoadedIsIssuedKeptOrAbandoned | src/core/algorithm/segment.rs:798-904 | over every serialized mixed run, loaded = issued + in the buffer + abandoned |
| SegmentSerial.EachWasteIsBelowThreshold | src/core/algorithm/segment.rs:592-617 | each abandoned segment that held ids has less than the threshold share of them left |
| SegmentSerial.WasteIsWithinThreshold | src/core/algorithm/segment.rs:592-617 | all abandoned ids together are at most the threshold share of all loaded ids |
| SegmentSerial.ShareIsProduct | src/core/algorithm/segment.rs:616-616 | the share in these bounds is threshold times count |
| SegmentSerial.IthIdOfTheLoadedRanges | src/core/algorithm/segment.rs:798-849 | in serialized `generate` runs the i-th id is the i-th element of the concatenated loaded ranges, the rest is what current still holds, and nothing is abandoned |
| SegmentSerial.GenerateIssuesItsReply | src/core/algorithm/segment.rs:798-849 | a `generate` that succeeds issues exactly the id it returns; one that fails issues none |
| SegmentSerial.GenerateSucceedsIff | src/core/algorithm/segment.rs:798-849 | a `generate` succeeds exactly when current has an id, or less than the threshold share of its ids and one of the next two loads is a non-empty range with no error before it |
| SegmentSerial.GenerateAnswers | src/core/algorithm/segment.rs:798-849 | reply and unused loads of a `generate` on a drained current for every case of the loads: with ids kept back by the threshold it makes none, else the first of at most three loads that is not an empty range decides between an id, a load error and exhaustion |
| SegmentSerial.GenerateNeedsOneLoad | src/core/algorithm/segment.rs:798-849 | with a positive threshold and a non-empty load every `generate` succeeds within two of its three attempts and makes at most one load |
| SegmentSerial.BatchSucceedsIff | src/core/algorithm/segment.rs:851-904 | a batch succeeds exactly when it asks for an id and current has room, or less than the threshold share of its ids and the loads serve it; it then issues `size` consecutive ids of one segment |
| SegmentSerial.BatchAnswers | src/core/algorithm/segment.rs:851-904 | reply and unused loads of a batch that current has no room for, for every case of the loads: the first load that it does not pass over decides between its ids, a load error and exhaustion |
| SegmentSerial.NextIsUsed | src/core/algorithm/segment.rs:812-816 | a segment with room that waits in next serves a call that gives current up, and no load is made |
| SegmentSerial.BatchTwoRounds | src/core/algorithm/segment.rs:856-890 | with a threshold of at most 1 and a non-empty first load, only that load matters, at most one is made, and the batch ends within two rounds of its loop |
| SegmentSerial.NextStaysEmpty | src/core/algorithm/segment.rs:592-598 | between serialized calls no segment waits in next |
| SegmentSerial.ModestIsRoomy | src/core/algorithm/segment.rs:514-526 | in a run whose sizes and ranges are below 2^63 no addition wraps |
| SegmentSerial.IthCallGetsIthId | src/core/algorithm/segment.rs:798-849 | in serialized `generate` runs with a positive threshold and a loader that would answer each call with a non-empty range, every call succeeds and the i-th returns the i-th id of the concatenated loaded ranges |
| SegmentBuffers.AtomicSegment.TryConsume | src/core/algorithm/segment.rs:514-526 | the cursor and the range taken are the value model's |
| SegmentBuffers.DoubleBuffer.constructor | src/core/algorithm/segment.rs:544-560 | a new buffer holds the empty segment, nothing in next, and a free flag |
| SegmentBuffers.DoubleBuffer.NeedSwitch | src/core/algorithm/segment.rs:600-617 | true exactly when the current segment is empty or less than the threshold share of its ids is left |
| SegmentBuffers.DoubleBuffer.TryStartLoading | src/core/algorithm/segment.rs:564-568 | wins exactly when the flag was free, and the flag is set afterwards |
| SegmentBuffers.DoubleBuffer.Swap | src/core/algorithm/segment.rs:592-598 | next becomes current and next is empty; without a next nothing changes |
| SegmentBuffers.DoubleBuffer.LoadUnderFlag | src/core/algorithm/segment.rs:817-829 | load, publish and swap with the flag in hand, which is free again on success and on error |
| SegmentBuffers.DoubleBuffer.SpinThenSwap | src/core/algorithm/segment.rs:830-838 | the spin ends exactly when the holder releases the flag, and a published segment is then swapped in |
| SegmentBuffers.DoubleBuffer.GenerateRound | src/core/algorithm/segment.rs:802-840 | one attempt has the outcome of the value model, with the flag free and with the flag held by another caller who never releases it, releases it on an error, or publishes a range; buffer, flag, unused loads and answer included |
| SegmentBuffers.DoubleBuffer.Generate | src/core/algorithm/segment.rs:798-849 | the three-attempt loop has the answer, the loads and the buffer of the value model; with the flag held by another caller it spins where it would have to load, and goes on with what that caller leaves when the flag is released |
| SegmentBuffers.FreeIsSerial | src/core/algorithm/segment.rs:798-849 | with the flag free the call beside others is the serialized call, for every threshold, buffer and list of loads |
| SegmentBuffers.BesideHolder | src/core/algorithm/segment.rs:811-840 | with the flag held by another caller: an id at hand is taken, a kept segment exhausts the call, a published range gives its first id without a load, a flag never released spins for ever, and otherwise the two remaining rounds are the serialized call's |
| SegmentBuffers.DoubleBuffer.MoveOn | src/core/algorithm/segment.rs:871-886 | a batch loads only if nothing waits in next, then swaps |
| SegmentBuffers.DoubleBuffer.BatchGenerate | src/core/algorithm/segment.rs:851-904 | the batch loop has the answer, the loads and the buffer of the value model, and returns the ids of its range |
| SegmentBuffers.KeysCollideIff | src/core/algorithm/segment.rs:799-799 | two (workspace, tag) pairs share a buffer exactly when they are equal or one workspace name is the other, a colon and the front of the other's tag |
| SegmentBuffers.SegmentAlgorithm.GetOrCreateBuffer | src/core/algorithm/segment.rs:776-793 | returns the key's own buffer, a new one on first use, and changes no other |
| SegmentBuffers.SegmentAlgorithm.OnlyOneChanged | src/core/algorithm/segment.rs:776-793 | serving one buffer leaves every other buffer as it was |
| SegmentBuffers.SegmentAlgorithm.Generate | src/core/algorithm/segment.rs:798-849 | a `generate` serves the key's buffer as the value model says and changes no other key's |
| SegmentBuffers.SegmentAlgorithm.BatchGenerate | src/core/algorithm/segment.rs:851-904 | the same for a batch, returning the ids of its range |
| SegmentSolo.SoloGenerateIsSerial | src/core/algorithm/segment.rs:798-849 | from any quiet state of the interleaved protocol, a `generate` that runs alone, its loads answered from a given list, ends with the serialized answer, buffer and unused loads, nobody else having moved |
| SegmentSolo.SoloBatchIsSerial | src/core/algorithm/segment.rs:851-904 | the same for a batch |
| SegmentOverlap.LoadsDuplicateIff | src/core/algorithm/segment.rs:798-849 | any list of loads makes some run of `generate` callers issue an id twice if and only if two of its ranges share an id |
| SegmentOverlap.DefaultRangeOwns | src/core/algorithm/segment.rs:964-980 | a range of the default loader owns exactly the ids of a hundred seconds, ten thousand for each |
| SegmentOverlap.DefaultRangesApartIff | src/core/algorithm/segment.rs:964-980 | two ranges of the default loader are disjoint if and only if their loads are at least 100 seconds apart |
| SegmentOverlap.SpacedLoadsAreSafe | src/core/algorithm/segment.rs:964-980 | with the default loader, every run of any callers whose loads are pairwise at least 100 seconds apart issues no id twice |
| SegmentOverlap.CloseLoadsDuplicateIff | src/core/algorithm/segment.rs:964-980 | any list of loads of the default loader, over any clock, makes some run of `generate` callers issue an id twice if and only if two of them are less than 100 seconds apart |
| SegmentAllocation.AllocationIsFresh | src/core/database/repository.rs:1389-1534 | a row allocation that fits its datacenter's block shares no id with any range handed out before |
| SegmentAllocation.AllocationIsProper | src/core/database/repository.rs:1389-1534 | such an allocation is a well-formed range, handed out by its row, which stays in its block |
| SegmentAllocation.AllocationOwns | src/core/database/repository.rs:1389-1534 | an allocation owns exactly the next `step` ids of its row that are below the largest i64, from 10^12 times the datacenter plus 1 on; its row moves on to its end and no other row moves |
| SegmentAllocation.OverrunOverlapsIff | src/core/database/repository.rs:1389-1534 | once the next datacenter has handed out an id, an allocation is disjoint from its range if and only if it fits the block |
| SegmentCluster.ClusterIssuesUniqueIds | src/core/database/repository.rs:1389-1534 | any number of instances sharing the rows, every interleaving: no id is issued twice, by one instance or by two, with sizes below 2^63 and while rows stay in their blocks |
| SegmentCluster.BlocksSuffice | src/core/database/repository.rs:1389-1534 | the same with hypotheses on the events alone: sizes below 2^63, and steps that sum to at most 10^12 per datacenter |
| SegmentOverrun.LiftRuns | src/core/database/repository.rs:1389-1534 | every run of one instance whose loads are successive allocations of a row is a run of the cluster in which nothing else moves |
| SegmentOverrun.OverrunDuplicatesIff | src/core/database/repository.rs:1389-1534 | with n loads of a fixed step by an instance of one datacenter and one by an instance of the next, some run of `generate` callers has both issue one id if and only if n times the step exceeds 10^12 |
| QpsWindows.BumpAgrees | src/core/algorithm/segment.rs:1039-1040 | counting a request in its slot keeps slot i equal to the number of logged requests at offset i |
| QpsWindows.SumIsLogLength | src/core/algorithm/segment.rs:1042-1043 | the sum of the slots is the number of requests since the last reset |
| QpsWindows.LastSlotIsLargestOffset | src/core/algorithm/segment.rs:1044-1049 | the last non-empty slot is the largest offset in the log |
| QpsWindows.LogIsOneWindow | src/core/algorithm/segment.rs:1020-1040 | for every clock the log is the requests since the last one that came a minute or more after its window began, or all of them |
| QpsWindows.LogIsOneMinute | src/core/algorithm/segment.rs:1020-1040 | and all of them come less than 60 seconds after the start |
| QpsWindows.QpsIsAverage | src/core/algorithm/segment.rs:1042-1055 | the answer is the whole number of logged requests per second up to the largest offset, and 1000 if that is less |
| QpsWindows.QpsWindow.RecordAndGetQps | src/core/algorithm/segment.rs:1020-1055 | for every clock, backward jumps included, the sixty counters hold the log, which grows by the request or restarts with it, and the answer is the rate of the log |
| Degradation.ApplyKeepsInv | src/core/algorithm/degradation_manager.rs:368-644 | every result, health pass and manual recovery keeps the two flags of a record opposite and the cached choice off degraded algorithms; all but manual recovery keep the cache exact about the primary |
| Degradation.EffectiveIsUsable | src/core/algorithm/degradation_manager.rs:626-644 | over every run the effective algorithm is usable if and only if the primary or some fallback is, even on a stale cache |
| Degradation.CacheIsCurrent | src/core/algorithm/degradation_manager.rs:603-624 | without manual recoveries the cached state is Normal exactly when the primary is not degraded |
| Degradation.ManualRecoverStaleIff | src/core/algorithm/degradation_manager.rs:699-708 | a manual recovery makes the cache stale exactly when it recovers a primary the cache had given up |
| Degradation.ManualDegradeKeepsInvIff | src/core/algorithm/degradation_manager.rs:677-697 | a manual degradation keeps the invariant exactly when the cache does not currently choose that algorithm |
| Degradation.FeedMatchesHistory | src/core/algorithm/degradation_manager.rs:164-192 | the counter that decides next is the trailing run and below its threshold, so u8 wrap-around never touches it |
| Degradation.DegradedIsHistory | src/core/algorithm/degradation_manager.rs:368-388 | for every history of results and all u8 thresholds, degraded means that the latest decisive run was a run of failures |
| DegradationHistory.MixedRunsAreHistory | src/core/algorithm/degradation_manager.rs:368-388 | over every run of results, health passes and manual recoveries, an algorithm is degraded exactly when its latest decisive mark was a failure that reached the threshold, and both u8 counters are its trailing runs modulo 256 |
| DegradationHistory.ProbesNeverTrip | src/core/algorithm/degradation_manager.rs:474-601 | failures found by probing a half-open breaker are counted without being compared to the threshold: for every n some run of health passes ends with n failures in a row and the primary not degraded |
| Degradation.OnePass | src/core/algorithm/degradation_manager.rs:474-601 | a pass in which a half-open algorithm is healthy advances its record by one probe, whatever the others answer and in any map order |
| Degradation.HealthChecksConverge | src/core/algorithm/degradation_manager.rs:474-624 | a half-open algorithm that stays healthy has its breaker closed and its degradation cleared after exactly max(0, threshold - successes) + 1 passes, and a degraded primary brings the state back to Normal |
| DegradationBreaker.OpenVisit | src/core/algorithm/degradation_manager.rs:253-261 | an open breaker is untouched before its timeout; the first visit at or after it makes it half open, degraded or not, unless that visit trips the algorithm and stamps it anew |
| DegradationBreaker.UnopenedVisit | src/core/algorithm/degradation_manager.rs:484-575 | a half-open breaker opens exactly on an unhealthy probe and closes exactly on a healthy one with enough successes, a closed one opens exactly when the visit trips the algorithm, each stamped with the visit's later instant |
| DegradationBreaker.PassIsOwnVisit | src/core/algorithm/degradation_manager.rs:474-601 | a pass does to each record what that algorithm's own visit does, in any map order and whatever the others answer |
| DegradationBreaker.OpenBreakerConverges | src/core/algorithm/degradation_manager.rs:474-624 | from an open breaker: passes before the timeout leave the record as it is, the first one after it half-opens it, and then exactly max(0, threshold - successes) + 1 healthy passes close it, clear the degradation and bring a degraded primary back to Normal |
| DegradationBreaker.ResultKeepsBreaker | src/core/algorithm/degradation_manager.rs:368-388 | results never move a breaker, and a manual recovery is a new registration |
| DegradationBreaker.DetermineIsFirst | src/core/algorithm/degradation_manager.rs:603-624 | the choice is the primary if it is usable, else the earliest usable member of the chain, else Critical |
| DegradationBreaker.EarliestWorking | src/core/algorithm/degradation_manager.rs:626-644 | a critical manager uses the earliest working member of the chain, else the primary |
| DegradationBreaker.ResultChooses | src/core/algorithm/degradation_manager.rs:368-472 | a result makes the choice anew exactly when it degrades an algorithm or recovers the primary |
| DegradationBreaker.PassChooses | src/core/algorithm/degradation_manager.rs:474-601 | a pass makes it anew exactly when it degrades or recovers some algorithm |
| DegradationManagers.DegradationManager.RegisterAlgorithm | src/core/algorithm/degradation_manager.rs:332-348 | the algorithm gets a fresh record; the others and the cache do not change; the invariant is kept |
| DegradationManagers.DegradationManager.DetermineEffectiveAlgorithm | src/core/algorithm/degradation_manager.rs:603-624 | the scan answers the choice of the value model |
| DegradationManagers.DegradationManager.GetEffectiveAlgorithm | src/core/algorithm/degradation_manager.rs:626-644 | the cached choice, or the first working fallback, or the primary, as the value model says; under the invariant it is usable if and only if some algorithm is |
| DegradationManagers.DegradationManager.RecordGenerationResult | src/core/algorithm/degradation_manager.rs:368-388 | records and cache are those of the value model after the result; the invariant is kept |
| DegradationManagers.DegradationManager.CheckAllHealth | src/core/algorithm/degradation_manager.rs:474-601 | the loop over the health states leaves the manager of the value model, for every order, all answers and any clock readings at each algorithm; the invariant is kept |
| DegradationManagers.DegradationManager.ManualRecover | src/core/algorithm/degradation_manager.rs:699-708 | one record is recovered and nothing else changes, the cache included; the invariant is kept |
| Router.RoutingIsDetermined | src/core/algorithm/router.rs:335-448 | the attempt log and the answer rule leave no freedom |
| Router.ChainIsWhatFollows | src/core/algorithm/router.rs:149-162 | Segment and Snowflake fall back to everything after them in the order Segment, Snowflake, UUID v7, UUID v4, and the UUIDs to nothing |
| Router.RegisteredAre | src/core/algorithm/router.rs:391-392 | the members tried are exactly the registered ones, in chain order |
| Router.SucceedsIffSomeCandidateDoes | src/core/algorithm/router.rs:335-448 | a call succeeds if and only if some registered candidate would answer in its place |
| Router.RoutingKeepsChoiceUsable | src/core/algorithm/router.rs:335-448 | after the reports of any routed call the manager's choice is usable exactly when some algorithm is |
| Router.AlgorithmRouter.constructor | src/core/algorithm/router.rs:149-181 | the chain of the default algorithm, shared with the manager |
| Router.AlgorithmRouter.Initialize | src/core/algorithm/router.rs:200-258 | every algorithm that can be built is known to the router and, with a fresh record and in the fixed order, to its manager; fails exactly when none is known |
| Router.InitializeStartsIff | src/core/algorithm/router.rs:200-258 | a new router's manager then meets the hypothesis of the degradation theorems exactly when the default algorithm could be built |
| Router.AlgorithmRouter.TryChain | src/core/algorithm/router.rs:376-447 | the loop tries the registered chain in order and stops at the first success, reporting every attempt |
| Router.AlgorithmRouter.GenerateWithAlgorithm | src/core/algorithm/router.rs:335-448 | the attempts are the requested algorithm if registered and then the registered chain, cut at the first success; the answer is that success, else the requested algorithm's own error, else that all failed; the manager was told exactly these attempts |
| Router.AlgorithmRouter.AskThenFallBack | src/core/algorithm/router.rs:450-527 | the path of a registered algorithm, the same for batches |
| Breaker.RunKeepsInv | src/core/algorithm/circuit_breaker.rs:276-404 | over every run of admissions, completions and resets: Closed if and only if no deadline is set, total = successes + failures, window failures never exceed window requests, and the two consecutive counters are never both positive |
| Breaker.FailureOpensIff | src/core/algorithm/circuit_breaker.rs:346-404 | a failure leaves the breaker Open if and only if it was not HalfOpen, or its failures in a row reach the threshold, or the unexpired window has at least min_requests requests of which more than half failed; the deadline is the timeout after the second clock reading |
| BreakerHistory.FailuresAreTrailingRun | src/core/algorithm/circuit_breaker.rs:310-404 | over every interleaving the failure counter is the trailing run of failures since the last success, close or reset |
| BreakerHistory.WindowIsLog | src/core/algorithm/circuit_breaker.rs:310-372 | the window counters are exactly the completions since the window began, and the failures among them |
| BreakerHistory.OpensIff | src/core/algorithm/circuit_breaker.rs:346-388 | after any run a failure opens a half-open breaker if and only if it completes a run of failure_threshold failures or most of at least min_requests completions of its window failed |
| BreakerHistory.RejectsIff | src/core/algorithm/circuit_breaker.rs:276-307 | after any run a request is rejected if and only if the breaker is Open and timeout_ms milliseconds have not passed since its last failure |
| BreakerHistory.TotalsAreTallies | src/core/algorithm/circuit_breaker.rs:310-442 | the totals count the completions of the whole run, and the two timestamps are those of the last success and failure since the last reset |
| Breaker.CounterIsTrailingRun | src/core/algorithm/circuit_breaker.rs:310-404 | over every interleaving the success counter is the trailing run of successes since the last failure, close or reset |
| Breaker.ClosesIff | src/core/algorithm/circuit_breaker.rs:310-343 | a half-open breaker closes exactly on a reset or on a success that completes max(1, success_threshold) in a row |
| Breaker.ClosingNeedsSuccesses | src/core/algorithm/circuit_breaker.rs:310-343 | the last max(1, success_threshold) recorded completions were then all successes |
| Breaker.OpenUntilDeadline | src/core/algorithm/circuit_breaker.rs:276-404 | nothing before the deadline, late completions included, moves an Open breaker or brings its deadline forward |
| Breaker.NoAdmissionBeforeTimeout | src/core/algorithm/circuit_breaker.rs:276-307 | after a failure at T that leaves the breaker Open nothing is admitted before T + timeout_ms milliseconds unless it is reset |
| Breaker.RecoversExactly | src/core/algorithm/circuit_breaker.rs:252-343 | past the deadline exactly max(1, success_threshold - consecutive_successes) successful calls reach Closed and none is rejected |
| Breaker.CircuitBreaker.ShouldAllowRequest | src/core/algorithm/circuit_breaker.rs:276-307 | fields and answer are those of the value model's admission |
| Breaker.CircuitBreaker.OnSuccess | src/core/algorithm/circuit_breaker.rs:310-343 | fields are those of the value model after a success |
| Breaker.CircuitBreaker.OnFailure | src/core/algorithm/circuit_breaker.rs:346-388 | fields are those of the value model after a failure, whose opening `FailureOpensIff` settles, the clock being read a second time to set the deadline |
| Breaker.CircuitBreaker.ExecuteOperation | src/core/algorithm/circuit_breaker.rs:252-273 | admission, then the operation's own result and its callback, or a rejection that runs nothing |
| Breaker.CircuitBreaker.ManualReset | src/core/algorithm/circuit_breaker.rs:433-442 | fields are those of the value model after a reset |
| BreakerProtocol.AloneIsAtomic | src/core/algorithm/circuit_breaker.rs:276-404 | five accesses of a call with no other under way do to state, deadline and success counter what the whole callback does, and give its answer |
| BreakerProtocol.RejectingIff | src/core/algorithm/circuit_breaker.rs:310-404 | after every interleaving of accesses by any number of callers, with no callback under way, the breaker is Open without a deadline if and only if a failure's swap and store both fell between the close and the clearing of the deadline by one call, with no later write of either field |
| BreakerProtocol.RejectsForEver | src/core/algorithm/circuit_breaker.rs:276-307 | such a breaker admits no request however many arrivals and successes follow, in any interleaving |
| BreakerProtocol.EveryBreakerCanReject | src/core/algorithm/circuit_breaker.rs:310-404 | for every configuration some run of a new breaker gets there |

## Left out

- Database, etcd, HTTP, gRPC, configuration loading, i18n, auth and UUID generation: I/O or libraries; of the database only the arithmetic of an allocation under its lock is modelled.
- Task spawning, shutdown channels, CPU monitoring, logging, audit calls and metrics counters: no effect on the modelled state.
- Cancellation of a future while it loads or waits, and weak-memory reordering.
- SnowflakeCluster.ClusterUniqueness: takes each node's calls one at a time, because it is false of overlapping ones, as `SnowflakeOverlap.OverlapDuplicatesIff` makes exact; between nodes `SnowflakeProtocol.NodesStayApart` has no such limit.
- SnowflakeOverlap.OverlapDuplicatesIff: ends where callers wait for the next millisecond; what they do there is in the protocol and in no iff.
- The wrap of the sequence counter after 2^64 calls in one millisecond.
- Snowflake rotation counter: incremented by the node class, with nothing stated about it; the overflow branch of `generate_id_with_timestamp` cannot be reached from a sequence just set to 0 and is omitted.
- Floating-point rounding: thresholds and ratios are reals.
- Segments whose start exceeds their end: the length is then 0 here, a wrapped difference in the source; the two loaders modelled here never produce one.
- Memory limits: a batch whose size is too large for its `Vec` panics in the source and is answered by the model.
- SegmentBuffers.DoubleBuffer.Generate: of the other callers only the flag's holder acts during a call of the class, and only while the call spins; the interleaved protocol models the rest.
- SegmentProtocol.NoIdIssuedTwice: assumes that sizes and ranges are below 2^63 and that loaded ranges are disjoint, as said above.
- The exhausted segment's `max_id` in an error of the interleaved protocol; the serialized model has it.
- Mixing the two database entry points for allocation: they take different locks, so rows are modelled as always locked.
- Step calculation, datacenter health states and the datacenter failure detector: easier members.
- Changing the primary or the fallback chain after start-up, and timestamps and totals of health records: not read by the decisions modelled.
- BreakerProtocol.RejectingIff: follows the fields that admission reads; whether a failure opens the breaker, computed from the other counters, is an input of its callback.
- The breaker's unused transition helpers and async wrappers, builders and dependency injection.
- Single and batch routing share one generic method, since both functions of the router take the same path.
