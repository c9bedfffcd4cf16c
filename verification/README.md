# Verification of the Spine congestion-control datapath

This Dafny project models the parts of Spine in which arithmetic, shared state or protocol
order decide whether it works, and proves what they promise over all inputs, all runs and all
interleavings. `dafny verify dfyconfig.toml` checks all of it.

Four parts, each in the form the source has: state that is updated in place is a class whose
methods are proved against functions, and the promises are lemmas about those functions and
about whole runs of them.

- **Parameterised CUBIC** (`NewtonStep`, `RootTable`, `SharpRoot`, `CubicCurve`,
  `CubicWitnesses`, `CubicModel`, `Cubic`, `CubicRuns`, `CubicGrowth`, `FriendlyLoop`,
  `HyStart`). The
  fixed-point cube root is bounded on both sides for every 64-bit argument; composed with the
  two scale factors it gives the plateau time, and from that the epochs whose curve never
  wraps, and after losses exactly the parameters for which none does. The count that every
  update leaves is exactly the largest that follows the curve and keeps up with Reno. The run
  theorems cover every sequence of retunes, ACKs, losses, resets and idle restarts.
- **Neo's monitor intervals** (`NeoLog`, `NeoRing`, `NeoRefinement`, `NeoRuns`, `NeoLedger`,
  `NeoReports`). The ring of twenty slots refines an unbounded log over every run that does
  not exhaust it; intervals tile the sent segments and ACK deltas are conserved; and what an
  interval holds, and each of the ten values of a report, is told from the ACKs of the run.
- **The control path** (`ConnectionSteps`, `ConnectionTable`, `Staging`, `ConnectionModel`,
  `ControlPath`, `Wire`, `Messages`, `Tuning`). The lock-free table over all interleavings of
  starts and frees, the register file as the last write per register, the codec as bytes, and
  the way of a decision from the controller's message to the parameters a flow runs with.
- **Vanilla, framing, flow maps** (`VanillaModel`, `Vanilla`, `Framing`, `IpcSocket`,
  `FlowModel`, `SpineFlow`). Conservation in the fixed-point accumulator, and exactly what
  the ACKs under one decision add to it; length-prefixed messages under partial sends and arbitrary chunking, and the controller's interlocking maps.

Machine widths are explicit: `u8` to `u64` are ranges of integers, every truncation of the C
code is a `Wrap16`, `Wrap32` or `Wrap64`, signed casts are `Signed32`, and C's truncating
division is `TruncDiv` where an operand can be negative. Signed overflow wraps, as the kernel
is compiled; `char` is signed and the machine is
little-endian. Clocks, outcomes of `send`, memory allocation, chunk sizes, hash values and
set iteration orders are arbitrary parameters. Two loops of the source need not end; their
methods take a number of laps or failures, `patience`, for which the loop is watched, and
promise what is seen for every such number.

## What turned out false, and exactly when it holds

- The comment that the window curve has no overflow below a million packets
  (`src/tcp_scubic.c:421-422`) fails when an epoch opens far below its plateau
  (`CubicWitnesses.UnsafeOpeningWraps`). For a given opening it holds exactly if the curve's
  first delta is no larger than Wmax (`CubicCurve.SafeExactlyWhen`), and for every bic_scale
  from about a 205th of Wmax on (`CubicCurve.NeverWraps`). After losses it holds exactly if
  beta >= 5 (`CubicRuns.LossesNeverWrapExactly`, `CubicRuns.LossThenCurveFits`); with each
  beta from 1 to 4 the wrap is reachable (`CubicRuns.WrapIsReachable`).
- The friendly loop does not end if the low 32 bits of `cwnd * beta_scale` are below 8 and an
  ACK is waiting, and only then (`FriendlyLoop.EndsExactlyWhen`, `CubicRuns.HangsExactlyWhen`).
- The count of an update grows the window to the curve's target, or to the estimated Reno
  window, in one round trip exactly if that is at most half the window away: the floor of 2
  comes last (`CubicGrowth.CountReachesTarget`, `CubicGrowth.KeepsUpWithReno`).
- A start that wins the last slot of the table, or runs out of memory after its claim, keeps
  the slot for ever; usable capacity is one less than the table's size.
- The time of the last CREATE belongs to the slot, not the connection, so the 100 ms spacing
  also delays the first CREATE of a reused slot (`ConnectionModel.AttemptsAreSpaced`).
- The update count and the request id are read through one signed char: they survive exactly
  below 128 (ids also among the 128 largest). init_cwnd and mss of CREATE survive exactly if
  their halves are byte palindromes.
- An interval closed while the count of segments is 0 stalls the receive cursor
  (`NeoRuns.StallIsReachable`): until the slots are exhausted, and from there until that
  interval is closed a second time with a positive count (`NeoRefinement.RunStallLifetime`,
  `NeoRefinement.StallEnds`). It also makes the reported segments fall short by one; they are
  complete exactly if every ACK that ended an interval found a positive count, which is to
  come after the first segment and not just as the 32-bit count has wrapped to 0
  (`NeoRuns.RunReportsEverySegment`).
- A completed interval need not hold all that was delivered in it: it misses the ACKs before
  its first packet is passed and those without a sample (`NeoLedger.HoldsSince`), and it may
  be complete with none credited at all (`NeoLedger.CompletesUncredited`); a report then shows
  the times of the interval twenty before (`NeoReports.RunReports`).
- Exhausted slots leave the send cursor on the slot still receiving, and the interval there
  is closed a second time (`NeoRefinement.ExhaustionOverwrites`).
- In vanilla a cut lasts exactly until the flow's first timeout; from then on every cut is
  undone by the next sampled ACK outside recovery (`VanillaModel.CutsLastUntilTimeout`).
- Environments whose ids hash alike share maps: one leaving strands the other's cache
  entries (`FlowModel.CachesLiveExactlyWhen`).
- A socket id that the kernel announces with another port while an environment still knows a
  flow under it goes on being steered by the old flow (`FlowModel.CurrentExactlyWhen`, `FlowModel.ReuseGoesAstray`).
- A read whose connection breaks after the first byte of a body never returns, and one that
  breaks before it raises (`IpcSocket.IPCSocket.Read`).

## Where code and comments disagree

The model follows the code: the message header has 8 bytes, not 6 (`src/lib/serialize.c:22`);
register 0 of scubic is bic_scale and register 1 beta, as in `python/src/message.py:25-26` and
`src/tcp_scubic.c:197-198`, not as in `src/lib/spine_priv.h:117-118`; vanilla's parameters are
bounded by 1 and 1024, not 0 (`src/tcp_vanilla.c:28-29`), and only the low 16 bits are looked
at (`src/tcp_vanilla.c:45`).

## Model

| member | source | states |
|---|---|---|
| NewtonStep.StepFromBelow | src/tcp_scubic.c:358-363 | for any estimate x >= 2 with integer quotient q of the step, 27 a < (2x + q + 1)^3: the step never lands below the root (arithmetic-geometric mean, no table needed) |
| NewtonStep.StepFromAbove | src/tcp_scubic.c:358-363 | from an estimate whose cube is within a quarter of a, 2x + q - 3 is at most 0.6 percent above three times the root |
| RootTable.TableRow | src/tcp_scubic.c:331-340 | the cube of every entry lies close to the range of arguments the entry serves, on both sides, also after the shifts that drop its low bits |
| RootTable.LeadingBitsInRange | src/tcp_scubic.c:342-352 | for every 64-bit argument of at least 7 bits the shift amount fits and the table index is 8..63: the table is never read out of bounds |
| RootTable.LongRootError | src/tcp_scubic.c:342-365 | no 32-bit truncation of the estimate, of the quotient or of the sum ever takes effect, and the divisor x(x-1) is at least 12 |
| RootTable.CubicRootError | src/tcp_scubic.c:323-365 | for every u64 a, the result r satisfies 1023^3 a < (1024 r + 1364)^3 and (200 (r - 1))^3 <= 201^3 a: within half a percent and one of the real cube root, on both sides |
| RootTable.NearIntegerRoot | src/tcp_scubic.c:323-365 | against the integer cube root c: at most half a percent plus two above it, at most a thousandth plus two below it |
| SharpRoot.SharpStep | src/tcp_scubic.c:358-363 | from an estimate x with 55 x^3 <= 64 a and 1000 a <= 1003 x^3, (50 (2x + q) - 51)^3 <= 3400500 a: the step overshoots the root by at most a quarter of a percent |
| SharpRoot.CubicRootIsSharp | src/tcp_scubic.c:323-365 | for every u64 a from 2^33 on, (51200 r - 17391)^3 <= 134836017310500 a: the result exceeds the real root by at most 0.154 percent and a third |
| CubicCurve.OvershootIsSmall | src/tcp_scubic.c:396-436 | the delta at t = 0 exceeds the gap by at most two packets for gaps below 540, and by at most 5/1024 of it from there on, for every accepted bic_scale |
| CubicCurve.FactorsCancel | src/tcp_scubic.c:139-160 | the two scale factors derived from bic_scale, cube_rtt_scale and cube_factor, are inverse up to the rounding of one division, for every accepted bic_scale |
| CubicCurve.PlateauMatchesGap | src/tcp_scubic.c:396-408 | cube-root error and both scales composed: the scaled cube of K is the gap Wmax - cwnd, from 1.3 percent below to 3 percent above, for windows up to 16 million packets |
| CubicCurve.DeltaAtStart | src/tcp_scubic.c:396-436 | the delta at t = 0 overshoots the gap by at most 3 percent and undershoots it by at most 1.3 percent and one packet |
| CubicCurve.TargetIsCubic | src/tcp_scubic.c:431-442 | while nothing overflows bic_target is origin + C(t - K)^3, truncated toward the origin point (section 4.1 of RFC 8312) |
| CubicCurve.TargetAtPlateau | src/tcp_scubic.c:425-442 | at t = K the target is the origin point |
| CubicCurve.TargetMonotone | src/tcp_scubic.c:425-442 | with no overflow the target never decreases in time: below, above and across the plateau |
| CubicCurve.NeverWraps | src/tcp_scubic.c:391-442 | if cwnd >= 2 and 5 (Wmax - cwnd) < 1024 (cwnd + 1), so from about a 205th of Wmax on (or 3 Wmax <= 103 cwnd at smaller windows), the subtraction `bic_origin_point - delta` wraps at no t up to K, and the 64-bit cube does not overflow, for every accepted bic_scale |
| CubicCurve.SafeExactlyWhen | src/tcp_scubic.c:391-442 | whatever the opening, no step of the curve up to K wraps exactly if the delta at t = 0 is no larger than Wmax |
| CubicCurve.EpochCurve | src/tcp_scubic.c:391-442 | from such an opening the curve starts at the current window to within 3 percent of the gap and one packet, never falls, and meets Wmax at K |
| CubicWitnesses.UnsafeOpeningWraps | src/tcp_scubic.c:391-442 | the obvious claim fails without the condition: default bic_scale, window 2 under a plateau of 1848, gives a target of 2^32 - 2 |
| CubicWitnesses.WorstRowOpening | src/tcp_scubic.c:391-442 | so does bic_scale 552 with window 2 under a plateau of 649: the first delta is 650 and the target 2^32 - 1 |
| CubicWitnesses.LargeUnsafeOpening | src/tcp_scubic.c:391-442 | and bic_scale 415 with window 7812 under a plateau of two million: the first delta is 2001269 |
| CubicModel.BetaScaleBounds | src/tcp_scubic.c:139-140 | for every accepted beta the scale is between 2 and 5458, and at least 8 when beta >= 512 |
| Cubic.Bictcp.UpdateParams | src/tcp_scubic.c:134-161 | both derived scales, in place |
| Cubic.Bictcp.SetParameters | src/tcp_scubic.c:163-204 | retuning takes effect exactly for two values in 1..1023 on a cubic flow, and otherwise changes nothing |
| Cubic.Bictcp.ResetState | src/tcp_scubic.c:217-230 | the window and epoch fields return to zero and nothing is found any more, while the parameters and the scales derived from them survive |
| Cubic.Bictcp.SetState | src/tcp_scubic.c:532-538 | a timeout, and nothing else, resets the flow and starts a round of hybrid slow start |
| Cubic.Bictcp.Initialize | src/tcp_scubic.c:252-267 | the state a new flow starts with, whatever the fields held, with a round of hybrid slow start where that is in use |
| FriendlyLoop.EndsExactlyWhen | src/tcp_scubic.c:463-467 | some number of laps makes the condition of the friendly loop fail if and only if the decrement is positive or no ACK is waiting |
| FriendlyLoop.EndsAfter | src/tcp_scubic.c:463-467 | where it ends, it ends after exactly the laps of one division, with the condition holding before each of them |
| Cubic.Bictcp.BuyPackets | src/tcp_scubic.c:464-467 | the loop in place, watched for any number of laps, does those laps of the model and tells whether it has ended |
| Cubic.Bictcp.FriendlyRegion | src/tcp_scubic.c:458-480 | the friendly region and the final floor of 2, in place and for every state: seen to end, given the patience, exactly unless the model hangs |
| Cubic.Bictcp.ChoosePlateau | src/tcp_scubic.c:398-408 | K and the origin point, from the last maximum and the window |
| Cubic.Bictcp.TargetNow | src/tcp_scubic.c:419-442 | the target at this instant is the curve at the elapsed time, with every wrap written out |
| Cubic.Bictcp.UpdateWindow | src/tcp_scubic.c:370-481 | one update in place refines the step of the model for every state, early return and same-tick path included, and never ends where the model hangs |
| Cubic.Bictcp.RecalcSsthresh | src/tcp_scubic.c:514-530 | the end of the epoch, the next plateau with fast convergence, and the threshold |
| Cubic.Bictcp.TransmitStart | src/tcp_scubic.c:298-317 | an idle period moves the epoch forward but never past the present |
| Cubic.Bictcp.Acked | src/tcp_scubic.c:594-620 | the minimum-delay filter for every sample, and hybrid slow start behind its gate |
| CubicRuns.EpochsAreConsistent | src/tcp_scubic.c:391-409 | in every state reachable by any run of retunes, ACKs, losses, resets, idle restarts and samples: while an epoch is open, K, cube_rtt_scale and the origin point derive from one and the same bic_scale and Wmax, those of the moment it opened |
| CubicRuns.CountIsUsable | src/tcp_scubic.c:370-480 | after every update of every run with a window of at least 1, early returns included, cnt is at least 2 |
| CubicRuns.ReachableCurveFits | src/tcp_scubic.c:391-442 | in every reachable open epoch that opened at such a window no step of the curve before K wraps, even after later retunes |
| CubicRuns.HangsExactlyWhen | src/tcp_scubic.c:458-467 | the model hangs exactly where no number of laps ends the loop, that is where the low 32 bits of cwnd * beta_scale are below 8 and an ACK is waiting |
| CubicRuns.LargeWindowsAdvance | src/tcp_scubic.c:139-140 | at windows up to a million the decrement is positive for every cwnd >= 4 with any accepted beta, also where the product passes 2^32, and for every cwnd >= 1 when beta >= 512 |
| CubicRuns.HugeWindowHangs | src/tcp_scubic.c:463 | far beyond a million it is not: with beta 986 it is zero at 30460761 packets |
| CubicRuns.SmallWindowHangs | src/tcp_scubic.c:460-467 | a run on which the loop goes on after any number of laps: a flow retuned to beta 1 hangs on its first ACK at window 3, at any time |
| CubicRuns.FriendlyConserves | src/tcp_scubic.c:460-467 | where the loop ends, ack_cnt + laps * delta is unchanged, laps is what tcp_cwnd gains, and between one and delta ACKs remain |
| CubicGrowth.CountReachesTarget | src/tcp_scubic.c:444-480 | the count an update leaves grows the window to the curve's target in one round trip of cwnd ACKs exactly if the target is at most half the window away |
| CubicGrowth.KeepsUpWithReno | src/tcp_scubic.c:458-480 | and to the estimated Reno window (section 4.2 of RFC 8312) under the same condition |
| CubicGrowth.FloorMissesBoth | src/tcp_scubic.c:480 | a run on which both fail: window 10 below a target and a Reno window of 30, count 2 |
| CubicGrowth.CountIsLargest | src/tcp_scubic.c:370-480 | the count an update leaves when it looks at the curve is exactly the largest, or 2, with which a round trip of ACKs gains the distance to a target ahead, or else 100 round trips gain one packet, with which a packet takes at most 20 ACKs before any loss, and with which a round trip gains the distance to a Reno window ahead |
| CubicGrowth.CurveCountIsLargest | src/tcp_scubic.c:444-456 | before the friendly region and the floor, cnt is exactly the largest count within the first three of these limits, on both sides of the target |
| CubicGrowth.CurveCountExactlyWhen | src/tcp_scubic.c:444-456 | which it is exactly if a target is ahead, 100 cwnd fits 32 bits, or the wrapped product is cut to 20 all the same |
| CubicGrowth.PlateauTakesHundredWindows | src/tcp_scubic.c:444-449 | at or above the target, once a loss has fixed a plateau and with no Reno window ahead, the count left lets one packet take 100 windows of ACKs and no more: 100 cwnd |
| CubicGrowth.TwentyAcksBeforeLoss | src/tcp_scubic.c:451-456 | with no plateau known the count left is at most 20, and exactly 20 where target and Reno window allow that many |
| CubicGrowth.PlateauRun | src/tcp_scubic.c:370-530 | a run that ends at the plateau: after a loss at 30 the first ACK at that window leaves a count of 3000 |
| CubicGrowth.OtherUpdates | src/tcp_scubic.c:373-389 | an update at the same window within a 32nd of a second only counts its ACKs, and one in the tick of the last leaves the largest count that is no larger and keeps up with Reno, or 2 |
| CubicGrowth.RenoIsBooked | src/tcp_scubic.c:458-470 | the estimated Reno window starts an epoch at the window, every eighth of cwnd * beta_scale ACKs buy it a packet, and the ACKs since the epoch opened are either spent or still waiting |
| CubicGrowth.CurveTimeIsElapsed | src/tcp_scubic.c:425-429 | the curve is entered at the elapsed ticks plus those of the delay, in 1/1024 second, rounded down |
| CubicGrowth.TargetNeverFalls | src/tcp_scubic.c:425-442 | within an epoch the target falls neither as time passes nor with a longer delay, while the curve does not overflow |
| CubicRuns.IdleKeepsElapsed | src/tcp_scubic.c:298-317 | after an idle time the epoch is exactly as old as when the flow last sent; one opened since then starts at the present |
| CubicRuns.DelayIsLeast | src/tcp_scubic.c:600-614 | delay_min is the smallest since the reset of the samples that have a time and do not fall into the first second of an open epoch, and zero only if there is none |
| CubicRuns.DelayIsExact | src/tcp_scubic.c:608-610 | a sample is kept in eighths of a millisecond exactly below 2^28 microseconds, where the shift does not overflow |
| CubicRuns.LossLowersPlateau | src/tcp_scubic.c:514-530 | a loss never raises the plateau above the window, lowers it strictly under fast convergence (section 4.6 of RFC 8312), and the threshold lies between 2 and the window |
| CubicRuns.LossIsExact | src/tcp_scubic.c:514-530 | a loss leaves the plateau at the window, or, where fast convergence finds the last plateau not reached again, at half of 1 + beta/1024 of it, rounded down; the threshold is beta/1024 of the window, rounded down, but at least 2 |
| CubicRuns.TimeoutForgets | src/tcp_scubic.c:217-230 | two flows with the same parameters, whatever they have been through, do the same from a timeout on, over every continuation |
| CubicRuns.LossesNeverWrapExactly | src/tcp_scubic.c:391-530 | after every loss no step before K of an epoch that opens at the threshold or above wraps, at any bic_scale, exactly if beta >= 5, in every state (windows and last plateau up to two million) |
| CubicRuns.LossThenCurveFits | src/tcp_scubic.c:391-442 | over every run: after a loss with beta >= 5 and no further loss or reset, no step before K of an epoch that opened at the threshold or above wraps, whatever the retunes before or since its opening |
| CubicRuns.WrapIsReachable | src/tcp_scubic.c:391-442 | for each beta below 5, a run of a retune to it and to bic_scale 552, a loss at 649, a retune to 717 and an ACK at the threshold of that loss ends in an open epoch whose target is 2^32 - 1 |
| HyStart.Detector.OnDelay | src/tcp_scubic.c:540-589 | one delay sample in place refines the step; the threshold is set exactly by the sample that ends slow start |
| HyStart.TrainTracks | src/tcp_scubic.c:548-564 | the train detection fires exactly at an ACK ending an unbroken train, from the start of the round, longer than a 16th of delay_min |
| HyStart.DelayTracks | src/tcp_scubic.c:566-588 | curr_rtt is the minimum delay of the round, and the delay detection fires exactly when more than eight samples all exceed delay_min by more than an eighth of it and 4 ms, or by more than 16 ms |
| HyStart.ExitsExactly | src/tcp_scubic.c:540-589 | over every round with a clock that does not run backwards, whatever the fields held before its reset: slow start has been left if and only if some ACK so far fired one of the two detections |
| HyStart.LoweredOncePerReset | src/tcp_scubic.c:540-589 | over every life of a flow, through any rounds, slow start is ended at most once between two full resets |
| HyStart.FoundStays | src/tcp_scubic.c:545-546 | until a full reset no sample and no round changes what was found, and samples change nothing at all |
| NeoRing.Neo.constructor | src/tcp_neo.c:436-460 | the cleared slots with the first interval started |
| NeoRing.Neo.StartNextSendInterval | src/tcp_neo.c:251-259 | the cursor moves; unless it meets the receiving slot, that slot is started, its receive times kept |
| NeoRing.Neo.CongControl | src/tcp_neo.c:580-619 | an ACK in place, for every state of the ring, exhausted or not, is one step of the ring |
| NeoRing.Neo.SetLossState | src/tcp_neo.c:522-531 | the double-count correction of a timeout |
| NeoRing.Neo.FetchMeasurements | src/tcp_neo.c:328-376 | the report in place: zeros, or the ten values from the two slots behind the receive cursor |
| NeoRefinement.OutOfSlotsExactly | src/tcp_neo.c:251-259 | the ring runs out of slots exactly where the log is twenty intervals ahead of the receiver |
| NeoRefinement.AckRefines | src/tcp_neo.c:274-311 | an ACK on the ring is the ACK on the unbounded log, unless it exhausts the slots |
| NeoRefinement.RunRefines | src/tcp_neo.c:274-311 | over every run that does not exhaust the slots the ring holds exactly the newest twenty intervals of the log |
| NeoRefinement.FetchReports | src/tcp_neo.c:328-376 | zeros while fewer than two intervals have completed; otherwise a report on the last two completed ones, or on the newer intervals that took over their slots |
| NeoRefinement.FreshExactly | src/tcp_neo.c:350-375 | the reader finds both completed intervals exactly while the sender is at most 17 ahead; at 18 it reads the interval being sent |
| NeoReports.RunReports | src/tcp_neo.c:328-376 | over every run that does not exhaust the slots, position by position: ten zeros while fewer than two intervals have completed; otherwise the deltas credited to the last and the one before (delivered, then lost), the segments sent in each, the round-trip times at the last ACK credited to the last and at the ACK that made it the one receiving, and for each the time between those two ACKs |
| NeoReports.FreshReads | src/tcp_neo.c:350-375 | while the sender is at most 17 ahead these are the two most recently completed intervals |
| NeoReports.AnswerLasts | src/tcp_neo.c:368-369 | values 4 and 5 of such an answer are the summands of the two intervals in the segments reported, and stay so for the rest of the run |
| NeoReports.ReportsAddUp | src/tcp_neo.c:328-376 | one answer for each completed interval, whenever asked for: value 5 of the first and value 4 of all add up to the segments sent between the first base and the next, less one for each interval closed before the first segment |
| NeoRefinement.ExhaustionCollides | src/tcp_neo.c:254-257 | an ACK that exhausts the slots leaves the send cursor on the slot still receiving |
| NeoRefinement.ExhaustionOverwrites | src/tcp_neo.c:228-257 | then the next ACK takes that interval for the one being sent and, once its time has run, closes it again with the segments sent until now |
| NeoLog.TimeoutRealigns | src/tcp_neo.c:522-531 | after a timeout the next packets_counted is exactly the segments sent less those in flight, whatever was double-counted before |
| NeoLedger.AckMoves | src/tcp_neo.c:264-311 | an ACK with a rate sample moves the receiving interval's delivered and lost by its full 32-bit deltas, and dates it, exactly when the packets counted before it exceed the interval's base by more than one; otherwise, and for all other intervals, both stay |
| NeoLedger.AckEnds | src/tcp_neo.c:228-311 | it closes the interval being sent exactly after 30 ms, with the segments sent so far, and the next interval is received exactly once the one receiving is closed and all but its last packet are counted |
| NeoLedger.CountersOfRun | src/tcp_neo.c:285-618 | in every run packets_counted and the bases are what the events say: the latest ACKs, and the correction of the latest timeout |
| NeoLedger.IntervalShows | src/tcp_neo.c:264-311 | in every run each interval shows the sum of the deltas of the ACKs that came while it was receiving and past its first packet, the time and round-trip time of the last of them, and those of the ACK that made it the one receiving; without such an ACK, the times of the interval twenty before |
| NeoLedger.HoldsSince | src/tcp_neo.c:264-311 | from a moment at which nothing is credited to it, an interval holds exactly what the socket counts from then on if and only if the deltas of the ACKs it missed add up to nothing |
| NeoLedger.CompletedHolds | src/tcp_neo.c:264-311 | if every ACK from the first past its mark to the one that completed it was credited, an interval holds for the rest of the run the socket's delivered and lost at the latter less their values just before the former |
| NeoLedger.SteadyIntervalHolds | src/tcp_neo.c:264-311 | which is so where these ACKs all have samples and the count of packets does not fall below what it was at the first |
| NeoLedger.CompletesUncredited | src/tcp_neo.c:228-311 | an interval can be complete with nothing credited to it: the first ACK comes after its time and counts all its packets |
| NeoRuns.CompletedAreFrozen | src/tcp_neo.c:274-311 | an ACK leaves every completed interval as it was |
| NeoRuns.CursorsAdvance | src/tcp_neo.c:274-311 | the receive cursor passes only closed intervals, one per ACK, and never overtakes the send cursor |
| NeoRuns.StalledWhileSlotsLast | src/tcp_neo.c:242-247 | once the receive cursor stands before an interval closed with packets_ended 0, it stands there in every continuation of the run in which the slots are not exhausted |
| NeoRefinement.RunStallLifetime | src/tcp_neo.c:228-311 | the exact lifetime of a stall over all events of the ring, exhaustion included: the cursor stands there until that interval is closed again with a positive count of segments, and no longer, and not before the slots are exhausted |
| NeoRefinement.StallEnds | src/tcp_neo.c:228-311 | the ACK that exhausts the slots leaves the stall; the first later one that finds the interval's time over and a positive count closes it, and moves the cursor on exactly if all but the last segment are counted |
| NeoRuns.StallIsReachable | src/tcp_neo.c:228-247 | a run that stalls: the first ACK with a rate sample comes an interval's length after the start and before the first segment |
| NeoRuns.FullExactlyWhen | src/tcp_neo.c:228-237 | no interval of a run was closed with packets_ended 0 exactly if every ACK that ended one found a positive count of segments |
| NeoRuns.RunTiles | src/tcp_neo.c:207-259 | in every run each interval starts at its predecessor's packets_ended, or at 1 if that is 0 |
| NeoRuns.SentAddsUp | src/tcp_neo.c:368-369 | the sent counts of the first n intervals add up to the distance between two bases, short by one for every interval closed before the first segment |
| NeoRuns.RunReportsEverySegment | src/tcp_neo.c:207-259 | in every run the counts of all closed intervals are exactly the segments sent between the first base and the current one if and only if every ACK that ended an interval found a positive count of segments, and else short by one for each that did not; the reported 32-bit counts agree |
| NeoRuns.ReportsAllIfSending | src/tcp_neo.c:207-259 | so they are complete in every run in which the count of segments is positive at every ACK with a rate sample |
| NeoRuns.AckTotals | src/tcp_neo.c:264-311 | an ACK credits its delivered and lost deltas to one interval in full if the packets counted before it have passed that interval's first, and to none otherwise |
| NeoRuns.RunConserves | src/tcp_neo.c:601-618 | over every run credited plus deliberately skipped deltas equal what the socket counted since the start, as 32-bit counters |
| NeoRuns.RunFreezes | src/tcp_neo.c:274-311 | a completed interval keeps its statistics for the rest of every run |
| ConnectionSteps.ApplyKeeps | src/lib/spine.c:68-177 | every step of every flow, in any interleaving, keeps slots, owners and phases in agreement |
| ConnectionSteps.IndexIsPosition | src/lib/spine.c:78-84 | in every reachable state a slot's index is 0 or its position + 1, and 0 exactly while no flow holds the slot |
| ConnectionSteps.HeldSlotsAreDistinct | src/lib/spine.c:78-84 | no two flows ever hold the same slot |
| ConnectionSteps.OnlyOwnersWrite | src/lib/spine.c:90-112 | a step changes a slot only for the flow that owns it, or that wins it with that very step |
| ConnectionSteps.FoundUntilFreed | src/lib/spine.c:116-134 | a connection returned by a start is found under its identifier, with its own socket and state, until its own free, whatever the others do |
| ConnectionSteps.LastSlotLeaks | src/lib/spine.c:86-88 | in every reachable state in which the last slot is taken, the flow that took it was given NULL, and it keeps the slot in every later state |
| ConnectionSteps.LeakIsPermanent | src/lib/spine.c:86-99 | a slot kept by a start that returned NULL is never free again |
| ConnectionSteps.CapacityIsOneLess | src/lib/spine.c:78-88 | at no time are more than max_connections - 1 connections live |
| ConnectionSteps.CapacityIsReached | src/lib/spine.c:68-114 | a run on which max_connections - 1 connections are live |
| ConnectionTable.Table.Start | src/lib/spine.c:68-99 | the scan claims the lowest free slot and nothing else changes; NULL exactly when the table is full, the slot is the last one, or memory runs out |
| ConnectionTable.Table.Lookup | src/lib/spine.c:116-134 | an identifier is found exactly if it is in bounds and its slot is taken |
| ConnectionTable.Table.Free | src/lib/spine.c:136-177 | the slot is free again and nothing else changes; other identifiers are ignored |
| ConnectionTable.FreeUndoesStart | src/lib/spine.c:68-177 | freeing the connection a start returned restores the table |
| ConnectionTable.NextStartAfterFree | src/lib/spine.c:76-84 | after a free the next start claims the freed slot or a free one below it |
| ConnectionTable.StartsInOrder | src/lib/spine.c:68-99 | n starts in a row take the first n slots in order, and the next returns the next slot unless it is the last |
| ConnectionModel.SentExactly | src/lib/spine.c:90-113 | after every run sent_create is set exactly if the slot is in use and since the latest start some start or invocation made an attempt, not withheld by the 100 ms limit, at which send_msg did not fail |
| ConnectionModel.CreateComesFirst | src/lib/spine.c:207-223 | over every run of a slot, across the connections that use it in turn, each set_params, fetch_measurements or reply was made by an event before which such an attempt of the current connection had succeeded |
| ConnectionModel.RetryIsMade | src/lib/spine.c:207-223 | an invocation before that retries the CREATE exactly if the last attempt on the slot was at least 100 ms ago or there was none, is known to have sent it exactly if send_msg does not fail, and loses nothing staged |
| ConnectionModel.InvokeReturns | src/lib/spine.c:207-269 | an invocation returns the outcome of the report it sends, 0 if it sends none, and 1 as long as no CREATE was sent |
| ConnectionModel.StagedUpdatesWait | src/lib/spine.c:207-223 | over every run, until its first invocation after the CREATE a connection keeps every field accepted since its start, in order, and the latest request |
| ConnectionModel.FirstInvocationDelivers | src/lib/spine.c:225-269 | and that invocation delivers them: the last value of each register up to the first gap, then the answer to the request |
| ConnectionModel.AttemptsAreSpaced | src/lib/spine.c:288-301 | over every run with a clock that never runs backwards or reads zero, successive CREATE attempts on a slot are at least 100 ms apart |
| ControlPath.Connection.SendCreate | src/lib/spine.c:272-313 | the rate limit, the index check and the attempt, with the value returned |
| ControlPath.Connection.StartConnection | src/lib/spine.c:90-113 | a start clears the private state but keeps the time of the slot's last CREATE |
| ControlPath.Connection.Receive | src/lib/spine.c:434-472 | a message stages its fields up to the first of a wrong type, or its request, and nothing else |
| ControlPath.Connection.InvokeConnection | src/lib/spine.c:179-270 | an invocation either retries the CREATE, or hands over the pending parameters and the pending request and clears the registers; with the value it returns |
| Staging.StagedUpdate.Stage | src/lib/spine.c:339-360 | one register takes the value, the others stay; other register types are refused |
| Staging.StagedUpdate.StageMultiple | src/lib/spine.c:362-377 | the register file is, before and after, the last write to each register |
| Staging.StagedUpdate.Collect | src/lib/spine.c:225-234 | the scan returns the values of the registers before the first gap |
| Staging.StagedUpdate.Clear | src/lib/spine.c:268 | no register and no request is pending afterwards |
| Staging.LastWriteMeans | src/lib/spine.c:339-360 | the register value is that of the last field naming it, and pending exactly if one names it |
| Staging.ContiguousDelivery | src/lib/spine.c:225-238 | writes covering registers 0..n-1, in any order and with repetitions, deliver exactly n values, each the last one written |
| Staging.NothingAboveAGap | src/lib/spine.c:225-234 | no register above one that was not written is delivered |
| ControlPath.UpdateArrives | src/lib/spine.c:393-458 | up to 127 fields in any order reach the staging exactly as sent, for the connection they were sent to |
| ControlPath.RejectedExactly | src/lib/spine.c:393-450 | a message is rejected exactly if its kind is none of the four, its length exceeds the buffer or 32678, or it claims more than 222 fields |
| ControlPath.EndToEnd | src/lib/spine.c:225-268 | bytes to call: the next invocation hands over exactly n parameters, params[i] the value last sent for register i, over everything staged |
| ControlPath.BuildAction | python/src/msg_sender.py:48-65 | the message is built exactly when every key is there, with one field per key in iteration order |
| ControlPath.ActionsArriveInOrder | python/src/msg_sender.py:48-67 | whatever order the key set is iterated in, the congestion control gets the values in register order |
| Tuning.CubicRunsAsDecided | python/src/msg_sender.py:25-44 | a decision sent to scubic is, after one invocation, what the flow runs with, both scales derived from it; an unacceptable one changes nothing |
| Tuning.VanillaRunsAsDecided | python/src/msg_sender.py:48-67 | the same for vanilla, for every iteration order of its keys, gamma doubled |
| Tuning.VanillaSteersAsDecided | python/src/msg_sender.py:48-67 | and the alpha it decides is what each ACK on a fast path adds from then on, the beta what each on a slow one takes away, over every run of plain steps until the next decision |
| Wire.UnLeOfLe | python/src/message.py:227-231 | a number of the width survives being packed and unpacked |
| Wire.CharSurvivesExactly | src/lib/serialize.c:207 | a number read through one char survives exactly if it is among the 128 smallest or the 128 largest |
| Wire.SwapSurvivesExactly | python/src/message.py:69-76 | a host-order number read with u32_from_bytes survives exactly if both its halves have equal bytes |
| Wire.PortRoundTrip | python/src/message.py:141-143 | every port is recovered from its network-order field |
| Wire.AddressRoundTrip | python/src/message.py:140-142 | every address is recovered from its network-order field |
| Messages.HeaderRoundTrip | python/src/message.py:88-115 | every header read equals the header written, in front of anything |
| Messages.UpdateMsg.Serialize | python/src/message.py:218-231 | the loop produces the count and the fields back to back |
| Messages.FieldsRoundTrip | src/lib/spine.c:448-450 | any list of fields written in Python is read back by the packed C structs |
| Messages.CountSurvivesExactly | src/lib/serialize.c:197-213 | the count is read as written exactly up to 127; above that it is refused or cut to its low byte |
| Messages.MeasureMsg.FromRaw | python/src/message.py:162-178 | the reader accepts exactly the complete reports and returns their words |
| Messages.MeasureRoundTrip | src/lib/serialize.c:155-195 | every report of up to 110 fields fits 900 bytes, and connection, request and all fields are recovered |
| Messages.RequestIdSurvivesExactly | src/lib/serialize.c:214-228 | a request id comes back with its report exactly if below 128 or among the 128 largest |
| ControlPath.AnswerEndToEnd | src/lib/spine.c:240-261 | from the request's bytes through staging and invocation to the report's: the controller reads the connection and every field always, and the id it asked with exactly if that is below 128 or among the 128 largest |
| Messages.CreateRoundTrip | src/lib/serialize.c:125-153 | of a CREATE the connection, ports, addresses and name are recovered always, init_cwnd and mss exactly if both their halves are byte palindromes |
| Vanilla.Flow.SetParameters | src/tcp_vanilla.c:53-87 | the validation loop: four values whose low 16 bits lie in 1..1024 all take effect, anything else changes nothing |
| Vanilla.Flow.SetCwnd | src/tcp_vanilla.c:262-290 | whole packets move from the accumulator to the window, and the size of cnt < 1024 afterwards |
| Vanilla.Flow.SlowStart | src/tcp_vanilla.c:293-299 | slow start adds 500/1024 packet per packet acknowledged, in the machine's 32 bits |
| Vanilla.Flow.CongControl | src/tcp_vanilla.c:301-367 | the response to an ACK in place refines the step of the model |
| Vanilla.Flow.Ssthresh | src/tcp_vanilla.c:188-206 | a loss cuts the window itself and remembers the old one |
| Vanilla.Flow.PktAcked | src/tcp_vanilla.c:217-230 | the minimum round-trip time only falls and never reaches zero |
| VanillaModel.StepKeeps | src/tcp_vanilla.c:262-290 | every step keeps the size of cnt < 1024 and a positive min_rtt_us, so the division is defined |
| VanillaModel.PlainStepConserves | src/tcp_vanilla.c:262-290 | where floor, cap and restore do not interfere, 1024 cwnd + cnt changes by exactly the requested change |
| VanillaModel.PlainRunConserves | src/tcp_vanilla.c:262-367 | over every run of such steps the window has moved by the sum of all requests, to within the fraction in cnt |
| VanillaModel.OnePacketPerAck | src/tcp_vanilla.c:355-366 | outside slow start an ACK asks for -512..1024 and moves at most one packet |
| VanillaModel.AckSteers | src/tcp_vanilla.c:338-366 | on such a step an ACK outside slow start adds exactly alpha 1024ths of a packet, at most 1024, if srtt * 1024 in 32 bits is below (1024 + gamma + 1) * min_rtt, and otherwise takes away exactly beta, at most 512, with the parameters it may itself have brought |
| VanillaModel.RunSteers | src/tcp_vanilla.c:301-367 | over every run of such steps under one decision, n ACKs on a fast path and m on a slow one move 1024 cwnd + cnt by n min(alpha, 1024) - m min(beta, 512) |
| VanillaModel.DecisionLasts | src/tcp_vanilla.c:301-367 | an acceptable decision is in force from its own ACK on until the next |
| VanillaModel.GrowsWhileFast | src/tcp_vanilla.c:338-361 | the change is positive exactly on a fast path, never zero, and of the size decided; below 2^22 microseconds no 32-bit product is cut |
| VanillaModel.SlowStartExactly | src/tcp_vanilla.c:309-315 | over every run slow start, where the kernel is in it, lasts until the first loss cut and never comes back |
| VanillaModel.AckKeepsBounds | src/tcp_vanilla.c:286-288 | an ACK that moves the window leaves it between 10, or the clamp if that is smaller, and the clamp |
| VanillaModel.CutIsExact | src/tcp_vanilla.c:188-206 | a loss cuts the window to delta/1024 of it, rounded down, between 2 and the clamp, remembers the old one and ends slow start |
| VanillaModel.RestoresLarger | src/tcp_vanilla.c:276-284 | leaving recovery restores the larger of the two windows, to which the response of the ACK is added |
| VanillaModel.RunKeepsLeast | src/tcp_vanilla.c:217-230 | over every run min_rtt is one more than the smallest sample so far, or the initial value |
| VanillaModel.SlowLooksFast | src/tcp_vanilla.c:338-340 | at 2^22 microseconds that product is zero and the window grows |
| VanillaModel.ParametersInRange | src/tcp_vanilla.c:66-82 | parameters stay in 1..1024 (gamma even, 2..2048), all four changing together or none |
| VanillaModel.RecordedState | src/tcp_vanilla.c:208-215 | over every run the recorded previous state is Loss exactly if there was a timeout |
| VanillaModel.UndoneExactlyWhen | src/tcp_vanilla.c:276-289 | a cut deep enough to tell is undone by the next sampled ACK outside recovery exactly if the recorded previous state is recovery or loss |
| VanillaModel.CutsLastUntilTimeout | src/tcp_vanilla.c:188-289 | over every run: before the first timeout every such cut lasts, after it none does |
| IpcSocket.IPCSocket.AddToBuffer | python/src/ipc_socket.py:107-116 | one frame is appended and the exact length returned, or nothing changes where packing the length raises |
| IpcSocket.IPCSocket.WriteOnce | python/src/ipc_socket.py:118-176 | each outcome of a send, partial or failed, moves buffer, offset and length as modelled |
| IpcSocket.IPCSocket.Read | python/src/ipc_socket.py:57-103 | a read returns the next whole message under any chunking; where the stream ends or breaks first: None with the socket closed, an exception, or no return for any number of failures, each exactly when |
| IpcSocket.IPCSocket.ReadBody | python/src/ipc_socket.py:68-94 | the loop gathers exactly the body, gives up at the end of the stream, raises on a first failure, and loops on a later one |
| Framing.WriteOnceKeeps | python/src/ipc_socket.py:118-176 | what a call sends is exactly what leaves the remainder, and buffer_length stays the exact number of bytes left |
| Framing.ReturnedMeans | python/src/ipc_socket.py:118-176 | a call returns the number of bytes it handed over, or -1 on a socket that is or becomes closed |
| Framing.ConnectedExactly | python/src/ipc_socket.py:118-176 | a run leaves the socket connected exactly if no send with a message to offer failed with a broken pipe or a bad descriptor, and on a closed one nothing is sent |
| Framing.SentAndRemaining | python/src/ipc_socket.py:107-176 | over every run of enqueues and partial or failed sends, sent bytes followed by remaining bytes are the frames of the accepted messages in order |
| Framing.StreamRoundTrip | python/src/ipc_socket.py:61-94 | the reader recovers exactly the messages from their frames |
| Framing.CutStream | python/src/ipc_socket.py:61-94 | of a stream cut anywhere the reader recovers exactly the messages whose frames arrived whole |
| Framing.Received | python/src/ipc_socket.py:61-176 | sender and receiver together: after any run and any arrival, a prefix of the accepted messages unaltered; all of them once the buffer has drained and everything arrived |
| SpineFlow.ActiveFlowMap.AddFlowWithSockId | python/src/spine_flow.py:61-79 | a new kernel flow is recorded and associated with the flow id of its port; a known one changes nothing |
| SpineFlow.ActiveFlowMap.RemoveFlowByFlowId | python/src/spine_flow.py:114-120 | the association, the kernel flow and the port entry go together |
| SpineFlow.EnvFlows.OnCreate | python/src/spine.py:74-91 | the handler of CREATE on the maps, in place |
| SpineFlow.EnvFlows.OnEnd | python/src/spine.py:142-148 | the handler of END on the maps, in place |
| SpineFlow.EnvFlows.Release | python/src/spine_flow.py:152-161 | release_env on the maps, in place |
| FlowModel.RunsAreCoherent | python/src/spine_flow.py:49-120 | over every run of controller messages, each associated flow id points to a known kernel flow whose dst_port maps back to it |
| FlowModel.AssociationIsInjective | python/src/spine_flow.py:49-54 | no two flow ids of an environment share a kernel socket |
| FlowModel.DecisionsReachTheirFlow | python/src/spine.py:167-178 | in every reachable state the socket a decision goes to was announced by the kernel on the very port the environment started that flow with, by its latest announcement if ids are reused only once no environment knows a flow under them |
| FlowModel.CurrentExactlyWhen | python/src/spine_flow.py:61-79 | over every run: all along, each known socket is known as it was last announced exactly if an id is announced with another port only once no environment knows a flow under it |
| FlowModel.ReuseGoesAstray | python/src/spine_flow.py:61-79 | a run on which it does not, and a flow goes on steering a socket that is another's now |
| FlowModel.EndUndoesStart | python/src/spine_flow.py:61-120 | END restores exactly the maps from before START and CREATE |
| FlowModel.CreateFindsItsFlow | python/src/spine.py:67-91 | the CREATE on a started port ties port, socket and flow to the environment in all five maps |
| FlowModel.FlowLeavesNoTrace | python/src/spine.py:67-148 | START, CREATE, RELEASE and END of a fresh flow leave maps and both caches as they were; without the RELEASE only the socket's cache entry stays |
| FlowModel.PortPassesOn | python/src/spine.py:131-147 | a port stays with the environment that started it first and goes to the next one that starts it once its flow has ended |
| FlowModel.SocketPassesOn | python/src/spine.py:74-111 | a socket id stays with the environment that had it first, and after the kernel's RELEASE goes to the environment of the port it is announced on |
| FlowModel.RegistrationForgets | python/src/spine_flow.py:138-143 | to an environment that has just registered every flow is fresh unless a cache still names its port or socket |
| FlowModel.UnregisteredIsIgnored | python/src/spine.py:117-147 | START, END and TERMINATE of an environment that is not registered change nothing |
| FlowModel.EndBeforeCreate | python/src/spine_flow.py:81-120 | a flow that ends before the kernel announces it leaves its port taken in every continuation of the run, until the environment leaves or a socket with that port is announced |
| FlowModel.RemoveSockAlone | python/src/spine_flow.py:102-112 | remove_flow_by_sockId alone keeps the maps coherent exactly when no associated flow uses the port |
| FlowModel.ReleaseForgets | python/src/spine_flow.py:152-161 | after release_env no cache entry names the environment and every other entry is unchanged |
| FlowModel.CachesLiveExactlyWhen | python/src/spine_flow.py:138-161 | for any set of environments: the caches name only registered ones over all runs of their messages exactly if no two of their ids hash alike |

## Left out

- NeoRefinement.RunRefines: says nothing of runs after the slots are exhausted (`src/tcp_neo.c:254-257`); there the ring stands for no log, as ExhaustionOverwrites shows, though NeoRing.Neo.CongControl still says what each ACK does to it.
- CubicRuns.LargeWindowsAdvance: windows up to a million packets, the code's own assumption; beyond, products that wrap can be small again.
- IpcSocket.IPCSocket.Read: a stream breaks, if at all, after the bytes that still arrive; failures that pass are not modelled.
- CubicGrowth.CountIsLargest: at or above the target, windows for which 100 cwnd fits 32 bits; beyond, the code's product wraps. So in CubicGrowth.PlateauTakesHundredWindows and CubicGrowth.TwentyAcksBeforeLoss.
- CubicRuns.LossIsExact: windows up to 2,000,000 packets, as in CubicRuns.LossLowersPlateau.
- CubicGrowth.CurveTimeIsElapsed: instants less than 2^31 ticks into an epoch; so in CubicGrowth.TargetNeverFalls.
- NeoReports.RunReports: runs that do not exhaust the slots, as in NeoRefinement.RunRefines.
- VanillaModel.AckSteers: plain steps, without floor, clamp or restore; so are those of VanillaModel.RunSteers and Tuning.VanillaSteersAsDecided.
- VanillaModel.CutIsExact: products of delta and window below 2^32; beyond, the code's product wraps.
- VanillaModel.UndoneExactlyWhen: cuts deep enough that floor and clamp do not hide them.
- HyStart.ExitsExactly: one round of less than 2^31 milliseconds that begins with nothing found; which ACKs reach the detector is arbitrary.
- VanillaModel.PlainStepConserves: asks for fewer than 4,000,000 packets acknowledged by one ACK, beyond which the 32-bit product of slow start wraps.
- CubicRuns.LossLowersPlateau: windows up to 2,000,000 packets, so that the 32-bit products of the loss do not wrap; so are the windows, and the last plateaus, of CubicRuns.LossesNeverWrapExactly.
- Messages.CreateRoundTrip: the algorithm's name is recovered as its 64 bytes; decoding them as text is not modelled.
- ConnectionTable.Table.Start: the CREATE that a start sends is in ControlPath.Connection.StartConnection.
- The release message carries SocketId 0 while the controller reads the header's id: no round trip is claimed for it.
- `IPCSocket.write`, which resends from the start after a partial send, and the header-less `read`.
- Neo's rates, pacing, parameters and slow start, vanilla's pacing rate: formulas over kernel values.
- vanilla's `undo_cwnd` and the kernel's own slow start and additive increase: code outside the repository.
- The fallback timer, module registration, logging, privileges and polling; netlink and Unix sockets beyond their outcomes, including the 1024-byte limit of the controller's netlink sender.
- Register indices out of range, truncated update messages and reports of more than 110 fields, which the kernel does not check: preconditions.
- Messages that reach a slot while it is being started: table and message handling are modelled separately.
- `UpdateMsg.deserialize`, `ReadyMsg`, `u64_from_bytes`, `u16_from_bytes`: unused.
- The environment cache of sockets and `flow_id_to_dst_port` beyond what the handlers do with them.
