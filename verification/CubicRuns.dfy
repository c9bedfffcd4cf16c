/** Whole runs of the callbacks of src/tcp_scubic.c, in any order and with any inputs: what
    holds in every reachable state of a flow whose parameters may be retuned at any time. */
module CubicRuns {
  import opened Machine
  import opened CubicCurve
  import opened CubicWitnesses
  import opened CubicModel
  import opened FriendlyLoop

  datatype Event =
    | AckWindow(cwnd: u32, acked: u32, now: u32, delayJiffies: u32)
    | Retune(isCubic: bool, params: seq<u64>)
    | Loss(cwnd: u32)
    | Timeout
    | Idle(now: u32, lastSent: u32)
    | Sample(rttUs: int, now: u32)

  /** What the opening of an epoch captures. */
  datatype Opening = Opening(bicScale: int, wmax: u32, cwnd: u32)

  /** One callback. */
  function Step(config: Config, ca: Ca, e: Event): Outcome
    requires ValidConfig(config) && Accepted(ca.bicScale) && Accepted(ca.beta)
  {
    match e
    case AckWindow(cwnd, acked, now, d) => Update(config, ca, cwnd, acked, now, d)
    case Retune(isCubic, params) => Done(SetParams(ca, isCubic, params))
    case Loss(cwnd) => Done(AfterLoss(config, ca, cwnd))
    case Timeout => Done(Reset(ca))
    case Idle(now, lastSent) => Done(AfterIdle(ca, now, lastSent))
    case Sample(rttUs, now) => Done(AfterAck(config, ca, rttUs, now))
  }

  /** The event opens an epoch. */
  predicate Opens(config: Config, ca: Ca, e: Event) {
    e.AckWindow? && !TooSoon(config, ca, e.cwnd, e.now) && ca.epochStart == 0
  }

  /** The latest opening, kept beside the run. */
  function Latest(config: Config, ca: Ca, o: Opening, e: Event): Opening {
    if Opens(config, ca, e) then Opening(ca.bicScale, ca.lastMaxCwnd, e.cwnd) else o
  }

  // ------------------------------------------------------------ the invariant

  /** The parameters are accepted ones and the precomputed scales belong to them. */
  predicate Tuned(ca: Ca) {
    && Accepted(ca.bicScale) && Accepted(ca.beta)
    && ca.cubeFactor == CubeFactor(ca.bicScale)
    && ca.betaScale == BetaScale(ca.beta)
  }

  /** Once a window has been recorded the count is usable as a divisor. */
  predicate Counted(ca: Ca) { ca.lastCwnd != 0 ==> ca.cnt >= 2 }

  /** The plateau and the time to it are those of a window and a plateau above it. */
  predicate PlateauFrom(ca: Ca, factor: int, wmax: u32, cwnd: u32) {
    if wmax <= cwnd then ca.k == 0 && ca.originPoint == cwnd
    else ca.k == PlateauTime(factor, wmax - cwnd) && ca.originPoint == wmax
  }

  /** An open epoch runs on what its opening captured, and on nothing later. */
  predicate EpochOf(ca: Ca, o: Opening) {
    ca.epochStart != 0 ==>
      && Accepted(o.bicScale)
      && ca.cubeRttScale == RttScale(o.bicScale)
      && ca.lastMaxCwnd == o.wmax
      && PlateauFrom(ca, CubeFactor(o.bicScale), o.wmax, o.cwnd)
  }

  predicate Inv(ca: Ca, o: Opening) { Tuned(ca) && Counted(ca) && EpochOf(ca, o) }

  lemma InitEstablishes(before: Ca, o: Opening)
    ensures Inv(Init(before), o)
  {
    BetaScaleBounds(717);
  }

  lemma RetuneKeeps(ca: Ca, o: Opening, isCubic: bool, params: seq<u64>)
    requires Inv(ca, o)
    ensures Inv(SetParams(ca, isCubic, params), o)
  {
  }

  /** The friendly region touches the two counters and the count only. */
  lemma FriendlyTouches(config: Config, ca: Ca, cwnd: u32)
    ensures var out := AtLeastTwo(Friendly(config, ca, cwnd));
      out.Done? ==>
        && out.ca.cnt >= 2
        && out.ca == ca.(cnt := out.ca.cnt, ackCnt := out.ca.ackCnt, tcpCwnd := out.ca.tcpCwnd)
  {
  }

  lemma PlateauIsSet(ca: Ca, cwnd: u32)
    ensures PlateauFrom(SetPlateau(ca, cwnd), ca.cubeFactor, ca.lastMaxCwnd, cwnd)
    ensures SetPlateau(ca, cwnd)
      == ca.(k := SetPlateau(ca, cwnd).k, originPoint := SetPlateau(ca, cwnd).originPoint)
  {
  }

  lemma OpeningCaptures(ca: Ca, cwnd: u32, acked: u32, now: u32)
    requires Tuned(ca)
    ensures Tuned(OpenEpoch(ca, cwnd, acked, now))
    ensures EpochOf(OpenEpoch(ca, cwnd, acked, now), Opening(ca.bicScale, ca.lastMaxCwnd, cwnd))
  {
    PlateauIsSet(StartEpoch(ca, cwnd, acked, now), cwnd);
  }

  lemma EnterKeeps(ca: Ca, o: Opening, cwnd: u32, acked: u32, now: u32)
    requires Tuned(ca) && EpochOf(ca, o)
    ensures var entered := EnterCurve(ca, cwnd, acked, now);
      && Tuned(entered)
      && EpochOf(entered, if ca.epochStart == 0 then Opening(ca.bicScale, ca.lastMaxCwnd, cwnd) else o)
  {
    if ca.epochStart == 0 {
      OpeningCaptures(ca.(lastCwnd := cwnd, lastTime := now), cwnd, acked, now);
    }
  }

  /** The invariant does not depend on the counters the friendly region moves. */
  lemma CountersAreFree(ca: Ca, o: Opening, cnt: u32, ackCnt: u32, tcpCwnd: u32)
    requires Tuned(ca) && EpochOf(ca, o) && cnt >= 2
    ensures Inv(ca.(cnt := cnt, ackCnt := ackCnt, tcpCwnd := tcpCwnd), o)
  {
  }

  lemma FriendlyKeeps(config: Config, ca: Ca, o: Opening, cwnd: u32)
    requires Tuned(ca) && EpochOf(ca, o)
    ensures var out := AtLeastTwo(Friendly(config, ca, cwnd));
      out.Done? ==> Inv(out.ca, o) && out.ca.cnt >= 2
  {
    FriendlyTouches(config, ca, cwnd);
    var out := AtLeastTwo(Friendly(config, ca, cwnd));
    if out.Done? {
      CountersAreFree(ca, o, out.ca.cnt, out.ca.ackCnt, out.ca.tcpCwnd);
    }
  }

  lemma AckKeeps(config: Config, ca: Ca, o: Opening, e: Event)
    requires ValidConfig(config) && Inv(ca, o) && e.AckWindow?
    ensures var out := Step(config, ca, e);
      out.Done? ==>
        && Inv(out.ca, Latest(config, ca, o, e))
        && (e.cwnd > 0 ==> out.ca.cnt >= 2)
  {
    var counted := ca.(ackCnt := Wrap32(ca.ackCnt + e.acked));
    if TooSoon(config, ca, e.cwnd, e.now) {
    } else if SameTick(ca, e.now) {
      FriendlyKeeps(config, counted, o, e.cwnd);
    } else {
      EnterKeeps(counted, o, e.cwnd, e.acked, e.now);
      var recounted := Recount(config, counted, e.cwnd, e.acked, e.now, e.delayJiffies);
      FriendlyKeeps(config, recounted, Latest(config, ca, o, e), e.cwnd);
    }
  }

  /** Every callback keeps the invariant. */
  lemma StepKeeps(config: Config, ca: Ca, o: Opening, e: Event)
    requires ValidConfig(config) && Inv(ca, o)
    ensures var out := Step(config, ca, e); out.Done? ==> Inv(out.ca, Latest(config, ca, o, e))
  {
    match e
    case AckWindow(_, _, _, _) => AckKeeps(config, ca, o, e);
    case Retune(isCubic, params) => RetuneKeeps(ca, o, isCubic, params);
    case Loss(_) =>
    case Timeout =>
    case Idle(_, _) =>
    case Sample(_, _) =>
  }

  lemma StepStaysTuned(config: Config, ca: Ca, e: Event)
    requires ValidConfig(config) && Tuned(ca)
    ensures var out := Step(config, ca, e); out.Done? ==> Tuned(out.ca)
  {
    if e.AckWindow? {
      var counted := ca.(ackCnt := Wrap32(ca.ackCnt + e.acked));
      FriendlyTouches(config, counted, e.cwnd);
      FriendlyTouches(config, Recount(config, counted, e.cwnd, e.acked, e.now, e.delayJiffies), e.cwnd);
    }
  }

  // ------------------------------------------------------------ runs

  /** The state and the latest opening after a run, or that the run hangs. */
  datatype RunResult = Reached(ca: Ca, opening: Opening) | Hung

  ghost function Run(config: Config, before: Ca, es: seq<Event>): (r: RunResult)
    requires ValidConfig(config)
    ensures r.Reached? ==> Tuned(r.ca)
    decreases |es|
  {
    if es == [] then
      BetaScaleBounds(717);
      Reached(Init(before), Opening(41, 0, 0))
    else
      var r := Run(config, before, es[..|es| - 1]);
      if r.Hung? then r else Continue(config, r.ca, r.opening, es[|es| - 1])
  }

  ghost function Continue(config: Config, ca: Ca, o: Opening, e: Event): (r: RunResult)
    requires ValidConfig(config) && Tuned(ca)
    ensures r.Reached? ==> Tuned(r.ca)
  {
    StepStaysTuned(config, ca, e);
    var out := Step(config, ca, e);
    if out.Hangs? then Hung else Reached(out.ca, Latest(config, ca, o, e))
  }

  lemma RunThen(config: Config, before: Ca, es: seq<Event>, e: Event)
    requires ValidConfig(config)
    ensures Run(config, before, es + [e]) == var r := Run(config, before, es);
      if r.Hung? then r else Continue(config, r.ca, r.opening, e)
  {
    assert (es + [e])[..|es|] == es;
  }

  /** Retuning in mid-epoch never mixes two curves: in every reachable state with an open
      epoch the slope, the plateau and the time to it all come from the bic_scale and the
      Wmax captured where the epoch opened. */
  lemma {:induction false} EpochsAreConsistent(config: Config, before: Ca, es: seq<Event>)
    requires ValidConfig(config)
    requires Run(config, before, es).Reached?
    ensures var r := Run(config, before, es);
      Counted(r.ca) && EpochOf(r.ca, r.opening)
    decreases |es|
  {
    if es == [] {
      InitEstablishes(before, Opening(41, 0, 0));
    } else {
      EpochsAreConsistent(config, before, es[..|es| - 1]);
      var r := Run(config, before, es[..|es| - 1]);
      StepKeeps(config, r.ca, r.opening, es[|es| - 1]);
    }
  }

  /** After every window update at a positive window the count is at least two, also when
      the update returns early, so additive increase never divides by a smaller count. */
  lemma CountIsUsable(config: Config, before: Ca, es: seq<Event>, e: Event)
    requires ValidConfig(config) && Run(config, before, es).Reached?
    requires e.AckWindow? && e.cwnd > 0
    ensures var out := Step(config, Run(config, before, es).ca, e); out.Done? ==> out.ca.cnt >= 2
  {
    EpochsAreConsistent(config, before, es);
    var r := Run(config, before, es);
    AckKeeps(config, r.ca, r.opening, e);
  }

  lemma EpochFits(ca: Ca, o: Opening, t: int)
    requires Accepted(o.bicScale) && o.cwnd < o.wmax <= MAX_WINDOW && SafeOpening(o.wmax, o.cwnd)
    ensures ca.epochStart != 0 && EpochOf(ca, o) && 0 <= t <= ca.k ==>
      Fits(ca.cubeRttScale, ca.originPoint, ca.k, t)
  {
    if ca.epochStart != 0 && EpochOf(ca, o) && 0 <= t <= ca.k {
      NeverWraps(o.bicScale, o.wmax, o.cwnd);
      NoWrapAt(ca.cubeRttScale, ca.originPoint, ca.k, t);
    }
  }

  lemma NoWrapAt(s: int, wmax: int, k: int, t: int)
    requires NoWrap(s, wmax, k) && 0 <= t <= k
    ensures Fits(s, wmax, k, t)
  {
  }

  /** In every reachable state whose epoch opened safely below its plateau, the curve up to
      the plateau never wraps, however the flow was retuned since. */
  lemma ReachableCurveFits(config: Config, before: Ca, es: seq<Event>, t: int)
    requires ValidConfig(config)
    ensures var r := Run(config, before, es);
      r.Reached? && r.ca.epochStart != 0 && r.opening.cwnd < r.opening.wmax <= MAX_WINDOW
      && SafeOpening(r.opening.wmax, r.opening.cwnd) && 0 <= t <= r.ca.k ==>
        Fits(r.ca.cubeRttScale, r.ca.originPoint, r.ca.k, t)
  {
    var r := Run(config, before, es);
    if r.Reached? {
      EpochsAreConsistent(config, before, es);
      if r.opening.cwnd < r.opening.wmax <= MAX_WINDOW && SafeOpening(r.opening.wmax, r.opening.cwnd)
         && r.ca.epochStart != 0 {
        EpochFits(r.ca, r.opening, t);
      }
    }
  }

  // ------------------------------------------------------------ what a reset forgets

  /** Two states in which a flow does the same for ever: the curve's slope is the only field
      that may differ, and only as long as no epoch is open. */
  predicate Alike(ca1: Ca, ca2: Ca) {
    && ca2 == ca1.(cubeRttScale := ca2.cubeRttScale)
    && (ca1.epochStart != 0 ==> ca2 == ca1)
  }

  lemma UpdateAlike(config: Config, ca1: Ca, ca2: Ca, cwnd: u32, acked: u32, now: u32, delayJiffies: u32)
    requires ValidConfig(config) && Accepted(ca1.bicScale) && Alike(ca1, ca2)
    ensures var o1, o2 := Update(config, ca1, cwnd, acked, now, delayJiffies),
                          Update(config, ca2, cwnd, acked, now, delayJiffies);
      (o1.Hangs? <==> o2.Hangs?) && (o1.Done? && o2.Done? ==> Alike(o1.ca, o2.ca))
  {
    var c1, c2 := ca1.(ackCnt := Wrap32(ca1.ackCnt + acked)), ca2.(ackCnt := Wrap32(ca2.ackCnt + acked));
    if !TooSoon(config, ca1, cwnd, now) && !SameTick(ca1, now) {
      assert Recount(config, c1, cwnd, acked, now, delayJiffies) == Recount(config, c2, cwnd, acked, now, delayJiffies);
    }
  }

  lemma StepAlike(config: Config, ca1: Ca, ca2: Ca, e: Event)
    requires ValidConfig(config) && Tuned(ca1) && Alike(ca1, ca2)
    ensures var o1, o2 := Step(config, ca1, e), Step(config, ca2, e);
      (o1.Hangs? <==> o2.Hangs?) && (o1.Done? && o2.Done? ==> Alike(o1.ca, o2.ca))
  {
    if e.AckWindow? {
      UpdateAlike(config, ca1, ca2, e.cwnd, e.acked, e.now, e.delayJiffies);
    }
  }

  /** The states after two runs, if both are reached. */
  ghost predicate RunsAlike(r1: RunResult, r2: RunResult) {
    (r1.Hung? <==> r2.Hung?) && (r1.Reached? && r2.Reached? ==> Alike(r1.ca, r2.ca))
  }

  /** A timeout makes a flow forget everything but its parameters: two flows with the same
      bic_scale and beta, whatever they have been through, do the same from a timeout on. */
  lemma {:induction false} TimeoutForgets(config: Config, before1: Ca, es1: seq<Event>, before2: Ca, es2: seq<Event>,
                                          rest: seq<Event>)
    requires ValidConfig(config)
    ensures var r1, r2 := Run(config, before1, es1), Run(config, before2, es2);
      r1.Reached? && r2.Reached? && r1.ca.bicScale == r2.ca.bicScale && r1.ca.beta == r2.ca.beta ==>
        RunsAlike(Run(config, before1, es1 + [Timeout] + rest), Run(config, before2, es2 + [Timeout] + rest))
    decreases |rest|
  {
    var r1, r2 := Run(config, before1, es1), Run(config, before2, es2);
    if r1.Reached? && r2.Reached? && r1.ca.bicScale == r2.ca.bicScale && r1.ca.beta == r2.ca.beta {
      if rest == [] {
        assert es1 + [Timeout] + rest == es1 + [Timeout] && es2 + [Timeout] + rest == es2 + [Timeout];
        RunThen(config, before1, es1, Timeout);
        RunThen(config, before2, es2, Timeout);
      } else {
        var init, e := rest[..|rest| - 1], rest[|rest| - 1];
        TimeoutForgets(config, before1, es1, before2, es2, init);
        assert es1 + [Timeout] + rest == es1 + [Timeout] + init + [e];
        assert es2 + [Timeout] + rest == es2 + [Timeout] + init + [e];
        RunThen(config, before1, es1 + [Timeout] + init, e);
        RunThen(config, before2, es2 + [Timeout] + init, e);
        BothGoOn(config, Run(config, before1, es1 + [Timeout] + init), Run(config, before2, es2 + [Timeout] + init), e);
      }
    }
  }

  lemma BothGoOn(config: Config, r1: RunResult, r2: RunResult, e: Event)
    requires ValidConfig(config) && RunsAlike(r1, r2)
    requires (r1.Reached? ==> Tuned(r1.ca)) && (r2.Reached? ==> Tuned(r2.ca))
    ensures r1.Reached? <==> r2.Reached?
    ensures r1.Reached? ==> RunsAlike(Continue(config, r1.ca, r1.opening, e), Continue(config, r2.ca, r2.opening, e))
  {
    if r1.Reached? {
      StepAlike(config, r1.ca, r2.ca, e);
    }
  }

  // ------------------------------------------------------------ the friendly region

  /** The model hangs exactly where no number of laps makes the loop's condition fail, and
      that is exactly where the decrement is zero and an ACK is waiting: where the 32-bit
      product of window and scale is below 8. */
  lemma HangsExactlyWhen(config: Config, ca: Ca, cwnd: u32)
    ensures Friendly(config, ca, cwnd).Hangs? <==>
      config.tcpFriendliness && !Ends(LoopOf(ca), FriendlyStep(ca, cwnd))
    ensures !Ends(LoopOf(ca), FriendlyStep(ca, cwnd)) <==> ca.ackCnt > 0 && Wrap32(cwnd * ca.betaScale) < 8
  {
    EndsExactlyWhen(LoopOf(ca), FriendlyStep(ca, cwnd));
  }

  /** With any accepted beta the decrement is positive at every window from four packets to
      a million, and for beta of at least half from one packet on. */
  lemma LargeWindowsAdvance(ca: Ca, cwnd: u32)
    requires Tuned(ca) && cwnd <= 1_000_000
    requires cwnd >= 4 || (cwnd >= 1 && ca.beta >= 512)
    ensures FriendlyStep(ca, cwnd) > 0
  {
    BetaScaleBounds(ca.beta);
    var least := if cwnd >= 4 then 2 else 8;
    MulLe(least, ca.betaScale, cwnd);
    if ca.beta <= 1022 {
      ScaleBelowLast(ca.beta);
      MulLe(ca.betaScale, 2728, cwnd);
      WrapId(cwnd * ca.betaScale);
    } else {
      assert ca.betaScale == 5458;
      LastScaleAdvances(cwnd);
    }
  }

  lemma ScaleBelowLast(beta: int)
    requires 1 <= beta <= 1022
    ensures BetaScale(beta) <= 2728
  {
    var n, d := 8 * (BETA_SCALE + beta) / 3, BETA_SCALE - beta;
    MulLe(2, d, 2729);
    QuotientBounds(n, d, 0, 2729);
  }

  /** The scale of beta 1023 makes the product pass 2^32 from 786913 packets on, and lands
      well above 8. */
  lemma LastScaleAdvances(cwnd: u32)
    requires 1 <= cwnd <= 1_000_000
    ensures Wrap32(cwnd * 5458) >= 8
  {
    if cwnd <= 786_912 {
      WrapId(cwnd * 5458);
    } else {
      assert cwnd * 5458 - TWO32 >= 8;
      WrapId(cwnd * 5458 - TWO32);
    }
  }

  /** Far beyond a million it fails: with beta 986 the decrement is zero at 30460761
      packets. */
  lemma HugeWindowHangs(ca: Ca)
    requires Tuned(ca) && ca.beta == 986
    ensures FriendlyStep(ca, 30_460_761) == 0
  {
    assert ca.betaScale == 141;
  }

  /** Three packets are not enough for every accepted beta: a flow retuned to beta 1 hangs
      on its first ACK at window 3, at any time, for its loop goes on after any number of
      laps. */
  lemma SmallWindowHangs(config: Config, before: Ca, now: u32, delayJiffies: u32)
    requires ValidConfig(config) && config.tcpFriendliness
    ensures Run(config, before, [Retune(true, [41, 1]), AckWindow(3, 1, now, delayJiffies)]) == Hung
    ensures Run(config, before, [Retune(true, [41, 1])]).Reached?
    ensures var ca := Run(config, before, [Retune(true, [41, 1])]).ca;
      var entered := Recount(config, ca.(ackCnt := Wrap32(ca.ackCnt + 1)), 3, 1, now, delayJiffies);
      forall laps: nat ::
        Guard(AfterLaps(LoopOf(entered), FriendlyStep(entered, 3), laps), FriendlyStep(entered, 3))
  {
    var retune, ack := Retune(true, [41, 1]), AckWindow(3, 1, now, delayJiffies);
    RetunedAtStart(config, before, retune);
    FirstAckHangs(config, Run(config, before, [retune]).ca, now, delayJiffies);
    RunThen(config, before, [retune], ack);
    assert [retune] + [ack] == [retune, ack];
  }

  lemma RetunedAtStart(config: Config, before: Ca, retune: Event)
    requires ValidConfig(config) && retune == Retune(true, [41, 1])
    ensures Run(config, before, [retune]).Reached?
    ensures Run(config, before, [retune]).ca == Init(before).(beta := 1, betaScale := 2)
  {
    RunThen(config, before, [], retune);
    assert [] + [retune] == [retune];
    InitRetuned(before);
  }

  lemma InitRetuned(before: Ca)
    ensures SetParams(Init(before), true, [41, 1]) == Init(before).(beta := 1, betaScale := 2)
  {
    assert BetaScale(1) == 2;
  }

  lemma FirstAckHangs(config: Config, ca: Ca, now: u32, delayJiffies: u32)
    requires ValidConfig(config) && config.tcpFriendliness && Accepted(ca.bicScale)
    requires ca.betaScale == 2 && ca.lastCwnd == 0 && ca.epochStart == 0
    ensures Update(config, ca, 3, 1, now, delayJiffies).Hangs?
    ensures var entered := Recount(config, ca.(ackCnt := Wrap32(ca.ackCnt + 1)), 3, 1, now, delayJiffies);
      !Ends(LoopOf(entered), FriendlyStep(entered, 3))
  {
    var counted := ca.(ackCnt := Wrap32(ca.ackCnt + 1));
    var entered := Recount(config, counted, 3, 1, now, delayJiffies);
    assert FriendlyStep(entered, 3) == 0 && entered.ackCnt == 1;
    HangsExactlyWhen(config, entered, 3);
  }

  /** Where it ends, the loop has moved ACKs into packets at a fixed rate, and has stopped
      at the one division that leaves between one and a step's worth of ACKs. */
  lemma FriendlyConserves(config: Config, ca: Ca, cwnd: u32)
    requires config.tcpFriendliness
    ensures Friendly(config, ca, cwnd).Done? ==>
      exists laps: nat :: Moved(ca, Friendly(config, ca, cwnd).ca, FriendlyStep(ca, cwnd), laps)
  {
    var step := FriendlyStep(ca, cwnd);
    if Friendly(config, ca, cwnd).Done? {
      var laps: nat := Laps(ca.ackCnt, step);
      EndsAfter(LoopOf(ca), step);
      assert Moved(ca, Friendly(config, ca, cwnd).ca, step, laps);
    }
  }

  /** What that many laps, the last of them included, have done. */
  ghost predicate Moved(ca: Ca, out: Ca, step: u32, laps: nat) {
    && LoopOf(out) == AfterLaps(LoopOf(ca), step, laps) && !Guard(LoopOf(out), step)
    && out.ackCnt + laps * step == ca.ackCnt
    && out.tcpCwnd == Wrap32(ca.tcpCwnd + laps)
    && (if ca.ackCnt == 0 then laps == 0 else 0 < out.ackCnt <= step)
  }

  // ------------------------------------------------------------ idle times and delays

  /** After an idle time the epoch is as old as it was when the flow last sent, so growth
      resumes where it stopped; an epoch opened since then starts at the present. */
  lemma IdleKeepsElapsed(ca: Ca, now: u32, lastSent: u32)
    requires ca.epochStart != 0 && Signed32(Wrap32(now - lastSent)) > 0
    ensures Wrap32(now - AfterIdle(ca, now, lastSent).epochStart)
      == if Signed32(Wrap32(lastSent - ca.epochStart)) >= 0 then Wrap32(lastSent - ca.epochStart) else 0
  {
    var idle := Wrap32(now - lastSent);
    Shifted(now, ca.epochStart, idle, lastSent);
    assert Signed32(idle) == idle;
  }

  lemma Shifted(now: u32, start: u32, idle: u32, lastSent: u32)
    requires idle == Wrap32(now - lastSent)
    ensures Wrap32(now - Wrap32(start + idle)) == Wrap32(lastSent - start)
  {
    WrapSubtracts(now, start + idle);
    WrapSubtracts(now - start, now - lastSent);
  }

  /** A sample is kept in eighths of a millisecond exactly below 2^28 microseconds, about
      four minutes and a half; above that the shift overflows. */
  lemma DelayIsExact(rttUs: int)
    requires 0 <= rttUs < TWO32 / 2
    ensures DelayOf(rttUs) == Max(rttUs * 8 / 1000, 1) <==> rttUs < 0x1000_0000
  {
    var q := rttUs * 8 / TWO32;
    assert rttUs * 8 == Wrap32(rttUs * 8) + q * TWO32 && 0 <= q < 4;
    if rttUs < 0x1000_0000 {
      WrapId(rttUs * 8 / 1000);
    } else {
      ShiftOverflows(rttUs, Signed32(Wrap32(rttUs * 8)));
    }
  }

  lemma ShiftOverflows(rttUs: int, shifted: int)
    requires 0x1000_0000 <= rttUs < TWO32 / 2 && -TWO32 / 2 <= shifted < TWO32 / 2
    requires shifted <= rttUs * 8 - TWO32
    ensures Wrap32(TruncDiv(shifted, 1000)) != rttUs * 8 / 1000 && rttUs * 8 / 1000 > 1
  {
    var d := TruncDiv(shifted, 1000);
    if d >= 0 {
      WrapId(d);
    } else {
      assert -2147484 <= d;
      WrapId(d + TWO32);
      assert Wrap32(d) == Wrap32(d + TWO32);
    }
  }

  /** A sample of the round-trip time and when it is taken. */
  datatype Timed = Timed(rttUs: int, now: u32)

  function Samples(config: Config, ca: Ca, ss: seq<Timed>): Ca
    decreases |ss|
  {
    if ss == [] then ca
    else AfterAck(config, Samples(config, ca, ss[..|ss| - 1]), ss[|ss| - 1].rttUs, ss[|ss| - 1].now)
  }

  /** The sample has a time and does not fall into the first second of the epoch. */
  predicate Counts(config: Config, ca: Ca, s: Timed) {
    s.rttUs >= 0 && (ca.epochStart == 0 || Signed32(Wrap32(s.now - ca.epochStart)) >= config.hz)
  }

  /** delay_min is the smallest of the samples that count since the reset, within an epoch
      or between epochs, and it is zero only if none did. */
  lemma {:induction false} DelayIsLeast(config: Config, ca: Ca, ss: seq<Timed>)
    requires ca.delayMin == 0
    ensures var out := Samples(config, ca, ss);
      && out == ca.(delayMin := out.delayMin)
      && (forall i :: 0 <= i < |ss| && Counts(config, ca, ss[i]) ==> 0 < out.delayMin <= DelayOf(ss[i].rttUs))
      && (out.delayMin != 0 ==>
            exists i :: 0 <= i < |ss| && Counts(config, ca, ss[i]) && out.delayMin == DelayOf(ss[i].rttUs))
    decreases |ss|
  {
    if ss != [] {
      var n := |ss| - 1;
      DelayIsLeast(config, ca, ss[..n]);
      var before, out := Samples(config, ca, ss[..n]), Samples(config, ca, ss);
      forall i | 0 <= i < |ss| && Counts(config, ca, ss[i]) ensures 0 < out.delayMin <= DelayOf(ss[i].rttUs) {
        if i < n {
          assert ss[..n][i] == ss[i];
        }
      }
      if out.delayMin == before.delayMin != 0 {
        var i :| 0 <= i < n && Counts(config, ca, ss[..n][i]) && before.delayMin == DelayOf(ss[..n][i].rttUs);
        assert ss[..n][i] == ss[i];
      }
    }
  }

  // ------------------------------------------------------------ losses

  /** Windows small enough for the 32-bit products of a loss. */
  const LOSS_LIMIT: int := 2_000_000

  lemma LossProducts(beta: int, cwnd: int)
    requires Accepted(beta) && 0 <= cwnd <= LOSS_LIMIT
    ensures Wrap32(cwnd * beta) == cwnd * beta
    ensures 0 <= cwnd * beta <= cwnd * 1023
    ensures Wrap32(cwnd * (BETA_SCALE + beta)) == cwnd * 1024 + cwnd * beta
  {
    MulLe(0, beta, cwnd);
    MulLe(beta, 1023, cwnd);
    WrapId(cwnd * beta);
    WrapId(cwnd * 1024 + cwnd * beta);
    assert cwnd * (BETA_SCALE + beta) == cwnd * 1024 + cwnd * beta;
  }

  lemma ScaledBack(cwnd: int, product: int)
    requires 0 <= product <= cwnd * 1023
    ensures (cwnd * 1024 + product) / 2048 <= cwnd
    ensures 0 < cwnd ==> (cwnd * 1024 + product) / 2048 < cwnd
    ensures 0 <= product / 1024 <= cwnd
  {
  }

  /** A loss leaves the plateau at the window, unless fast convergence (section 4.6 of
      RFC 8312) finds that the previous plateau was not reached again: then at half of
      1 + beta/1024 of the window. The threshold is beta/1024 of the window, but at least 2. */
  lemma LossIsExact(config: Config, ca: Ca, cwnd: u32)
    requires Accepted(ca.beta) && cwnd <= LOSS_LIMIT
    ensures var plateau := AfterLoss(config, ca, cwnd).lastMaxCwnd;
      if config.fastConvergence && cwnd < ca.lastMaxCwnd
      then 2048 * plateau <= cwnd * (1024 + ca.beta) < 2048 * (plateau + 1)
      else plateau == cwnd
    ensures var s := Ssthresh(ca, cwnd);
      s >= 2 && 1024 * (s + 1) > cwnd * ca.beta && (s > 2 ==> 1024 * s <= cwnd * ca.beta)
  {
    LossProducts(ca.beta, cwnd);
    assert cwnd * (BETA_SCALE + ca.beta) == cwnd * 1024 + cwnd * ca.beta;
  }

  /** So it never raises the plateau above the window, and lowers it when the previous
      plateau was not reached again. */
  lemma LossLowersPlateau(config: Config, ca: Ca, cwnd: u32)
    requires Accepted(ca.beta) && cwnd <= LOSS_LIMIT
    ensures AfterLoss(config, ca, cwnd).lastMaxCwnd <= cwnd
    ensures 0 < cwnd < ca.lastMaxCwnd && config.fastConvergence ==>
      AfterLoss(config, ca, cwnd).lastMaxCwnd < cwnd
    ensures cwnd >= 2 ==> 2 <= Ssthresh(ca, cwnd) <= cwnd
  {
    LossProducts(ca.beta, cwnd);
    ScaledBack(cwnd, cwnd * ca.beta);
  }

  lemma ScaledAtLeast(cwnd: int, beta: int)
    requires 5 <= beta < 1024 && cwnd >= 0
    ensures 1024 * (cwnd * beta / 1024 + 1) > 5 * cwnd
  {
    MulLe(5, beta, cwnd);
  }

  /** For beta of at least 5/1024 every loss leaves a window from which the next epoch opens
      safely. */
  lemma LossOpensSafely(config: Config, ca: Ca, cwnd: u32, next: u32)
    requires 5 <= ca.beta < 1024 && cwnd <= LOSS_LIMIT && next >= Ssthresh(ca, cwnd)
    ensures SafeOpening(AfterLoss(config, ca, cwnd).lastMaxCwnd, next)
  {
    LossProducts(ca.beta, cwnd);
    LossLowersPlateau(config, ca, cwnd);
    ScaledAtLeast(cwnd, ca.beta);
  }

  /** The plateau that a loss leaves. */
  function PlateauAfter(config: Config, ca: Ca, cwnd: u32): u32
    requires Accepted(ca.beta)
  {
    AfterLoss(config, ca, cwnd).lastMaxCwnd
  }

  /** Whatever the window at which a flow in this state has a loss, the next epoch has a
      curve without wraps if it opens at the threshold or above, at any bic_scale. */
  ghost predicate LossesNeverWrap(config: Config, ca: Ca)
    requires Accepted(ca.beta)
  {
    forall cwnd: u32, next: u32, bicScale: int ::
      cwnd <= LOSS_LIMIT && Ssthresh(ca, cwnd) <= next < PlateauAfter(config, ca, cwnd) && Accepted(bicScale) ==>
        CurveIsSafe(bicScale, PlateauAfter(config, ca, cwnd), next)
  }

  lemma LossNeverWraps(config: Config, ca: Ca, cwnd: u32, next: u32, bicScale: int)
    requires 5 <= ca.beta < 1024 && cwnd <= LOSS_LIMIT && Accepted(bicScale)
    requires Ssthresh(ca, cwnd) <= next < PlateauAfter(config, ca, cwnd)
    ensures CurveIsSafe(bicScale, PlateauAfter(config, ca, cwnd), next)
  {
    LossOpensSafely(config, ca, cwnd, next);
    LossLowersPlateau(config, ca, cwnd);
    NeverWraps(bicScale, PlateauAfter(config, ca, cwnd), next);
  }

  /** In every state, as far as its last plateau is within the limit too, that holds exactly
      from beta 5 on. Below 5 it fails for a loss at two million packets and bic_scale 415,
      at the threshold for beta 4. */
  lemma LossesNeverWrapExactly(config: Config, ca: Ca)
    requires Accepted(ca.beta)
    ensures ca.beta >= 5 ==> LossesNeverWrap(config, ca)
    ensures ca.lastMaxCwnd <= LOSS_LIMIT ==> (LossesNeverWrap(config, ca) <==> ca.beta >= 5)
  {
    if ca.beta >= 5 {
      forall cwnd: u32, next: u32, bicScale: int |
        cwnd <= LOSS_LIMIT && Ssthresh(ca, cwnd) <= next < PlateauAfter(config, ca, cwnd) && Accepted(bicScale)
        ensures CurveIsSafe(bicScale, PlateauAfter(config, ca, cwnd), next)
      {
        LossNeverWraps(config, ca, cwnd, next, bicScale);
      }
    } else if ca.lastMaxCwnd <= LOSS_LIMIT {
      LossAtLimitWraps(config, ca);
    }
  }

  lemma LossAtLimitWraps(config: Config, ca: Ca)
    requires 1 <= ca.beta < 5 && ca.lastMaxCwnd <= LOSS_LIMIT
    ensures !LossesNeverWrap(config, ca)
  {
    UnsafeAtLimit();
    LossProducts(ca.beta, LOSS_LIMIT);
    assert Ssthresh(ca, LOSS_LIMIT) <= 7812 && PlateauAfter(config, ca, LOSS_LIMIT) == LOSS_LIMIT;
    var next: u32 := 7812;
    assert !CurveIsSafe(415, PlateauAfter(config, ca, LOSS_LIMIT), next);
  }

  lemma UnsafeAtLimit()
    ensures !CurveIsSafe(415, LOSS_LIMIT, 7812)
  {
    LargeUnsafeOpening();
    SafeExactlyWhen(415, LOSS_LIMIT, 7812);
  }

  /** Neither a loss nor a reset. */
  ghost predicate KeepsPlateau(es: seq<Event>) {
    forall i :: 0 <= i < |es| ==> !es[i].Loss? && !es[i].Timeout?
  }

  lemma StepKeepsPlateau(config: Config, ca: Ca, e: Event)
    requires ValidConfig(config) && Accepted(ca.bicScale) && Accepted(ca.beta) && !e.Loss? && !e.Timeout?
    ensures var out := Step(config, ca, e); out.Done? ==> out.ca.lastMaxCwnd == ca.lastMaxCwnd
  {
    if e.AckWindow? {
      var counted := ca.(ackCnt := Wrap32(ca.ackCnt + e.acked));
      FriendlyTouches(config, counted, e.cwnd);
      FriendlyTouches(config, Recount(config, counted, e.cwnd, e.acked, e.now, e.delayJiffies), e.cwnd);
    }
  }

  lemma {:induction false} PlateauLasts(config: Config, before: Ca, es: seq<Event>, rest: seq<Event>)
    requires ValidConfig(config) && KeepsPlateau(rest)
    ensures var r, r' := Run(config, before, es), Run(config, before, es + rest);
      r'.Reached? ==> r.Reached? && r'.ca.lastMaxCwnd == r.ca.lastMaxCwnd
    decreases |rest|
  {
    if rest == [] {
      assert es + rest == es;
    } else {
      var init, e := rest[..|rest| - 1], rest[|rest| - 1];
      PlateauLasts(config, before, es, init);
      RunThen(config, before, es + init, e);
      assert es + init + [e] == es + rest;
      var mid := Run(config, before, es + init);
      if mid.Reached? {
        StepKeepsPlateau(config, mid.ca, e);
      }
    }
  }

  /** The composition: after a loss with beta of at least 5, and no further loss or reset,
      the curve of every epoch that opened at the threshold or above wraps at no instant
      before its plateau, however the flow was retuned before or since the opening. */
  lemma LossThenCurveFits(config: Config, before: Ca, es: seq<Event>, cwnd: u32, rest: seq<Event>, t: int)
    requires ValidConfig(config) && cwnd <= LOSS_LIMIT && KeepsPlateau(rest)
    ensures var r0, r := Run(config, before, es), Run(config, before, es + [Loss(cwnd)] + rest);
      r0.Reached? && r0.ca.beta >= 5 && r.Reached? && r.ca.epochStart != 0
      && Ssthresh(r0.ca, cwnd) <= r.opening.cwnd && 0 <= t < r.ca.k ==>
        Fits(r.ca.cubeRttScale, r.ca.originPoint, r.ca.k, t)
  {
    var r0, r := Run(config, before, es), Run(config, before, es + [Loss(cwnd)] + rest);
    if r0.Reached? && r0.ca.beta >= 5 && r.Reached? && r.ca.epochStart != 0
       && Ssthresh(r0.ca, cwnd) <= r.opening.cwnd && 0 <= t < r.ca.k {
      RunThen(config, before, es, Loss(cwnd));
      PlateauLasts(config, before, es + [Loss(cwnd)], rest);
      EpochsAreConsistent(config, before, es + [Loss(cwnd)] + rest);
      LossOpensSafely(config, r0.ca, cwnd, r.opening.cwnd);
      LossLowersPlateau(config, r0.ca, cwnd);
      EpochFits(r.ca, r.opening, t);
    }
  }

  /** Below 5 the wrap itself is reachable, with every beta: a retune to it and to bic_scale
      552, a loss at 649 packets, a retune to the default beta, and the first ACK at window
      2, the threshold of that loss, at any time but 0. The target of the epoch so opened is
      2^32 - 1. */
  lemma WrapIsReachable(config: Config, before: Ca, beta: u64, now: u32)
    requires ValidConfig(config) && 1 <= beta < 5 && now != 0
    ensures var es := [Retune(true, [552, beta]), Loss(649), Retune(true, [552, 717])];
      && Run(config, before, es[..1]).Reached? && Ssthresh(Run(config, before, es[..1]).ca, 649) == 2
      && var r := Run(config, before, es + [AckWindow(2, 1, now, 0)]);
         r.Reached? && r.ca.epochStart == now && CurveTarget(config, r.ca, now, 0) == TWO32 - 1
  {
    var retune, loss, back := Retune(true, [552, beta]), Loss(649), Retune(true, [552, 717]);
    var es := [retune, loss, back];
    RunThen(config, before, [], retune);
    assert [] + [retune] == [retune];
    RunThen(config, before, [retune], loss);
    RunThen(config, before, [retune] + [loss], back);
    assert es[..1] == [retune] && [retune] + [loss] + [back] == es;
    LossAt649(config, Init(before), beta);
    OpensAt2(config, Run(config, before, es).ca, now);
    RunThen(config, before, es, AckWindow(2, 1, now, 0));
  }

  lemma LossAt649(config: Config, ca: Ca, beta: u64)
    requires 1 <= beta < 5 && ca.lastMaxCwnd == 0
    ensures var tuned := SetParams(ca, true, [552, beta]);
      && Accepted(tuned.beta) && Ssthresh(tuned, 649) == 2
      && SetParams(AfterLoss(config, tuned, 649), true, [552, 717])
         == ca.(epochStart := 0, lastMaxCwnd := 649, bicScale := 552, beta := 717, betaScale := 15,
                cubeFactor := CubeFactor(552))
  {
    assert BetaScale(717) == 15;
  }

  lemma OpensAt2(config: Config, ca: Ca, now: u32)
    requires ValidConfig(config) && now != 0
    requires ca.bicScale == 552 && ca.betaScale == 15 && ca.cubeFactor == CubeFactor(552)
    requires ca.lastCwnd == ca.epochStart == 0 && ca.lastMaxCwnd == 649
    ensures var out := Update(config, ca, 2, 1, now, 0);
      out.Done? && out.ca.epochStart == now && CurveTarget(config, out.ca, now, 0) == TWO32 - 1
  {
    var recounted := Recount(config, ca.(ackCnt := Wrap32(ca.ackCnt + 1)), 2, 1, now, 0);
    WorstRowOpening();
    OpenedAt2(config, recounted, now);
  }

  lemma OpenedAt2(config: Config, ca: Ca, now: u32)
    requires ValidConfig(config) && ca.epochStart == now && ca.ackCnt == 1 && ca.betaScale == 15
    requires Target(ca.cubeRttScale, ca.originPoint, ca.k, 0) == TWO32 - 1
    ensures var out := AtLeastTwo(Friendly(config, ca, 2));
      out.Done? && out.ca.epochStart == now && CurveTarget(config, out.ca, now, 0) == TWO32 - 1
  {
    assert FriendlyStep(ca, 2) == 3;
    assert CurveTime(config, ca, now, 0) == 0;
  }
}
