/** The congestion control of src/tcp_vanilla.c as a value: a window in whole packets and
    an accumulator of 1024ths, moved by every ACK. */
module VanillaModel {
  import opened Machine

  const SCALE: int := 1024

  /** The states of the kernel's loss machine that matter here. */
  const CA_OPEN: int := 0
  const CA_RECOVERY: int := 3
  const CA_LOSS: int := 4

  /** `struct vanilla` with the socket's window. */
  datatype Vanilla = Vanilla(
    cwnd: u32, cnt: int, minRttUs: u32, prevState: u8, priorCwnd: u32,
    alpha: u16, beta: u16, gamma: u16, delta: u16, slowStartPassed: bool)

  /** What an ACK shows: srtt is `srtt_us >> 3`. */
  datatype AckInfo = AckInfo(
    inSlowStart: bool, sampled: bool, acked: u32, srtt: u32, state: u8, clamp: u32)

  /** vanilla_reset on a flow with the given window. */
  function Init(cwnd: u32): Vanilla {
    Vanilla(cwnd, 0, 0x7fff_ffff, CA_OPEN, 0, 50, 200, 200, 717, false)
  }

  /** check_param looks at the low 16 bits. */
  predicate CheckParam(p: u64) { 1 <= Wrap16(p) <= 1024 }

  /** vanilla_set_params: four acceptable values, or nothing changes. */
  function SetParams(v: Vanilla, isVanilla: bool, params: seq<u64>): Vanilla {
    if isVanilla && |params| == 4 && (forall i :: 0 <= i < 4 ==> CheckParam(params[i])) then
      v.(alpha := Wrap16(params[0]), beta := Wrap16(params[1]),
         gamma := Doubled(params[2]), delta := Wrap16(params[3]))
    else v
  }

  /** gamma is stored twice as large as sent. */
  function Doubled(p: int): u16 { Wrap16(2 * p) }

  /** The whole packets in the accumulator. */
  function Packets(cnt: int): int { TruncDiv(cnt, SCALE) }

  /** Leaving loss recovery, as far as the recorded previous state tells. */
  predicate Restores(v: Vanilla, state: u8) { v.prevState >= CA_RECOVERY && state < CA_RECOVERY }

  function Base(v: Vanilla, state: u8): u32 {
    if Restores(v, state) then Max(v.cwnd, v.priorCwnd) else v.cwnd
  }

  /** vanilla_set_cwnd. */
  function SetCwnd(v: Vanilla, state: u8, clamp: u32): Vanilla {
    var d := Packets(v.cnt);
    v.(cnt := v.cnt - d * SCALE,
       cwnd := Min(Max(Wrap32(Base(v, state) + d), 10), clamp))
  }

  /** The latency inflation in 1024ths, its product kept in 32 bits. */
  function Inflation(v: Vanilla, srtt: u32): int
    requires v.minRttUs > 0
  {
    Wrap32(srtt * SCALE) / v.minRttUs
  }

  /** The change an ACK asks for, in 1024ths of a packet. */
  function Change(v: Vanilla, srtt: u32): int
    requires v.minRttUs > 0
  {
    Max(Min(if Inflation(v, srtt) > SCALE + v.gamma then -(v.beta as int) else v.alpha as int, 1024), -512)
  }

  /** An `int` addition of an unsigned 32-bit product. */
  function SlowStartCount(cnt: int, acked: u32): int {
    Signed32(Wrap32(cnt + Wrap32(acked * 500)))
  }

  predicate InSlowStart(v: Vanilla, a: AckInfo) { a.inSlowStart && !v.slowStartPassed }

  /** vanilla_cong_control; `tuning` is what the call into the control path delivers. */
  function CongControl(v: Vanilla, a: AckInfo, tuning: seq<u64>): Vanilla
    requires v.minRttUs > 0
  {
    if InSlowStart(v, a) then SetCwnd(v.(cnt := SlowStartCount(v.cnt, a.acked)), a.state, a.clamp)
    else if !a.sampled then v
    else
      var tuned := SetParams(v, true, tuning);
      SetCwnd(tuned.(cnt := tuned.cnt + Change(tuned, a.srtt)), a.state, a.clamp)
  }

  /** vanilla_ssthresh: the window itself is cut. */
  function Ssthresh(v: Vanilla, clamp: u32): Vanilla {
    v.(slowStartPassed := true, priorCwnd := v.cwnd,
       cwnd := Min(Max(Wrap32(v.delta * v.cwnd) / SCALE, 2), clamp))
  }

  /** vanilla_set_state. */
  function SetState(v: Vanilla, state: u8): Vanilla {
    if state == CA_LOSS then v.(prevState := CA_LOSS) else v
  }

  /** vanilla_pkt_acked. */
  function PktAcked(v: Vanilla, rttUs: int): Vanilla
    requires rttUs < 0x8000_0000
  {
    if rttUs >= 0 && rttUs + 1 < v.minRttUs then v.(minRttUs := rttUs + 1) else v
  }

  // ------------------------------------------------------------ every step

  datatype Event =
    | Ack(info: AckInfo, tuning: seq<u64>)
    | LossCut(clamp: u32)
    | StateChange(state: u8)
    | Sample(rttUs: int)

  predicate Allowed(e: Event) { e.Sample? ==> e.rttUs < 0x8000_0000 }

  /** Less than a packet is in the accumulator, and the round-trip time is a divisor. */
  predicate Inv(v: Vanilla) { -SCALE < v.cnt < SCALE && v.minRttUs > 0 }

  function Step(v: Vanilla, e: Event): Vanilla
    requires Inv(v) && Allowed(e)
  {
    match e
    case Ack(info, tuning) => CongControl(v, info, tuning)
    case LossCut(clamp) => Ssthresh(v, clamp)
    case StateChange(state) => SetState(v, state)
    case Sample(rttUs) => PktAcked(v, rttUs)
  }

  lemma StepKeeps(v: Vanilla, e: Event)
    requires Inv(v) && Allowed(e)
    ensures Inv(Step(v, e))
  {
  }

  ghost predicate AllAllowed(es: seq<Event>) { forall i :: 0 <= i < |es| ==> Allowed(es[i]) }

  ghost function Run(v: Vanilla, es: seq<Event>): (r: Vanilla)
    requires Inv(v) && AllAllowed(es)
    ensures Inv(r)
    decreases |es|
  {
    if es == [] then v
    else
      StepKeeps(Run(v, es[..|es| - 1]), es[|es| - 1]);
      Step(Run(v, es[..|es| - 1]), es[|es| - 1])
  }

  // ------------------------------------------------------------ conservation

  /** The window and the accumulator together, in 1024ths of a packet. */
  function Total(v: Vanilla): int { SCALE * v.cwnd + v.cnt }

  /** The path is fast: the 32-bit product of the round-trip time is below 1 + gamma/1024 of
      its minimum, one 1024th more for the rounding. */
  predicate Fast(v: Vanilla, srtt: u32) { Wrap32(srtt * SCALE) < (SCALE + v.gamma + 1) * v.minRttUs }

  /** On a fast path alpha 1024ths of a packet are added, on a slow one beta are taken away,
      but no more than a packet and no more than half of one. */
  function Response(v: Vanilla, srtt: u32): int {
    if Fast(v, srtt) then Min(v.alpha, 1024) else -Min(v.beta, 512)
  }

  lemma ChangeIsResponse(v: Vanilla, srtt: u32)
    requires v.minRttUs > 0
    ensures Change(v, srtt) == Response(v, srtt)
  {
    var product, limit := Wrap32(srtt * SCALE), SCALE + v.gamma;
    if product < (limit + 1) * v.minRttUs {
      QuotientBounds(product, v.minRttUs, 0, limit + 1);
    } else {
      QuotientBounds(product, v.minRttUs, limit + 1, product / v.minRttUs + 1);
    }
  }

  /** The change a step asks for; cutting and restoring are not changes. */
  function Asked(v: Vanilla, e: Event): int
    requires Inv(v)
  {
    if !e.Ack? || (!InSlowStart(v, e.info) && !e.info.sampled) then 0
    else if InSlowStart(v, e.info) then e.info.acked * 500
    else Response(SetParams(v, true, e.tuning), e.info.srtt)
  }

  /** A step on which neither the floor of 10, nor the clamp, nor the window before the
      loss interferes, and 32 bits hold what slow start adds. */
  ghost predicate Plain(v: Vanilla, e: Event)
    requires Inv(v)
  {
    match e
    case LossCut(_) => false
    case Ack(info, _) =>
      (!InSlowStart(v, info) && !info.sampled) ||
      (&& !Restores(v, info.state)
       && info.acked < 4_000_000
       && 10 <= v.cwnd + Packets(v.cnt + Asked(v, e)) <= info.clamp)
    case _ => true
  }

  /** A plain step moves the total by exactly what was asked, for C's truncating division:
      the remainder is never lost. */
  lemma PlainStepConserves(v: Vanilla, e: Event)
    requires Inv(v) && Allowed(e) && Plain(v, e)
    ensures Total(Step(v, e)) == Total(v) + Asked(v, e)
  {
    if e.Ack? && InSlowStart(v, e.info) {
      SlowStartFits(v.cnt, e.info.acked);
      SetCwndConserves(v, v.cnt, e.info.acked * 500, e.info.state, e.info.clamp);
    } else if e.Ack? && e.info.sampled {
      SteeringConserves(v, e.info, e.tuning);
    }
  }

  lemma SteeringConserves(v: Vanilla, a: AckInfo, tuning: seq<u64>)
    requires Inv(v) && !InSlowStart(v, a) && a.sampled && Plain(v, Ack(a, tuning))
    ensures Total(CongControl(v, a, tuning)) == Total(v) + Response(SetParams(v, true, tuning), a.srtt)
  {
    TuningKeepsTotal(v, tuning);
    var tuned := SetParams(v, true, tuning);
    ChangeIsResponse(tuned, a.srtt);
    SetCwndConserves(tuned, v.cnt, Change(tuned, a.srtt), a.state, a.clamp);
  }

  lemma TuningKeepsTotal(v: Vanilla, tuning: seq<u64>)
    ensures var w := SetParams(v, true, tuning);
      w.cwnd == v.cwnd && w.cnt == v.cnt && w.prevState == v.prevState && w.priorCwnd == v.priorCwnd
  {
  }

  /** What leaves the accumulator enters the window. */
  lemma SetCwndConserves(v: Vanilla, cnt: int, change: int, state: u8, clamp: u32)
    requires !Restores(v, state)
    requires 10 <= v.cwnd + Packets(cnt + change) <= clamp
    ensures Total(SetCwnd(v.(cnt := cnt + change), state, clamp)) == SCALE * v.cwnd + cnt + change
  {
    WrapId(v.cwnd + Packets(cnt + change));
  }

  lemma SlowStartFits(cnt: int, acked: u32)
    requires -SCALE < cnt < SCALE && acked < 4_000_000
    ensures SlowStartCount(cnt, acked) == cnt + acked * 500
  {
    WrapId(acked * 500);
    if cnt + acked * 500 >= 0 {
      WrapId(cnt + acked * 500);
    }
  }

  /** What a whole run asks for. */
  ghost function AskedOver(v: Vanilla, es: seq<Event>): int
    requires Inv(v) && AllAllowed(es)
    decreases |es|
  {
    if es == [] then 0
    else AskedOver(v, es[..|es| - 1]) + Asked(Run(v, es[..|es| - 1]), es[|es| - 1])
  }

  /** Over every run of plain steps the window moves by the sum of the changes, to within
      the fraction left in the accumulator. */
  lemma {:induction false} PlainRunConserves(v: Vanilla, es: seq<Event>)
    requires Inv(v) && AllAllowed(es)
    requires forall i :: 0 <= i < |es| ==> Plain(Run(v, es[..i]), es[i])
    ensures Total(Run(v, es)) == Total(v) + AskedOver(v, es)
    decreases |es|
  {
    if es != [] {
      var before, n := es[..|es| - 1], |es| - 1;
      forall i | 0 <= i < n ensures Plain(Run(v, before[..i]), before[i]) {
        assert before[..i] == es[..i];
      }
      PlainRunConserves(v, before);
      PlainStepConserves(Run(v, before), es[n]);
    }
  }

  /** The same ACK by ACK, without slow start: on a plain step outside slow start an ACK with
      a rate sample moves the total up by alpha on a fast path and down by beta on a slow
      one, with the parameters that the ACK itself may have brought. */
  lemma AckSteers(v: Vanilla, a: AckInfo, tuning: seq<u64>)
    requires Inv(v) && !InSlowStart(v, a) && a.sampled && Plain(v, Ack(a, tuning))
    ensures var w := SetParams(v, true, tuning);
      Total(CongControl(v, a, tuning)) == Total(v) +
        if Wrap32(a.srtt * 1024) < (1024 + w.gamma + 1) * v.minRttUs then Min(w.alpha, 1024) else -Min(w.beta, 512)
  {
    SteeringConserves(v, a, tuning);
    TuningKeepsTotal(v, tuning);
  }

  /** Outside slow start an ACK asks for between half a packet less and one packet more,
      and its accumulator moves the window by at most one packet. */
  lemma OnePacketPerAck(v: Vanilla, a: AckInfo, tuning: seq<u64>)
    requires Inv(v) && !InSlowStart(v, a) && a.sampled
    ensures -512 <= Change(SetParams(v, true, tuning), a.srtt) <= 1024
    ensures -1 <= Packets(v.cnt + Change(SetParams(v, true, tuning), a.srtt)) <= 1
  {
  }

  /** The change is positive exactly on a fast path, and never zero. Below 2^22 microseconds
      the 32-bit product is that of the round-trip time itself. */
  lemma GrowsWhileFast(v: Vanilla, srtt: u32)
    requires v.minRttUs > 0 && 1 <= v.alpha && 1 <= v.beta
    ensures Change(v, srtt) == if Fast(v, srtt) then Min(v.alpha, 1024) else -Min(v.beta, 512)
    ensures Change(v, srtt) > 0 <==> Fast(v, srtt)
    ensures Change(v, srtt) != 0
    ensures srtt < 0x40_0000 ==> Wrap32(srtt * SCALE) == SCALE * srtt
  {
    ChangeIsResponse(v, srtt);
    if srtt < 0x40_0000 {
      WrapId(srtt * SCALE);
    }
  }

  /** At 2^22 microseconds the product wraps to nothing, and the slowest of paths grows. */
  lemma SlowLooksFast(v: Vanilla)
    requires v.minRttUs > 0 && 1 <= v.alpha && 1 <= v.beta
    ensures Change(v, 0x40_0000) > 0
  {
    assert Wrap32(0x40_0000 * SCALE) == 0;
    MulLe(0, SCALE + v.gamma, v.minRttUs);
    GrowsWhileFast(v, 0x40_0000);
  }

  /** Slow start, where the kernel is in it, lasts until the first loss cut of the flow and
      never comes back. */
  lemma {:induction false} SlowStartExactly(window: u32, es: seq<Event>, a: AckInfo)
    requires AllAllowed(es)
    ensures InSlowStart(Run(Init(window), es), a) <==> a.inSlowStart && forall i :: 0 <= i < |es| ==> !es[i].LossCut?
    decreases |es|
  {
    if es != [] {
      SlowStartExactly(window, es[..|es| - 1], a.(inSlowStart := true));
    }
  }

  /** An ACK that moves the window leaves it between 10, or the clamp if that is smaller, and
      the clamp. */
  lemma AckKeepsBounds(v: Vanilla, a: AckInfo, tuning: seq<u64>)
    requires Inv(v) && (InSlowStart(v, a) || a.sampled)
    ensures Min(10, a.clamp) <= CongControl(v, a, tuning).cwnd <= a.clamp
  {
  }

  // ------------------------------------------------------------ runs under one decision

  /** The event is an ACK that steers the window: outside slow start, with a rate sample. */
  predicate Steers(v: Vanilla, e: Event) { e.Ack? && e.info.sampled && !InSlowStart(v, e.info) }

  /** How many ACKs of the run found the path fast, or slow. */
  ghost function Acks(v: Vanilla, es: seq<Event>, fast: bool): nat
    requires Inv(v) && AllAllowed(es)
    decreases |es|
  {
    if es == [] then 0
    else
      var before, e := Run(v, es[..|es| - 1]), es[|es| - 1];
      Acks(v, es[..|es| - 1], fast)
      + if Steers(before, e) && Fast(SetParams(before, true, e.tuning), e.info.srtt) == fast then 1 else 0
  }

  /** Every event of the run is plain, none of its ACKs is in slow start, and each finds the
      two parameters in force. */
  ghost predicate UnderDecision(v: Vanilla, es: seq<Event>, alpha: u16, beta: u16)
    requires Inv(v) && AllAllowed(es)
    decreases |es|
  {
    es == [] ||
    (UnderDecision(v, es[..|es| - 1], alpha, beta) &&
     var before, e := Run(v, es[..|es| - 1]), es[|es| - 1];
     && Plain(before, e)
     && (e.Ack? ==> !InSlowStart(before, e.info))
     && (Steers(before, e) ==>
           var w := SetParams(before, true, e.tuning); w.alpha == alpha && w.beta == beta))
  }

  /** Under one decision n fast and m slow ACKs move the window, fraction included, up by n
      times alpha and down by m times beta. */
  lemma {:induction false} RunSteers(v: Vanilla, es: seq<Event>, alpha: u16, beta: u16)
    requires Inv(v) && AllAllowed(es) && UnderDecision(v, es, alpha, beta)
    ensures Total(Run(v, es)) == Total(v) + Acks(v, es, true) * Min(alpha, 1024) - Acks(v, es, false) * Min(beta, 512)
    decreases |es|
  {
    if es != [] {
      var before, e := es[..|es| - 1], es[|es| - 1];
      RunSteers(v, before, alpha, beta);
      PlainStepConserves(Run(v, before), e);
      OneMore(Acks(v, before, true), Min(alpha, 1024));
      OneMore(Acks(v, before, false), Min(beta, 512));
    }
  }

  lemma OneMore(n: nat, x: int)
    ensures (n + 1) * x == n * x + x
  {
  }

  /** The tuning of an ACK that changes the parameters. */
  predicate Decides(tuning: seq<u64>) { |tuning| == 4 && forall i :: 0 <= i < 4 ==> CheckParam(tuning[i]) }

  /** Nothing but an ACK outside slow start that brings an acceptable decision changes them. */
  lemma ParametersStay(v: Vanilla, e: Event)
    requires Inv(v) && Allowed(e) && (Steers(v, e) ==> !Decides(e.tuning))
    ensures Step(v, e).alpha == v.alpha && Step(v, e).beta == v.beta
  {
  }

  /** A decision and then no other: the first ACK of the run brings four acceptable values,
      and every event is plain and outside slow start. */
  ghost predicate OneDecision(v: Vanilla, es: seq<Event>)
    requires Inv(v) && AllAllowed(es)
    decreases |es|
  {
    && es != []
    && (if |es| == 1 then Steers(v, es[0]) && Decides(es[0].tuning) && Plain(v, es[0])
        else
          && OneDecision(v, es[..|es| - 1])
          && var before, e := Run(v, es[..|es| - 1]), es[|es| - 1];
             Plain(before, e) && (e.Ack? ==> !InSlowStart(before, e.info) && !Decides(e.tuning)))
  }

  /** Then every ACK of the run adds the alpha decided, or takes away the beta. */
  lemma {:induction false} DecisionLasts(v: Vanilla, es: seq<Event>)
    requires Inv(v) && AllAllowed(es) && OneDecision(v, es)
    ensures Steers(v, es[0]) && Decides(es[0].tuning)
    ensures var alpha, beta := Wrap16(es[0].tuning[0]), Wrap16(es[0].tuning[1]);
      && Run(v, es).alpha == alpha && Run(v, es).beta == beta
      && UnderDecision(v, es, alpha, beta)
    decreases |es|
  {
    var before, e := es[..|es| - 1], es[|es| - 1];
    if |es| == 1 {
      assert before == [];
    } else {
      DecisionLasts(v, before);
      assert before[0] == es[0];
      ParametersStay(Run(v, before), e);
    }
  }

  // ------------------------------------------------------------ parameters

  /** Parameters stay in their range: all four change together or none does. */
  lemma ParametersInRange(v: Vanilla, isVanilla: bool, params: seq<u64>)
    ensures var w := SetParams(v, isVanilla, params);
      w == v || (1 <= w.alpha <= 1024 && 1 <= w.beta <= 1024 && 2 <= w.gamma <= 2048 && w.gamma % 2 == 0
                 && 1 <= w.delta <= 1024)
  {
    if isVanilla && |params| == 4 && forall i :: 0 <= i < 4 ==> CheckParam(params[i]) {
      assert CheckParam(params[0]) && CheckParam(params[1]) && CheckParam(params[2]) && CheckParam(params[3]);
      DoubledGamma(params[2]);
    }
  }

  lemma DoubledGamma(p: u64)
    requires CheckParam(p)
    ensures Doubled(p) == 2 * Wrap16(p)
  {
    RemainderIs(2 * p, TWO16, 2 * (p / TWO16), 2 * Wrap16(p));
  }

  // ------------------------------------------------------------ the smallest round-trip time

  predicate IsSample(e: Event, least: int) { e.Sample? && e.rttUs >= 0 && least == e.rttUs + 1 }

  /** Over every run min_rtt is one more than the smallest sample so far, or what it was
      before if that is smaller. */
  lemma {:induction false} RunKeepsLeast(v: Vanilla, es: seq<Event>)
    requires Inv(v) && AllAllowed(es)
    ensures var least := Run(v, es).minRttUs;
      && least <= v.minRttUs
      && (forall i :: 0 <= i < |es| && es[i].Sample? && es[i].rttUs >= 0 ==> least <= es[i].rttUs + 1)
      && (least == v.minRttUs || exists i :: 0 <= i < |es| && IsSample(es[i], least))
    decreases |es|
  {
    if es != [] {
      var n := |es| - 1;
      RunKeepsLeast(v, es[..n]);
      var least, least' := Run(v, es[..n]).minRttUs, Run(v, es).minRttUs;
      OthersKeepLeast(Run(v, es[..n]), es[n]);
      forall i | 0 <= i < |es| && es[i].Sample? && es[i].rttUs >= 0 ensures least' <= es[i].rttUs + 1 {
        if i < n {
          assert es[..n][i] == es[i];
        }
      }
      if least' == least != v.minRttUs {
        var i :| 0 <= i < n && IsSample(es[..n][i], least);
        assert IsSample(es[i], least');
      } else if least' != least {
        assert IsSample(es[n], least');
      }
    }
  }

  lemma OthersKeepLeast(v: Vanilla, e: Event)
    requires Inv(v) && Allowed(e)
    ensures Step(v, e).minRttUs == if e.Sample? && e.rttUs >= 0 then Min(v.minRttUs, e.rttUs + 1) else v.minRttUs
  {
  }

  // ------------------------------------------------------------ cuts and their undoing

  /** A loss cuts the window to delta/1024 of it, rounded down, but not below 2 nor above the
      clamp, remembers the window before, and ends slow start. */
  lemma CutIsExact(v: Vanilla, clamp: u32)
    requires v.delta * v.cwnd < TWO32
    ensures var cut := Ssthresh(v, clamp);
      && cut == v.(cwnd := cut.cwnd, priorCwnd := v.cwnd, slowStartPassed := true)
      && cut.cwnd <= clamp
      && (cut.cwnd < clamp ==> cut.cwnd >= 2 && 1024 * (cut.cwnd + 1) > v.delta * v.cwnd)
      && (cut.cwnd > 2 ==> 1024 * cut.cwnd <= v.delta * v.cwnd)
  {
    MulLe(0, v.delta, v.cwnd);
    WrapId(v.delta * v.cwnd);
  }

  /** With a recorded loss every sampled ACK outside recovery restores the window before the
      last cut, so a cut does not last: one ACK later the window is back to within a packet,
      floor and clamp apart. */
  lemma CutsAreUndone(v: Vanilla, clamp: u32, a: AckInfo, tuning: seq<u64>)
    requires Inv(v) && v.prevState >= CA_RECOVERY
    requires a.sampled && a.state < CA_RECOVERY && 0 < v.cwnd < TWO32 - 1
    ensures CongControl(Ssthresh(v, clamp), a, tuning).cwnd >= Min(Max(v.cwnd - 1, 10), a.clamp)
  {
    var cut := Ssthresh(v, clamp);
    OnePacketPerAck(cut, a, tuning);
    var tuned := SetParams(cut, true, tuning);
    RestoresTo(tuned, v.cwnd, tuned.cnt + Change(tuned, a.srtt), a.state, a.clamp);
  }

  lemma RestoresTo(v: Vanilla, before: u32, cnt: int, state: u8, clamp: u32)
    requires Restores(v, state) && v.priorCwnd == before && 0 < before && Max(before, v.cwnd) < TWO32 - 1
    requires -1 <= Packets(cnt) <= 1
    ensures SetCwnd(v.(cnt := cnt), state, clamp).cwnd >= Min(Max(before - 1, 10), clamp)
  {
    WrapId(Max(before, v.cwnd) + Packets(cnt));
  }

  /** What it restores is the larger of the two windows, to which its own response is added:
      exactly, where neither floor nor clamp interferes. */
  lemma RestoresLarger(v: Vanilla, a: AckInfo, tuning: seq<u64>)
    requires Inv(v) && !InSlowStart(v, a) && a.sampled && Restores(v, a.state)
    requires var change := Response(SetParams(v, true, tuning), a.srtt);
      10 <= Max(v.cwnd, v.priorCwnd) + Packets(v.cnt + change) <= a.clamp
    ensures Total(CongControl(v, a, tuning))
      == SCALE * Max(v.cwnd, v.priorCwnd) + v.cnt + Response(SetParams(v, true, tuning), a.srtt)
  {
    TuningKeepsTotal(v, tuning);
    var tuned := SetParams(v, true, tuning);
    ChangeIsResponse(tuned, a.srtt);
    WrapId(Max(v.cwnd, v.priorCwnd) + Packets(v.cnt + Change(tuned, a.srtt)));
  }

  /** Without a recorded loss the same ACK leaves the cut in force, one packet apart. */
  lemma CutsLast(v: Vanilla, clamp: u32, a: AckInfo, tuning: seq<u64>)
    requires Inv(v) && v.prevState < CA_RECOVERY
    requires a.sampled && 0 < Ssthresh(v, clamp).cwnd < TWO32 - 1
    ensures CongControl(Ssthresh(v, clamp), a, tuning).cwnd <= Max(Ssthresh(v, clamp).cwnd + 1, 10)
  {
    var cut := Ssthresh(v, clamp);
    OnePacketPerAck(cut, a, tuning);
    var tuned := SetParams(cut, true, tuning);
    StaysAt(tuned, tuned.cnt + Change(tuned, a.srtt), a.state, a.clamp);
  }

  lemma StaysAt(v: Vanilla, cnt: int, state: u8, clamp: u32)
    requires !Restores(v, state) && 0 < v.cwnd < TWO32 - 1 && -1 <= Packets(cnt) <= 1
    ensures SetCwnd(v.(cnt := cnt), state, clamp).cwnd <= Max(v.cwnd + 1, 10)
  {
    WrapId(v.cwnd + Packets(cnt));
  }

  /** A cut deep enough to tell, whatever floor and clamp do to the next ACK. */
  predicate Deep(v: Vanilla, clamp: u32, a: AckInfo) {
    && 0 < Ssthresh(v, clamp).cwnd && v.cwnd < TWO32 - 1
    && Max(Ssthresh(v, clamp).cwnd + 1, 10) < Min(v.cwnd - 1, a.clamp)
  }

  /** The next sampled ACK outside recovery undoes such a cut exactly if the recorded
      previous state is recovery or loss. */
  lemma UndoneExactlyWhen(v: Vanilla, clamp: u32, a: AckInfo, tuning: seq<u64>)
    requires Inv(v) && a.sampled && a.state < CA_RECOVERY && Deep(v, clamp, a)
    ensures CongControl(Ssthresh(v, clamp), a, tuning).cwnd >= Min(v.cwnd - 1, a.clamp)
       <==> v.prevState >= CA_RECOVERY
  {
    if v.prevState >= CA_RECOVERY {
      CutsAreUndone(v, clamp, a, tuning);
    } else {
      CutsLast(v, clamp, a, tuning);
    }
  }

  /** The recorded state of a flow is Loss exactly if it had a timeout, and Open before. */
  lemma {:induction false} RecordedState(window: u32, es: seq<Event>)
    requires AllAllowed(es)
    ensures Run(Init(window), es).prevState == if StateChange(CA_LOSS) in es then CA_LOSS else CA_OPEN
    decreases |es|
  {
    if es != [] {
      var before, e := es[..|es| - 1], es[|es| - 1];
      RecordedState(window, before);
      assert es == before + [e];
    }
  }

  /** Over every run: before the first timeout every deep cut lasts through the next sampled
      ACK outside recovery, and after it none does. */
  lemma CutsLastUntilTimeout(window: u32, es: seq<Event>, clamp: u32, a: AckInfo, tuning: seq<u64>)
    requires AllAllowed(es) && a.sampled && a.state < CA_RECOVERY
    ensures AllAllowed(es + [LossCut(clamp), Ack(a, tuning)])
    ensures var v := Run(Init(window), es);
      Deep(v, clamp, a) ==>
        (Run(Init(window), es + [LossCut(clamp), Ack(a, tuning)]).cwnd >= Min(v.cwnd - 1, a.clamp)
         <==> StateChange(CA_LOSS) in es)
  {
    var v := Run(Init(window), es);
    CutThenAck(Init(window), es, clamp, a, tuning);
    RecordedState(window, es);
    if Deep(v, clamp, a) {
      UndoneExactlyWhen(v, clamp, a, tuning);
    }
  }

  lemma CutThenAck(v: Vanilla, es: seq<Event>, clamp: u32, a: AckInfo, tuning: seq<u64>)
    requires Inv(v) && AllAllowed(es)
    ensures AllAllowed(es + [LossCut(clamp), Ack(a, tuning)])
    ensures Inv(Ssthresh(Run(v, es), clamp))
    ensures Run(v, es + [LossCut(clamp), Ack(a, tuning)]) == CongControl(Ssthresh(Run(v, es), clamp), a, tuning)
  {
    var cut, longer := es + [LossCut(clamp)], es + [LossCut(clamp), Ack(a, tuning)];
    assert longer[..|longer| - 1] == cut && cut[..|es|] == es;
    assert Run(v, cut) == Ssthresh(Run(v, es), clamp);
  }
}
