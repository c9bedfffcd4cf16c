/** The congestion-control state of src/tcp_scubic.c as a value, and what each callback of
    the kernel does to it. The class in Cubic.dfy performs the same steps on its fields. */
module CubicModel {
  import opened Machine
  import opened NewtonStep
  import opened CubicCurve
  import opened FriendlyLoop

  /** The compile-time tick rate and the two module parameters the steps read. */
  datatype Config = Config(hz: int, fastConvergence: bool, tcpFriendliness: bool)

  ghost predicate ValidConfig(c: Config) { 0 < c.hz < TWO32 }

  datatype Ca = Ca(
    cnt: u32, lastMaxCwnd: u32, lastCwnd: u32, lastTime: u32,
    originPoint: u32, k: u32, delayMin: u32, epochStart: u32, ackCnt: u32, tcpCwnd: u32,
    beta: int, bicScale: int, cubeRttScale: u32, betaScale: u32, cubeFactor: u64)

  /** The outcome of a callback: the `while` loop of the friendly region does not end when
      its decrement is zero. */
  datatype Outcome = Done(ca: Ca) | Hangs

  // ------------------------------------------------------------ tunable parameters

  const BETA_SCALE: int := 1024

  function BetaScale(beta: int): int
    requires beta < BETA_SCALE
  {
    8 * (BETA_SCALE + beta) / 3 / (BETA_SCALE - beta)
  }

  lemma BetaScaleBounds(beta: int)
    requires Accepted(beta)
    ensures 2 <= BetaScale(beta) <= 5458
    ensures beta >= 512 ==> BetaScale(beta) >= 8
  {
    var n, d := 8 * (BETA_SCALE + beta) / 3, BETA_SCALE - beta;
    DivAtLeast(n, d, 2);
    if beta >= 512 {
      DivAtLeast(n, d, 8);
    }
    MulLe(1, d, 5459);
    QuotientBounds(n, d, 0, 5459);
  }

  lemma DivAtLeast(n: int, d: int, q: int)
    requires d > 0 && q * d <= n
    ensures n / d >= q
  {
    QuotientBounds(n, d, q, n / d + 1);
  }

  /** bictcp_update_params. */
  function WithScales(ca: Ca): Ca
    requires Accepted(ca.beta) && Accepted(ca.bicScale)
  {
    BetaScaleBounds(ca.beta);
    ca.(betaScale := BetaScale(ca.beta), cubeFactor := CubeFactor(ca.bicScale))
  }

  /** scubic_set_params: exactly two accepted values retune the flow, anything else is
      ignored. The first is bic_scale, the second beta. */
  function SetParams(ca: Ca, isCubic: bool, params: seq<u64>): Ca {
    if isCubic && |params| == 2 && Accepted(params[0]) && Accepted(params[1])
    then WithScales(ca.(bicScale := params[0], beta := params[1]))
    else ca
  }

  /** bictcp_reset: the parameters and the scales derived from them survive. */
  function Reset(ca: Ca): Ca {
    ca.(cnt := 0, lastMaxCwnd := 0, lastCwnd := 0, lastTime := 0, originPoint := 0, k := 0,
        delayMin := 0, epochStart := 0, ackCnt := 0, tcpCwnd := 0)
  }

  /** What bictcp_init leaves, whatever the fields held before. */
  function Init(before: Ca): Ca {
    WithScales(Reset(before).(bicScale := 41, beta := 717))
  }

  // ------------------------------------------------------------ the window update

  /** The elapsed time of the epoch in 1/1024 second. */
  function CurveTime(config: Config, ca: Ca, now: u32, delayJiffies: u32): u64
    requires ValidConfig(config)
  {
    Wrap64(Wrap64(Signed32(Wrap32(now - ca.epochStart)) + delayJiffies) * 1024) / config.hz
  }

  function CurveTarget(config: Config, ca: Ca, now: u32, delayJiffies: u32): u32
    requires ValidConfig(config)
  {
    Target(ca.cubeRttScale, ca.originPoint, ca.k, CurveTime(config, ca, now, delayJiffies))
  }

  /** Nothing to do yet: same window and less than a 32nd of a second since the last time. */
  predicate TooSoon(config: Config, ca: Ca, cwnd: u32, now: u32) {
    ca.lastCwnd == cwnd && Signed32(Wrap32(now - ca.lastTime)) <= config.hz / 32
  }

  /** An open epoch updated already in this tick. */
  predicate SameTick(ca: Ca, now: u32) { ca.epochStart != 0 && now == ca.lastTime }

  /** A new epoch: counting starts over and the curve's slope is fixed for its length. */
  function StartEpoch(ca: Ca, cwnd: u32, acked: u32, now: u32): Ca
    requires Accepted(ca.bicScale)
  {
    ca.(epochStart := now, ackCnt := acked, tcpCwnd := cwnd,
        cubeRttScale := RttScale(ca.bicScale))
  }

  /** The plateau of the epoch and the time to it. */
  function SetPlateau(ca: Ca, cwnd: u32): Ca {
    if ca.lastMaxCwnd <= cwnd then ca.(k := 0, originPoint := cwnd)
    else ca.(k := PlateauTime(ca.cubeFactor, ca.lastMaxCwnd - cwnd), originPoint := ca.lastMaxCwnd)
  }

  function OpenEpoch(ca: Ca, cwnd: u32, acked: u32, now: u32): Ca
    requires Accepted(ca.bicScale)
  {
    SetPlateau(StartEpoch(ca, cwnd, acked, now), cwnd)
  }

  lemma QuotientAtMost(a: int, d: int)
    requires a >= 0 && d > 0
    ensures 0 <= a / d <= a && a / d * d <= a
  {
    MulLe(1, d, a + 1);
    QuotientBounds(a, d, 0, a + 1);
  }

  /** An unsigned 32-bit division. */
  function Div32(a: u32, d: int): (q: u32)
    requires d > 0
    ensures 0 <= q * d <= a
  {
    QuotientAtMost(a, d);
    a / d
  }

  /** How many ACKs per packet of growth reach the target in one round trip. */
  function CurveCount(lastMaxCwnd: u32, cwnd: u32, target: u32): u32 {
    var cnt := if target > cwnd then Div32(cwnd, target - cwnd) else Wrap32(100 * cwnd);
    if lastMaxCwnd == 0 && cnt > 20 then 20 else cnt
  }

  /** The ACKs one packet of the estimated Reno window takes. */
  function FriendlyStep(ca: Ca, cwnd: u32): u32 { Wrap32(cwnd * ca.betaScale) / 8 }

  /** The fields as they enter the loop. */
  function LoopOf(ca: Ca): Loop { Loop(ca.ackCnt, ca.tcpCwnd) }

  function FriendlyCap(cnt: u32, cwnd: u32, tcpCwnd: u32): u32 {
    if tcpCwnd > cwnd then Min(cnt, Div32(cwnd, tcpCwnd - cwnd)) else cnt
  }

  /** The friendly region, its loop replaced by one division. */
  function Friendly(config: Config, ca: Ca, cwnd: u32): Outcome {
    var step := FriendlyStep(ca, cwnd);
    if !config.tcpFriendliness then Done(ca)
    else if step == 0 && ca.ackCnt > 0 then Hangs
    else
      var laps := Laps(ca.ackCnt, step);
      var tcpCwnd := Wrap32(ca.tcpCwnd + laps);
      Done(ca.(ackCnt := ca.ackCnt - laps * step, tcpCwnd := tcpCwnd,
               cnt := FriendlyCap(ca.cnt, cwnd, tcpCwnd)))
  }

  function AtLeastTwo(o: Outcome): Outcome {
    if o.Hangs? then o else Done(o.ca.(cnt := Max(o.ca.cnt, 2)))
  }

  /** The state as it enters the curve: an epoch is opened if none is open. */
  function EnterCurve(ca: Ca, cwnd: u32, acked: u32, now: u32): Ca
    requires Accepted(ca.bicScale)
  {
    var timed := ca.(lastCwnd := cwnd, lastTime := now);
    if ca.epochStart == 0 then OpenEpoch(timed, cwnd, acked, now) else timed
  }

  /** A fresh count from the curve. */
  function Recount(config: Config, ca: Ca, cwnd: u32, acked: u32, now: u32, delayJiffies: u32): Ca
    requires ValidConfig(config) && Accepted(ca.bicScale)
  {
    var entered := EnterCurve(ca, cwnd, acked, now);
    entered.(cnt := CurveCount(entered.lastMaxCwnd, cwnd,
                               CurveTarget(config, entered, now, delayJiffies)))
  }

  /** bictcp_update. */
  function Update(config: Config, ca: Ca, cwnd: u32, acked: u32, now: u32, delayJiffies: u32): Outcome
    requires ValidConfig(config) && Accepted(ca.bicScale)
  {
    var counted := ca.(ackCnt := Wrap32(ca.ackCnt + acked));
    if TooSoon(config, ca, cwnd, now) then Done(counted)
    else if SameTick(ca, now) then AtLeastTwo(Friendly(config, counted, cwnd))
    else AtLeastTwo(Friendly(config, Recount(config, counted, cwnd, acked, now, delayJiffies), cwnd))
  }

  // ------------------------------------------------------------ the other callbacks

  /** bictcp_recalc_ssthresh: the epoch ends and a loss fixes the next plateau. */
  function AfterLoss(config: Config, ca: Ca, cwnd: u32): Ca
    requires Accepted(ca.beta)
  {
    ca.(epochStart := 0,
        lastMaxCwnd := if cwnd < ca.lastMaxCwnd && config.fastConvergence
                       then Wrap32(cwnd * (BETA_SCALE + ca.beta)) / (2 * BETA_SCALE)
                       else cwnd)
  }

  function Ssthresh(ca: Ca, cwnd: u32): u32
    requires Accepted(ca.beta)
  {
    Max(Wrap32(cwnd * ca.beta) / BETA_SCALE, 2)
  }

  /** bictcp_cwnd_event for CA_EVENT_TX_START: an idle period moves the epoch forward,
      never past the present. */
  function AfterIdle(ca: Ca, now: u32, lastSent: u32): Ca {
    var idle := Signed32(Wrap32(now - lastSent));
    if ca.epochStart != 0 && idle > 0 then
      var moved := Wrap32(ca.epochStart + idle);
      ca.(epochStart := if Signed32(Wrap32(now - moved)) < 0 then now else moved)
    else ca
  }

  /** A sample in eighths of a millisecond and at least one; the shift by three is that of
      a signed 32-bit number. */
  function DelayOf(rttUs: int): u32 {
    Max(Wrap32(TruncDiv(Signed32(Wrap32(rttUs * 8)), 1000)), 1)
  }

  /** Samples bictcp_acked does not look at: those without a time, and those of the first
      second of an epoch. */
  predicate Skipped(config: Config, ca: Ca, rttUs: int, now: u32) {
    rttUs < 0 || (ca.epochStart != 0 && Signed32(Wrap32(now - ca.epochStart)) < config.hz)
  }

  /** The delay filter of bictcp_acked; rttUs is the sample in microseconds. */
  function AfterAck(config: Config, ca: Ca, rttUs: int, now: u32): Ca {
    if Skipped(config, ca, rttUs, now) then ca
    else
      var delay := DelayOf(rttUs);
      ca.(delayMin := if ca.delayMin == 0 || ca.delayMin > delay then delay else ca.delayMin)
  }
}
