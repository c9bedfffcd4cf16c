/** `struct bictcp` of src/tcp_scubic.c and the callbacks that update its fields in place.
    Each method is proved to perform the step of CubicModel. */
module Cubic {
  import opened Machine
  import opened CubicCurve
  import opened CubicModel
  import opened FriendlyLoop
  import HyStart

  class Bictcp {
    var cnt: u32
    var lastMaxCwnd: u32
    var lastCwnd: u32
    var lastTime: u32
    var originPoint: u32
    var k: u32
    var delayMin: u32
    var epochStart: u32
    var ackCnt: u32
    var tcpCwnd: u32
    var beta: int
    var bicScale: int
    var cubeRttScale: u32
    var betaScale: u32
    var cubeFactor: u64
    /** The fields of hybrid slow start. */
    const detector: HyStart.Detector

    ghost function State(): Ca
      reads this
    {
      Ca(cnt, lastMaxCwnd, lastCwnd, lastTime, originPoint, k, delayMin, epochStart, ackCnt,
         tcpCwnd, beta, bicScale, cubeRttScale, betaScale, cubeFactor)
    }

    /** The fields hold what the memory held until the flow is initialized. */
    constructor ()
      ensures fresh(detector)
    {
      detector := new HyStart.Detector();
    }

    method UpdateParams()
      requires Accepted(beta) && Accepted(bicScale)
      modifies this
      ensures State() == WithScales(old(State()))
    {
      BetaScaleBounds(beta);
      betaScale := 8 * (BETA_SCALE + beta) / 3 / (BETA_SCALE - beta);
      cubeFactor := TWO40;
      cubeFactor := cubeFactor / (bicScale * 10);
    }

    method SetParameters(isCubic: bool, params: seq<u64>)
      modifies this
      ensures State() == SetParams(old(State()), isCubic, params)
    {
      if |params| == 0 || !isCubic || |params| != 2 {
        return;
      }
      if params[0] == 0 || params[1] == 0 || params[0] >= 1024 || params[1] >= 1024 {
        return;
      }
      bicScale := params[0];
      beta := params[1];
      UpdateParams();
    }

    method ResetState()
      modifies this, detector
      ensures State() == Reset(old(State()))
      ensures detector.State() == HyStart.NothingFound(old(detector.State()))
    {
      ClearWindow();
      delayMin := 0;
      ClearEpoch();
      detector.ClearFound();
    }

    method ClearWindow()
      modifies `cnt, `lastMaxCwnd, `lastCwnd, `lastTime
      ensures cnt == lastMaxCwnd == lastCwnd == lastTime == 0
    {
      cnt := 0;
      lastMaxCwnd := 0;
      lastCwnd := 0;
      lastTime := 0;
    }

    method ClearEpoch()
      modifies `originPoint, `k, `epochStart, `ackCnt, `tcpCwnd
      ensures originPoint == k == epochStart == ackCnt == tcpCwnd == 0
    {
      originPoint := 0;
      k := 0;
      epochStart := 0;
      ackCnt := 0;
      tcpCwnd := 0;
    }

    /** bictcp_init up to the connection. */
    method Initialize(hystart: bool, clock: u32)
      modifies this, detector
      ensures State() == Init(old(State()))
      ensures detector.State() == HyStart.AtStart(old(detector.State()), hystart, clock)
    {
      ResetState();
      if hystart {
        detector.Reset(clock);
      }
      bicScale := 41;
      beta := 717;
      UpdateParams();
    }

    /** bictcp_state: a timeout resets the flow and starts a round, whether or not hybrid
        slow start is in use. */
    method SetState(lost: bool, clock: u32)
      modifies this, detector
      ensures State() == if lost then Reset(old(State())) else old(State())
      ensures detector.State() ==
        if lost then HyStart.AtStart(old(detector.State()), true, clock) else old(detector.State())
    {
      if lost {
        ResetState();
        detector.Reset(clock);
      }
    }

    /** The `while` loop of the friendly region, watched for at most `patience` laps. */
    method BuyPackets(step: u32, patience: nat) returns (ended: bool)
      modifies `ackCnt, `tcpCwnd
      ensures LoopOf(State()) == AfterLaps(old(LoopOf(State())), step, patience)
      ensures ended == !Guard(LoopOf(State()), step)
    {
      var left := patience;
      while ackCnt > step && left > 0
        invariant AfterLaps(Loop(ackCnt, tcpCwnd), step, left)
               == AfterLaps(old(LoopOf(State())), step, patience)
      {
        ackCnt := ackCnt - step;
        tcpCwnd := Wrap32(tcpCwnd + 1);
        left := left - 1;
      }
      ended := ackCnt <= step;
    }

    /** The friendly region and the floor of two, for every state. As long as the loop has
        not ended only its two fields have moved; it is seen to end, given the patience,
        exactly unless the model hangs. */
    method FriendlyRegion(config: Config, cwnd: u32, patience: nat) returns (ended: bool)
      modifies `ackCnt, `tcpCwnd, `cnt
      ensures ended ==> Done(State()) == AtLeastTwo(Friendly(config, old(State()), cwnd))
      ensures !ended ==> State() == old(State()).(ackCnt := ackCnt, tcpCwnd := tcpCwnd)
      ensures !ended ==>
        LoopOf(State()) == AfterLaps(old(LoopOf(State())), FriendlyStep(old(State()), cwnd), patience)
      ensures Friendly(config, old(State()), cwnd).Hangs? ==> !ended
      ensures !Friendly(config, old(State()), cwnd).Hangs? && patience >= old(ackCnt) ==> ended
    {
      if config.tcpFriendliness {
        ghost var before, step := LoopOf(State()), FriendlyStep(State(), cwnd);
        ended := BuyPackets(Wrap32(cwnd * betaScale) / 8, patience);
        if !ended {
          if (step > 0 || before.acks == 0) && patience >= before.acks {
            EndsInTime(before, step, patience);
          }
          return;
        }
        EndedMeans(before, step, patience);
        if tcpCwnd > cwnd {
          var maxCnt := Div32(cwnd, tcpCwnd - cwnd);
          if cnt > maxCnt {
            cnt := maxCnt;
          }
        }
      }
      cnt := Max(cnt, 2);
      return true;
    }

    method Open(cwnd: u32, acked: u32, now: u32)
      requires Accepted(bicScale)
      modifies `epochStart, `ackCnt, `tcpCwnd, `cubeRttScale
      ensures State() == StartEpoch(old(State()), cwnd, acked, now)
    {
      epochStart := now;
      ackCnt := acked;
      tcpCwnd := cwnd;
      cubeRttScale := bicScale * 10;
    }

    method ChoosePlateau(cwnd: u32)
      modifies `k, `originPoint
      ensures State() == SetPlateau(old(State()), cwnd)
    {
      if lastMaxCwnd <= cwnd {
        k := 0;
        originPoint := cwnd;
      } else {
        var time := PlateauTime(cubeFactor, lastMaxCwnd - cwnd);
        assert time == SetPlateau(State(), cwnd).k;
        k := time;
        originPoint := lastMaxCwnd;
      }
    }

    /** The time since the epoch opened, in 1/1024 second, and the cubic there. */
    method TargetNow(config: Config, now: u32, delayJiffies: u32) returns (target: u32)
      requires ValidConfig(config)
      ensures target == CurveTarget(config, State(), now, delayJiffies)
    {
      var t := Wrap64(Signed32(Wrap32(now - epochStart)) + delayJiffies);
      t := Wrap64(t * 1024) / config.hz;
      target := TargetAt(t);
    }

    /** The distance from the plateau, and the scaled cube of that. */
    method TargetAt(t: u64) returns (target: u32)
      ensures target == Target(cubeRttScale, originPoint, k, t)
    {
      var offs: int := if t < k then k - t else t - k;
      var delta: int := Delta(cubeRttScale, offs);
      if t < k {
        target := Wrap32(originPoint - delta);
      } else {
        target := Wrap32(originPoint + delta);
      }
    }

    method Recompute(config: Config, cwnd: u32, acked: u32, now: u32, delayJiffies: u32)
      requires ValidConfig(config) && Accepted(bicScale)
      modifies this
      ensures State() == Recount(config, old(State()), cwnd, acked, now, delayJiffies)
    {
      Enter(cwnd, acked, now);
      var target := TargetNow(config, now, delayJiffies);
      if target > cwnd {
        cnt := Div32(cwnd, target - cwnd);
      } else {
        cnt := Wrap32(100 * cwnd);
      }
      if lastMaxCwnd == 0 && cnt > 20 {
        cnt := 20;
      }
    }

    method Enter(cwnd: u32, acked: u32, now: u32)
      requires Accepted(bicScale)
      modifies this
      ensures State() == EnterCurve(old(State()), cwnd, acked, now)
    {
      lastCwnd := cwnd;
      lastTime := now;
      if epochStart == 0 {
        Open(cwnd, acked, now);
        ChoosePlateau(cwnd);
      }
    }

    /** bictcp_update, its loop watched for at most `patience` laps. Whenever the loop ends
        this is the step of the model; with patience for every ACK it is seen to end exactly
        unless the model hangs. */
    method UpdateWindow(config: Config, cwnd: u32, acked: u32, now: u32, delayJiffies: u32, patience: nat)
      returns (ended: bool)
      requires ValidConfig(config) && Accepted(bicScale)
      modifies this
      ensures ended ==> Done(State()) == Update(config, old(State()), cwnd, acked, now, delayJiffies)
      ensures Update(config, old(State()), cwnd, acked, now, delayJiffies).Hangs? ==> !ended
      ensures !Update(config, old(State()), cwnd, acked, now, delayJiffies).Hangs? && patience >= TWO32 ==> ended
    {
      ackCnt := Wrap32(ackCnt + acked);
      if lastCwnd == cwnd && Signed32(Wrap32(now - lastTime)) <= config.hz / 32 {
        return true;
      }
      if !(epochStart != 0 && now == lastTime) {
        Recompute(config, cwnd, acked, now, delayJiffies);
      }
      ended := FriendlyRegion(config, cwnd, patience);
    }

    method RecalcSsthresh(config: Config, cwnd: u32) returns (ssthresh: u32)
      requires Accepted(beta)
      modifies this
      ensures State() == AfterLoss(config, old(State()), cwnd)
      ensures ssthresh == Ssthresh(old(State()), cwnd)
    {
      epochStart := 0;
      if cwnd < lastMaxCwnd && config.fastConvergence {
        lastMaxCwnd := Wrap32(cwnd * (BETA_SCALE + beta)) / (2 * BETA_SCALE);
      } else {
        lastMaxCwnd := cwnd;
      }
      ssthresh := Max(Wrap32(cwnd * beta) / BETA_SCALE, 2);
    }

    /** bictcp_cwnd_event when transmission restarts. */
    method TransmitStart(now: u32, lastSent: u32)
      modifies this
      ensures State() == AfterIdle(old(State()), now, lastSent)
    {
      var delta := Signed32(Wrap32(now - lastSent));
      if epochStart != 0 && delta > 0 {
        epochStart := Wrap32(epochStart + delta);
        if Signed32(Wrap32(now - epochStart)) < 0 {
          epochStart := now;
        }
      }
    }

    /** bictcp_acked: the delay filter, then hybrid slow start where the gate is open: it is
        in use, the flow is in slow start, and its window has reached the low limit. Says
        whether slow start ends here, with the threshold set to the window. */
    method Acked(config: Config, rttUs: int, now: u32, gate: bool, d: HyStart.Detect, clock: u32)
      returns (lowered: bool)
      modifies `delayMin, detector
      ensures State() == AfterAck(config, old(State()), rttUs, now)
      ensures detector.State() ==
        if gate && !Skipped(config, old(State()), rttUs, now)
        then HyStart.Update(old(detector.State()), d, clock, DelayOf(rttUs), delayMin)
        else old(detector.State())
      ensures lowered ==> gate && !Skipped(config, old(State()), rttUs, now) && HyStart.Exited(detector.State(), d)
    {
      if rttUs < 0 {
        return false;
      }
      if epochStart != 0 && Signed32(Wrap32(now - epochStart)) < config.hz {
        return false;
      }
      var delay := Wrap32(TruncDiv(Signed32(Wrap32(rttUs * 8)), 1000));
      if delay == 0 {
        delay := 1;
      }
      if delayMin == 0 || delayMin > delay {
        delayMin := delay;
      }
      lowered := false;
      if gate {
        lowered := detector.OnDelay(d, clock, delay, delayMin);
      }
    }
  }
}
