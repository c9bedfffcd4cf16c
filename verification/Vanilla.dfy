/** `struct vanilla` of src/tcp_vanilla.c and its callbacks, updated in place. Each method is
    proved to perform the step of VanillaModel. */
module Vanilla {
  import opened Machine
  import Spec = VanillaModel

  class Flow {
    var cwnd: u32
    var cnt: int
    var minRttUs: u32
    var prevState: u8
    var priorCwnd: u32
    var alpha: u16
    var beta: u16
    var gamma: u16
    var delta: u16
    var slowStartPassed: bool

    ghost function State(): Spec.Vanilla
      reads this
    {
      Spec.Vanilla(cwnd, cnt, minRttUs, prevState, priorCwnd, alpha, beta, gamma, delta, slowStartPassed)
    }

    constructor (window: u32)
      ensures State() == Spec.Init(window)
    {
      cwnd, cnt, minRttUs := window, 0, 0x7fff_ffff;
      prevState, priorCwnd := Spec.CA_OPEN, 0;
      alpha, beta, gamma, delta := 50, 200, 200, 717;
      slowStartPassed := false;
    }

    method SetParameters(isVanilla: bool, params: seq<u64>)
      modifies `alpha, `beta, `gamma, `delta
      ensures State() == Spec.SetParams(old(State()), isVanilla, params)
    {
      if !isVanilla || |params| != 4 {
        return;
      }
      var j := 0;
      while j < |params|
        invariant 0 <= j <= |params|
        invariant forall i :: 0 <= i < j ==> Spec.CheckParam(params[i])
      {
        if !Spec.CheckParam(params[j]) {
          return;
        }
        j := j + 1;
      }
      alpha := Wrap16(params[0]);
      beta := Wrap16(params[1]);
      gamma := Spec.Doubled(params[2]);
      delta := Wrap16(params[3]);
    }

    /** Whole packets leave the accumulator for the window. */
    method SetCwnd(state: u8, clamp: u32)
      modifies `cwnd, `cnt
      ensures State() == Spec.SetCwnd(old(State()), state, clamp)
      ensures -Spec.SCALE < cnt < Spec.SCALE
    {
      var base := cwnd;
      if prevState >= Spec.CA_RECOVERY && state < Spec.CA_RECOVERY {
        base := Max(cwnd, priorCwnd);
      }
      var packets := TruncDiv(cnt, Spec.SCALE);
      WrapId(base);
      if packets != 0 {
        cnt := cnt - packets * Spec.SCALE;
        base := Wrap32(base + packets);
      }
      cwnd := Min(Max(base, 10), clamp);
    }

    method SlowStart(acked: u32, state: u8, clamp: u32)
      modifies `cwnd, `cnt
      ensures State() == Spec.SetCwnd(old(State()).(cnt := Spec.SlowStartCount(old(cnt), acked)), state, clamp)
    {
      cnt := Spec.SlowStartCount(cnt, acked);
      SetCwnd(state, clamp);
    }

    /** The response to an ACK; `tuning` is what the control path hands over meanwhile. */
    method CongControl(a: Spec.AckInfo, tuning: seq<u64>)
      requires minRttUs > 0
      modifies `cwnd, `cnt, `alpha, `beta, `gamma, `delta
      ensures State() == Spec.CongControl(old(State()), a, tuning)
    {
      if a.inSlowStart && !slowStartPassed {
        SlowStart(a.acked, a.state, a.clamp);
        return;
      }
      if !a.sampled {
        return;
      }
      SetParameters(true, tuning);
      Steer(a);
    }

    method Steer(a: Spec.AckInfo)
      requires minRttUs > 0
      modifies `cwnd, `cnt
      ensures var steered := old(State()).(cnt := old(cnt) + Spec.Change(old(State()), a.srtt));
        State() == Spec.SetCwnd(steered, a.state, a.clamp)
    {
      var inflation := Wrap32(a.srtt * Spec.SCALE) / minRttUs;
      var change: int := alpha;
      if inflation > Spec.SCALE + gamma {
        var cut: int := beta;
        change := -cut;
      }
      cnt := cnt + Max(Min(change, 1024), -512);
      SetCwnd(a.state, a.clamp);
    }

    /** The loss event cuts the window itself and returns it as the threshold. */
    method Ssthresh(clamp: u32) returns (threshold: u32)
      modifies `slowStartPassed, `priorCwnd, `cwnd
      ensures State() == Spec.Ssthresh(old(State()), clamp)
      ensures threshold == cwnd
    {
      if !slowStartPassed {
        slowStartPassed := true;
      }
      var target := Wrap32(delta * cwnd) / Spec.SCALE;
      priorCwnd := cwnd;
      target := Max(target, 2);
      cwnd := Min(target, clamp);
      threshold := cwnd;
    }

    method SetState(state: u8)
      modifies `prevState
      ensures State() == Spec.SetState(old(State()), state)
    {
      if state == Spec.CA_LOSS {
        prevState := Spec.CA_LOSS;
      }
    }

    method PktAcked(rttUs: int)
      requires rttUs < 0x8000_0000
      modifies `minRttUs
      ensures State() == Spec.PktAcked(old(State()), rttUs)
      ensures old(minRttUs) > 0 ==> minRttUs > 0
    {
      if rttUs < 0 {
        return;
      }
      var vrtt := rttUs + 1;
      if vrtt < minRttUs {
        minRttUs := vrtt;
      }
    }
  }
}
