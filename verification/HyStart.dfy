/** Hybrid slow start of src/tcp_scubic.c: leaving slow start early, at an ACK train as long
    as half the smallest round-trip time, or once the round's delays have risen. */
module HyStart {
  import opened Machine

  /** hystart_detect and hystart_ack_delta, in milliseconds. */
  datatype Detect = Detect(train: bool, delay: bool, ackDelta: nat)

  const MIN_SAMPLES: int := 8

  /** The fields of `struct bictcp` that hystart_update reads and writes; the two flags are
      the bits of `found`. */
  datatype Hy = Hy(trainFound: bool, delayFound: bool, samples: u8, currRtt: u32, lastAck: u32, roundStart: u32)

  /** bictcp_hystart_reset starts a round; what was found stays found. */
  function ResetRound(h: Hy, clock: u32): Hy {
    h.(roundStart := clock, lastAck := clock, currRtt := 0, samples := 0)
  }

  /** The part of bictcp_reset that concerns hybrid slow start: nothing is found. */
  function NothingFound(h: Hy): Hy { h.(trainFound := false, delayFound := false) }

  /** A full reset, and a new round where hybrid slow start is in use. */
  function AtStart(h: Hy, hystart: bool, clock: u32): Hy {
    if hystart then ResetRound(NothingFound(h), clock) else NothingFound(h)
  }

  /** HYSTART_DELAY_THRESH. */
  function Threshold(delayMin: u32): int { Min(Max(delayMin / 8, 32), 128) }

  predicate Exited(h: Hy, d: Detect) { (h.trainFound && d.train) || (h.delayFound && d.delay) }

  function TrainStep(h: Hy, d: Detect, clock: u32, delayMin: u32): Hy {
    if !d.train || Signed32(Wrap32(clock - h.lastAck)) > d.ackDelta then h
    else h.(lastAck := clock,
            trainFound := h.trainFound || Wrap32(clock - h.roundStart) > delayMin / 16)
  }

  function DelayStep(h: Hy, d: Detect, delay: u32, delayMin: u32): Hy {
    if !d.delay then h
    else if h.samples < MIN_SAMPLES then
      h.(samples := h.samples + 1,
         currRtt := if h.currRtt == 0 then delay else Min(h.currRtt, delay))
    else
      var least := Min(h.currRtt, delay);
      h.(currRtt := least,
         delayFound := h.delayFound || least > Wrap32(delayMin + Threshold(delayMin)))
  }

  /** hystart_update. */
  function Update(h: Hy, d: Detect, clock: u32, delay: u32, delayMin: u32): Hy {
    if Exited(h, d) then h else DelayStep(TrainStep(h, d, clock, delayMin), d, delay, delayMin)
  }

  /** The object itself, and whether the update set the threshold to the window. */
  class Detector {
    var trainFound: bool
    var delayFound: bool
    var samples: u8
    var currRtt: u32
    var lastAck: u32
    var roundStart: u32

    ghost function State(): Hy
      reads this
    {
      Hy(trainFound, delayFound, samples, currRtt, lastAck, roundStart)
    }

    constructor ()
      ensures State() == Hy(false, false, 0, 0, 0, 0)
    {
      trainFound, delayFound, samples, currRtt, lastAck, roundStart := false, false, 0, 0, 0, 0;
    }

    method ClearFound()
      modifies `trainFound, `delayFound
      ensures State() == NothingFound(old(State()))
    {
      trainFound, delayFound := false, false;
    }

    method Reset(clock: u32)
      modifies this
      ensures State() == ResetRound(old(State()), clock)
    {
      roundStart := clock;
      lastAck := clock;
      currRtt := 0;
      samples := 0;
    }

    /** The threshold is set exactly when this update is the one that ends slow start. */
    method OnDelay(d: Detect, clock: u32, delay: u32, delayMin: u32) returns (lowered: bool)
      modifies this
      ensures State() == Update(old(State()), d, clock, delay, delayMin)
      ensures !old(trainFound) && !old(delayFound) ==> lowered == Exited(State(), d)
      ensures old(Exited(State(), d)) ==> !lowered
      ensures lowered ==> Exited(State(), d)
    {
      lowered := false;
      if (trainFound && d.train) || (delayFound && d.delay) {
        return;
      }
      if d.train && Signed32(Wrap32(clock - lastAck)) <= d.ackDelta {
        lastAck := clock;
        if Wrap32(clock - roundStart) > delayMin / 16 {
          trainFound := true;
          lowered := true;
        }
      }
      if d.delay {
        if currRtt > delay {
          currRtt := delay;
        }
        if samples < MIN_SAMPLES {
          if currRtt == 0 || currRtt > delay {
            currRtt := delay;
          }
          samples := samples + 1;
        } else if currRtt > Wrap32(delayMin + Threshold(delayMin)) {
          delayFound := true;
          lowered := true;
        }
      }
    }
  }

  // ------------------------------------------------------------ one round

  /** An ACK of the round: milliseconds since the round began, its delay, and the smallest
      delay known by then. */
  datatype Ack = Ack(at: nat, delay: u32, delayMin: u32)

  /** A clock that does not run backwards, in a round of less than 2^31 milliseconds, and
      delays as bictcp_acked rounds them. */
  ghost predicate Round(acks: seq<Ack>) {
    && (forall i :: 0 <= i < |acks| ==> acks[i].at < TWO32 / 2 && acks[i].delay > 0 && acks[i].delayMin < TWO32 / 2)
    && (forall i, j :: 0 <= i < j < |acks| ==> acks[i].at <= acks[j].at)
  }

  /** A round that begins with a full reset, whatever the fields held before. */
  ghost function Run(h: Hy, d: Detect, start: u32, acks: seq<Ack>): Hy
    decreases |acks|
  {
    if acks == [] then AtStart(h, true, start)
    else
      var a := acks[|acks| - 1];
      Update(Run(h, d, start, acks[..|acks| - 1]), d, Wrap32(start + a.at), a.delay, a.delayMin)
  }

  /** A round that begins while nothing is found is no different. */
  lemma RoundsAreAlike(h: Hy, start: u32)
    requires !h.trainFound && !h.delayFound
    ensures ResetRound(h, start) == AtStart(h, true, start)
  {
  }

  /** The smallest delay of the round so far. */
  ghost predicate IsLeast(acks: seq<Ack>, least: int) {
    && (forall i :: 0 <= i < |acks| ==> least <= acks[i].delay)
    && (exists i :: 0 <= i < |acks| && acks[i].delay == least)
  }

  ghost function GapBefore(acks: seq<Ack>, i: nat): int
    requires i < |acks|
  {
    acks[i].at - if i == 0 then 0 else acks[i - 1].at
  }

  /** No two ACKs of the round, nor its start and the first, lie further apart than the
      allowed spacing. */
  ghost predicate Unbroken(d: Detect, acks: seq<Ack>) {
    forall i :: 0 <= i < |acks| ==> GapBefore(acks, i) <= d.ackDelta
  }

  /** The last ACK completes a train of more than a 16th of the minimum delay, which is in
      eighths of a millisecond: more than half the round-trip time. */
  ghost predicate TrainFires(d: Detect, acks: seq<Ack>)
    requires acks != []
  {
    d.train && Unbroken(d, acks) && acks[|acks| - 1].at > acks[|acks| - 1].delayMin / 16
  }

  /** A delay exceeds the minimum by more than an eighth of it, but by more than 4 ms in any
      case, and by more than 16 ms is always enough; all in eighths of a millisecond. */
  predicate IsHigh(delay: int, delayMin: int) {
    var excess := delay - delayMin;
    excess > 128 || (excess > 32 && 8 * excess > delayMin)
  }

  /** More than eight delays, and even the smallest is high. */
  ghost predicate DelayFires(d: Detect, acks: seq<Ack>)
    requires acks != []
  {
    var a := acks[|acks| - 1];
    d.delay && |acks| > MIN_SAMPLES
    && forall i :: 0 <= i < |acks| ==> IsHigh(acks[i].delay, a.delayMin)
  }

  ghost predicate Fires(d: Detect, acks: seq<Ack>)
    requires acks != []
  {
    TrainFires(d, acks) || DelayFires(d, acks)
  }

  // ------------------------------------------------------------ detection is exact

  ghost function Newest(acks: seq<Ack>): int { if acks == [] then 0 else acks[|acks| - 1].at }

  /** What the fields hold while nothing has been found: in last_ack the end of the train,
      which once broken stays more than the spacing behind. */
  ghost predicate TracksTrain(d: Detect, start: u32, acks: seq<Ack>, h: Hy, close: int) {
    && h.roundStart == start && h.lastAck == Wrap32(start + close) && 0 <= close <= Newest(acks)
    && (if Unbroken(d, acks) then close == Newest(acks) else Newest(acks) - close > d.ackDelta)
  }

  /** The number of delays up to eight, and their minimum. */
  ghost predicate TracksDelay(acks: seq<Ack>, h: Hy) {
    && h.samples == Min(|acks|, MIN_SAMPLES)
    && (if acks == [] then h.currRtt == 0 else IsLeast(acks, h.currRtt))
  }

  ghost predicate Tracks(d: Detect, start: u32, acks: seq<Ack>, h: Hy, close: int) {
    && !h.trainFound && !h.delayFound
    && (d.train ==> TracksTrain(d, start, acks, h, close))
    && (d.delay ==> TracksDelay(acks, h))
  }

  lemma Elapsed(start: u32, from: int, to: int)
    requires 0 <= from <= to < TWO32 / 2
    ensures Wrap32(Wrap32(start + to) - Wrap32(start + from)) == to - from
    ensures Signed32(Wrap32(Wrap32(start + to) - Wrap32(start + from))) == to - from
  {
    WrapSubtracts(Wrap32(start + to), start + from);
    WrapAdds(start + to, -(start + from));
  }

  lemma UnbrokenGrows(d: Detect, acks: seq<Ack>)
    requires acks != []
    ensures Unbroken(d, acks) <==>
      Unbroken(d, acks[..|acks| - 1]) && acks[|acks| - 1].at - Newest(acks[..|acks| - 1]) <= d.ackDelta
  {
    var n := |acks| - 1;
    assert GapBefore(acks, n) == acks[n].at - Newest(acks[..n]);
    assert forall i :: 0 <= i < n ==> GapBefore(acks[..n], i) == GapBefore(acks, i);
  }

  /** last_ack follows the train, and the train detection fires exactly at its ACKs past
      half the round-trip time. */
  lemma TrainTracks(d: Detect, start: u32, acks: seq<Ack>, h: Hy, close: int) returns (close': int)
    requires Round(acks) && acks != [] && d.train && !h.trainFound
    requires TracksTrain(d, start, acks[..|acks| - 1], h, close)
    ensures var a := acks[|acks| - 1]; var h' := TrainStep(h, d, Wrap32(start + a.at), a.delayMin);
      && (h'.trainFound <==> TrainFires(d, acks))
      && TracksTrain(d, start, acks, h', close')
  {
    var a := acks[|acks| - 1];
    Elapsed(start, close, a.at);
    FromStart(start, a.at);
    close' := TrainDecides(d, start, acks, h, close, Wrap32(start + a.at));
  }

  lemma TrainDecides(d: Detect, start: u32, acks: seq<Ack>, h: Hy, close: int, clock: u32) returns (close': int)
    requires Round(acks) && acks != [] && d.train && !h.trainFound
    requires TracksTrain(d, start, acks[..|acks| - 1], h, close)
    requires var at := acks[|acks| - 1].at;
      && clock == Wrap32(start + at) && Signed32(Wrap32(clock - h.lastAck)) == at - close
      && Wrap32(clock - h.roundStart) == at
    ensures var h' := TrainStep(h, d, clock, acks[|acks| - 1].delayMin);
      && (h'.trainFound <==> TrainFires(d, acks))
      && TracksTrain(d, start, acks, h', close')
  {
    UnbrokenGrows(d, acks);
    var at := acks[|acks| - 1].at;
    close' := if at - close <= d.ackDelta then at else close;
  }

  lemma FromStart(start: u32, to: int)
    requires 0 <= to < TWO32 / 2
    ensures Wrap32(Wrap32(start + to) - start) == to
  {
    Elapsed(start, 0, to);
    WrapId(start);
  }

  lemma LeastGrows(acks: seq<Ack>, least: int)
    requires acks != [] && (|acks| > 1 ==> IsLeast(acks[..|acks| - 1], least))
    ensures IsLeast(acks, if |acks| == 1 then acks[0].delay else Min(least, acks[|acks| - 1].delay))
  {
    var n := |acks| - 1;
    if n > 0 {
      var i :| 0 <= i < n && acks[..n][i].delay == least;
      assert acks[i].delay == least;
      forall j | 0 <= j < |acks| ensures Min(least, acks[n].delay) <= acks[j].delay {
        if j < n {
          assert acks[..n][j] == acks[j];
        }
      }
    }
  }

  lemma HighMeans(delay: int, delayMin: u32)
    ensures IsHigh(delay, delayMin) <==> delay > delayMin + Threshold(delayMin)
  {
  }

  lemma AllHigh(acks: seq<Ack>, least: int, delayMin: u32)
    requires IsLeast(acks, least)
    ensures IsHigh(least, delayMin) <==> forall i :: 0 <= i < |acks| ==> IsHigh(acks[i].delay, delayMin)
  {
    var i :| 0 <= i < |acks| && acks[i].delay == least;
    HighMeans(least, delayMin);
    forall j | 0 <= j < |acks| ensures IsHigh(least, delayMin) ==> IsHigh(acks[j].delay, delayMin) {
      HighMeans(acks[j].delay, delayMin);
    }
  }

  /** curr_rtt is the minimum, and the delay detection fires exactly when that is high. */
  lemma DelayTracks(d: Detect, acks: seq<Ack>, h: Hy)
    requires Round(acks) && acks != [] && d.delay && !h.delayFound
    requires TracksDelay(acks[..|acks| - 1], h)
    ensures var a := acks[|acks| - 1]; var h' := DelayStep(h, d, a.delay, a.delayMin);
      && (h'.delayFound <==> DelayFires(d, acks))
      && TracksDelay(acks, h')
  {
    var a := acks[|acks| - 1];
    var least := if |acks| == 1 then a.delay else Min(h.currRtt, a.delay);
    LeastGrows(acks, h.currRtt);
    WrapId(a.delayMin + Threshold(a.delayMin));
    AllHigh(acks, least, a.delayMin);
    HighMeans(least, a.delayMin);
    if |acks| > 1 {
      var i :| 0 <= i < |acks| - 1 && acks[..|acks| - 1][i].delay == h.currRtt;
      assert acks[i].delay > 0;
    }
  }

  /** The two detections do not touch each other's fields. */
  lemma StepsApart(d: Detect, start: u32, acks: seq<Ack>, h: Hy, close: int, clock: u32, delay: u32, delayMin: u32)
    ensures var h' := TrainStep(h, d, clock, delayMin);
      && (TracksDelay(acks, h') <==> TracksDelay(acks, h)) && h'.delayFound == h.delayFound
      && (!d.train ==> h' == h)
    ensures var h' := DelayStep(h, d, delay, delayMin);
      && (TracksTrain(d, start, acks, h', close) <==> TracksTrain(d, start, acks, h, close))
      && h'.trainFound == h.trainFound && (!d.delay ==> h' == h)
  {
  }

  lemma StepTracks(d: Detect, start: u32, acks: seq<Ack>, h: Hy, close: int) returns (close': int)
    requires Round(acks) && acks != [] && Tracks(d, start, acks[..|acks| - 1], h, close)
    ensures var a := acks[|acks| - 1]; var h' := Update(h, d, Wrap32(start + a.at), a.delay, a.delayMin);
      && (Exited(h', d) <==> Fires(d, acks))
      && (!Fires(d, acks) ==> Tracks(d, start, acks, h', close'))
  {
    var a, before := acks[|acks| - 1], acks[..|acks| - 1];
    var clock := Wrap32(start + a.at);
    var mid := TrainStep(h, d, clock, a.delayMin);
    close' := close;
    if d.train {
      close' := TrainTracks(d, start, acks, h, close);
    }
    StepsApart(d, start, before, h, close, clock, a.delay, a.delayMin);
    StepsApart(d, start, acks, mid, close', clock, a.delay, a.delayMin);
    if d.delay {
      DelayTracks(d, acks, mid);
    }
  }

  /** Over every round, slow start has been left exactly if some ACK so far completed a
      long enough train or came after eight raised delays. Until then the fields track the
      round. */
  lemma {:induction false} ExitsExactly(h: Hy, d: Detect, start: u32, acks: seq<Ack>) returns (close: int)
    requires Round(acks)
    ensures Exited(Run(h, d, start, acks), d) <==> exists n :: 0 < n <= |acks| && Fires(d, acks[..n])
    ensures !Exited(Run(h, d, start, acks), d) ==> Tracks(d, start, acks, Run(h, d, start, acks), close)
    decreases |acks|
  {
    if acks == [] {
      close := 0;
    } else {
      var before := acks[..|acks| - 1];
      close := ExitsExactly(h, d, start, before);
      assert acks[..|acks|] == acks;
      assert forall n :: 0 < n <= |before| ==> before[..n] == acks[..n];
      if !Exited(Run(h, d, start, before), d) {
        close := StepTracks(d, start, acks, Run(h, d, start, before), close);
      }
    }
  }

  // ------------------------------------------------------------ rounds and resets

  /** What reaches the detector over the life of a flow. */
  datatype Event =
    | Sample(clock: u32, delay: u32, delayMin: u32)
    | NewRound(clock: u32)
    | FullReset(clock: u32)

  function Step(h: Hy, d: Detect, e: Event): Hy {
    match e
    case Sample(clock, delay, delayMin) => Update(h, d, clock, delay, delayMin)
    case NewRound(clock) => ResetRound(h, clock)
    case FullReset(clock) => AtStart(h, true, clock)
  }

  function Life(h: Hy, d: Detect, es: seq<Event>): Hy
    decreases |es|
  {
    if es == [] then h else Step(Life(h, d, es[..|es| - 1]), d, es[|es| - 1])
  }

  /** How often slow start was ended, and the threshold set to the window. */
  function Lowered(h: Hy, d: Detect, es: seq<Event>): nat
    decreases |es|
  {
    if es == [] then 0
    else
      var before := Life(h, d, es[..|es| - 1]);
      Lowered(h, d, es[..|es| - 1])
        + if !Exited(before, d) && Exited(Step(before, d, es[|es| - 1]), d) then 1 else 0
  }

  function Resets(es: seq<Event>): nat {
    if es == [] then 0 else Resets(es[..|es| - 1]) + if es[|es| - 1].FullReset? then 1 else 0
  }

  /** Over every life of a flow, through any number of rounds, slow start is ended at most
      once between two full resets: what was found stays found until the next one. */
  lemma {:induction false} LoweredOncePerReset(h: Hy, d: Detect, es: seq<Event>)
    requires !Exited(h, d)
    ensures Lowered(h, d, es) <= 1 + Resets(es)
    ensures !Exited(Life(h, d, es), d) ==> Lowered(h, d, es) <= Resets(es)
    decreases |es|
  {
    if es != [] {
      LoweredOncePerReset(h, d, es[..|es| - 1]);
    }
  }

  /** Until a full reset nothing but the round moves: whatever samples follow, the flags and
      everything a sample writes stay as they were when slow start ended. */
  lemma {:induction false} FoundStays(h: Hy, d: Detect, es: seq<Event>)
    requires Exited(h, d) && Resets(es) == 0
    ensures Exited(Life(h, d, es), d) && Lowered(h, d, es) == 0
    ensures Life(h, d, es).trainFound == h.trainFound && Life(h, d, es).delayFound == h.delayFound
    ensures (forall i :: 0 <= i < |es| ==> es[i].Sample?) ==> Life(h, d, es) == h
    decreases |es|
  {
    if es != [] {
      FoundStays(h, d, es[..|es| - 1]);
    }
  }
}
