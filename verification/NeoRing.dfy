/** The twenty-slot ring of src/tcp_neo.c as a value, and the class whose fields every ACK
    updates in place. NeoRefinement.dfy relates the ring to the log of NeoLog. */
module NeoRing {
  import opened Machine
  import opened NeoLog

  /** The slots, the two cursors and the counters of `struct neo_data`. */
  datatype Ring = Ring(
    slots: seq<Interval>, send: u32, recv: u32,
    counted: u32, lostBase: u32, deliveredBase: u32, doubleCounted: u32, firstCircle: bool)

  predicate Shaped(ring: Ring) { |ring.slots| == SLOTS && ring.send < SLOTS && ring.recv < SLOTS }

  function NextIndex(index: u32): u32 { if index < SLOTS - 1 then index + 1 else 0 }

  function PreviousIndex(index: u32): u32 { if index > 0 then index - 1 else SLOTS - 1 }

  // ------------------------------------------------------------ one ACK

  /** start_interval. */
  function StartAt(ring: Ring, sock: Sock): (out: Ring)
    requires Shaped(ring)
    ensures Shaped(out)
  {
    ring.(slots := ring.slots[ring.send := Started(ring.slots[ring.send], sock)])
  }

  /** start_next_send_interval: where the next slot is still receiving, the cursor has
      moved but nothing is started. */
  function StartNext(ring: Ring, sock: Sock): (out: Ring)
    requires Shaped(ring)
    ensures Shaped(out)
  {
    var moved := ring.(send := NextIndex(ring.send));
    if moved.send == moved.recv then moved else StartAt(moved, sock)
  }

  /** The first half of neo_process. */
  function SendStep(ring: Ring, sock: Sock): (out: Ring)
    requires Shaped(ring)
    ensures Shaped(out)
  {
    var i := ring.slots[ring.send];
    if SendEnds(i, sock) then StartNext(ring.(slots := ring.slots[ring.send := Closed(i, sock)]), sock)
    else ring
  }

  /** The slots are exhausted: the ACK closes an interval and finds no slot for the next. */
  predicate OutOfSlots(ring: Ring, sock: Sock)
    requires Shaped(ring)
  {
    SendEnds(ring.slots[ring.send], sock) && NextIndex(ring.send) == ring.recv
  }

  /** neo_update_interval. */
  function Update(ring: Ring, i: Interval, sock: Sock): Interval {
    i.(recvEnd := sock.mstamp, endRtt := sock.rtt,
       lost := Wrap32(i.lost + Wrap32(sock.lost - ring.lostBase)),
       delivered := Wrap32(i.delivered + Wrap32(sock.delivered - ring.deliveredBase)))
  }

  function CreditStep(ring: Ring, sock: Sock): (out: Ring)
    requires Shaped(ring)
    ensures Shaped(out)
  {
    var i := ring.slots[ring.recv];
    ring.(counted := Wrap32(sock.delivered + sock.lost - ring.doubleCounted),
          slots := if Credits(i, ring.counted) then ring.slots[ring.recv := Update(ring, i, sock)]
                   else ring.slots)
  }

  function AdvanceStep(ring: Ring, sock: Sock): (out: Ring)
    requires Shaped(ring)
    ensures Shaped(out)
  {
    if !ReceiveEnds(ring.slots[ring.recv], ring.counted) then ring
    else
      var next := NextIndex(ring.recv);
      ring.(recv := next, slots := ring.slots[next := Receiving(ring.slots[next], sock)],
            firstCircle := ring.firstCircle && next != 0)
  }

  /** neo_process. */
  function ProcessStep(ring: Ring, sock: Sock): (out: Ring)
    requires Shaped(ring)
    ensures Shaped(out)
  {
    AdvanceStep(CreditStep(SendStep(ring, sock), sock), sock)
  }

  /** neo_cong_control, up to the call into the control path. */
  function AckStep(ring: Ring, sock: Sock, sampled: bool): (out: Ring)
    requires Shaped(ring)
    ensures Shaped(out)
  {
    (if sampled then ProcessStep(ring, sock) else ring).(lostBase := sock.lost, deliveredBase := sock.delivered)
  }

  /** neo_set_state for a timeout. */
  function TimeoutStep(ring: Ring, sock: Sock, inFlight: u32): Ring {
    var extra := Wrap32(Wrap32(Wrap32(sock.delivered + sock.lost + inFlight) - sock.segsOut)
                        - ring.doubleCounted);
    ring.(doubleCounted := Wrap32(ring.doubleCounted + extra))
  }

  /** What neo_init leaves; the counters it does not touch are arbitrary. */
  function AtStart(counted: u32, lostBase: u32, deliveredBase: u32, sock: Sock): Ring {
    Ring(seq(SLOTS, _ => BLANK)[0 := Started(BLANK, sock)], 0, 0, counted, lostBase, deliveredBase, 0, true)
  }

  // ------------------------------------------------------------ what is reported

  /** The ten values of a report, from two intervals. */
  function Report(last: Interval, before: Interval): seq<u64> {
    [last.delivered, before.delivered, last.lost, before.lost,
     Wrap32(last.ended - last.sentBase), Wrap32(before.ended - before.sentBase),
     last.endRtt, last.startRtt,
     Wrap64(last.recvEnd - last.recvStart), Wrap64(before.recvEnd - before.recvStart)]
  }

  const NO_REPORT: seq<u64> := [0, 0, 0, 0, 0, 0, 0, 0, 0, 0]

  /** neo_fetch_measurements. */
  function Fetch(ring: Ring): seq<u64>
    requires Shaped(ring)
  {
    if ring.firstCircle && ring.recv < 2 then NO_REPORT
    else
      var last := PreviousIndex(ring.recv);
      Report(ring.slots[last], ring.slots[PreviousIndex(last)])
  }

  // ------------------------------------------------------------ in place

  class Neo {
    const intervals: array<Interval>
    var sendIndex: u32
    var receiveIndex: u32
    var packetsCounted: u32
    var lostBase: u32
    var deliveredBase: u32
    var doubleCounted: u32
    var firstCircle: bool

    ghost function State(): Ring
      reads this, intervals
    {
      Ring(intervals[..], sendIndex, receiveIndex, packetsCounted, lostBase, deliveredBase,
           doubleCounted, firstCircle)
    }

    ghost predicate Valid()
      reads this, intervals
    {
      Shaped(State())
    }

    /** neo_init: kzalloc clears the slots and the first interval is started. */
    constructor (counted: u32, lostBase: u32, deliveredBase: u32, sock: Sock)
      ensures Valid() && fresh(intervals)
      ensures State() == AtStart(counted, lostBase, deliveredBase, sock)
    {
      intervals := new Interval[SLOTS](_ => BLANK);
      sendIndex, receiveIndex := 0, 0;
      packetsCounted, this.lostBase, this.deliveredBase := counted, lostBase, deliveredBase;
      doubleCounted, firstCircle := 0, true;
      new;
      intervals[0] := Started(intervals[0], sock);
    }

    method StartInterval(sock: Sock)
      requires Valid()
      modifies intervals
      ensures State() == StartAt(old(State()), sock)
    {
      var i := intervals[sendIndex];
      intervals[sendIndex] := i.(ended := 0, lost := 0, delivered := 0,
        sentBase := Max(sock.segsOut, 1), sendStart := sock.mstamp);
    }

    method StartNextSendInterval(sock: Sock)
      requires Valid()
      modifies `sendIndex, intervals
      ensures Valid() && State() == StartNext(old(State()), sock)
    {
      sendIndex := NextIndex(sendIndex);
      if sendIndex == receiveIndex {
        return;
      }
      StartInterval(sock);
    }

    method CloseIfOver(sock: Sock)
      requires Valid()
      modifies `sendIndex, intervals
      ensures Valid() && State() == SendStep(old(State()), sock)
    {
      var i := intervals[sendIndex];
      if Wrap64(sock.mstamp - i.sendStart) >= MONITOR_INTERVAL {
        intervals[sendIndex] := i.(ended := sock.segsOut, sendEnd := sock.mstamp);
        StartNextSendInterval(sock);
      }
    }

    method UpdateInterval(index: u32, sock: Sock)
      requires Valid() && index < SLOTS
      modifies intervals
      ensures intervals[..] == old(intervals[..])[index := Update(old(State()), old(intervals[index]), sock)]
    {
      var i := intervals[index];
      intervals[index] := i.(recvEnd := sock.mstamp, endRtt := sock.rtt,
        lost := Wrap32(i.lost + Wrap32(sock.lost - lostBase)),
        delivered := Wrap32(i.delivered + Wrap32(sock.delivered - deliveredBase)));
    }

    method Credit(sock: Sock)
      requires Valid()
      modifies `packetsCounted, intervals
      ensures Valid() && State() == CreditStep(old(State()), sock)
    {
      var i := intervals[receiveIndex];
      var before := packetsCounted;
      packetsCounted := Wrap32(sock.delivered + sock.lost - doubleCounted);
      if before > Wrap32(IGNORE_PACKETS + i.sentBase) {
        UpdateInterval(receiveIndex, sock);
      }
    }

    method Advance(sock: Sock)
      requires Valid()
      modifies `receiveIndex, `firstCircle, intervals
      ensures Valid() && State() == AdvanceStep(old(State()), sock)
    {
      var i := intervals[receiveIndex];
      if i.ended != 0 && i.ended - IGNORE_PACKETS < packetsCounted {
        receiveIndex := NextIndex(receiveIndex);
        i := intervals[receiveIndex];
        intervals[receiveIndex] := i.(recvStart := sock.mstamp, startRtt := sock.rtt);
        if receiveIndex == 0 {
          firstCircle := false;
        }
      }
    }

    /** neo_cong_control, for every state of the ring, exhausted or not. */
    method CongControl(sock: Sock, sampled: bool)
      requires Valid()
      modifies this, intervals
      ensures Valid() && State() == AckStep(old(State()), sock, sampled)
    {
      if sampled {
        CloseIfOver(sock);
        Credit(sock);
        Advance(sock);
      }
      lostBase := sock.lost;
      deliveredBase := sock.delivered;
    }

    method SetLossState(sock: Sock, inFlight: u32)
      modifies `doubleCounted
      ensures State() == TimeoutStep(old(State()), sock, inFlight)
    {
      var extra := Wrap32(sock.delivered + sock.lost + inFlight);
      extra := Wrap32(extra - sock.segsOut);
      extra := Wrap32(extra - doubleCounted);
      doubleCounted := Wrap32(doubleCounted + extra);
    }

    method FetchMeasurements() returns (measurements: seq<u64>)
      requires Valid()
      ensures measurements == Fetch(State())
    {
      if firstCircle && receiveIndex < 2 {
        return NO_REPORT;
      }
      var last := PreviousIndex(receiveIndex);
      var before := PreviousIndex(last);
      return Report(intervals[last], intervals[before]);
    }
  }
}
