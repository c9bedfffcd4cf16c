/** The ring refines the log: as long as the slots of src/tcp_neo.c are not exhausted, the
    ring after every run holds exactly the newest twenty intervals of the unbounded log. */
module NeoRefinement {
  import opened Machine
  import opened NeoLog
  import opened NeoRing
  import NeoRuns

  /** Every slot holds the newest log entry that belongs there, or is blank. */
  ghost predicate Holds(slots: seq<Interval>, log: seq<Interval>) {
    && |slots| == SLOTS
    && (forall i :: 0 <= i < |log| && |log| <= i + SLOTS ==> slots[i % SLOTS] == log[i])
    && (forall i :: |log| <= i < SLOTS ==> slots[i] == BLANK)
  }

  /** The ring stands for the log. */
  ghost predicate Stands(ring: Ring, m: Model) {
    && Valid(m) && Shaped(ring) && Holds(ring.slots, m.log)
    && ring.send == (|m.log| - 1) % SLOTS && ring.recv == m.r % SLOTS
    && ring.firstCircle == (m.r < SLOTS)
    && ring.counted == m.counted && ring.doubleCounted == m.doubleCounted
    && ring.lostBase == m.lostBase && ring.deliveredBase == m.deliveredBase
  }

  // ------------------------------------------------------------ slots

  lemma SlotsDiffer(i: int, j: int)
    requires 0 < i - j < SLOTS
    ensures i % SLOTS != j % SLOTS
  {
  }

  /** Two log entries the ring still holds never share a slot. */
  lemma HeldSlotsDiffer(n: nat, j: int)
    requires 0 <= j < n <= j + SLOTS
    ensures forall i :: 0 <= i < n && n <= i + SLOTS && i != j ==> i % SLOTS != j % SLOTS
  {
    forall i | 0 <= i < n && n <= i + SLOTS && i != j ensures i % SLOTS != j % SLOTS {
      SlotsDiffer(Max(i, j), Min(i, j));
    }
  }

  lemma NextSlot(i: nat)
    ensures NextIndex(i % SLOTS) == (i + 1) % SLOTS
    ensures i > 0 ==> PreviousIndex(i % SLOTS) == (i - 1) % SLOTS
  {
    var q, r := i / SLOTS, i % SLOTS;
    if r < SLOTS - 1 {
      RemainderIs(i + 1, SLOTS, q, r + 1);
    } else {
      RemainderIs(i + 1, SLOTS, q + 1, 0);
    }
    if r > 0 {
      RemainderIs(i - 1, SLOTS, q, r - 1);
    } else if i > 0 {
      RemainderIs(i - 1, SLOTS, q - 1, SLOTS - 1);
    }
  }

  /** The cursor returns to slot 0 exactly when it has gone round the ring. */
  lemma NextReceiver(r: nat)
    ensures NextIndex(r % SLOTS) == (r + 1) % SLOTS
    ensures (r < SLOTS && (r + 1) % SLOTS != 0) <==> r + 1 < SLOTS
  {
    NextSlot(r);
  }

  lemma PreviousHolder(n: nat)
    ensures n >= SLOTS ==> (n - SLOTS) % SLOTS == n % SLOTS
    ensures n < SLOTS ==> n % SLOTS == n
  {
  }

  /** Writing the slot of an entry the ring still holds writes that entry. */
  lemma PutHolds(slots: seq<Interval>, log: seq<Interval>, j: int, v: Interval)
    requires Holds(slots, log) && 0 <= j < |log| <= j + SLOTS
    ensures slots[j % SLOTS] == log[j]
    ensures Holds(slots[j % SLOTS := v], log[j := v])
  {
    HeldSlotsDiffer(|log|, j);
  }

  /** Starting the slot after the newest entry appends to the log. */
  lemma AppendHolds(slots: seq<Interval>, log: seq<Interval>, v: Interval)
    requires Holds(slots, log)
    ensures slots[|log| % SLOTS] == Previous(log)
    ensures Holds(slots[|log| % SLOTS := v], log + [v])
  {
    PreviousHolder(|log|);
    HeldSlotsDiffer(|log| + 1, |log|);
  }

  // ------------------------------------------------------------ one ACK

  lemma StartStands(counted: u32, lostBase: u32, deliveredBase: u32, sock: Sock)
    ensures Stands(AtStart(counted, lostBase, deliveredBase, sock), Init(counted, lostBase, deliveredBase, sock))
  {
  }

  /** The ring runs out of slots exactly where the log is twenty ahead of the receiver. */
  lemma OutOfSlotsExactly(ring: Ring, m: Model, sock: Sock)
    requires Stands(ring, m)
    ensures OutOfSlots(ring, sock) <==> Exhausts(m, sock)
  {
    var n := |m.log|;
    PutHolds(ring.slots, m.log, n - 1, m.log[n - 1]);
    NextSlot(n - 1);
    if n < m.r + SLOTS {
      SlotsDiffer(n, m.r);
    }
  }

  lemma SendStands(ring: Ring, m: Model, sock: Sock)
    requires Stands(ring, m) && !Exhausts(m, sock)
    ensures Stands(SendStep(ring, sock), SendSide(m, sock))
  {
    var s := |m.log| - 1;
    OutOfSlotsExactly(ring, m, sock);
    PutHolds(ring.slots, m.log, s, Closed(m.log[s], sock));
    if SendEnds(m.log[s], sock) {
      var slots, closed := ring.slots[ring.send := Closed(m.log[s], sock)], m.log[s := Closed(m.log[s], sock)];
      AppendHolds(slots, closed, Started(Previous(closed), sock));
      NextSlot(s);
    }
  }

  /** Rewriting the interval receiving, its end apart, on both sides. */
  lemma ReceiverStands(ring: Ring, m: Model, counted: u32, v: Interval)
    requires Stands(ring, m) && v.ended == m.log[m.r].ended
    ensures ring.slots[ring.recv] == m.log[m.r]
    ensures Stands(ring.(counted := counted, slots := ring.slots[ring.recv := v]),
                   m.(counted := counted, log := m.log[m.r := v]))
  {
    PutHolds(ring.slots, m.log, m.r, v);
  }

  lemma UpdateIsCredited(ring: Ring, m: Model, i: Interval, sock: Sock)
    requires ring.lostBase == m.lostBase && ring.deliveredBase == m.deliveredBase
    ensures Update(ring, i, sock) == Credited(i, m, sock)
  {
  }

  lemma CreditStands(ring: Ring, m: Model, sock: Sock)
    requires Stands(ring, m)
    ensures Stands(CreditStep(ring, sock), CreditSide(m, sock))
  {
    var i, counted := m.log[m.r], Wrap32(sock.delivered + sock.lost - m.doubleCounted);
    ReceiverStands(ring, m, counted, i);
    if Credits(i, m.counted) {
      UpdateIsCredited(ring, m, i, sock);
      ReceiverStands(ring, m, counted, Credited(i, m, sock));
    } else {
      assert ring.slots[ring.recv := i] == ring.slots && m.log[m.r := i] == m.log;
    }
  }

  lemma AdvanceStands(ring: Ring, m: Model, sock: Sock)
    requires Stands(ring, m)
    ensures Stands(AdvanceStep(ring, sock), AdvanceSide(m, sock))
  {
    PutHolds(ring.slots, m.log, m.r, m.log[m.r]);
    if ReceiveEnds(m.log[m.r], m.counted) {
      NextReceiver(m.r);
      PutHolds(ring.slots, m.log, m.r + 1, Receiving(m.log[m.r + 1], sock));
    }
  }

  /** An ACK on the ring is the ACK on the log, unless it exhausts the slots. */
  lemma AckRefines(ring: Ring, m: Model, sock: Sock, sampled: bool)
    requires Stands(ring, m) && !(sampled && Exhausts(m, sock))
    ensures Stands(AckStep(ring, sock, sampled), Ack(m, sock, sampled))
  {
    if sampled {
      SendStands(ring, m, sock);
      var sent, sentLog := SendStep(ring, sock), SendSide(m, sock);
      CreditStands(sent, sentLog, sock);
      AdvanceStands(CreditStep(sent, sock), CreditSide(sentLog, sock), sock);
    }
  }

  // ------------------------------------------------------------ whole runs

  function RingNext(ring: Ring, e: NeoRuns.Event): (out: Ring)
    requires Shaped(ring)
    ensures Shaped(out)
  {
    match e
    case AckEvent(sock, sampled) => AckStep(ring, sock, sampled)
    case TimeoutEvent(sock, inFlight) => TimeoutStep(ring, sock, inFlight)
  }

  function RingRun(start: NeoRuns.Start, es: seq<NeoRuns.Event>): (ring: Ring)
    ensures Shaped(ring)
    decreases |es|
  {
    if es == [] then AtStart(start.counted, start.lostBase, start.deliveredBase, start.sock)
    else RingNext(RingRun(start, es[..|es| - 1]), es[|es| - 1])
  }

  lemma NextRefines(ring: Ring, r: NeoRuns.RunResult, e: NeoRuns.Event)
    requires r.Running? && Stands(ring, r.m) && NeoRuns.Next(r, e).Running?
    ensures Stands(RingNext(ring, e), NeoRuns.Next(r, e).m)
  {
    if e.AckEvent? {
      AckRefines(ring, r.m, e.sock, e.sampled);
    }
  }

  /** Over every run that does not exhaust the slots the ring stands for the log. */
  lemma {:induction false} RunRefines(start: NeoRuns.Start, es: seq<NeoRuns.Event>)
    requires NeoRuns.Run(start, es).Running?
    ensures Stands(RingRun(start, es), NeoRuns.Run(start, es).m)
    decreases |es|
  {
    if es == [] {
      StartStands(start.counted, start.lostBase, start.deliveredBase, start.sock);
    } else {
      RunRefines(start, es[..|es| - 1]);
      NextRefines(RingRun(start, es[..|es| - 1]), NeoRuns.Run(start, es[..|es| - 1]), es[|es| - 1]);
    }
  }

  // ------------------------------------------------------------ what is reported

  /** The log position whose interval a reader finds where position i belongs: the slot
      may have been started again since. */
  function Holder(n: nat, i: int): int { if i + SLOTS < n then i + SLOTS else i }

  /** The reader finds the two most recently completed intervals exactly while the sender
      is at most 17 intervals ahead of the receiver. */
  lemma FreshExactly(n: nat, r: nat)
    requires 2 <= r < n <= r + SLOTS
    ensures (Holder(n, r - 1) == r - 1 && Holder(n, r - 2) == r - 2) <==> n - 1 - r <= 17
    ensures n - 1 - r == 18 ==> Holder(n, r - 2) == n - 1
  {
  }

  lemma HolderSlot(n: nat, i: int)
    requires 0 <= i < n <= i + 2 * SLOTS
    ensures Holder(n, i) % SLOTS == i % SLOTS
    ensures 0 <= Holder(n, i) < n <= Holder(n, i) + SLOTS
  {
  }

  /** What a slot shows of a completed interval. */
  lemma SlotShows(slots: seq<Interval>, log: seq<Interval>, i: nat)
    requires Holds(slots, log) && i < |log| <= i + 2 * SLOTS
    ensures 0 <= Holder(|log|, i) < |log|
    ensures slots[i % SLOTS] == log[Holder(|log|, i)]
  {
    HolderSlot(|log|, i);
    PutHolds(slots, log, Holder(|log|, i), log[Holder(|log|, i)]);
  }

  /** The two intervals neo_fetch_measurements reads once two have completed: the last two
      completed ones, or the newer intervals that have taken over their slots. */
  lemma FetchReads(ring: Ring, m: Model)
    requires Stands(ring, m) && m.r >= 2
    ensures 0 <= Holder(|m.log|, m.r - 1) < |m.log| && 0 <= Holder(|m.log|, m.r - 2) < |m.log|
    ensures var last := PreviousIndex(ring.recv);
      && ring.slots[last] == m.log[Holder(|m.log|, m.r - 1)]
      && ring.slots[PreviousIndex(last)] == m.log[Holder(|m.log|, m.r - 2)]
  {
    BackTwo(m.r);
    SlotShows(ring.slots, m.log, m.r - 1);
    SlotShows(ring.slots, m.log, m.r - 2);
  }

  lemma BackTwo(r: nat)
    requires r >= 2
    ensures PreviousIndex(r % SLOTS) == (r - 1) % SLOTS
    ensures PreviousIndex((r - 1) % SLOTS) == (r - 2) % SLOTS
    ensures !(r < SLOTS && r % SLOTS < 2)
  {
    NextSlot(r);
    NextSlot(r - 1);
  }

  /** neo_fetch_measurements reports zeros while fewer than two intervals have completed,
      and otherwise those two. */
  lemma FetchReports(ring: Ring, m: Model)
    requires Stands(ring, m)
    ensures m.r < 2 ==> Fetch(ring) == NO_REPORT
    ensures m.r >= 2 ==> 0 <= Holder(|m.log|, m.r - 1) < |m.log| && 0 <= Holder(|m.log|, m.r - 2) < |m.log|
    ensures m.r >= 2 ==> Fetch(ring) == Report(m.log[Holder(|m.log|, m.r - 1)], m.log[Holder(|m.log|, m.r - 2)])
  {
    if m.r >= 2 {
      BackTwo(m.r);
      FetchReads(ring, m);
    }
  }

  // ------------------------------------------------------------ after exhaustion

  /** Where an ACK exhausts the slots the send cursor is left on the slot still receiving,
      and unless that slot is accounted for with this very ACK it stays there. */
  lemma ExhaustionCollides(ring: Ring, m: Model, sock: Sock)
    requires Stands(ring, m) && Exhausts(m, sock)
    ensures var sent := SendStep(ring, sock);
      && sent.send == sent.recv == m.r % SLOTS
      && sent.slots[sent.recv] == m.log[m.r]
    ensures var after := AckStep(ring, sock, true);
      after.send == m.r % SLOTS && (after.recv == after.send || after.recv == (m.r + 1) % SLOTS)
  {
    OutOfSlotsExactly(ring, m, sock);
    var s := |m.log| - 1;
    PutHolds(ring.slots, m.log, s, Closed(m.log[s], sock));
    PutHolds(ring.slots, m.log, m.r, m.log[m.r]);
    HeldSlotsDiffer(|m.log|, s);
    NextSlot(m.r);
  }

  /** Then the ring stands for no log any more: the next ACK takes the interval still
      receiving for the one being sent, and as soon as that one's time has run, which began
      twenty intervals ago, it closes it a second time, with the segments sent until now. */
  lemma ExhaustionOverwrites(ring: Ring, m: Model, sock: Sock, next: Sock)
    requires Stands(ring, m) && Exhausts(m, sock)
    requires AckStep(ring, sock, true).recv == m.r % SLOTS
    requires SendEnds(m.log[m.r], next)
    ensures var out := SendStep(AckStep(ring, sock, true), next);
      && out.slots[m.r % SLOTS].ended == next.segsOut
      && out.slots[m.r % SLOTS].sentBase == m.log[m.r].sentBase
      && out.send == (m.r + 1) % SLOTS
  {
    ExhaustionCollides(ring, m, sock);
    NextSlot(m.r);
  }

  // ------------------------------------------------------------ how long a stall lasts

  /** The ring's receive cursor stands before an interval whose packets_ended is 0. */
  predicate Waits(ring: Ring, recv: u32)
    requires Shaped(ring)
  {
    ring.recv == recv && ring.slots[ring.recv].ended == 0
  }

  /** The event closes the interval receiving, which it takes for the one being sent, with a
      positive count of segments. */
  predicate ClosesReceiver(ring: Ring, e: NeoRuns.Event)
    requires Shaped(ring)
  {
    && e.AckEvent? && e.sampled && ring.send == ring.recv
    && SendEnds(ring.slots[ring.recv], e.sock) && e.sock.segsOut != 0
  }

  /** Every other event leaves the cursor before that interval, still open. */
  lemma OtherEventsWait(ring: Ring, e: NeoRuns.Event)
    requires Shaped(ring) && Waits(ring, ring.recv)
    ensures Waits(RingNext(ring, e), ring.recv) <==> !ClosesReceiver(ring, e)
  {
    if e.AckEvent? && e.sampled {
      SendStepOnReceiver(ring, e.sock);
      ReceiveHalf(SendStep(ring, e.sock), e.sock);
    }
  }

  /** What the first half of neo_process makes of the slot receiving. */
  lemma SendStepOnReceiver(ring: Ring, sock: Sock)
    requires Shaped(ring) && ring.slots[ring.recv].ended == 0
    ensures var sent := SendStep(ring, sock);
      && sent.recv == ring.recv
      && sent.slots[sent.recv].ended
         == if ring.send == ring.recv && SendEnds(ring.slots[ring.recv], sock) then sock.segsOut else 0
  {
  }

  /** The second half moves on exactly from an interval that is closed and accounted for,
      and never reopens one. */
  lemma ReceiveHalf(ring: Ring, sock: Sock)
    requires Shaped(ring)
    ensures var i := ring.slots[ring.recv];
      var counted := Wrap32(sock.delivered + sock.lost - ring.doubleCounted);
      var out := AdvanceStep(CreditStep(ring, sock), sock);
      && out.recv == (if ReceiveEnds(i, counted) then NextIndex(ring.recv) else ring.recv)
      && out.slots[ring.recv].ended == i.ended
  {
  }

  /** At every moment of the events so far the ring was waiting there. */
  ghost predicate AlwaysWaits(start: NeoRuns.Start, es: seq<NeoRuns.Event>, more: seq<NeoRuns.Event>, recv: u32)
    decreases |more|
  {
    && Waits(RingRun(start, es + more), recv)
    && (more == [] || AlwaysWaits(start, es, more[..|more| - 1], recv))
  }

  ghost predicate NeverCloses(start: NeoRuns.Start, es: seq<NeoRuns.Event>, more: seq<NeoRuns.Event>)
    decreases |more|
  {
    more == [] ||
    (NeverCloses(start, es, more[..|more| - 1]) &&
     !ClosesReceiver(RingRun(start, es + more[..|more| - 1]), more[|more| - 1]))
  }

  lemma RingThen(start: NeoRuns.Start, es: seq<NeoRuns.Event>, more: seq<NeoRuns.Event>)
    requires more != []
    ensures RingRun(start, es + more) == RingNext(RingRun(start, es + more[..|more| - 1]), more[|more| - 1])
  {
    assert (es + more)[..|es + more| - 1] == es + more[..|more| - 1];
  }

  /** The exact lifetime of a stall, over all events of the ring, exhaustion included: the
      receive cursor stands before the interval with packets_ended 0 until that interval is
      closed again with a positive count of segments, and no longer. */
  lemma {:induction false} StallLifetime(start: NeoRuns.Start, es: seq<NeoRuns.Event>, more: seq<NeoRuns.Event>,
                                         recv: u32)
    requires Waits(RingRun(start, es), recv)
    ensures AlwaysWaits(start, es, more, recv) <==> NeverCloses(start, es, more)
    decreases |more|
  {
    if more == [] {
      assert es + more == es;
    } else {
      var before, e := more[..|more| - 1], more[|more| - 1];
      StallLifetime(start, es, before, recv);
      RingThen(start, es, more);
      if AlwaysWaits(start, es, before, recv) {
        OtherEventsWait(RingRun(start, es + before), e);
      }
    }
  }

  /** It cannot be closed again before the slots are exhausted: until then the cursors
      differ. */
  lemma StalledCursorsDiffer(ring: Ring, m: Model)
    requires Stands(ring, m) && NeoRuns.Stalled(m)
    ensures Waits(ring, m.r % SLOTS) && ring.send != ring.recv
  {
    PutHolds(ring.slots, m.log, m.r, m.log[m.r]);
    SlotsDiffer(|m.log| - 1, m.r);
  }

  lemma {:induction false} StallOutlastsSlots(start: NeoRuns.Start, es: seq<NeoRuns.Event>,
                                              more: seq<NeoRuns.Event>)
    requires NeoRuns.Run(start, es).Running? && NeoRuns.Stalled(NeoRuns.Run(start, es).m)
    requires NeoRuns.Run(start, es + more).Running?
    ensures NeverCloses(start, es, more)
    decreases |more|
  {
    if more != [] {
      var before := more[..|more| - 1];
      assert es + more == es + before + [more[|more| - 1]];
      NeoRuns.RunThen(start, es + before, more[|more| - 1]);
      StallOutlastsSlots(start, es, before);
      NeoRuns.StalledWhileSlotsLast(start, es, before);
      RunRefines(start, es + before);
      StalledCursorsDiffer(RingRun(start, es + before), NeoRuns.Run(start, es + before).m);
    }
  }

  /** From the moment a run of the log stalls: the ring waits before the stalled interval
      until it is closed again with a positive count of segments, and no longer; that does
      not happen before the slots are exhausted. */
  lemma RunStallLifetime(start: NeoRuns.Start, es: seq<NeoRuns.Event>, more: seq<NeoRuns.Event>)
    requires NeoRuns.Run(start, es).Running? && NeoRuns.Stalled(NeoRuns.Run(start, es).m)
    ensures AlwaysWaits(start, es, more, NeoRuns.Run(start, es).m.r % SLOTS) <==> NeverCloses(start, es, more)
    ensures NeoRuns.Run(start, es + more).Running? ==> NeverCloses(start, es, more)
  {
    RunRefines(start, es);
    StalledCursorsDiffer(RingRun(start, es), NeoRuns.Run(start, es).m);
    StallLifetime(start, es, more, NeoRuns.Run(start, es).m.r % SLOTS);
    if NeoRuns.Run(start, es + more).Running? {
      StallOutlastsSlots(start, es, more);
    }
  }

  /** So a stall lasts at least until exhaustion, through the ACK that exhausts the slots,
      and from there until the first ACK that finds the stalled interval's time over and a
      positive count of segments. With that ACK the cursor moves on if all but the last of
      these segments are counted, and otherwise the interval is closed. */
  lemma StallEnds(ring: Ring, m: Model, sock: Sock, next: Sock)
    requires Stands(ring, m) && NeoRuns.Stalled(m) && Exhausts(m, sock)
    ensures var after := AckStep(ring, sock, true);
      && Waits(after, m.r % SLOTS) && after.send == after.recv
      && after.slots[after.recv].sendStart == m.log[m.r].sendStart
    ensures var after := AckStep(ring, sock, true); var out := AckStep(after, next, true);
      var counted := Wrap32(next.delivered + next.lost - ring.doubleCounted);
      SendEnds(m.log[m.r], next) && next.segsOut >= 1 ==>
        && out.slots[m.r % SLOTS].ended == next.segsOut
        && out.recv == if next.segsOut - IGNORE_PACKETS < counted then (m.r + 1) % SLOTS else m.r % SLOTS
  {
    StalledCursorsDiffer(ring, m);
    ExhaustionCollides(ring, m, sock);
    var after := AckStep(ring, sock, true);
    ReceiveHalf(SendStep(ring, sock), sock);
    StallAfterExhaustion(ring, m, sock);
    SendStepOnReceiver(after, next);
    ReceiveHalf(SendStep(after, next), next);
    NextSlot(m.r);
  }

  lemma StallAfterExhaustion(ring: Ring, m: Model, sock: Sock)
    requires Stands(ring, m) && NeoRuns.Stalled(m) && Exhausts(m, sock)
    ensures var after := AckStep(ring, sock, true);
      && Waits(after, m.r % SLOTS) && after.send == after.recv
      && after.slots[after.recv].sendStart == m.log[m.r].sendStart
      && after.doubleCounted == ring.doubleCounted
  {
    ExhaustionCollides(ring, m, sock);
  }
}
