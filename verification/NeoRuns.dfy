/** What every run of src/tcp_neo.c keeps, as long as its twenty slots are not exhausted:
    the intervals tile the segments sent, and each ACK is credited at most once. */
module NeoRuns {
  import opened Machine
  import opened NeoLog

  datatype Event =
    | AckEvent(sock: Sock, sampled: bool)
    | TimeoutEvent(sock: Sock, inFlight: u32)

  // ------------------------------------------------------------ what one ACK changes

  /** An ACK leaves every completed interval as it was. */
  lemma CompletedAreFrozen(m: Model, sock: Sock, sampled: bool)
    requires Valid(m) && !(sampled && Exhausts(m, sock))
    ensures Ack(m, sock, sampled).log[..m.r] == m.log[..m.r]
    ensures m.r <= Ack(m, sock, sampled).r <= m.r + 1
  {
  }

  /** The receive cursor follows the send cursor: it moves only past a closed interval. */
  lemma CursorsAdvance(m: Model, sock: Sock)
    requires Valid(m) && !Exhausts(m, sock)
    ensures var m' := Process(m, sock);
      && |m.log| <= |m'.log| <= |m.log| + 1
      && (m'.r == m.r + 1 ==> m'.log[m.r].ended != 0)
      && m'.r < |m'.log| <= m'.r + SLOTS
  {
  }

  /** The receive cursor stands before a closed interval whose packets_ended is 0, which
      the receive side takes for still open. */
  ghost predicate Stalled(m: Model) {
    m.r < |m.log| - 1 && m.log[m.r].ended == 0
  }

  lemma AckStaysStalled(m: Model, sock: Sock, sampled: bool)
    requires Valid(m) && Stalled(m) && !(sampled && Exhausts(m, sock))
    ensures var m' := Ack(m, sock, sampled); m'.r == m.r && Stalled(m')
  {
  }

  // ------------------------------------------------------------ tiling

  /** Each interval starts where its predecessor ended; a predecessor closed before the
      first segment counts from the first segment on. */
  ghost predicate Tiles(log: seq<Interval>) {
    forall i :: 0 < i < |log| ==> log[i].sentBase == Max(log[i - 1].ended, 1)
  }

  lemma SendSideTiles(m: Model, sock: Sock)
    requires Valid(m) && Tiles(m.log) && !Exhausts(m, sock)
    ensures Tiles(SendSide(m, sock).log)
  {
    var s, out := |m.log| - 1, SendSide(m, sock).log;
    forall i | 0 < i < |out| ensures out[i].sentBase == Max(out[i - 1].ended, 1) {
      if i <= s {
        assert out[i].sentBase == m.log[i].sentBase;
        assert out[i - 1] == m.log[i - 1];
      }
    }
  }

  /** Receiving changes neither end of any interval. */
  lemma ReceiveSideKeepsEnds(m: Model, sock: Sock)
    requires Valid(m)
    ensures var out := AdvanceSide(CreditSide(m, sock), sock).log;
      && |out| == |m.log|
      && forall i :: 0 <= i < |out| ==>
           out[i].sentBase == m.log[i].sentBase && out[i].ended == m.log[i].ended
  {
  }

  lemma AckTiles(m: Model, sock: Sock, sampled: bool)
    requires Valid(m) && Tiles(m.log) && !(sampled && Exhausts(m, sock))
    ensures Tiles(Ack(m, sock, sampled).log)
  {
    if sampled {
      SendSideTiles(m, sock);
      var sent := SendSide(m, sock);
      ReceiveSideKeepsEnds(sent, sock);
    }
  }

  /** The segments the first n intervals report, `packets_ended - packets_sent_base`. */
  ghost function SentIn(log: seq<Interval>, n: nat): int
    requires n <= |log|
  {
    if n == 0 then 0 else SentIn(log, n - 1) + (log[n - 1].ended - log[n - 1].sentBase)
  }

  /** Equal as 32-bit counters. */
  ghost predicate Same32(x: int, y: int) { (x - y) % TWO32 == 0 }

  /** How many of the first n intervals were closed before the first segment. */
  ghost function Empty(log: seq<Interval>, n: nat): nat
    requires n <= |log|
  {
    if n == 0 then 0 else Empty(log, n - 1) + if log[n - 1].ended == 0 then 1 else 0
  }

  /** The counts of the first n intervals add up to the distance from the first base to the
      next one, short by one for every interval closed before the first segment. */
  lemma {:induction false} SentAddsUp(log: seq<Interval>, n: nat)
    requires Tiles(log) && n < |log|
    ensures SentIn(log, n) == log[n].sentBase - log[0].sentBase - Empty(log, n)
  {
    if n > 0 {
      SentAddsUp(log, n - 1);
    }
  }

  lemma {:induction false} NoneEmpty(log: seq<Interval>, n: nat)
    requires n <= |log|
    ensures Empty(log, n) == 0 <==> forall i :: 0 <= i < n ==> log[i].ended >= 1
  {
    if n > 0 {
      NoneEmpty(log, n - 1);
    }
  }

  /** The 32-bit counts neo_fetch_measurements reports for the first n intervals. */
  ghost function ReportedIn(log: seq<Interval>, n: nat): int
    requires n <= |log|
  {
    if n == 0 then 0 else ReportedIn(log, n - 1) + Wrap32(log[n - 1].ended - log[n - 1].sentBase)
  }

  lemma {:induction false} ReportedIsSent(log: seq<Interval>, n: nat)
    requires n <= |log|
    ensures Same32(ReportedIn(log, n), SentIn(log, n))
  {
    if n > 0 {
      ReportedIsSent(log, n - 1);
      WrapIsSame(ReportedIn(log, n - 1), SentIn(log, n - 1), log[n - 1].ended - log[n - 1].sentBase);
    }
  }

  lemma WrapIsSame(x: int, y: int, d: int)
    requires Same32(x, y)
    ensures Same32(x + Wrap32(d), y + d)
  {
    assert (x + Wrap32(d)) - (y + d) == (x - y) + (Wrap32(d) - d);
  }

  // ------------------------------------------------------------ crediting

  function Delivered(log: seq<Interval>): int {
    if log == [] then 0 else Delivered(log[..|log| - 1]) + log[|log| - 1].delivered
  }

  function Lost(log: seq<Interval>): int {
    if log == [] then 0 else Lost(log[..|log| - 1]) + log[|log| - 1].lost
  }

  lemma {:induction false} TotalsOfUpdate(log: seq<Interval>, i: nat, v: Interval)
    requires i < |log|
    ensures Delivered(log[i := v]) == Delivered(log) - log[i].delivered + v.delivered
    ensures Lost(log[i := v]) == Lost(log) - log[i].lost + v.lost
  {
    var n := |log| - 1;
    if i == n {
      assert log[i := v][..n] == log[..n];
    } else {
      assert log[i := v][..n] == log[..n][i := v];
      TotalsOfUpdate(log[..n], i, v);
    }
  }

  lemma TotalsOfAppend(log: seq<Interval>, v: Interval)
    ensures Delivered(log + [v]) == Delivered(log) + v.delivered
    ensures Lost(log + [v]) == Lost(log) + v.lost
  {
    assert (log + [v])[..|log|] == log;
  }

  lemma SendSideTotals(m: Model, sock: Sock)
    requires Valid(m) && !Exhausts(m, sock)
    ensures Delivered(SendSide(m, sock).log) == Delivered(m.log)
    ensures Lost(SendSide(m, sock).log) == Lost(m.log)
  {
    var s := |m.log| - 1;
    var closed := m.log[s := Closed(m.log[s], sock)];
    TotalsOfUpdate(m.log, s, Closed(m.log[s], sock));
    TotalsOfAppend(closed, Started(Previous(closed), sock));
  }

  lemma AdvanceSideTotals(m: Model, sock: Sock)
    requires Valid(m)
    ensures Delivered(AdvanceSide(m, sock).log) == Delivered(m.log)
    ensures Lost(AdvanceSide(m, sock).log) == Lost(m.log)
  {
    if ReceiveEnds(m.log[m.r], m.counted) {
      TotalsOfUpdate(m.log, m.r + 1, Receiving(m.log[m.r + 1], sock));
    }
  }

  /** Counted packets exceed the base of an interval by more than one, as 32-bit counters:
      the next of a base of 2^32 - 1 is 0. */
  predicate PassedFirst(base: u32, counted: u32) {
    if base == TWO32 - 1 then counted > 0 else counted - base > 1
  }

  /** Whether an ACK's deltas are credited to an interval or skipped: the packets counted
      before it have passed the first packet of the interval now receiving. */
  ghost predicate IsCredited(m: Model, sampled: bool)
    requires Valid(m)
  {
    sampled && PassedFirst(m.log[m.r].sentBase, m.counted)
  }

  lemma CreditsExactly(i: Interval, counted: u32)
    ensures Credits(i, counted) <==> PassedFirst(i.sentBase, counted)
  {
    if i.sentBase < TWO32 - 1 {
      WrapId(IGNORE_PACKETS + i.sentBase);
    }
  }

  lemma CreditedIsSame(total: int, before: u32, delta: int)
    ensures Same32(total - before + Wrap32(before + Wrap32(delta)), total + delta)
  {
    var d := Wrap32(delta);
    assert (delta - d) % TWO32 == 0;
    assert (before + d - Wrap32(before + d)) % TWO32 == 0;
  }

  /** A total moves by the given delta, or not at all. */
  ghost predicate Booked(total: int, total': int, credited: bool, delta: int) {
    Same32(total', total + if credited then delta else 0)
  }

  lemma CreditSideTotals(m: Model, sock: Sock)
    requires Valid(m)
    ensures var out, c := CreditSide(m, sock).log, Credits(m.log[m.r], m.counted);
      && Booked(Delivered(m.log), Delivered(out), c, sock.delivered - m.deliveredBase)
      && Booked(Lost(m.log), Lost(out), c, sock.lost - m.lostBase)
  {
    var i := m.log[m.r];
    if Credits(i, m.counted) {
      TotalsOfUpdate(m.log, m.r, Credited(i, m, sock));
      CreditedIsSame(Delivered(m.log), i.delivered, sock.delivered - m.deliveredBase);
      CreditedIsSame(Lost(m.log), i.lost, sock.lost - m.lostBase);
    }
  }

  lemma SendSideCredits(m: Model, sock: Sock)
    requires Valid(m) && !Exhausts(m, sock)
    ensures var sent := SendSide(m, sock);
      sent.r == m.r && (Credits(sent.log[sent.r], sent.counted) <==> IsCredited(m, true))
      && sent.deliveredBase == m.deliveredBase && sent.lostBase == m.lostBase
  {
    CreditsExactly(SendSide(m, sock).log[m.r], m.counted);
  }

  /** An ACK adds its deltas to the totals of the log once, or leaves the totals alone. */
  lemma AckTotals(m: Model, sock: Sock, sampled: bool)
    requires Valid(m) && !(sampled && Exhausts(m, sock))
    ensures var out, c := Ack(m, sock, sampled).log, IsCredited(m, sampled);
      && Booked(Delivered(m.log), Delivered(out), c, sock.delivered - m.deliveredBase)
      && Booked(Lost(m.log), Lost(out), c, sock.lost - m.lostBase)
  {
    if sampled {
      SendSideTotals(m, sock);
      SendSideCredits(m, sock);
      CreditSideTotals(SendSide(m, sock), sock);
      AdvanceSideTotals(CreditSide(SendSide(m, sock), sock), sock);
    }
  }

  // ------------------------------------------------------------ whole runs

  /** A run: the log and the deltas deliberately skipped so far, or that the slots are
      exhausted, after which nothing is claimed. */
  datatype RunResult = Running(m: Model, skippedDelivered: int, skippedLost: int) | Exhausted

  datatype Start = Start(counted: u32, lostBase: u32, deliveredBase: u32, sock: Sock)

  ghost function Next(r: RunResult, e: Event): (r': RunResult)
    requires r.Running? ==> Valid(r.m)
    ensures r'.Running? ==> r.Running? && Valid(r'.m)
  {
    if r.Exhausted? then r
    else
      match e
      case TimeoutEvent(sock, inFlight) => r.(m := Timeout(r.m, sock, inFlight))
      case AckEvent(sock, sampled) =>
        if sampled && Exhausts(r.m, sock) then Exhausted
        else
          var credited := IsCredited(r.m, sampled);
          Running(Ack(r.m, sock, sampled),
            r.skippedDelivered + (if credited then 0 else sock.delivered - r.m.deliveredBase),
            r.skippedLost + (if credited then 0 else sock.lost - r.m.lostBase))
  }

  ghost function Run(start: Start, es: seq<Event>): (r: RunResult)
    ensures r.Running? ==> Valid(r.m)
    decreases |es|
  {
    if es == [] then
      Running(Init(start.counted, start.lostBase, start.deliveredBase, start.sock), 0, 0)
    else Next(Run(start, es[..|es| - 1]), es[|es| - 1])
  }

  /** In every run the intervals tile the segments sent. */
  lemma {:induction false} RunTiles(start: Start, es: seq<Event>)
    requires Run(start, es).Running?
    ensures Tiles(Run(start, es).m.log)
    decreases |es|
  {
    if es != [] {
      var r, e := Run(start, es[..|es| - 1]), es[|es| - 1];
      RunTiles(start, es[..|es| - 1]);
      if e.AckEvent? {
        AckTiles(r.m, e.sock, e.sampled);
      }
    }
  }

  lemma SameAdds(x: int, y: int, x': int, y': int)
    requires Same32(x, y) && Same32(x', x + y' - y)
    ensures Same32(x', y')
  {
    assert x' - y' == (x' - (x + y' - y)) + (x - y);
  }

  /** What was credited to intervals and what was skipped add up to what the socket
      counted since the start, as 32-bit counters. */
  ghost predicate Conserved(r: RunResult, start: Start)
    requires r.Running?
  {
    && Same32(Delivered(r.m.log) + r.skippedDelivered, r.m.deliveredBase - start.deliveredBase)
    && Same32(Lost(r.m.log) + r.skippedLost, r.m.lostBase - start.lostBase)
  }

  /** Over every run nothing is credited twice and nothing is lost. */
  lemma {:induction false} RunConserves(start: Start, es: seq<Event>)
    requires Run(start, es).Running?
    ensures Conserved(Run(start, es), start)
    decreases |es|
  {
    if es == [] {
      StartConserves(start);
    } else {
      RunConserves(start, es[..|es| - 1]);
      NextConserves(Run(start, es[..|es| - 1]), es[|es| - 1], start);
    }
  }

  lemma StartConserves(start: Start)
    ensures Conserved(Run(start, []), start)
  {
    var first := Started(BLANK, start.sock);
    TotalsOfAppend([], first);
    assert [] + [first] == [first];
  }

  lemma NextConserves(r: RunResult, e: Event, start: Start)
    requires r.Running? && Valid(r.m) && Next(r, e).Running? && Conserved(r, start)
    ensures Conserved(Next(r, e), start)
  {
    if e.AckEvent? {
      AckTotals(r.m, e.sock, e.sampled);
      Conserves(r, Next(r, e), IsCredited(r.m, e.sampled), e.sock, start);
    }
  }

  lemma Conserves(r: RunResult, r': RunResult, c: bool, sock: Sock, start: Start)
    requires r.Running? && r'.Running? && Conserved(r, start)
    requires var m, m' := r.m, r'.m;
      && Booked(Delivered(m.log), Delivered(m'.log), c, sock.delivered - m.deliveredBase)
      && Booked(Lost(m.log), Lost(m'.log), c, sock.lost - m.lostBase)
      && m'.deliveredBase == sock.delivered && m'.lostBase == sock.lost
      && r'.skippedDelivered == r.skippedDelivered + (if c then 0 else sock.delivered - m.deliveredBase)
      && r'.skippedLost == r.skippedLost + (if c then 0 else sock.lost - m.lostBase)
    ensures Conserved(r', start)
  {
    SameMoves(Delivered(r.m.log), Delivered(r'.m.log), r.skippedDelivered, r'.skippedDelivered, c,
      sock.delivered - r.m.deliveredBase, r.m.deliveredBase - start.deliveredBase,
      r'.m.deliveredBase - start.deliveredBase);
    SameMoves(Lost(r.m.log), Lost(r'.m.log), r.skippedLost, r'.skippedLost, c,
      sock.lost - r.m.lostBase, r.m.lostBase - start.lostBase, r'.m.lostBase - start.lostBase);
  }

  lemma SameMoves(total: int, total': int, skipped: int, skipped': int, credited: bool, delta: int, sum: int, sum': int)
    requires Same32(total + skipped, sum) && Booked(total, total', credited, delta)
    requires skipped' == skipped + (if credited then 0 else delta) && sum' == sum + delta
    ensures Same32(total' + skipped', sum')
  {
    SameAdds(total + skipped, sum, total' + skipped', sum');
  }

  /** A later state has moved on from an earlier one without touching what was complete. */
  ghost predicate Extends(m: Model, m': Model) {
    m.r <= m'.r && m.r <= |m.log| && m.r <= |m'.log| && m'.log[..m.r] == m.log[..m.r]
  }

  lemma ExtendsFurther(m: Model, mid: Model, m': Model)
    requires Extends(m, mid) && Extends(mid, m')
    ensures Extends(m, m')
  {
    assert m'.log[..m.r] == m'.log[..mid.r][..m.r];
    assert mid.log[..m.r] == mid.log[..mid.r][..m.r];
  }

  lemma NextExtends(r: RunResult, e: Event)
    requires r.Running? && Valid(r.m) && Next(r, e).Running?
    ensures Extends(r.m, Next(r, e).m)
  {
    if e.AckEvent? {
      CompletedAreFrozen(r.m, e.sock, e.sampled);
    }
  }

  /** A completed interval keeps its statistics for the rest of the run. */
  lemma {:induction false} RunFreezes(start: Start, es: seq<Event>, more: seq<Event>)
    requires Run(start, es + more).Running?
    ensures Run(start, es).Running?
    ensures Extends(Run(start, es).m, Run(start, es + more).m)
    decreases |more|
  {
    if more == [] {
      assert es + more == es;
    } else {
      var before, e := es + more[..|more| - 1], more[|more| - 1];
      assert es + more == before + [e] && (before + [e])[..|before|] == before;
      RunFreezes(start, es, more[..|more| - 1]);
      NextExtends(Run(start, before), e);
      ExtendsFurther(Run(start, es).m, Run(start, before).m, Run(start, es + more).m);
    }
  }

  // ------------------------------------------------------------ empty intervals

  lemma RunThen(start: Start, es: seq<Event>, e: Event)
    ensures Run(start, es + [e]) == Next(Run(start, es), e)
  {
    assert (es + [e])[..|es|] == es;
  }

  /** The ACK ends the interval being sent. */
  ghost predicate Closes(m: Model, e: Event)
    requires Valid(m)
  {
    e.AckEvent? && e.sampled && SendEnds(m.log[|m.log| - 1], e.sock)
  }

  /** Every ACK of the run that ends an interval finds a positive count of segments: it comes
      after the first segment, and not just as the 32-bit count has wrapped to 0. */
  ghost predicate ClosesAfterFirst(start: Start, es: seq<Event>)
    decreases |es|
  {
    es == [] ||
    (ClosesAfterFirst(start, es[..|es| - 1]) &&
     var r, e := Run(start, es[..|es| - 1]), es[|es| - 1];
     r.Running? && Closes(r.m, e) ==> e.sock.segsOut >= 1)
  }

  ghost predicate ClosedAreFull(log: seq<Interval>) {
    forall i :: 0 <= i < |log| - 1 ==> log[i].ended >= 1
  }

  /** An ACK closes an empty interval exactly if it ends one before the first segment. */
  lemma AckClosesFull(m: Model, e: Event)
    requires Valid(m) && (e.AckEvent? && e.sampled ==> !Exhausts(m, e.sock)) && e.AckEvent?
    ensures ClosedAreFull(Ack(m, e.sock, e.sampled).log) <==>
      ClosedAreFull(m.log) && (Closes(m, e) ==> e.sock.segsOut >= 1)
  {
    if e.sampled {
      var sent, n := SendSide(m, e.sock), |m.log| - 1;
      ReceiveSideKeepsEnds(sent, e.sock);
      SendSideEnds(m, e.sock);
      assert ClosedAreFull(Ack(m, e.sock, e.sampled).log) <==> ClosedAreFull(sent.log);
    }
  }

  lemma SendSideEnds(m: Model, sock: Sock)
    requires Valid(m) && !Exhausts(m, sock)
    ensures ClosedAreFull(SendSide(m, sock).log) <==>
      ClosedAreFull(m.log) && (SendEnds(m.log[|m.log| - 1], sock) ==> sock.segsOut >= 1)
  {
    var out, n := SendSide(m, sock).log, |m.log| - 1;
    if SendEnds(m.log[n], sock) {
      assert out[n].ended == sock.segsOut;
      forall i | 0 <= i < n ensures out[i].ended == m.log[i].ended {
      }
    }
  }

  /** All closed intervals of a run are non-empty exactly if every ACK that ended one came
      after the first segment. */
  lemma {:induction false} FullExactlyWhen(start: Start, es: seq<Event>)
    requires Run(start, es).Running?
    ensures ClosedAreFull(Run(start, es).m.log) <==> ClosesAfterFirst(start, es)
    decreases |es|
  {
    if es != [] {
      var before, e := es[..|es| - 1], es[|es| - 1];
      FullExactlyWhen(start, before);
      if e.AckEvent? {
        AckClosesFull(Run(start, before).m, e);
      }
    }
  }

  /** The counts of all closed intervals are the segments sent between the first base and
      the one now being sent, less one for each interval closed before the first segment;
      they are exactly those if and only if there is none. As 32-bit counts the reported
      ones agree. */
  ghost predicate CountsSent(log: seq<Interval>, noneEmpty: bool)
    requires log != []
  {
    var n := |log| - 1;
    && SentIn(log, n) == log[n].sentBase - log[0].sentBase - Empty(log, n)
    && (SentIn(log, n) == log[n].sentBase - log[0].sentBase <==> noneEmpty)
    && Same32(ReportedIn(log, n), log[n].sentBase - log[0].sentBase - Empty(log, n))
  }

  lemma TilesReport(log: seq<Interval>)
    requires Tiles(log) && log != []
    ensures CountsSent(log, ClosedAreFull(log))
  {
    SentAddsUp(log, |log| - 1);
    ReportedIsSent(log, |log| - 1);
    NoneEmpty(log, |log| - 1);
  }

  /** In every run the segments reported for the closed intervals are exactly those sent if
      and only if every ACK that ended an interval came after the first segment. */
  lemma RunReportsEverySegment(start: Start, es: seq<Event>)
    requires Run(start, es).Running?
    ensures CountsSent(Run(start, es).m.log, ClosesAfterFirst(start, es))
  {
    RunTiles(start, es);
    FullExactlyWhen(start, es);
    TilesReport(Run(start, es).m.log);
  }

  lemma {:induction false} SampledAfterFirst(start: Start, es: seq<Event>)
    requires forall i :: 0 <= i < |es| && es[i].AckEvent? && es[i].sampled ==> es[i].sock.segsOut >= 1
    ensures ClosesAfterFirst(start, es)
    decreases |es|
  {
    if es != [] {
      SampledAfterFirst(start, es[..|es| - 1]);
    }
  }

  /** In particular they are if the socket's count of segments is positive at every ACK with
      a rate sample, which can be told without looking at the intervals. */
  lemma ReportsAllIfSending(start: Start, es: seq<Event>)
    requires Run(start, es).Running?
    requires forall i :: 0 <= i < |es| && es[i].AckEvent? && es[i].sampled ==> es[i].sock.segsOut >= 1
    ensures CountsSent(Run(start, es).m.log, true)
  {
    SampledAfterFirst(start, es);
    RunReportsEverySegment(start, es);
  }

  /** A run that has stalled stays so for as long as the slots last: the receive cursor does
      not move, so that they are exhausted at most twenty intervals on. */
  lemma {:induction false} StalledWhileSlotsLast(start: Start, es: seq<Event>, more: seq<Event>)
    requires Run(start, es).Running? && Stalled(Run(start, es).m)
    requires Run(start, es + more).Running?
    ensures var m, m' := Run(start, es).m, Run(start, es + more).m;
      Stalled(m') && m'.r == m.r && |m'.log| <= m.r + SLOTS
    decreases |more|
  {
    if more == [] {
      assert es + more == es;
    } else {
      var before, e := es + more[..|more| - 1], more[|more| - 1];
      assert es + more == before + [e];
      RunThen(start, before, e);
      StalledWhileSlotsLast(start, es, more[..|more| - 1]);
      if e.AckEvent? {
        AckStaysStalled(Run(start, before).m, e.sock, e.sampled);
      }
    }
  }

  /** It happens: an ACK with a rate sample that comes an interval's length after the start
      and before the first segment stalls the flow. */
  lemma StallIsReachable(start: Start, sock: Sock)
    requires Wrap64(sock.mstamp - start.sock.mstamp) >= MONITOR_INTERVAL && sock.segsOut == 0
    ensures var r := Run(start, [AckEvent(sock, true)]);
      r.Running? && Stalled(r.m) && r.m.r == 0 && r.m.log[0].ended == 0
  {
    var e := AckEvent(sock, true);
    RunThen(start, [], e);
    assert [] + [e] == [e];
    var m := Init(start.counted, start.lostBase, start.deliveredBase, start.sock);
    FirstAckStalls(m, sock);
  }

  lemma FirstAckStalls(m: Model, sock: Sock)
    requires Valid(m) && |m.log| == 1 && m.r == 0 && SendEnds(m.log[0], sock) && sock.segsOut == 0
    ensures !Exhausts(m, sock)
    ensures var m' := Ack(m, sock, true); Stalled(m') && m'.r == 0 && m'.log[0].ended == 0
  {
  }
}
