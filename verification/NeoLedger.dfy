/** What the intervals of src/tcp_neo.c hold, told from the ACKs and timeouts of a run: the
    deltas credited to each, and when its receiving began and ended. */
module NeoLedger {
  import opened Machine
  import opened NeoLog
  import opened NeoRuns
  import opened Options

  // ------------------------------------------------------------ the counters of a run

  /** What the events so far say: the packets counted twice, as the latest timeout found; the
      packets counted by the latest ACK with a rate sample; and what the socket had delivered
      and lost at the latest ACK. */
  datatype Counters = Counters(twice: u32, counted: u32, delivered: u32, lost: u32)

  function CountersAfter(c: Counters, e: Event): Counters {
    match e
    case TimeoutEvent(sock, inFlight) =>
      c.(twice := Wrap32(sock.delivered + sock.lost + inFlight - sock.segsOut))
    case AckEvent(sock, sampled) =>
      c.(counted := if sampled then Wrap32(sock.delivered + sock.lost - c.twice) else c.counted,
         delivered := sock.delivered, lost := sock.lost)
  }

  function CountersOf(start: Start, es: seq<Event>): Counters {
    if es == [] then Counters(0, start.counted, start.deliveredBase, start.lostBase)
    else CountersAfter(CountersOf(start, es[..|es| - 1]), es[|es| - 1])
  }

  predicate Agree(m: Model, c: Counters) {
    m.doubleCounted == c.twice && m.counted == c.counted && m.deliveredBase == c.delivered && m.lostBase == c.lost
  }

  lemma CountersAfterAck(m: Model, sock: Sock, sampled: bool)
    requires Valid(m) && !(sampled && Exhausts(m, sock))
    ensures var m' := Ack(m, sock, sampled);
      && m'.doubleCounted == m.doubleCounted
      && m'.counted == (if sampled then Wrap32(sock.delivered + sock.lost - m.doubleCounted) else m.counted)
      && m'.deliveredBase == sock.delivered && m'.lostBase == sock.lost
  {
  }

  lemma CountersAfterTimeout(m: Model, sock: Sock, inFlight: u32)
    ensures var m' := Timeout(m, sock, inFlight);
      m' == m.(doubleCounted := Wrap32(sock.delivered + sock.lost + inFlight - sock.segsOut))
  {
    ExtraMeans(sock.delivered + sock.lost + inFlight, sock.segsOut, m.doubleCounted);
  }

  lemma NextCounters(r: RunResult, e: Event, c: Counters)
    requires r.Running? && Valid(r.m) && Next(r, e).Running? && Agree(r.m, c)
    ensures Agree(Next(r, e).m, CountersAfter(c, e))
  {
    match e
    case AckEvent(sock, sampled) => CountersAfterAck(r.m, sock, sampled);
    case TimeoutEvent(sock, inFlight) => CountersAfterTimeout(r.m, sock, inFlight);
  }

  /** The counters of a flow are what the events say. */
  lemma {:induction false} CountersOfRun(start: Start, es: seq<Event>)
    requires Run(start, es).Running?
    ensures Agree(Run(start, es).m, CountersOf(start, es))
    decreases |es|
  {
    if es != [] {
      var before, e := es[..|es| - 1], es[|es| - 1];
      CountersOfRun(start, before);
      NextCounters(Run(start, before), e, CountersOf(start, before));
    }
  }

  // ------------------------------------------------------------ one ACK

  /** What a sampled ACK makes of an interval: the deltas are credited to it or not, and it
      becomes the one receiving or not. */
  predicate Follows(v: Interval, v': Interval, sock: Sock, credited: bool, arrives: bool, dd: int, dl: int) {
    v' == v.(
      delivered := if credited then Wrap32(v.delivered + dd) else v.delivered,
      lost := if credited then Wrap32(v.lost + dl) else v.lost,
      recvEnd := if credited then sock.mstamp else v.recvEnd,
      endRtt := if credited then sock.rtt else v.endRtt,
      recvStart := if arrives then sock.mstamp else v.recvStart,
      startRtt := if arrives then sock.rtt else v.startRtt,
      ended := v'.ended, sendEnd := v'.sendEnd)
  }

  ghost predicate Moves(m: Model, m': Model, sock: Sock, i: nat)
    requires Valid(m) && i < |m.log| && i < |m'.log|
  {
    Follows(m.log[i], m'.log[i], sock, i == m.r && PassedFirst(m.log[m.r].sentBase, m.counted),
            i == m.r + 1 == m'.r, sock.delivered - m.deliveredBase, sock.lost - m.lostBase)
  }

  /** A sampled ACK moves the receiving interval's delivered and lost by its full deltas
      exactly when the packets counted before it have passed the interval's first one, and
      otherwise leaves both alone; no other interval is credited. */
  lemma AckMoves(m: Model, sock: Sock, i: nat)
    requires Valid(m) && !Exhausts(m, sock) && i < |m.log|
    ensures i < |Ack(m, sock, true).log| && Moves(m, Ack(m, sock, true), sock, i)
  {
    var sent := SendSide(m, sock);
    SendSideLeaves(m, sock, i);
    SendSideLeaves(m, sock, m.r);
    SendSideCredits(m, sock);
    CreditMoves(sent.log[m.r], sent, sock);
  }

  lemma SendSideLeaves(m: Model, sock: Sock, i: nat)
    requires Valid(m) && !Exhausts(m, sock) && i < |m.log|
    ensures var sent := SendSide(m, sock);
      && |m.log| <= |sent.log| && sent.r == m.r
      && sent.log[i] == m.log[i].(ended := sent.log[i].ended, sendEnd := sent.log[i].sendEnd)
  {
  }

  lemma CreditMoves(i: Interval, m: Model, sock: Sock)
    ensures Follows(i, Credited(i, m, sock), sock, true, false,
                    sock.delivered - m.deliveredBase, sock.lost - m.lostBase)
  {
    DeltaWraps(i.delivered, sock.delivered - m.deliveredBase);
    DeltaWraps(i.lost, sock.lost - m.lostBase);
  }

  lemma DeltaWraps(x: int, d: int)
    ensures Wrap32(x + Wrap32(d)) == Wrap32(x + d)
  {
    WrapAdds(d, x);
  }

  /** It closes the interval being sent once that has been sent for 30 ms, and the receiving
      interval is complete once it is closed and all but its last packet are counted. */
  lemma AckEnds(m: Model, sock: Sock)
    requires Valid(m) && !Exhausts(m, sock)
    ensures var m', s := Ack(m, sock, true), |m.log| - 1;
      && |m'.log| == (if Wrap64(sock.mstamp - m.log[s].sendStart) >= 30000 then s + 2 else s + 1)
      && (forall i :: 0 <= i <= s ==>
            m'.log[i].ended == if i == s && |m'.log| == s + 2 then sock.segsOut else m.log[i].ended)
      && m'.r == if m'.log[m.r].ended != 0
                    && m'.log[m.r].ended <= Wrap32(sock.delivered + sock.lost - m.doubleCounted)
                 then m.r + 1 else m.r
  {
  }

  /** The interval that an ACK appends: nothing is credited to it yet, and the times of its
      receiving are still those of the interval twenty before it. */
  lemma AckAppends(m: Model, sock: Sock)
    requires Valid(m) && !Exhausts(m, sock)
    ensures var m', n := Ack(m, sock, true), |m.log|;
      |m'.log| == n + 1 ==>
        var v, older := m'.log[n], if n < SLOTS then BLANK else m.log[n - SLOTS];
        && v.delivered == 0 && v.lost == 0 && v.ended == 0
        && v.sentBase == Max(sock.segsOut, 1) && v.sendStart == sock.mstamp
        && v.recvEnd == older.recvEnd && v.endRtt == older.endRtt
        && v.recvStart == (if n == m.r + 1 == m'.r then sock.mstamp else older.recvStart)
        && v.startRtt == (if n == m.r + 1 == m'.r then sock.rtt else older.startRtt)
  {
  }

  // ------------------------------------------------------------ what is credited

  /** The ACK that follows the events is credited to interval i: it has a rate sample, i is
      receiving, and the packets counted before it have passed the first one of i. */
  ghost predicate CountsFor(start: Start, before: seq<Event>, e: Event, i: nat) {
    && e.AckEvent? && e.sampled && Run(start, before).Running?
    && Run(start, before).m.r == i
    && PassedFirst(Run(start, before).m.log[i].sentBase, CountersOf(start, before).counted)
  }

  /** With the ACK that follows the events the interval before i is complete, and i becomes
      the one receiving. */
  ghost predicate Arrives(start: Start, before: seq<Event>, e: Event, i: nat) {
    && e.AckEvent? && Run(start, before).Running? && Next(Run(start, before), e).Running?
    && Run(start, before).m.r + 1 == i == Next(Run(start, before), e).m.r
  }

  /** The account of an interval: all deltas credited to it, the latest ACK that was, and the
      ACK with which it became the one receiving. */
  datatype Account = Account(delivered: int, lost: int, credit: Option<Sock>, arrival: Option<Sock>)

  const OPENED := Account(0, 0, None, None)

  function Posted(a: Account, sock: Sock, credited: bool, arrives: bool, dd: int, dl: int): Account {
    Account(if credited then a.delivered + dd else a.delivered, if credited then a.lost + dl else a.lost,
            if credited then Some(sock) else a.credit, if arrives then Some(sock) else a.arrival)
  }

  ghost function AccountOf(start: Start, es: seq<Event>, i: nat): Account {
    if es == [] then OPENED
    else
      var before, e := es[..|es| - 1], es[|es| - 1];
      Posted(AccountOf(start, before, i), e.sock, CountsFor(start, before, e, i), Arrives(start, before, e, i),
             e.sock.delivered - CountersOf(start, before).delivered, e.sock.lost - CountersOf(start, before).lost)
  }

  lemma CursorStep(r: RunResult, e: Event)
    requires r.Running? && Valid(r.m) && Next(r, e).Running?
    ensures r.m.r <= Next(r, e).m.r <= r.m.r + 1
    ensures |r.m.log| <= |Next(r, e).m.log| <= |r.m.log| + 1
  {
  }

  /** Nothing is credited to an interval before it is the one receiving. */
  lemma {:induction false} NothingAhead(start: Start, es: seq<Event>, i: nat)
    requires Run(start, es).Running? && i > Run(start, es).m.r
    ensures AccountOf(start, es, i) == OPENED
    decreases |es|
  {
    if es != [] {
      var before, e := es[..|es| - 1], es[|es| - 1];
      CursorStep(Run(start, before), e);
      NothingAhead(start, before, i);
    }
  }

  /** An interval shows its account: the sums as 32-bit counters, the times of the two ACKs;
      where there is no such ACK the times are those of the older interval. */
  predicate Shows(v: Interval, older: Interval, a: Account) {
    && v.delivered == Wrap32(a.delivered) && v.lost == Wrap32(a.lost)
    && Dated(v.recvEnd, v.endRtt, a.credit, older.recvEnd, older.endRtt)
    && Dated(v.recvStart, v.startRtt, a.arrival, older.recvStart, older.startRtt)
  }

  /** A time and a round-trip time are those of the ACK, or the older ones. */
  predicate Dated(at: u64, rtt: u64, ack: Option<Sock>, olderAt: u64, olderRtt: u64) {
    match ack
    case Some(sock) => at == sock.mstamp && rtt == sock.rtt
    case None => at == olderAt && rtt == olderRtt
  }

  /** The interval twenty before another, whose slot it takes over. */
  function Older(log: seq<Interval>, i: nat): Interval
    requires i <= |log|
  {
    if i < SLOTS then BLANK else log[i - SLOTS]
  }

  lemma FullDelta(x: int, d: int)
    ensures Wrap32(Wrap32(x) + d) == Wrap32(x + d)
  {
    WrapAdds(x, d);
  }

  lemma PostShows(v: Interval, v': Interval, older: Interval, a: Account, sock: Sock, c: bool, arrives: bool,
                  dd: int, dl: int)
    requires Shows(v, older, a) && Follows(v, v', sock, c, arrives, dd, dl)
    ensures Shows(v', older, Posted(a, sock, c, arrives, dd, dl))
  {
    FullDelta(a.delivered, dd);
    FullDelta(a.lost, dl);
  }

  /** A completed interval is the same after one more ACK. */
  lemma OlderStays(m: Model, sock: Sock, i: nat)
    requires Valid(m) && !Exhausts(m, sock) && i <= |m.log|
    ensures i <= |Ack(m, sock, true).log| && (i < m.r + SLOTS ==> Older(Ack(m, sock, true).log, i) == Older(m.log, i))
  {
    CompletedAreFrozen(m, sock, true);
    var m' := Ack(m, sock, true);
    if SLOTS <= i < m.r + SLOTS {
      assert m'.log[..m.r][i - SLOTS] == m.log[..m.r][i - SLOTS];
    }
  }

  /** What a sampled ACK posts to interval i. */
  function AckPosts(m: Model, m': Model, sock: Sock, i: nat, a: Account): Account
    requires m.r < |m.log|
  {
    Posted(a, sock, i == m.r && PassedFirst(m.log[m.r].sentBase, m.counted), i == m.r + 1 == m'.r,
           sock.delivered - m.deliveredBase, sock.lost - m.lostBase)
  }

  /** A sampled ACK keeps the account of an interval of the log, and opens that of the
      interval it appends. */
  lemma AckBooks(m: Model, sock: Sock, i: nat, a: Account)
    requires Valid(m) && !Exhausts(m, sock) && i < |Ack(m, sock, true).log|
    requires if i < |m.log| then Shows(m.log[i], Older(m.log, i), a) else a == OPENED
    ensures var m' := Ack(m, sock, true);
      Shows(m'.log[i], Older(m'.log, i), AckPosts(m, m', sock, i, a))
  {
    var m' := Ack(m, sock, true);
    if i < |m.log| {
      AckMoves(m, sock, i);
      OlderStays(m, sock, i);
      PostShows(m.log[i], m'.log[i], Older(m.log, i), a, sock,
        i == m.r && PassedFirst(m.log[m.r].sentBase, m.counted), i == m.r + 1 == m'.r,
        sock.delivered - m.deliveredBase, sock.lost - m.lostBase);
    } else {
      AckAppends(m, sock);
      OlderStays(m, sock, |m.log|);
    }
  }

  /** The same for any event of a run. */
  lemma NextBooks(r: RunResult, e: Event, i: nat, a: Account)
    requires r.Running? && Valid(r.m) && Next(r, e).Running? && i < |Next(r, e).m.log|
    requires if i < |r.m.log| then Shows(r.m.log[i], Older(r.m.log, i), a) else a == OPENED
    ensures var m' := Next(r, e).m;
      Shows(m'.log[i], Older(m'.log, i), if e.AckEvent? && e.sampled then AckPosts(r.m, m', e.sock, i, a) else a)
  {
    if e.AckEvent? && e.sampled {
      AckBooks(r.m, e.sock, i, a);
    }
  }

  /** How the account of an interval continues, in terms of the model. */
  lemma AccountGrows(start: Start, before: seq<Event>, e: Event, i: nat)
    requires Run(start, before).Running? && Next(Run(start, before), e).Running?
    ensures var m, m', a := Run(start, before).m, Next(Run(start, before), e).m, AccountOf(start, before, i);
      AccountOf(start, before + [e], i) == if e.AckEvent? && e.sampled then AckPosts(m, m', e.sock, i, a) else a
  {
    assert (before + [e])[..|before|] == before;
    CountersOfRun(start, before);
    if e.AckEvent? && !e.sampled {
      assert Next(Run(start, before), e).m.r == Run(start, before).m.r;
    }
  }

  /** In every run an interval shows exactly the deltas of the ACKs credited to it, the time
      and round-trip time of the last of them, and those of the ACK that made it the one
      receiving. Where there is no such ACK the times are those of the interval twenty
      before, or zero in the first circle. */
  lemma {:induction false} IntervalShows(start: Start, es: seq<Event>, i: nat)
    requires Run(start, es).Running? && i < |Run(start, es).m.log|
    ensures var log := Run(start, es).m.log; Shows(log[i], Older(log, i), AccountOf(start, es, i))
    decreases |es|
  {
    if es != [] {
      var before, e := es[..|es| - 1], es[|es| - 1];
      var r := Run(start, before);
      if i < |r.m.log| {
        IntervalShows(start, before, i);
      } else {
        NothingAhead(start, before, i);
      }
      NextBooks(r, e, i, AccountOf(start, before, i));
      AccountGrows(start, before, e, i);
      assert before + [e] == es;
    }
  }

  // ------------------------------------------------------------ what a completed interval holds

  datatype Deltas = Deltas(delivered: int, lost: int)

  /** The deltas of the ACKs among the later events that are not credited to interval i. */
  ghost function Missed(start: Start, es: seq<Event>, more: seq<Event>, i: nat): Deltas {
    if more == [] then Deltas(0, 0)
    else
      var before, e := more[..|more| - 1], more[|more| - 1];
      var d, c := Missed(start, es, before, i), CountersOf(start, es + before);
      if e.TimeoutEvent? || CountsFor(start, es + before, e, i) then d
      else Deltas(d.delivered + (e.sock.delivered - c.delivered), d.lost + (e.sock.lost - c.lost))
  }

  lemma Unfold(es: seq<Event>, more: seq<Event>)
    requires more != []
    ensures es + more == es + more[..|more| - 1] + [more[|more| - 1]]
    ensures (es + more)[..|es + more| - 1] == es + more[..|more| - 1]
  {
  }

  /** What is credited and what is missed is what the socket counted in between. */
  lemma {:induction false} Telescopes(start: Start, es: seq<Event>, more: seq<Event>, i: nat)
    ensures var a, a', d := AccountOf(start, es, i), AccountOf(start, es + more, i), Missed(start, es, more, i);
      var c, c' := CountersOf(start, es), CountersOf(start, es + more);
      && a'.delivered + d.delivered == a.delivered + c'.delivered - c.delivered
      && a'.lost + d.lost == a.lost + c'.lost - c.lost
    decreases |more|
  {
    if more == [] {
      assert es + more == es;
    } else {
      Telescopes(start, es, more[..|more| - 1], i);
      Unfold(es, more);
    }
  }

  lemma {:induction false} UncreditedIsEmpty(start: Start, es: seq<Event>, i: nat)
    requires AccountOf(start, es, i).credit == None
    ensures AccountOf(start, es, i).delivered == AccountOf(start, es, i).lost == 0
  {
    if es != [] {
      UncreditedIsEmpty(start, es[..|es| - 1], i);
    }
  }

  lemma HeldExactly(held: int, credited: int, missed: int, sum: int)
    requires held == Wrap32(credited) && credited + missed == sum
    ensures held == Wrap32(sum) <==> Same32(missed, 0)
  {
    var d := Wrap32(sum) - held;
    assert (missed - d) % TWO32 == 0;
  }

  /** An interval holds what the socket counted between two moments exactly if what it missed
      is nothing, as 32-bit counters. */
  ghost predicate SpansUnlessMissed(v: Interval, d: Deltas, c: Counters, c': Counters) {
    && (v.delivered == Wrap32(c'.delivered - c.delivered) <==> Same32(d.delivered, 0))
    && (v.lost == Wrap32(c'.lost - c.lost) <==> Same32(d.lost, 0))
  }

  /** Whatever happens from a moment on at which nothing is credited to an interval yet: it
      holds what the socket has counted since then, exactly if what it missed adds up to
      nothing as a 32-bit counter. */
  lemma HoldsSince(start: Start, es: seq<Event>, more: seq<Event>, i: nat)
    requires Run(start, es + more).Running? && i < |Run(start, es + more).m.log|
    requires AccountOf(start, es, i).credit == None
    ensures SpansUnlessMissed(Run(start, es + more).m.log[i], Missed(start, es, more, i),
                              CountersOf(start, es), CountersOf(start, es + more))
  {
    IntervalShows(start, es + more, i);
    Telescopes(start, es, more, i);
    UncreditedIsEmpty(start, es, i);
    var log := Run(start, es + more).m.log;
    AccountDecides(log[i], Older(log, i), AccountOf(start, es + more, i), Missed(start, es, more, i),
                   CountersOf(start, es), CountersOf(start, es + more));
  }

  lemma AccountDecides(v: Interval, older: Interval, a: Account, d: Deltas, c: Counters, c': Counters)
    requires Shows(v, older, a)
    requires a.delivered + d.delivered == c'.delivered - c.delivered && a.lost + d.lost == c'.lost - c.lost
    ensures SpansUnlessMissed(v, d, c, c')
  {
    HeldExactly(v.delivered, a.delivered, d.delivered, c'.delivered - c.delivered);
    HeldExactly(v.lost, a.lost, d.lost, c'.lost - c.lost);
  }

  /** Every ACK among the later events is credited to interval i. */
  ghost predicate AllCredited(start: Start, es: seq<Event>, more: seq<Event>, i: nat)
    decreases |more|
  {
    more == [] ||
    (AllCredited(start, es, more[..|more| - 1], i) &&
     (more[|more| - 1].AckEvent? ==> CountsFor(start, es + more[..|more| - 1], more[|more| - 1], i)))
  }

  lemma {:induction false} NoneMissed(start: Start, es: seq<Event>, more: seq<Event>, i: nat)
    requires AllCredited(start, es, more, i)
    ensures Missed(start, es, more, i) == Deltas(0, 0)
    decreases |more|
  {
    if more != [] {
      NoneMissed(start, es, more[..|more| - 1], i);
    }
  }

  /** An interval holds what the socket counted between two moments. */
  ghost predicate Spans(v: Interval, c: Counters, c': Counters) {
    v.delivered == Wrap32(c'.delivered - c.delivered) && v.lost == Wrap32(c'.lost - c.lost)
  }

  lemma SpansWithoutMisses(v: Interval, c: Counters, c': Counters)
    requires SpansUnlessMissed(v, Deltas(0, 0), c, c')
    ensures Spans(v, c, c')
  {
  }

  lemma ExtendsAt(m: Model, m': Model, i: nat)
    requires Extends(m, m') && i < m.r
    ensures i < |m.log| && i < |m'.log| && m'.log[i] == m.log[i]
  {
    assert m'.log[..m.r][i] == m.log[..m.r][i];
  }

  /** From the first ACK that passed an interval's mark to the one that completed it, with
      every ACK in between credited: for the rest of the run the interval holds the socket's
      delivered and lost at the latter, less their values just before the former. */
  lemma CompletedHolds(start: Start, es: seq<Event>, more: seq<Event>, rest: seq<Event>, i: nat)
    requires Run(start, es + more + rest).Running? && Run(start, es + more).Running?
    requires AccountOf(start, es, i).credit == None && AllCredited(start, es, more, i)
    requires i < Run(start, es + more).m.r
    ensures i < |Run(start, es + more + rest).m.log|
    ensures Spans(Run(start, es + more + rest).m.log[i], CountersOf(start, es), CountersOf(start, es + more))
  {
    NoneMissed(start, es, more, i);
    HoldsSince(start, es, more, i);
    SpansWithoutMisses(Run(start, es + more).m.log[i], CountersOf(start, es), CountersOf(start, es + more));
    RunFreezes(start, es + more, rest);
    ExtendsAt(Run(start, es + more).m, Run(start, es + more + rest).m, i);
  }

  /** The later events are sampled ACKs, before which the count of packets never falls below
      what it was at first. */
  predicate Steady(start: Start, es: seq<Event>, more: seq<Event>)
    decreases |more|
  {
    more == [] ||
    (Steady(start, es, more[..|more| - 1]) && more[|more| - 1].AckEvent? && more[|more| - 1].sampled
     && CountersOf(start, es).counted <= CountersOf(start, es + more[..|more| - 1]).counted)
  }

  lemma BaseStays(r: RunResult, e: Event, i: nat)
    requires r.Running? && Valid(r.m) && Next(r, e).Running? && i < |r.m.log|
    ensures i < |Next(r, e).m.log| && Next(r, e).m.log[i].sentBase == r.m.log[i].sentBase
  {
    if e.AckEvent? && e.sampled {
      AckMoves(r.m, e.sock, i);
    }
  }

  lemma {:induction false} BaseOfRun(start: Start, es: seq<Event>, more: seq<Event>, i: nat)
    requires Run(start, es).Running? && i < |Run(start, es).m.log| && Run(start, es + more).Running?
    ensures var log, log' := Run(start, es).m.log, Run(start, es + more).m.log;
      i < |log'| && log'[i].sentBase == log[i].sentBase
    decreases |more|
  {
    if more == [] {
      assert es + more == es;
    } else {
      Unfold(es, more);
      RunThen(start, es + more[..|more| - 1], more[|more| - 1]);
      BaseOfRun(start, es, more[..|more| - 1], i);
      BaseStays(Run(start, es + more[..|more| - 1]), more[|more| - 1], i);
    }
  }

  /** Each of the later events finds interval i receiving. */
  ghost predicate Remains(start: Start, es: seq<Event>, more: seq<Event>, i: nat)
    decreases |more|
  {
    more == [] ||
    (Remains(start, es, more[..|more| - 1], i)
     && Run(start, es + more[..|more| - 1]).Running? && Run(start, es + more[..|more| - 1]).m.r == i)
  }

  /** Once passed, the mark of the receiving interval stays passed until it is complete: then
      every ACK is credited to it. */
  lemma {:induction false} MarkStaysPassed(start: Start, es: seq<Event>, more: seq<Event>, i: nat)
    requires Run(start, es).Running? && i < |Run(start, es).m.log|
    requires PassedFirst(Run(start, es).m.log[i].sentBase, CountersOf(start, es).counted)
    requires Steady(start, es, more) && Remains(start, es, more, i)
    ensures AllCredited(start, es, more, i)
    decreases |more|
  {
    if more != [] {
      MarkStaysPassed(start, es, more[..|more| - 1], i);
      BaseOfRun(start, es, more[..|more| - 1], i);
    }
  }

  /** The composition, for an ordinary interval: all its ACKs have samples, and the count of
      packets does not fall once it has passed the mark. Then the interval holds, for the
      rest of the run, what the socket delivered and lost from just before the first ACK that
      passed the mark to the one that completed it. */
  lemma SteadyIntervalHolds(start: Start, es: seq<Event>, more: seq<Event>, rest: seq<Event>, i: nat)
    requires Run(start, es).Running? && Run(start, es + more).Running? && Run(start, es + more + rest).Running?
    requires i < |Run(start, es).m.log| && Remains(start, es, more, i) && Run(start, es + more).m.r == i + 1
    requires AccountOf(start, es, i).credit == None && Steady(start, es, more)
    requires PassedFirst(Run(start, es).m.log[i].sentBase, CountersOf(start, es).counted)
    ensures i < |Run(start, es + more + rest).m.log|
    ensures Spans(Run(start, es + more + rest).m.log[i], CountersOf(start, es), CountersOf(start, es + more))
  {
    MarkStaysPassed(start, es, more, i);
    CompletedHolds(start, es, more, rest, i);
  }

  /** An interval can be complete without any ACK credited to it: where the first ACK with a
      sample comes after the interval's time and counts all its packets. */
  lemma CompletesUncredited(start: Start, sock: Sock)
    requires start.counted == 0 && Wrap64(sock.mstamp - start.sock.mstamp) >= MONITOR_INTERVAL
    requires 1 <= sock.segsOut <= Wrap32(sock.delivered + sock.lost)
    ensures var es := [AckEvent(sock, true)]; var r := Run(start, es);
      r.Running? && r.m.r == 1 && r.m.log[0].ended == sock.segsOut && AccountOf(start, es, 0) == OPENED
  {
    var e := AckEvent(sock, true);
    var m := Init(start.counted, start.lostBase, start.deliveredBase, start.sock);
    assert Run(start, []).m == m;
    RunThen(start, [], e);
    assert [] + [e] == [e];
    FirstAckCompletes(m, sock);
    AccountGrows(start, [], e, 0);
  }

  lemma FirstAckCompletes(m: Model, sock: Sock)
    requires Valid(m) && |m.log| == 1 && m.r == 0 && m.log[0].sentBase >= 1 && m.counted == 0
    requires SendEnds(m.log[0], sock) && 1 <= sock.segsOut <= Wrap32(sock.delivered + sock.lost)
    requires m.doubleCounted == 0
    ensures !Exhausts(m, sock)
    ensures var m' := Ack(m, sock, true);
      m'.r == 1 && m'.log[0].ended == sock.segsOut && AckPosts(m, m', sock, 0, OPENED) == OPENED
  {
    AckEnds(m, sock);
  }
}
