/** What the controller is told about the intervals of src/tcp_neo.c: each value of a report
    in terms of the ACKs of the run, and the sum of all reports. */
module NeoReports {
  import opened Machine
  import opened NeoLog
  import opened NeoRing
  import opened NeoRuns
  import opened NeoRefinement
  import opened NeoLedger
  import opened Options

  /** What a request is answered with after the events. */
  function Answer(start: Start, es: seq<Event>): seq<u64> { Fetch(RingRun(start, es)) }

  // ------------------------------------------------------------ one report

  /** The round-trip time, and the time, of an ACK; without one, the older ones. */
  function RttOf(ack: Option<Sock>, older: u64): u64 { if ack.Some? then ack.value.rtt else older }

  function TimeOf(ack: Option<Sock>, older: u64): u64 { if ack.Some? then ack.value.mstamp else older }

  /** The segments sent in interval i, as the difference of two sums. */
  ghost function SentBy(log: seq<Interval>, i: nat): int
    requires i < |log|
  {
    ReportedIn(log, i + 1) - ReportedIn(log, i)
  }

  /** The ten values about interval i, the last, and interval j, the one before: what was
      credited to each, the segments sent in each, the round-trip time at the last ACK
      credited to i and at the ACK that made i the one receiving, and for each the time
      between those two ACKs. Without such an ACK the times are those of the interval twenty
      before, whose slot it took over. */
  ghost predicate Describes(values: seq<u64>, log: seq<Interval>, i: nat, a: Account, j: nat, b: Account)
    requires i < |log| && j < |log|
  {
    && |values| == 10
    && values[0] == Wrap32(a.delivered) && values[1] == Wrap32(b.delivered)
    && values[2] == Wrap32(a.lost) && values[3] == Wrap32(b.lost)
    && values[4] == SentBy(log, i) && values[5] == SentBy(log, j)
    && values[6] == RttOf(a.credit, Older(log, i).endRtt)
    && values[7] == RttOf(a.arrival, Older(log, i).startRtt)
    && values[8] == Wrap64(TimeOf(a.credit, Older(log, i).recvEnd) - TimeOf(a.arrival, Older(log, i).recvStart))
    && values[9] == Wrap64(TimeOf(b.credit, Older(log, j).recvEnd) - TimeOf(b.arrival, Older(log, j).recvStart))
  }

  lemma ReportDescribes(log: seq<Interval>, i: nat, a: Account, j: nat, b: Account)
    requires i < |log| && j < |log|
    requires Shows(log[i], Older(log, i), a) && Shows(log[j], Older(log, j), b)
    ensures Describes(Report(log[i], log[j]), log, i, a, j, b)
  {
  }

  predicate AllZero(values: seq<u64>) { |values| == 10 && forall k :: 0 <= k < 10 ==> values[k] == 0 }

  /** The intervals that a reader finds: the last two completed ones, or the newer ones that
      have taken over their slots. */
  ghost function LastRead(m: Model): nat
    requires Valid(m)
  {
    if m.r < 2 then 0 else Holder(|m.log|, m.r - 1)
  }

  ghost function SecondRead(m: Model): nat
    requires Valid(m)
  {
    if m.r < 2 then 0 else Holder(|m.log|, m.r - 2)
  }

  /** Ten zeros while fewer than two intervals have completed, and otherwise a description
      of those two. */
  ghost predicate ReportIs(values: seq<u64>, m: Model, a: Account, b: Account)
    requires Valid(m)
  {
    if m.r < 2 then AllZero(values)
    else LastRead(m) < |m.log| && SecondRead(m) < |m.log| && Describes(values, m.log, LastRead(m), a, SecondRead(m), b)
  }

  lemma ReadsLog(m: Model)
    requires Valid(m)
    ensures LastRead(m) < |m.log| && SecondRead(m) < |m.log|
  {
  }

  lemma FetchIs(ring: Ring, m: Model, a: Account, b: Account)
    requires Stands(ring, m) && LastRead(m) < |m.log| && SecondRead(m) < |m.log|
    requires Shows(m.log[LastRead(m)], Older(m.log, LastRead(m)), a)
    requires Shows(m.log[SecondRead(m)], Older(m.log, SecondRead(m)), b)
    ensures ReportIs(Fetch(ring), m, a, b)
  {
    FetchReports(ring, m);
    ReportDescribes(m.log, LastRead(m), a, SecondRead(m), b);
  }

  /** In every run that does not exhaust the slots a request is answered with ten zeros while
      fewer than two intervals have completed, and otherwise by what was credited to the two
      intervals read, and when. */
  lemma RunReports(start: Start, es: seq<Event>)
    requires Run(start, es).Running?
    ensures var m := Run(start, es).m;
      ReportIs(Answer(start, es), m, AccountOf(start, es, LastRead(m)), AccountOf(start, es, SecondRead(m)))
  {
    var m := Run(start, es).m;
    ReadsLog(m);
    RunRefines(start, es);
    IntervalShows(start, es, LastRead(m));
    IntervalShows(start, es, SecondRead(m));
    FetchIs(RingRun(start, es), m, AccountOf(start, es, LastRead(m)), AccountOf(start, es, SecondRead(m)));
  }

  /** The two most recently completed intervals can be read: the sender is at most 17 ahead. */
  ghost predicate Fresh(m: Model) { Valid(m) && m.r >= 2 && |m.log| - 1 - m.r <= 17 }

  /** Then a report is about them. */
  lemma FreshReads(m: Model)
    requires Fresh(m)
    ensures LastRead(m) == m.r - 1 && SecondRead(m) == m.r - 2
  {
    FreshExactly(|m.log|, m.r);
  }

  /** Every interval but the first became the one receiving by an ACK. */
  lemma {:induction false} Arrived(start: Start, es: seq<Event>, i: nat)
    requires Run(start, es).Running? && i <= Run(start, es).m.r
    ensures AccountOf(start, es, i).arrival.Some? <==> i > 0
    decreases |es|
  {
    if es != [] {
      var before, e := es[..|es| - 1], es[|es| - 1];
      CursorStep(Run(start, before), e);
      if i <= Run(start, before).m.r {
        Arrived(start, before, i);
      } else {
        NextArrives(Run(start, before), e);
      }
    }
  }

  lemma NextArrives(r: RunResult, e: Event)
    requires r.Running? && Valid(r.m) && Next(r, e).Running? && Next(r, e).m.r == r.m.r + 1
    ensures e.AckEvent?
  {
  }

  // ------------------------------------------------------------ all reports

  lemma {:induction false} SamePrefix(log: seq<Interval>, log': seq<Interval>, n: nat, k: nat)
    requires k <= n <= |log| && n <= |log'| && log[..n] == log'[..n]
    ensures ReportedIn(log, k) == ReportedIn(log', k)
  {
    if k > 0 {
      assert log[..n][k - 1] == log'[..n][k - 1];
      SamePrefix(log, log', n, k - 1);
    }
  }

  /** The segments sent in the last of n completed intervals, and in the one before. */
  ghost predicate Tells(values: seq<u64>, log: seq<Interval>, n: nat) {
    2 <= n <= |log| && |values| == 10 && values[4] == SentBy(log, n - 1) && values[5] == SentBy(log, n - 2)
  }

  lemma ReportTells(values: seq<u64>, m: Model, a: Account, b: Account)
    requires Fresh(m) && ReportIs(values, m, a, b)
    ensures Tells(values, m.log, m.r)
  {
    FreshReads(m);
  }

  lemma FreshTells(start: Start, es: seq<Event>)
    requires Run(start, es).Running? && Fresh(Run(start, es).m)
    ensures Tells(Answer(start, es), Run(start, es).m.log, Run(start, es).m.r)
  {
    var m := Run(start, es).m;
    RunReports(start, es);
    ReportTells(Answer(start, es), m, AccountOf(start, es, LastRead(m)), AccountOf(start, es, SecondRead(m)));
  }

  lemma TellsLater(values: seq<u64>, m: Model, m': Model)
    requires Extends(m, m') && Tells(values, m.log, m.r)
    ensures Tells(values, m'.log, m.r) && m.r <= m'.r
  {
    SamePrefix(m.log, m'.log, m.r, m.r);
    SamePrefix(m.log, m'.log, m.r, m.r - 1);
    SamePrefix(m.log, m'.log, m.r, m.r - 2);
  }

  /** These values answer a request that came in the course of the run, when n intervals had
      completed and the last two of them could be read. */
  ghost predicate Answered(start: Start, es: seq<Event>, values: seq<u64>, n: nat) {
    exists before: seq<Event>, rest: seq<Event> :: AnsweredAt(start, before, rest, es, values, n)
  }

  ghost predicate AnsweredAt(start: Start, before: seq<Event>, rest: seq<Event>, es: seq<Event>,
                             values: seq<u64>, n: nat) {
    && before + rest == es
    && Run(start, before).Running? && Fresh(Run(start, before).m) && Run(start, before).m.r == n
    && values == Answer(start, before)
  }

  /** Such an answer stays true for the rest of the run. */
  lemma AnswerLasts(start: Start, es: seq<Event>, values: seq<u64>, n: nat)
    requires Run(start, es).Running? && Answered(start, es, values, n)
    ensures Tells(values, Run(start, es).m.log, n) && n <= Run(start, es).m.r
  {
    var before: seq<Event>, rest: seq<Event> :| AnsweredAt(start, before, rest, es, values, n);
    RunFreezes(start, before, rest);
    FreshTells(start, before);
    TellsLater(values, Run(start, before).m, Run(start, es).m);
  }

  /** The sum of value 4 over the answers. */
  function SumOfSent(answers: seq<seq<u64>>): int
    requires forall k :: 0 <= k < |answers| ==> |answers[k]| == 10
  {
    if answers == [] then 0 else SumOfSent(answers[..|answers| - 1]) + answers[|answers| - 1][4]
  }

  /** The answers tell of the intervals from the first on, one after the other. */
  ghost predicate AllTell(answers: seq<seq<u64>>, log: seq<Interval>) {
    forall k :: 0 <= k < |answers| ==> Tells(answers[k], log, k + 2)
  }

  lemma {:induction false} SumTells(answers: seq<seq<u64>>, log: seq<Interval>)
    requires AllTell(answers, log) && log != []
    ensures |answers| + 1 <= |log|
    ensures SumOfSent(answers) == ReportedIn(log, |answers| + 1) - ReportedIn(log, 1)
    decreases |answers|
  {
    if answers != [] {
      assert Tells(answers[|answers| - 1], log, |answers| + 1);
      SumTells(answers[..|answers| - 1], log);
    }
  }

  /** The segments reported for the first n intervals are those sent from the start of the
      first to the start of the one after the last, less one for each interval closed before
      the first segment, as 32-bit counters. */
  ghost predicate AddsUp(reported: int, log: seq<Interval>, n: nat) {
    n < |log| && Same32(reported, log[n].sentBase - log[0].sentBase - Empty(log, n))
  }

  lemma LogAddsUp(log: seq<Interval>, answers: seq<seq<u64>>)
    requires Tiles(log) && AllTell(answers, log) && 0 < |answers| && |answers| + 1 < |log|
    ensures |answers[0]| == 10
    ensures AddsUp(answers[0][5] + SumOfSent(answers), log, |answers| + 1)
  {
    assert Tells(answers[0], log, 2);
    SumTells(answers, log);
    SentAddsUp(log, |answers| + 1);
    ReportedIsSent(log, |answers| + 1);
  }

  /** So do value 5 of the first answer and value 4 of all of them, whenever the requests
      came, as long as there was one for each interval. */
  lemma ReportsAddUp(start: Start, es: seq<Event>, answers: seq<seq<u64>>)
    requires Run(start, es).Running? && answers != []
    requires forall k :: 0 <= k < |answers| ==> Answered(start, es, answers[k], k + 2)
    ensures |answers[0]| == 10 && AllTell(answers, Run(start, es).m.log)
    ensures AddsUp(answers[0][5] + SumOfSent(answers), Run(start, es).m.log, |answers| + 1)
  {
    forall k | 0 <= k < |answers|
      ensures Tells(answers[k], Run(start, es).m.log, k + 2) && k + 2 <= Run(start, es).m.r
    {
      AnswerLasts(start, es, answers[k], k + 2);
    }
    AnswerLasts(start, es, answers[|answers| - 1], |answers| + 1);
    RunTiles(start, es);
    LogAddsUp(Run(start, es).m.log, answers);
  }
}
