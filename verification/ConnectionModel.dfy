/** One slot of src/lib/spine.c over its whole life: starts, frees, messages from the
    controller and invocations from the ACK path, with everything the slot does to the
    outside recorded in a trace. */
module ConnectionModel {
  import opened Machine
  import opened Messages
  import opened Options
  import opened Staging

  const CREATE_TIMEOUT_US: int := 100_000
  const SPINE_OK: int := 1
  const CREATE_PENDING: int := -72
  const NOT_INITIALIZED: int := -73

  /** What a slot does that others can see, and the two ends of a connection's life. */
  datatype Call =
    | Started
    | Released
    | Attempt(at: u64)
    | SetParams(params: seq<u64>)
    | Fetch(requestId: u32)
    | Reply(replyId: u32, fields: seq<u64>)

  /** `writes` are the register writes staged since the registers were last cleared. */
  datatype Conn = Conn(
    index: u16, lastCreate: u64, sentCreate: bool,
    writes: seq<UpdateField>, measure: Option<u64>, trace: seq<Call>)

  /** The zeroed memory of the table. */
  const BLANK_SLOT := Conn(0, 0, false, [], None, [])

  /** The two clock readings of a CREATE, in nanoseconds since the module was loaded: one
      for the time since the last attempt, one for the attempt itself. */
  datatype Clock = Clock(checked: u64, stamped: u64)

  /** `since_usecs`. */
  function SinceUsecs(now: u64, earlier: u64): int { Wrap64(now - earlier) / 1000 }

  // ------------------------------------------------------------ steps

  predicate TooEarly(c: Conn, clock: Clock) {
    c.lastCreate != 0 && SinceUsecs(clock.checked, c.lastCreate) < CREATE_TIMEOUT_US
  }

  /** send_conn_create: the value it returns, given the outcome of send_msg. */
  function CreateResult(c: Conn, clock: Clock, sent: int): int {
    if TooEarly(c, clock) then CREATE_PENDING
    else if c.index < 1 then NOT_INITIALIZED
    else sent
  }

  function AfterCreate(c: Conn, clock: Clock): Conn {
    if TooEarly(c, clock) || c.index < 1 then c
    else c.(lastCreate := clock.stamped, trace := c.trace + [Attempt(clock.stamped)])
  }

  /** The attempt, and whether it succeeded. */
  function TryCreate(c: Conn, clock: Clock, sent: int): Conn {
    var d := AfterCreate(c, clock);
    if CreateResult(c, clock, sent) < 0 then d else d.(sentCreate := true)
  }

  /** spine_connection_start once the slot is claimed: fresh private state, but the time of
      the slot's last CREATE is kept. */
  function Start(c: Conn, sid: u16, clock: Clock, sent: int): Conn {
    TryCreate(Conn(sid, c.lastCreate, false, [], None, c.trace + [Started]), clock, sent)
  }

  /** spine_connection_free. */
  function Free(c: Conn): Conn { c.(index := 0, sentCreate := false, trace := c.trace + [Released]) }

  /** stage_multiple_updates and stage_measure_request. */
  function StageFields(c: Conn, fs: seq<UpdateField>): Conn { c.(writes := c.writes + Accepted(fs)) }

  function StageRequest(c: Conn, id: u64): Conn { c.(measure := Some(id)) }

  /** What an invocation does about a pending request, after the parameters. */
  function Answers(c: Conn, reply: Option<seq<u64>>): (calls: seq<Call>)
    ensures forall i :: 0 <= i < |calls| ==> !calls[i].SetParams?
  {
    if c.measure == None || reply == None then []
    else [Fetch(Wrap32(c.measure.value))] +
         (if |reply.value| > 0 then [Reply(Wrap32(c.measure.value), reply.value)] else [])
  }

  /** What an invocation calls, once the connection is known to the controller. */
  function Deliveries(c: Conn, reply: Option<seq<u64>>): seq<Call> {
    var params := Pending(LastWrites(c.writes));
    (if |params| > 0 then [SetParams(params)] else []) + Answers(c, reply)
  }

  /** spine_invoke; `reply` is what fetch_measurements returns, None where the congestion
      control has no such callback. */
  function Invoke(c: Conn, clock: Clock, sent: int, reply: Option<seq<u64>>): Conn {
    if !c.sentCreate then TryCreate(c, clock, sent)
    else c.(writes := [], measure := None, trace := c.trace + Deliveries(c, reply))
  }

  /** The value spine_invoke returns; `answered` is the outcome of send_msg for a report. */
  function InvokeResult(c: Conn, reply: Option<seq<u64>>, answered: int): int {
    if !c.sentCreate then SPINE_OK
    else if c.measure == None || reply == None || reply.value == [] then 0
    else if c.index < 1 then NOT_INITIALIZED
    else answered
  }

  // ------------------------------------------------------------ runs

  /** Messages reach a slot, and the ACK path invokes it, only while it is in use. */
  datatype Event =
    | StartEvent(sid: u16, clock: Clock, sent: int)
    | FreeEvent
    | FieldsEvent(fs: seq<UpdateField>)
    | RequestEvent(id: u64)
    | InvokeEvent(clock: Clock, sent: int, reply: Option<seq<u64>>)

  function Step(c: Conn, e: Event): Conn {
    match e
    case StartEvent(sid, clock, sent) => if c.index == 0 && sid > 0 then Start(c, sid, clock, sent) else c
    case FreeEvent => if c.index != 0 then Free(c) else c
    case FieldsEvent(fs) => if c.index != 0 then StageFields(c, fs) else c
    case RequestEvent(id) => if c.index != 0 then StageRequest(c, id) else c
    case InvokeEvent(clock, sent, reply) => if c.index != 0 then Invoke(c, clock, sent, reply) else c
  }

  function Run(es: seq<Event>): Conn {
    if es == [] then BLANK_SLOT else Step(Run(es[..|es| - 1]), es[|es| - 1])
  }

  // ------------------------------------------------------------ create comes first

  /** What the events of a run say: whether the slot is in use, when the latest attempt to
      send a CREATE was made on it, 0 if there was none, and whether the controller knows
      the connection in use. */
  datatype Past = Past(inUse: bool, lastTry: u64, known: bool)

  /** The clock readings of an event, if it makes any. */
  function Reading(e: Event): Option<Clock> {
    match e
    case StartEvent(_, clock, _) => Some(clock)
    case InvokeEvent(clock, _, _) => Some(clock)
    case _ => None
  }

  /** The event starts a connection on a slot that was free. */
  predicate StartsAt(p: Past, e: Event) { e.StartEvent? && e.sid > 0 && !p.inUse }

  /** A start asks for the CREATE, and every invocation does as long as the controller does
      not know the connection. */
  predicate AsksAt(p: Past, e: Event)
    ensures AsksAt(p, e) ==> e.StartEvent? || e.InvokeEvent?
  {
    StartsAt(p, e) || (e.InvokeEvent? && p.inUse && !p.known)
  }

  /** The attempt is made unless there was one on this slot less than 100 milliseconds ago. */
  predicate TriesAt(p: Past, e: Event)
    ensures TriesAt(p, e) ==> e.StartEvent? || e.InvokeEvent?
  {
    AsksAt(p, e) && !(p.lastTry != 0 && Wrap64(e.clock.checked - p.lastTry) < 100_000_000)
  }

  function PastAfter(p: Past, e: Event): Past {
    Past((p.inUse || StartsAt(p, e)) && !e.FreeEvent?,
         if TriesAt(p, e) then e.clock.stamped else p.lastTry,
         if AsksAt(p, e) then TriesAt(p, e) && e.sent >= 0 else p.known && !e.FreeEvent?)
  }

  function PastOf(es: seq<Event>): Past {
    if es == [] then Past(false, 0, false) else PastAfter(PastOf(es[..|es| - 1]), es[|es| - 1])
  }

  predicate InUse(es: seq<Event>) { PastOf(es).inUse }

  predicate Known(es: seq<Event>) { PastOf(es).known }

  function LastTry(es: seq<Event>): u64 { PastOf(es).lastTry }

  predicate Starts(es: seq<Event>, e: Event) { StartsAt(PastOf(es), e) }

  predicate Tries(es: seq<Event>, e: Event)
    ensures Tries(es, e) ==> e.StartEvent? || e.InvokeEvent?
  {
    TriesAt(PastOf(es), e)
  }

  /** The number of events before the latest start of a connection. */
  function LatestStart(es: seq<Event>): nat {
    if es == [] then 0
    else if Starts(es[..|es| - 1], es[|es| - 1]) then |es| - 1
    else LatestStart(es[..|es| - 1])
  }

  /** Event k makes an attempt at which send_msg does not fail. */
  predicate Succeeds(es: seq<Event>, k: nat) {
    k < |es| && Tries(es[..k], es[k]) && es[k].sent >= 0
  }

  /** Some attempt since the latest start succeeded. */
  ghost predicate SucceededOnce(es: seq<Event>) {
    exists k: nat :: LatestStart(es) <= k && Succeeds(es, k)
  }

  lemma OneMoreEvent(before: seq<Event>, e: Event)
    ensures var es := before + [e];
      SucceededOnce(es) <==> (Tries(before, e) && e.sent >= 0) || (!Starts(before, e) && SucceededOnce(before))
  {
    var es, n := before + [e], |before|;
    assert es[..n] == before;
    forall k: nat | k < n ensures Succeeds(es, k) <==> Succeeds(before, k) {
      assert before[..k] == es[..k];
    }
    LatestStartIsPast(before);
    if Tries(before, e) && e.sent >= 0 {
      assert Succeeds(es, n);
    }
    if !Starts(before, e) && SucceededOnce(before) {
      var k: nat :| LatestStart(before) <= k && Succeeds(before, k);
      assert Succeeds(es, k);
    }
    if SucceededOnce(es) {
      var k: nat :| LatestStart(es) <= k && Succeeds(es, k);
      assert k < n ==> Succeeds(before, k);
    }
  }

  lemma {:induction false} LatestStartIsPast(es: seq<Event>)
    ensures LatestStart(es) <= |es|
  {
    if es != [] {
      LatestStartIsPast(es[..|es| - 1]);
    }
  }

  /** The controller knows the connection exactly if the slot is in use and, since the latest
      start, some start or invocation made an attempt, not withheld, at which send_msg did
      not fail. */
  lemma {:induction false} KnownExactly(es: seq<Event>)
    ensures Known(es) <==> InUse(es) && SucceededOnce(es)
  {
    if es != [] {
      var before, e := es[..|es| - 1], es[|es| - 1];
      KnownExactly(before);
      OneMoreEvent(before, e);
      assert before + [e] == es;
    }
  }

  lemma Withheld(now: u64, earlier: u64)
    ensures SinceUsecs(now, earlier) < CREATE_TIMEOUT_US <==> Wrap64(now - earlier) < 100_000_000
  {
  }

  /** The slot's fields say what the events say. */
  predicate Agrees(c: Conn, p: Past) {
    c.sentCreate == p.known && c.lastCreate == p.lastTry && (c.index != 0) == p.inUse && (p.known ==> p.inUse)
  }

  /** The calls an event adds to the trace. */
  function CallsAt(p: Past, c: Conn, e: Event): seq<Call> {
    if AsksAt(p, e) then
      (if StartsAt(p, e) then [Started] else []) + (if TriesAt(p, e) then [Attempt(e.clock.stamped)] else [])
    else if e.InvokeEvent? && p.inUse then Deliveries(c, e.reply)
    else if e.FreeEvent? && p.inUse then [Released]
    else []
  }

  lemma StepAgrees(c: Conn, p: Past, e: Event)
    requires Agrees(c, p)
    ensures Agrees(Step(c, e), PastAfter(p, e))
    ensures Step(c, e).trace == c.trace + CallsAt(p, c, e)
  {
    if e.StartEvent? || e.InvokeEvent? {
      Withheld(e.clock.checked, p.lastTry);
    }
  }

  lemma {:induction false} RunAgrees(es: seq<Event>)
    ensures Agrees(Run(es), PastOf(es))
  {
    if es != [] {
      RunAgrees(es[..|es| - 1]);
      StepAgrees(Run(es[..|es| - 1]), PastOf(es[..|es| - 1]), es[|es| - 1]);
    }
  }

  /** sent_create is set, after every run and whatever connections used the slot, exactly if
      the slot is in use and since the latest start some start or invocation made an attempt,
      not withheld, at which send_msg did not fail. */
  lemma SentExactly(es: seq<Event>)
    ensures Run(es).sentCreate <==> InUse(es) && SucceededOnce(es)
    ensures Run(es).sentCreate == Known(es) && Run(es).lastCreate == LastTry(es) && (Run(es).index != 0) == InUse(es)
  {
    RunAgrees(es);
    KnownExactly(es);
  }

  predicate IsCallback(x: Call) { x.SetParams? || x.Fetch? || x.Reply? }

  /** An event makes one attempt if it tries, and callbacks only if it is an invocation of a
      connection that the controller knows. */
  lemma CallsAre(p: Past, c: Conn, e: Event)
    ensures var calls := CallsAt(p, c, e);
      && (forall i :: 0 <= i < |calls| && IsCallback(calls[i]) ==> e.InvokeEvent? && p.known)
      && (forall i :: 0 <= i < |calls| && calls[i].Attempt? ==> TriesAt(p, e) && calls[i].at == e.clock.stamped)
      && (TriesAt(p, e) ==> |calls| > 0 && calls[|calls| - 1] == Attempt(e.clock.stamped))
  {
  }

  lemma EventCalls(es: seq<Event>, e: Event)
    ensures Run(es + [e]).trace == Run(es).trace + CallsAt(PastOf(es), Run(es), e)
  {
    assert (es + [e])[..|es|] == es;
    RunAgrees(es);
    StepAgrees(Run(es), PastOf(es), e);
  }

  /** The event that wrote this entry of the trace. */
  ghost predicate Wrote(es: seq<Event>, k: nat, i: nat) {
    k < |es| && |Run(es[..k]).trace| <= i < |Run(es[..k + 1]).trace|
  }

  /** Over every run of a slot, whatever connections use it in turn: no parameter and no
      measurement callback runs before the CREATE of the connection was sent; whichever event
      made a callback, the controller knew the connection when it came. */
  lemma {:induction false} CreateComesFirst(es: seq<Event>, i: nat)
    requires i < |Run(es).trace| && IsCallback(Run(es).trace[i])
    ensures exists k: nat :: Wrote(es, k, i) && Known(es[..k])
  {
    if es != [] {
      var n := |es| - 1;
      EventCalls(es[..n], es[n]);
      CallsAre(PastOf(es[..n]), Run(es[..n]), es[n]);
      assert es[..n] + [es[n]] == es == es[..n + 1];
      if i < |Run(es[..n]).trace| {
        CreateComesFirst(es[..n], i);
        var k: nat :| Wrote(es[..n], k, i) && Known(es[..n][..k]);
        assert es[..n][..k] == es[..k] && es[..n][..k + 1] == es[..k + 1];
        assert Wrote(es, k, i);
      } else {
        assert Wrote(es, n, i);
      }
    }
  }

  /** An invocation of a connection that the controller does not know retries the CREATE
      exactly if the last attempt on the slot was at least 100 milliseconds ago, or there was
      none; the controller knows the connection from then on exactly if send_msg does not
      fail. Nothing that is staged is lost. */
  lemma RetryIsMade(es: seq<Event>, clock: Clock, sent: int, reply: Option<seq<u64>>)
    requires InUse(es) && !Known(es)
    ensures var e := InvokeEvent(clock, sent, reply);
      var c, c', due := Run(es), Run(es + [e]), LastTry(es) == 0 || Wrap64(clock.checked - LastTry(es)) >= 100_000_000;
      && c'.trace == c.trace + (if due then [Attempt(clock.stamped)] else [])
      && (Known(es + [e]) <==> due && sent >= 0)
      && c'.writes == c.writes && c'.measure == c.measure
  {
    var e := InvokeEvent(clock, sent, reply);
    assert (es + [e])[..|es|] == es;
    RunAgrees(es);
    Withheld(clock.checked, LastTry(es));
  }

  /** spine_invoke returns the outcome of sending a report if it sends one, 0 if it has
      nothing to report, and SPINE_OK as long as the controller does not know the connection. */
  lemma InvokeReturns(es: seq<Event>, clock: Clock, sent: int, reply: Option<seq<u64>>, answered: int)
    requires InUse(es)
    ensures var calls := CallsAt(PastOf(es), Run(es), InvokeEvent(clock, sent, reply));
      InvokeResult(Run(es), reply, answered)
        == if !Known(es) then SPINE_OK else if exists x :: x in calls && x.Reply? then answered else 0
  {
    var c := Run(es);
    var calls := CallsAt(PastOf(es), c, InvokeEvent(clock, sent, reply));
    RunAgrees(es);
    if Known(es) && c.measure.Some? && reply.Some? && reply.value != [] {
      assert calls[|calls| - 1] == Reply(Wrap32(c.measure.value), reply.value);
    }
  }

  // ------------------------------------------------------------ staged updates wait

  /** All fields the messages of a run have brought since the latest start of a connection,
      up to the first bad one of each message. */
  function FieldsSince(es: seq<Event>): seq<UpdateField> {
    if es == [] then []
    else
      var before, e := es[..|es| - 1], es[|es| - 1];
      if Starts(before, e) then []
      else if e.FieldsEvent? && InUse(before) then FieldsSince(before) + Accepted(e.fs)
      else FieldsSince(before)
  }

  /** The latest request since then. */
  function RequestSince(es: seq<Event>): Option<u64> {
    if es == [] then None
    else
      var before, e := es[..|es| - 1], es[|es| - 1];
      if Starts(before, e) then None
      else if e.RequestEvent? && InUse(before) then Some(e.id)
      else RequestSince(before)
  }

  /** Since that start no invocation has found the connection announced. */
  predicate NotYetInvoked(es: seq<Event>) {
    if es == [] then true
    else
      var before, e := es[..|es| - 1], es[|es| - 1];
      Starts(before, e) ||
      (NotYetInvoked(before) && !(e.InvokeEvent? && InUse(before) && Known(before)))
  }

  /** A connection that the controller does not know has not been invoked successfully. */
  lemma {:induction false} UnannouncedIsWaiting(es: seq<Event>)
    ensures InUse(es) && !Known(es) ==> NotYetInvoked(es)
  {
    if es != [] {
      UnannouncedIsWaiting(es[..|es| - 1]);
    }
  }

  /** Over every run, until its first invocation after the CREATE a connection keeps every
      field accepted for it since its start, in order, and the latest request: no failed
      attempt, and nothing else that happens, loses any of them. */
  lemma {:induction false} StagedUpdatesWait(es: seq<Event>)
    ensures InUse(es) && NotYetInvoked(es) ==>
      Run(es).writes == FieldsSince(es) && Run(es).measure == RequestSince(es)
  {
    if es != [] {
      RunAgrees(es[..|es| - 1]);
      UnannouncedIsWaiting(es[..|es| - 1]);
      StagedUpdatesWait(es[..|es| - 1]);
    }
  }

  /** And that invocation delivers them: the last value of each register up to the first
      gap, and the answers to the request; then nothing is staged. */
  lemma FirstInvocationDelivers(es: seq<Event>, clock: Clock, sent: int, reply: Option<seq<u64>>)
    requires InUse(es) && NotYetInvoked(es) && Known(es)
    ensures var params := Pending(LastWrites(FieldsSince(es)));
      var out := Run(es + [InvokeEvent(clock, sent, reply)]);
      && out.trace == Run(es).trace + (if params == [] then [] else [SetParams(params)])
                      + Answers(Run(es).(measure := RequestSince(es)), reply)
      && out.writes == [] && out.measure == None
  {
    StagedUpdatesWait(es);
    RunAgrees(es);
    assert (es + [InvokeEvent(clock, sent, reply)])[..|es|] == es;
    InvocationDelivers(Run(es), clock, sent, reply, Pending(LastWrites(FieldsSince(es))));
  }

  lemma InvocationDelivers(c: Conn, clock: Clock, sent: int, reply: Option<seq<u64>>, params: seq<u64>)
    requires c.sentCreate && params == Pending(LastWrites(c.writes))
    ensures var out := Invoke(c, clock, sent, reply);
      && out.trace == c.trace + (if params == [] then [] else [SetParams(params)]) + Answers(c, reply)
      && out.writes == [] && out.measure == None
  {
    Regrouped(c.trace, if params == [] then [] else [SetParams(params)], Answers(c, reply));
  }

  lemma Regrouped(x: seq<Call>, y: seq<Call>, z: seq<Call>)
    ensures x + (y + z) == x + y + z
  {
  }

  // ------------------------------------------------------------ attempts keep apart

  function LastAttempt(trace: seq<Call>): Option<u64> {
    if trace == [] then None
    else if trace[|trace| - 1].Attempt? then Some(trace[|trace| - 1].at)
    else LastAttempt(trace[..|trace| - 1])
  }

  /** Each attempt comes at least 100 milliseconds after the one before it. */
  ghost predicate Spaced(trace: seq<Call>) {
    forall i :: 0 <= i < |trace| && trace[i].Attempt? && LastAttempt(trace[..i]).Some? ==>
      trace[i].at - LastAttempt(trace[..i]).value >= 100_000_000
  }

  /** The latest reading of a run. */
  function Latest(es: seq<Event>): u64 {
    if es == [] then 0
    else if Reading(es[|es| - 1]).Some? then Reading(es[|es| - 1]).value.stamped
    else Latest(es[..|es| - 1])
  }

  /** The clock never runs backwards and never reads zero. */
  predicate Timely(es: seq<Event>) {
    es == [] ||
    (Timely(es[..|es| - 1]) &&
     var r := Reading(es[|es| - 1]);
     r.Some? ==> Latest(es[..|es| - 1]) <= r.value.checked <= r.value.stamped && r.value.stamped > 0)
  }

  ghost predicate OnTime(c: Conn, latest: u64) {
    && Spaced(c.trace)
    && c.lastCreate <= latest
    && LastAttempt(c.trace) == (if c.lastCreate == 0 then None else Some(c.lastCreate))
  }

  lemma ExtendsSpaced(trace: seq<Call>, x: Call)
    requires Spaced(trace)
    requires x.Attempt? && LastAttempt(trace).Some? ==> x.at - LastAttempt(trace).value >= 100_000_000
    ensures Spaced(trace + [x])
    ensures LastAttempt(trace + [x]) == if x.Attempt? then Some(x.at) else LastAttempt(trace)
  {
    var longer := trace + [x];
    assert longer[..|trace|] == trace;
    forall i | 0 <= i < |longer| && longer[i].Attempt? && LastAttempt(longer[..i]).Some?
      ensures longer[i].at - LastAttempt(longer[..i]).value >= 100_000_000
    {
      if i < |trace| {
        assert longer[..i] == trace[..i];
      }
    }
  }

  lemma {:induction false} ExtendsSpacedBy(trace: seq<Call>, calls: seq<Call>)
    requires Spaced(trace) && forall i :: 0 <= i < |calls| ==> !calls[i].Attempt?
    ensures Spaced(trace + calls) && LastAttempt(trace + calls) == LastAttempt(trace)
    decreases |calls|
  {
    if calls == [] {
      assert trace + calls == trace;
    } else {
      ExtendsSpaced(trace, calls[0]);
      ExtendsSpacedBy(trace + [calls[0]], calls[1..]);
      assert trace + [calls[0]] + calls[1..] == trace + calls;
    }
  }

  lemma LongSince(now: u64, earlier: u64)
    requires earlier <= now
    ensures SinceUsecs(now, earlier) >= CREATE_TIMEOUT_US <==> now - earlier >= 100_000_000
  {
    WrapId64(now - earlier);
  }

  lemma WaitedLong(c: Conn, clock: Clock)
    requires !TooEarly(c, clock) && c.lastCreate <= clock.checked
    ensures c.lastCreate == 0 || clock.checked - c.lastCreate >= 100_000_000
  {
    if c.lastCreate != 0 {
      LongSince(clock.checked, c.lastCreate);
    }
  }

  /** An attempt that comes late enough, or the first one. */
  lemma AttemptIsOnTime(c: Conn, at: u64, latest: u64)
    requires OnTime(c, latest) && latest <= at && at > 0
    requires c.lastCreate == 0 || at - c.lastCreate >= 100_000_000
    ensures OnTime(c.(lastCreate := at, trace := c.trace + [Attempt(at)]), at)
  {
    ExtendsSpaced(c.trace, Attempt(at));
  }

  lemma CreateIsOnTime(c: Conn, clock: Clock, sent: int, latest: u64)
    requires OnTime(c, latest) && latest <= clock.checked <= clock.stamped && clock.stamped > 0
    ensures OnTime(TryCreate(c, clock, sent), clock.stamped)
  {
    if !TooEarly(c, clock) && c.index >= 1 {
      WaitedLong(c, clock);
      AttemptIsOnTime(c, clock.stamped, latest);
    }
  }

  lemma StepIsOnTime(c: Conn, e: Event, latest: u64, now: u64)
    requires OnTime(c, latest)
    requires Reading(e).None? ==> now == latest
    requires Reading(e).Some? ==> var k := Reading(e).value;
      latest <= k.checked <= k.stamped == now && now > 0
    ensures OnTime(Step(c, e), now)
  {
    match e
    case StartEvent(sid, clock, sent) =>
      ExtendsSpaced(c.trace, Started);
      CreateIsOnTime(Conn(sid, c.lastCreate, false, [], None, c.trace + [Started]), clock, sent, latest);
    case FreeEvent => ExtendsSpaced(c.trace, Released);
    case FieldsEvent(_) =>
    case RequestEvent(_) =>
    case InvokeEvent(clock, sent, reply) =>
      if c.sentCreate {
        ExtendsSpacedBy(c.trace, Deliveries(c, reply));
      } else {
        CreateIsOnTime(c, clock, sent, latest);
      }
  }

  /** Over every run of a slot with a clock that never runs backwards, successive CREATE
      attempts are at least 100 milliseconds apart, also across connections. */
  lemma {:induction false} AttemptsAreSpaced(es: seq<Event>)
    requires Timely(es)
    ensures OnTime(Run(es), Latest(es))
  {
    if es != [] {
      AttemptsAreSpaced(es[..|es| - 1]);
      StepIsOnTime(Run(es[..|es| - 1]), es[|es| - 1], Latest(es[..|es| - 1]), Latest(es));
    }
  }
}
