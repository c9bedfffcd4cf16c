/** The path of a parameter from the controller's message to the congestion control:
    python/src/msg_sender.py writes the message, spine_read_msg of src/lib/spine.c reads and
    stages it, and spine_invoke delivers it. */
module ControlPath {
  import opened Machine
  import opened Wire
  import opened Messages
  import opened Options
  import opened Staging
  import opened ConnectionModel

  // ------------------------------------------------------------ reading a message

  const BUFSIZE_NEGATIVE: int := -21
  const BUFSIZE_TOO_SMALL: int := -22
  const MSG_TOO_LONG: int := -23
  const BIGGEST_MSG_SIZE: int := 32678

  /** What spine_read_msg makes of a buffer before it looks the connection up. */
  datatype Parsed =
    | Rejected(code: int)
    | Fields(sid: u16, fs: seq<UpdateField>)
    | Request(sid: u16, id: u32)
    | Ignored(sid: u16)

  /** The sender's obligation: the buffer holds the header, and the body the kernel reads
      without checking its length. */
  predicate Complete(buf: seq<byte>) {
    && |buf| >= HEADER_LEN
    && (HeaderAt(buf).kind == MEASURE ==> |buf| > HEADER_LEN)
    && (HeaderAt(buf).kind == UPDATE_FIELDS ==>
        |buf| > HEADER_LEN && var n := ReadCount(buf[HEADER_LEN..]);
        n.Some? ==> |buf| >= HEADER_LEN + 4 + FIELD_LEN * n.value)
  }

  function ReadMessage(buf: seq<byte>, bufSize: int): Parsed
    requires Complete(buf)
  {
    var h := ReadHeader(buf);
    if h == None then Rejected(-1)
    else if bufSize < 0 then Rejected(BUFSIZE_NEGATIVE)
    else if h.value.len > bufSize then Rejected(BUFSIZE_TOO_SMALL)
    else if h.value.len > BIGGEST_MSG_SIZE then Rejected(MSG_TOO_LONG)
    else
      var sid := Wrap16(h.value.sockId);
      if h.value.kind == UPDATE_FIELDS then
        var n := ReadCount(buf[HEADER_LEN..]);
        if n == None then Rejected(-1) else Fields(sid, FieldsAt(buf, HEADER_LEN + 4, n.value))
      else if h.value.kind == MEASURE then Request(sid, CharToU32(buf[HEADER_LEN]))
      else Ignored(sid)
  }

  // ------------------------------------------------------------ writing a message

  /** The message the controller sends to update a connection. */
  function UpdateMessage(sid: u32, fs: seq<UpdateField>): (buf: seq<byte>)
    requires FIELD_LEN * |fs| + 12 < TWO16
    ensures |buf| == FIELD_LEN * |fs| + 12
  {
    HeaderBytes(UpdateHeader(sid, fs)) + UpdateBytes(fs)
  }

  function UpdateHeader(sid: u32, fs: seq<UpdateField>): (h: Header)
    requires FIELD_LEN * |fs| + 12 < TWO16
  {
    Header(UPDATE_FIELDS, |UpdateBytes(fs)| + HEADER_LEN, sid)
  }

  lemma FieldsArrive(fs: seq<UpdateField>)
    ensures FieldsAt(UpdateBytes(fs), 4, |fs|) == fs
  {
    FieldsRoundTrip(fs, Le(4, |fs|), []);
    NothingAfter(UpdateBytes(fs));
  }

  lemma NothingAfter(bs: seq<byte>)
    ensures bs + [] == bs
  {
  }

  lemma CountArrives(fs: seq<UpdateField>)
    requires |fs| < 128
    ensures ReadCount(UpdateBytes(fs)) == Some(|fs|)
  {
    CountSurvivesExactly(|fs|, FieldsBytes(fs));
  }

  lemma {:induction false} FieldsShift(head: seq<byte>, body: seq<byte>, at: nat, num: nat)
    requires at + FIELD_LEN * num <= |body|
    ensures FieldsAt(head + body, |head| + at, num) == FieldsAt(body, at, num)
  {
    if num > 0 {
      FieldsShift(head, body, at, num - 1);
      var p := at + FIELD_LEN * (num - 1);
      FieldShift(head, body, p);
    }
  }

  lemma FieldShift(head: seq<byte>, body: seq<byte>, p: nat)
    requires p + FIELD_LEN <= |body|
    ensures FieldAt(head + body, |head| + p) == FieldAt(body, p)
  {
    var buf, q := head + body, |head| + p;
    assert buf[q + 1..q + 5] == body[p + 1..p + 5];
    assert buf[q + 5..q + 13] == body[p + 5..p + 13];
  }

  lemma ReadsFields(buf: seq<byte>, body: seq<byte>, h: Header, fs: seq<UpdateField>, bufSize: int)
    requires |buf| >= HEADER_LEN && HeaderAt(buf) == h && h.kind == UPDATE_FIELDS
    requires h.len <= bufSize && h.len <= BIGGEST_MSG_SIZE
    requires buf[HEADER_LEN..] == body && |body| == 4 + FIELD_LEN * |fs|
    requires ReadCount(body) == Some(|fs|) && FieldsAt(buf, HEADER_LEN + 4, |fs|) == fs
    ensures Complete(buf) && ReadMessage(buf, bufSize) == Fields(Wrap16(h.sockId), fs)
  {
  }

  /** A message is rejected exactly if its kind is none of the four, if the header claims more
      than there is or than the largest message has, or if it claims more fields than can be. */
  lemma RejectedExactly(h: Header, body: seq<byte>, bufSize: int)
    requires Complete(HeaderBytes(h) + body)
    ensures ReadMessage(HeaderBytes(h) + body, bufSize).Rejected? <==>
      || h.kind !in {STATE, PARAM, UPDATE_FIELDS, MEASURE}
      || h.len > Min(bufSize, 32678)
      || (h.kind == UPDATE_FIELDS && body != [] && CharToU32(body[0]) > 222)
  {
    HeaderRoundTrip(h, body);
    assert (HeaderBytes(h) + body)[HEADER_LEN..] == body;
  }

  /** Up to 127 fields, of any registers and in any order, arrive as they were sent, at the
      connection they were sent to. */
  lemma UpdateArrives(sid: u16, fs: seq<UpdateField>, bufSize: int)
    requires |fs| < 128 && bufSize >= |UpdateMessage(sid, fs)|
    ensures Complete(UpdateMessage(sid, fs))
    ensures ReadMessage(UpdateMessage(sid, fs), bufSize) == Fields(sid, fs)
  {
    CountArrives(fs);
    FieldsArrive(fs);
    BodyArrives(UpdateMessage(sid, fs), UpdateHeader(sid, fs), UpdateBytes(fs), fs, bufSize);
  }

  lemma BodyArrives(buf: seq<byte>, h: Header, body: seq<byte>, fs: seq<UpdateField>, bufSize: int)
    requires buf == HeaderBytes(h) + body && h.kind == UPDATE_FIELDS && h.sockId < TWO16
    requires h.len <= bufSize && h.len <= BIGGEST_MSG_SIZE
    requires |body| == 4 + FIELD_LEN * |fs|
    requires ReadCount(body) == Some(|fs|) && FieldsAt(body, 4, |fs|) == fs
    ensures Complete(buf)
    ensures ReadMessage(buf, bufSize) == Fields(h.sockId, fs)
  {
    HeaderRoundTrip(h, body);
    FieldsShift(HeaderBytes(h), body, 4, |fs|);
    ReadsFields(buf, body, h, fs, bufSize);
    WrapId16(h.sockId);
  }

  // ------------------------------------------------------------ one connection

  /** `struct spine_connection` with its private state. */
  class Connection {
    var index: u16
    var lastCreate: u64
    var sentCreate: bool
    var pending: StagedUpdate
    ghost var writes: seq<UpdateField>
    ghost var trace: seq<Call>

    ghost function State(): Conn
      reads this, pending
    {
      Conn(index, lastCreate, sentCreate, writes, pending.Measure(), trace)
    }

    ghost function Repr(): set<object>
      reads this
    {
      {this, pending, pending.controlIsPending, pending.controlRegisters}
    }

    /** The register file is the last write to each register. */
    ghost predicate Valid()
      reads this, Repr()
    {
      pending.Valid() && pending.Contents() == LastWrites(writes)
    }

    constructor ()
      ensures Valid() && fresh(Repr())
      ensures State() == BLANK_SLOT
    {
      index, lastCreate, sentCreate := 0, 0, false;
      pending := new StagedUpdate();
      writes, trace := [], [];
    }

    /** send_conn_create. */
    method SendCreate(clock: Clock, sent: int) returns (ret: int)
      modifies `lastCreate, `trace
      ensures State() == AfterCreate(old(State()), clock)
      ensures ret == CreateResult(old(State()), clock, sent)
    {
      if lastCreate != 0 && SinceUsecs(clock.checked, lastCreate) < CREATE_TIMEOUT_US {
        return CREATE_PENDING;
      }
      if index < 1 {
        return NOT_INITIALIZED;
      }
      lastCreate := clock.stamped;
      trace := trace + [Attempt(clock.stamped)];
      return sent;
    }

    /** spine_connection_start, once the slot is claimed. */
    method StartConnection(sid: u16, clock: Clock, sent: int)
      modifies this
      ensures Valid() && fresh(Repr() - {this})
      ensures State() == Start(old(State()), sid, clock, sent)
    {
      index := sid;
      pending := new StagedUpdate();
      sentCreate := false;
      writes := [];
      trace := trace + [Started];
      TryToCreate(clock, sent);
    }

    /** Send the CREATE message and note whether it was sent. */
    method TryToCreate(clock: Clock, sent: int)
      modifies `lastCreate, `trace, `sentCreate
      ensures State() == TryCreate(old(State()), clock, sent)
    {
      var ret := SendCreate(clock, sent);
      if ret >= 0 {
        sentCreate := true;
      }
    }

    method FreeConnection()
      requires Valid()
      modifies this
      ensures Valid() && pending == old(pending)
      ensures State() == Free(old(State()))
    {
      sentCreate := false;
      trace := trace + [Released];
      index := 0;
    }

    /** The part of spine_read_msg that follows the lookup. */
    method Receive(msg: Parsed) returns (ret: int)
      requires Valid() && (msg.Fields? ==> InRange(msg.fs)) && (msg.Rejected? ==> msg.code < 0)
      modifies Repr()
      ensures Valid() && pending == old(pending)
      ensures State() == (match msg
                          case Fields(_, fs) => StageFields(old(State()), fs)
                          case Request(_, id) => StageRequest(old(State()), id)
                          case _ => old(State()))
      ensures msg.Rejected? ==> ret == msg.code
      ensures ret < 0 <==> msg.Rejected? || (msg.Fields? && Accepted(msg.fs) != msg.fs)
    {
      match msg
      case Rejected(code) => ret := code;
      case Ignored(_) => ret := SPINE_OK;
      case Request(_, id) =>
        pending.StageMeasure(id);
        ret := SPINE_OK;
      case Fields(_, fs) =>
        var ok := pending.StageMultiple(fs, writes);
        writes := writes + Accepted(fs);
        AllAccepted(fs);
        ret := if ok then SPINE_OK else -53;
    }

    /** The callbacks of spine_invoke: pending parameters, then a pending request. */
    method Deliver(reply: Option<seq<u64>>, answered: int) returns (ret: int)
      requires Valid()
      modifies `trace
      ensures trace == old(trace) + Deliveries(State(), reply)
      ensures sentCreate ==> ret == InvokeResult(old(State()), reply, answered)
    {
      ghost var calls := Deliveries(State(), reply);
      ghost var before := trace;
      ret := 0;
      var params := pending.Collect();
      if |params| > 0 {
        trace := trace + [SetParams(params)];
      }
      if pending.measureIsPending && reply.Some? {
        trace := trace + [Fetch(Wrap32(pending.measureRegister))];
        if |reply.value| > 0 {
          trace := trace + [Reply(Wrap32(pending.measureRegister), reply.value)];
          ret := SendMeasurement(answered);
        }
      }
      assert trace == before + calls;
    }

    /** send_measurement, as far as its result. */
    method SendMeasurement(answered: int) returns (ret: int)
      ensures ret == if index < 1 then NOT_INITIALIZED else answered
    {
      if index < 1 {
        return NOT_INITIALIZED;
      }
      return answered;
    }

    /** spine_invoke. `reply` stands for the callback fetch_measurements. */
    method InvokeConnection(clock: Clock, sent: int, reply: Option<seq<u64>>, answered: int) returns (ret: int)
      requires Valid()
      modifies Repr()
      ensures Valid() && pending == old(pending)
      ensures State() == Invoke(old(State()), clock, sent, reply)
      ensures ret == InvokeResult(old(State()), reply, answered)
    {
      if !sentCreate {
        TryToCreate(clock, sent);
        ret := SPINE_OK;
      } else {
        ret := Deliver(reply, answered);
        pending.Clear();
        writes := [];
      }
    }
  }

  lemma AllAccepted(fs: seq<UpdateField>)
    ensures Accepted(fs) == fs <==> forall i :: 0 <= i < |fs| ==> IsControl(fs[i])
  {
    if forall i :: 0 <= i < |fs| ==> IsControl(fs[i]) {
      AcceptedIs(fs, |fs|);
      assert fs[..|fs|] == fs;
    }
  }

  // ------------------------------------------------------------ end to end

  /** A register written by the controller is always a control register. */
  ghost predicate AllControl(fs: seq<UpdateField>) {
    forall i :: 0 <= i < |fs| ==> IsControl(fs[i])
  }

  /** From the bytes of the message to the call: on a connection whose CREATE was sent, up
      to 127 fields in any order and with any repetitions, which with the writes already
      staged cover registers 0 to n - 1, make the next invocation hand over exactly n
      parameters, each the value sent last for its register. */
  lemma EndToEnd(c: Conn, sid: u16, fs: seq<UpdateField>, n: nat, bufSize: int,
                 clock: Clock, sent: int, reply: Option<seq<u64>>)
    requires |fs| < 128 && AllControl(fs) && Contiguous(c.writes + fs, n) && n > 0
    requires bufSize >= |UpdateMessage(sid, fs)|
    requires c.sentCreate
    ensures Complete(UpdateMessage(sid, fs))
    ensures var msg := ReadMessage(UpdateMessage(sid, fs), bufSize);
      && msg.Fields? && msg.sid == sid && InRange(msg.fs)
      && var d := Invoke(StageFields(c, msg.fs), clock, sent, reply);
         exists params: seq<u64> ::
           && d.trace == c.trace + [SetParams(params)] + Answers(c, reply)
           && |params| == n
           && forall r: nat :: r < n ==> LastWrite(c.writes + fs, r) == Some(params[r])
  {
    UpdateArrives(sid, fs, bufSize);
    ContiguousInRange(c.writes, fs, n);
    StagedIsDelivered(c, fs, n, clock, sent, reply);
    ContiguousDelivery(c.writes + fs, n);
  }

  lemma ContiguousInRange(before: seq<UpdateField>, fs: seq<UpdateField>, n: nat)
    requires Contiguous(before + fs, n)
    ensures InRange(fs)
  {
    forall i | 0 <= i < |fs| ensures fs[i].regIndex < REGISTERS {
      assert (before + fs)[|before| + i] == fs[i];
      assert Writes(before + fs, fs[i].regIndex);
    }
  }

  lemma StagedIsDelivered(c: Conn, fs: seq<UpdateField>, n: nat, clock: Clock, sent: int,
                          reply: Option<seq<u64>>)
    requires AllControl(fs) && Contiguous(c.writes + fs, n) && n > 0
    requires c.sentCreate
    ensures Invoke(StageFields(c, fs), clock, sent, reply).trace
      == c.trace + [SetParams(Pending(LastWrites(c.writes + fs)))] + Answers(c, reply)
  {
    AllAccepted(fs);
    ContiguousDelivery(c.writes + fs, n);
    var params := [SetParams(Pending(LastWrites(c.writes + fs)))];
    assert Deliveries(StageFields(c, fs), reply) == params + Answers(c, reply);
    assert c.trace + (params + Answers(c, reply)) == c.trace + params + Answers(c, reply);
  }

  // ------------------------------------------------------------ a request and its answer

  /** The message the controller sends to request a measurement. */
  function RequestMessage(sid: u32, requestId: u32): (buf: seq<byte>)
    ensures |buf| == HEADER_LEN + 4
  {
    HeaderBytes(Header(MEASURE, HEADER_LEN + 4, sid)) + Le(4, requestId)
  }

  /** A request reaches the connection it was sent to, with the id its first byte spells. */
  lemma RequestArrives(sid: u16, requestId: u32, bufSize: int)
    requires bufSize >= HEADER_LEN + 4
    ensures Complete(RequestMessage(sid, requestId))
    ensures ReadMessage(RequestMessage(sid, requestId), bufSize) == Request(sid, EchoedId(requestId))
  {
    var h := Header(MEASURE, HEADER_LEN + 4, sid);
    HeaderRoundTrip(h, Le(4, requestId));
    ReadsRequest(RequestMessage(sid, requestId), h, Le(4, requestId)[0], bufSize);
    WrapId16(sid);
  }

  lemma ReadsRequest(buf: seq<byte>, h: Header, first: byte, bufSize: int)
    requires |buf| > HEADER_LEN && HeaderAt(buf) == h && h.kind == MEASURE
    requires h.len <= bufSize && h.len <= BIGGEST_MSG_SIZE && buf[HEADER_LEN] == first
    ensures Complete(buf) && ReadMessage(buf, bufSize) == Request(Wrap16(h.sockId), CharToU32(first))
  {
  }

  /** From the request's bytes to the report's: on a connection whose CREATE was sent, a
      request makes the next invocation fetch and answer under the id as it was read, and
      the controller reads from the bytes of that answer the connection, that id and every
      field. It is the id the controller asked with exactly if that is below 128 or among
      the 128 largest. */
  lemma AnswerEndToEnd(c: Conn, sid: u16, requestId: u32, fields: seq<u64>, bufSize: int,
                       clock: Clock, sent: int)
    requires c.sentCreate && 0 < |fields| <= MAX_REPORT_REG && bufSize >= HEADER_LEN + 4
    ensures Complete(RequestMessage(sid, requestId))
    ensures var msg := ReadMessage(RequestMessage(sid, requestId), bufSize);
      && msg.Request? && msg.sid == sid
      && (msg.id == requestId <==> requestId < 128 || requestId >= TWO32 - 128)
      && Invoke(StageRequest(c, msg.id), clock, sent, Some(fields)).trace
         == c.trace + Parameters(c) + [Fetch(msg.id), Reply(msg.id, fields)]
      && var report := WriteMeasure(REPORT_MSG_SIZE, sid, msg.id, fields);
         && report.Some? && |report.value| >= HEADER_LEN
         && HeaderAt(report.value).kind == MEASURE && HeaderAt(report.value).sockId == sid
         && ReadReport(report.value[HEADER_LEN..]) == Some(Report(msg.id, fields))
  {
    RequestArrives(sid, requestId, bufSize);
    CharSurvivesExactly(requestId);
    var id := EchoedId(requestId);
    MeasureRoundTrip(sid, id, fields);
    RequestIsAnswered(c, id, fields, clock, sent);
  }

  /** The parameters an invocation hands over first. */
  function Parameters(c: Conn): (calls: seq<Call>)
    ensures forall i :: 0 <= i < |calls| ==> calls[i].SetParams?
  {
    var params := Pending(LastWrites(c.writes));
    if |params| > 0 then [SetParams(params)] else []
  }

  lemma RequestIsAnswered(c: Conn, id: u32, fields: seq<u64>, clock: Clock, sent: int)
    requires c.sentCreate && |fields| > 0
    ensures Invoke(StageRequest(c, id), clock, sent, Some(fields)).trace
         == c.trace + Parameters(c) + [Fetch(id), Reply(id, fields)]
  {
    WrapId(id);
    var answers := [Fetch(id), Reply(id, fields)];
    assert Deliveries(StageRequest(c, id), Some(fields)) == Parameters(c) + answers;
    assert c.trace + (Parameters(c) + answers) == c.trace + Parameters(c) + answers;
  }

  // ------------------------------------------------------------ the senders

  /** send_vanilla_message and send_neo_message: one field for every key of the action
      set, in the order the set happens to be iterated. A key is named by its register. */
  function ActionFields(order: seq<u32>, values: map<u32, u64>): (fs: seq<UpdateField>)
    requires forall i :: 0 <= i < |order| ==> order[i] in values
    ensures |fs| == |order|
    ensures forall i :: 0 <= i < |fs| ==>
      fs[i] == UpdateField(VOLATILE_CONTROL_REG, order[i], values[order[i]])
  {
    seq(|order|, i requires 0 <= i < |order| =>
      UpdateField(VOLATILE_CONTROL_REG, order[i], values[order[i]]))
  }

  method BuildAction(order: seq<u32>, values: map<u32, u64>) returns (buf: Option<seq<byte>>)
    ensures buf == if forall i :: 0 <= i < |order| ==> order[i] in values
                   then Some(UpdateBytes(ActionFields(order, values))) else None
  {
    for i := 0 to |order|
      invariant forall j :: 0 <= j < i ==> order[j] in values
    {
      if order[i] !in values {
        return None;
      }
    }
    var msg := new UpdateMsg();
    for i := 0 to |order|
      invariant msg.Valid() && fresh(msg)
      invariant msg.fields == ActionFields(order, values)[..i]
    {
      msg.AddField(UpdateField(VOLATILE_CONTROL_REG, order[i], values[order[i]]));
    }
    assert ActionFields(order, values)[..|order|] == ActionFields(order, values);
    var bytes := msg.Serialize();
    return Some(bytes);
  }

  /** The order is an iteration of the keys 0 to n - 1: each of them, and nothing else. */
  ghost predicate Iterates(order: seq<u32>, n: nat) {
    n <= REGISTERS && forall r: u32 :: r in order <==> r < n
  }

  lemma {:induction false} LastWriteOfAction(order: seq<u32>, values: map<u32, u64>, r: u32)
    requires forall i :: 0 <= i < |order| ==> order[i] in values
    requires r in order
    ensures LastWrite(ActionFields(order, values), r) == Some(values[r])
  {
    var fs, k := ActionFields(order, values), |order| - 1;
    if order[k] != r {
      assert order == order[..k] + [order[k]];
      LastWriteOfAction(order[..k], values, r);
      assert fs[..k] == ActionFields(order[..k], values);
    }
  }

  lemma ActionIsContiguous(order: seq<u32>, values: map<u32, u64>, n: nat)
    requires forall i :: 0 <= i < |order| ==> order[i] in values
    requires Iterates(order, n)
    ensures Contiguous(ActionFields(order, values), n)
  {
    var fs := ActionFields(order, values);
    forall r: nat ensures Writes(fs, r) <==> r < n {
      if r < n {
        assert (r as u32) in order;
        var i :| 0 <= i < |order| && order[i] == r;
        assert fs[i].regIndex == r;
      }
      if Writes(fs, r) {
        var k :| 0 <= k < |fs| && fs[k].regIndex == r;
        assert order[k] in order;
      }
    }
  }

  /** An earlier action that was staged but not yet delivered covers no further register. */
  lemma OverStaged(before: seq<UpdateField>, fs: seq<UpdateField>, n: nat)
    requires Contiguous(fs, n) && forall k :: 0 <= k < |before| ==> before[k].regIndex < n
    ensures Contiguous(before + fs, n)
  {
    forall r: nat ensures Writes(before + fs, r) <==> r < n {
      assert Writes(fs, r) <==> r < n;
      if r < n {
        var k :| 0 <= k < |fs| && fs[k].regIndex == r;
        assert (before + fs)[|before| + k].regIndex == r;
      }
      if Writes(before + fs, r) {
        var k :| 0 <= k < |before + fs| && (before + fs)[k].regIndex == r;
        if k >= |before| {
          assert fs[k - |before|].regIndex == r;
        }
      }
    }
  }

  /** Whatever order the set of action keys is iterated in, and whatever earlier actions
      for the same registers still wait, the congestion control receives the values of the
      keys in register order: alpha, beta, gamma and delta for vanilla, bic_scale and beta
      for scubic, the action for neo. */
  lemma ActionsArriveInOrder(c: Conn, sid: u16, order: seq<u32>, values: map<u32, u64>, n: nat,
                             bufSize: int, clock: Clock, sent: int, reply: Option<seq<u64>>)
    requires forall i :: 0 <= i < |order| ==> order[i] in values
    requires Iterates(order, n) && n > 0 && |order| < 128
    requires c.sentCreate && forall k :: 0 <= k < |c.writes| ==> c.writes[k].regIndex < n
    requires bufSize >= |UpdateMessage(sid, ActionFields(order, values))|
    ensures Complete(UpdateMessage(sid, ActionFields(order, values)))
    ensures var msg := ReadMessage(UpdateMessage(sid, ActionFields(order, values)), bufSize);
      && msg.Fields? && msg.sid == sid
      && exists params: seq<u64> ::
           && Invoke(StageFields(c, msg.fs), clock, sent, reply).trace
              == c.trace + [SetParams(params)] + Answers(c, reply)
           && |params| == n
           && forall r: u32 :: r < n ==> r in values && params[r] == values[r]
  {
    var fs := ActionFields(order, values);
    ActionIsContiguous(order, values, n);
    OverStaged(c.writes, fs, n);
    EndToEnd(c, sid, fs, n, bufSize, clock, sent, reply);
    forall r: u32 | r < n ensures r in values && LastWrite(c.writes + fs, r) == Some(values[r]) {
      assert r in order;
      LastWriteOfAction(order, values, r);
      LaterWriteWins(c.writes, fs, r);
    }
  }
}
