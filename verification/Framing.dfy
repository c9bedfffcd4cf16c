/** Length-prefixed messages over a byte stream (python/src/ipc_socket.py): what the sender
    puts on the stream through partial sends, and what the receiver makes of any chunking. */
module Framing {
  import opened Wire
  import opened Messages
  import opened Options

  type Message = seq<byte>

  // ------------------------------------------------------------ the stream

  /** struct.pack("!H", …) raises for longer messages. */
  predicate Fits(m: Message) { |m| < 0x1_0000 }

  function Prefix(n: int): (h: seq<byte>)
    requires 0 <= n < 0x1_0000
    ensures |h| == 2
  {
    [n / 256, n % 256]
  }

  function LengthOf(h: seq<byte>): (n: nat)
    requires |h| == 2
    ensures n < 0x1_0000
  {
    Combine(h[0], h[1])
  }

  function Combine(hi: int, lo: int): int { 256 * hi + lo }

  function Frame(m: Message): (f: seq<byte>)
    requires Fits(m)
    ensures |f| == 2 + |m|
  {
    Prefix(|m|) + m
  }

  predicate AllFit(ms: seq<Message>) { forall i :: 0 <= i < |ms| ==> Fits(ms[i]) }

  /** The frames of some messages, back to back. */
  function Stream(ms: seq<Message>): seq<byte>
    requires AllFit(ms)
  {
    if ms == [] then [] else Frame(ms[0]) + Stream(ms[1..])
  }

  function Concat(parts: seq<seq<byte>>): seq<byte> {
    if parts == [] then [] else parts[0] + Concat(parts[1..])
  }

  lemma {:induction false} ConcatAppends(parts: seq<seq<byte>>, last: seq<byte>)
    ensures Concat(parts + [last]) == Concat(parts) + last
  {
    if parts == [] {
      assert Concat([last]) == last + Concat([]);
    } else {
      assert (parts + [last])[1..] == parts[1..] + [last];
      ConcatAppends(parts[1..], last);
    }
  }

  // ------------------------------------------------------------ reading

  /** One read: a short prefix or a body cut off by the end of the stream give nothing. */
  function ReadFrame(s: seq<byte>): (r: Option<Message>)
    ensures r.Some? ==> Fits(r.value) && 2 + |r.value| <= |s|
  {
    if |s| < 2 || |s| < 2 + LengthOf(s[..2]) then None
    else Some(s[2..2 + LengthOf(s[..2])])
  }

  /** Reading until the first failure, which closes the socket. */
  function Decode(s: seq<byte>): (ms: seq<Message>)
    ensures AllFit(ms)
    decreases |s|
  {
    match ReadFrame(s)
    case None => []
    case Some(m) => [m] + Decode(s[2 + |m|..])
  }

  lemma PrefixRoundTrip(n: int)
    requires 0 <= n < 0x1_0000
    ensures LengthOf(Prefix(n)) == n
  {
  }

  /** A frame is read back whatever follows it. */
  lemma FrameRoundTrip(m: Message, rest: seq<byte>)
    requires Fits(m)
    ensures ReadFrame(Frame(m) + rest) == Some(m)
    ensures (Frame(m) + rest)[2 + |m|..] == rest
  {
    PrefixRoundTrip(|m|);
    var s := Frame(m) + rest;
    assert s[..2] == Prefix(|m|);
    assert s[2..2 + |m|] == m;
  }

  /** Any part of a frame that is missing its end reads as nothing. */
  lemma PartialFrame(m: Message, k: nat)
    requires Fits(m) && k < |Frame(m)|
    ensures ReadFrame(Frame(m)[..k]) == None
  {
    PrefixRoundTrip(|m|);
    if k >= 2 {
      assert Frame(m)[..k][..2] == Prefix(|m|);
    }
  }

  /** The reader recovers exactly the messages. */
  lemma {:induction false} StreamRoundTrip(ms: seq<Message>)
    requires AllFit(ms)
    ensures Decode(Stream(ms)) == ms
  {
    if ms != [] {
      FrameRoundTrip(ms[0], Stream(ms[1..]));
      StreamRoundTrip(ms[1..]);
    }
  }

  /** Of a stream cut anywhere the reader recovers exactly the first messages, those whose
      frames had arrived whole: not one more, not one less, and none of them altered. */
  lemma {:induction false} CutStream(ms: seq<Message>, k: nat) returns (n: nat)
    requires AllFit(ms) && k <= |Stream(ms)|
    ensures n <= |ms| && Decode(Stream(ms)[..k]) == ms[..n]
    ensures |Stream(ms[..n])| <= k
    ensures n < |ms| ==> k < |Stream(ms[..n + 1])|
    decreases |ms|
  {
    n := 0;
    if ms != [] {
      if k < 2 + |ms[0]| {
        CutInFirst(ms, k);
      } else {
        var after := CutStream(ms[1..], k - |Frame(ms[0])|);
        CutLater(ms, k, after);
        n := after + 1;
      }
    }
  }

  lemma CutInFirst(ms: seq<Message>, k: nat)
    requires AllFit(ms) && ms != [] && k < 2 + |ms[0]|
    ensures Decode(Stream(ms)[..k]) == [] && k < |Stream(ms[..1])|
  {
    assert Stream(ms)[..k] == Frame(ms[0])[..k];
    PartialFrame(ms[0], k);
    StreamCons(ms[0], []);
    assert ms[..1] == [ms[0]] + [];
  }

  lemma CutLater(ms: seq<Message>, k: nat, after: nat)
    requires AllFit(ms) && ms != [] && 2 + |ms[0]| <= k <= |Stream(ms)|
    requires after <= |ms| - 1
    requires Decode(Stream(ms[1..])[..k - 2 - |ms[0]|]) == ms[1..][..after]
    ensures Decode(Stream(ms)[..k]) == ms[..after + 1]
    ensures |Stream(ms[..after + 1])| == 2 + |ms[0]| + |Stream(ms[1..][..after])|
    ensures after + 1 < |ms| ==> |Stream(ms[..after + 2])| == 2 + |ms[0]| + |Stream(ms[1..][..after + 1])|
  {
    var cut := Stream(ms[1..])[..k - 2 - |ms[0]|];
    assert Stream(ms)[..k] == Frame(ms[0]) + cut;
    FrameRoundTrip(ms[0], cut);
    FirstOf(ms, after);
    if after + 1 < |ms| {
      FirstOf(ms, after + 1);
    }
  }

  lemma FirstOf(ms: seq<Message>, n: nat)
    requires AllFit(ms) && n < |ms|
    ensures ms[..n + 1] == [ms[0]] + ms[1..][..n]
    ensures |Stream(ms[..n + 1])| == 2 + |ms[0]| + |Stream(ms[1..][..n])|
  {
    assert ms[..n + 1] == [ms[0]] + ms[1..][..n];
    StreamCons(ms[0], ms[1..][..n]);
  }

  lemma StreamCons(m: Message, ms: seq<Message>)
    requires Fits(m) && AllFit(ms)
    ensures AllFit([m] + ms) && Stream([m] + ms) == Frame(m) + Stream(ms)
  {
    assert ([m] + ms)[1..] == ms;
  }

  // ------------------------------------------------------------ sending

  /** What the kernel makes of one `send`. */
  datatype SendResult = Sent(count: nat) | Failed(error: SendError)
  datatype SendError = BrokenPipe | TryAgain | BadDescriptor | Other

  /** The buffered messages, the offset into the first, and the bytes still to go. */
  datatype Sender = Sender(connected: bool, buffer: seq<seq<byte>>, offset: nat, length: int)

  const IDLE := Sender(true, [], 0, 0)

  /** The offset lies in the first message, and `length` is the exact remainder. */
  ghost predicate Valid(s: Sender) {
    && s.offset <= |Concat(s.buffer)|
    && (if s.buffer == [] then s.offset == 0 else s.offset <= |s.buffer[0]|)
    && s.length == |Remaining(s)|
  }

  /** The bytes still to be sent. */
  ghost function Remaining(s: Sender): seq<byte>
    requires s.offset <= |Concat(s.buffer)|
  {
    Concat(s.buffer)[s.offset..]
  }

  function Enqueue(s: Sender, m: Message, prepend: bool): Sender {
    if prepend && !Fits(m) then s
    else
      var f := if prepend then Frame(m) else m;
      s.(buffer := s.buffer + [f], length := s.length + |f|)
  }

  /** The kernel takes no more than it is given. */
  predicate Possible(s: Sender, r: SendResult) {
    r.Sent? && s.buffer != [] ==> s.offset + r.count <= |s.buffer[0]|
  }

  function WriteOnce(s: Sender, r: SendResult): Sender
    requires Possible(s, r)
  {
    if !s.connected || s.buffer == [] then s
    else match r
      case Failed(e) => if e == BrokenPipe || e == BadDescriptor then s.(connected := false) else s
      case Sent(count) =>
        if s.offset + count == |s.buffer[0]| then
          s.(buffer := s.buffer[1..], offset := 0, length := s.length - count)
        else
          s.(offset := s.offset + count, length := s.length - count)
  }

  /** What that call hands to the kernel. */
  function Handed(s: Sender, r: SendResult): seq<byte>
    requires Possible(s, r)
    requires Valid(s)
  {
    if s.connected && s.buffer != [] && r.Sent? then s.buffer[0][s.offset..s.offset + r.count] else []
  }

  /** The value write_once returns. */
  function Returned(s: Sender, r: SendResult): int {
    if !s.connected then -1
    else if s.buffer == [] then 0
    else match r
      case Sent(count) => count
      case Failed(e) => if e == BrokenPipe || e == BadDescriptor then -1 else 0
  }

  lemma EnqueueKeeps(s: Sender, m: Message, prepend: bool)
    requires Valid(s)
    ensures Valid(Enqueue(s, m, prepend))
    ensures Remaining(Enqueue(s, m, prepend))
         == Remaining(s) + if prepend then (if Fits(m) then Frame(m) else []) else m
  {
    if !prepend || Fits(m) {
      ConcatAppends(s.buffer, if prepend then Frame(m) else m);
    }
  }

  /** Whatever a partial send takes is exactly what leaves the remainder. */
  lemma WriteOnceKeeps(s: Sender, r: SendResult)
    requires Valid(s) && Possible(s, r)
    ensures Valid(WriteOnce(s, r))
    ensures Remaining(s) == Handed(s, r) + Remaining(WriteOnce(s, r))
    ensures |Handed(s, r)| == s.length - WriteOnce(s, r).length
  {
    if s.connected && s.buffer != [] && r.Sent? {
      var head, tail, to := s.buffer[0], Concat(s.buffer[1..]), s.offset + r.count;
      assert Concat(s.buffer) == head + tail;
      assert (head + tail)[s.offset..] == head[s.offset..to] + (head + tail)[to..];
      if to == |head| {
        assert (head + tail)[to..] == tail;
      }
    }
  }

  /** write_once returns the number of bytes it has handed over, or -1 on a closed socket. */
  lemma ReturnedMeans(s: Sender, r: SendResult)
    requires Valid(s) && Possible(s, r)
    ensures Returned(s, r) == if WriteOnce(s, r).connected then |Handed(s, r)| else -1
  {
  }

  // ------------------------------------------------------------ whole runs

  datatype Op = Add(message: Message) | Write(result: SendResult)

  function Perform(s: Sender, op: Op): Sender
    requires op.Write? ==> Possible(s, op.result)
  {
    match op
    case Add(m) => Enqueue(s, m, true)
    case Write(r) => WriteOnce(s, r)
  }

  ghost predicate Runs(s: Sender, ops: seq<Op>)
    decreases |ops|
  {
    ops == [] || ((ops[0].Write? ==> Possible(s, ops[0].result)) && Runs(Perform(s, ops[0]), ops[1..]))
  }

  ghost function Run(s: Sender, ops: seq<Op>): Sender
    requires Runs(s, ops)
    decreases |ops|
  {
    if ops == [] then s else Run(Perform(s, ops[0]), ops[1..])
  }

  /** The bytes a run puts on the stream. */
  ghost function SentBy(s: Sender, ops: seq<Op>): seq<byte>
    requires Runs(s, ops) && Valid(s)
    decreases |ops|
  {
    if ops == [] then []
    else
      PerformKeeps(s, ops[0]);
      (if ops[0].Write? then Handed(s, ops[0].result) else []) + SentBy(Perform(s, ops[0]), ops[1..])
  }

  /** The messages a run accepts; one that is too long is refused. */
  function Added(ops: seq<Op>): (ms: seq<Message>)
    ensures AllFit(ms)
  {
    if ops == [] then []
    else (if ops[0].Add? && Fits(ops[0].message) then [ops[0].message] else []) + Added(ops[1..])
  }

  lemma PerformKeeps(s: Sender, op: Op)
    requires Valid(s) && (op.Write? ==> Possible(s, op.result))
    ensures Valid(Perform(s, op))
  {
    match op
    case Add(m) => EnqueueKeeps(s, m, true);
    case Write(r) => WriteOnceKeeps(s, r);
  }

  /** Over every run of enqueues and partial or failed sends, what was sent followed by what
      remains is what remained before followed by the frames of the accepted messages, in
      order, and buffer_length is the exact number of bytes that remain. */
  lemma {:induction false} SentAndRemaining(s: Sender, ops: seq<Op>)
    requires Valid(s) && Runs(s, ops)
    ensures Valid(Run(s, ops))
    ensures SentBy(s, ops) + Remaining(Run(s, ops)) == Remaining(s) + Stream(Added(ops))
    decreases |ops|
  {
    if ops == [] {
      assert Stream(Added(ops)) == [];
    } else {
      var next := Perform(s, ops[0]);
      PerformKeeps(s, ops[0]);
      SentAndRemaining(next, ops[1..]);
      match ops[0]
      case Add(m) =>
        EnqueueKeeps(s, m, true);
        if Fits(m) {
          StreamCons(m, Added(ops[1..]));
          Reassociate(Remaining(s), Frame(m), Stream(Added(ops[1..])));
        } else {
          assert Added(ops) == Added(ops[1..]);
        }
        assert SentBy(s, ops) == SentBy(next, ops[1..]);
      case Write(r) =>
        WriteOnceKeeps(s, r);
        assert Added(ops) == Added(ops[1..]);
        Reassociate(Handed(s, r), SentBy(next, ops[1..]), Remaining(Run(s, ops)));
        Reassociate(Handed(s, r), Remaining(next), Stream(Added(ops)));
    }
  }

  /** Some send with a message to offer fails for good: the peer is gone, or the descriptor. */
  ghost predicate Breaks(s: Sender, ops: seq<Op>)
    requires Runs(s, ops)
    decreases |ops|
  {
    ops != [] &&
    ((s.buffer != [] && (ops[0] == Write(Failed(BrokenPipe)) || ops[0] == Write(Failed(BadDescriptor))))
     || Breaks(Perform(s, ops[0]), ops[1..]))
  }

  /** A run leaves a connected socket connected exactly if no send fails for good, and on a
      closed one nothing is sent. */
  lemma {:induction false} ConnectedExactly(s: Sender, ops: seq<Op>)
    requires Valid(s) && Runs(s, ops)
    ensures s.connected ==> (Run(s, ops).connected <==> !Breaks(s, ops))
    ensures !s.connected ==> !Run(s, ops).connected && SentBy(s, ops) == []
    decreases |ops|
  {
    if ops != [] {
      PerformKeeps(s, ops[0]);
      ConnectedExactly(Perform(s, ops[0]), ops[1..]);
    }
  }

  lemma Reassociate(x: seq<byte>, y: seq<byte>, z: seq<byte>)
    ensures (x + y) + z == x + (y + z)
  {
  }

  /** End to end: after any run, whatever part of the sent bytes has arrived, the receiver
      has read the first of the accepted messages unaltered; once the buffer has drained and
      everything has arrived it has read them all. */
  lemma Received(ops: seq<Op>, arrived: nat) returns (n: nat)
    requires Runs(IDLE, ops) && arrived <= |SentBy(IDLE, ops)|
    ensures n <= |Added(ops)| && Decode(SentBy(IDLE, ops)[..arrived]) == Added(ops)[..n]
    ensures Run(IDLE, ops).length == 0 && arrived == |SentBy(IDLE, ops)| ==> n == |Added(ops)|
  {
    SentAndRemaining(IDLE, ops);
    var sent, all := SentBy(IDLE, ops), Stream(Added(ops));
    assert Remaining(IDLE) == [];
    assert sent + Remaining(Run(IDLE, ops)) == all;
    assert sent[..arrived] == all[..arrived];
    n := CutStream(Added(ops), arrived);
    if Run(IDLE, ops).length == 0 && arrived == |sent| {
      assert all[..arrived] == all;
      StreamRoundTrip(Added(ops));
    }
  }
}
