/** The class of python/src/ipc_socket.py: add_to_buffer, write_once and the reassembly loop
    of read, on its own fields. */
module IpcSocket {
  import opened Wire
  import opened Messages
  import opened Options
  import opened Framing

  /** How a read comes out: with a message, with None, with an exception, or not at all
      within the failures it was watched for. */
  datatype ReadOutcome = Whole(value: seq<byte>) | Nothing | Raises | Looping

  /** A receive: some bytes, none at the end of the stream, or an error. */
  datatype RecvResult = Data(bytes: seq<byte>) | Error

  class IPCSocket {
    var connected: bool
    var messageBuffer: seq<seq<byte>>
    var bufferLength: int
    var offset: nat
    /** What the peer still delivers, and whether receiving more than that fails, as on a
        broken connection or on a non-blocking socket with nothing to read, rather than
        finding the stream at its end. */
    var incoming: seq<byte>
    var broken: bool

    ghost function State(): Sender
      reads this
    {
      Sender(connected, messageBuffer, offset, bufferLength)
    }

    /** from_socket. */
    constructor (stream: seq<byte>, breaks: bool)
      ensures State() == IDLE && incoming == stream && broken == breaks
    {
      connected, messageBuffer, bufferLength, offset := true, [], 0, 0;
      incoming, broken := stream, breaks;
    }

    /** The new buffer length, or nothing where packing the length raises. */
    method AddToBuffer(message: Message, prepend: bool) returns (length: Option<int>)
      modifies `messageBuffer, `bufferLength
      ensures State() == Enqueue(old(State()), message, prepend)
      ensures length == if prepend && !Fits(message) then None else Some(bufferLength)
    {
      var frame := message;
      if prepend {
        if |message| >= 0x1_0000 {
          return None;
        }
        frame := Prefix(|message|) + message;
      }
      messageBuffer := messageBuffer + [frame];
      bufferLength := bufferLength + |frame|;
      length := Some(bufferLength);
    }

    /** Offer the kernel the rest of the first message; `result` is its answer. */
    method WriteOnce(result: SendResult) returns (count: int)
      requires Possible(State(), result)
      modifies `connected, `messageBuffer, `bufferLength, `offset
      ensures State() == Framing.WriteOnce(old(State()), result)
      ensures count == Returned(old(State()), result)
    {
      if !connected {
        return -1;
      }
      if |messageBuffer| == 0 {
        return 0;
      }
      var message := messageBuffer[0];
      match result {
        case Failed(e) =>
          if e == BrokenPipe || e == BadDescriptor {
            connected := false;
            return -1;
          }
          return 0;
        case Sent(sendCount) =>
          offset := offset + sendCount;
          if offset == |message| {
            messageBuffer := messageBuffer[1..];
            offset := 0;
          }
          bufferLength := bufferLength - sendCount;
          return sendCount;
      }
    }

    /** A receive of at most n bytes: at least one if there are any; on a closed socket it
        fails. */
    method Receive(n: nat) returns (r: RecvResult)
      requires n > 0
      modifies `incoming
      ensures r.Error? <==> !connected || (old(incoming) == [] && broken)
      ensures r.Error? ==> incoming == old(incoming)
      ensures r.Data? ==> r.bytes + incoming == old(incoming) && |r.bytes| <= n
      ensures r.Data? ==> (r.bytes == [] <==> old(incoming) == [])
    {
      if !connected || (incoming == [] && broken) {
        return Error;
      }
      if incoming == [] {
        return Data([]);
      }
      var k: nat :| 1 <= k <= n && k <= |incoming|;
      var data := incoming[..k];
      incoming := incoming[k..];
      return Data(data);
    }

    /** A receive that waits for all n bytes, the end of the stream or an error; it fails
        only if it has nothing to return. */
    method ReceiveAll(n: nat) returns (r: RecvResult)
      requires connected && n > 0
      modifies `incoming
      ensures r.Error? <==> old(incoming) == [] && broken
      ensures r.Error? ==> incoming == old(incoming)
      ensures r.Data? ==> r.bytes + incoming == old(incoming)
      ensures r.Data? ==> |r.bytes| == if n <= |old(incoming)| then n else |old(incoming)|
    {
      if incoming == [] && broken {
        return Error;
      }
      var k := if n <= |incoming| then n else |incoming|;
      var data := incoming[..k];
      incoming := incoming[k..];
      return Data(data);
    }

    /** One message, however it was cut into chunks. Otherwise nothing and a closed socket
        if the stream ended or broke within the prefix, or ended within the body; an
        exception if it broke before the first byte of either; and no return at all, for
        any number of failures, if it broke later within the body. */
    method Read(patience: nat) returns (r: ReadOutcome)
      modifies `incoming, `connected
      ensures !old(connected) ==> r == Nothing && !connected && incoming == old(incoming)
      ensures old(connected) ==> (r.Whole? <==> ReadFrame(old(incoming)).Some?)
      ensures r.Whole? ==> connected && ReadFrame(old(incoming)) == Some(r.value)
      ensures r.Whole? ==> Decode(old(incoming)) == [r.value] + Decode(incoming)
      ensures old(connected) && !broken && !r.Whole? ==> r == Nothing && !connected
      ensures old(connected) && broken && !r.Whole? ==>
        r == (if |old(incoming)| == 0 || |old(incoming)| == 2 then Raises
              else if |old(incoming)| == 1 then Nothing else Looping)
      ensures r == Raises ==> connected
      ensures r == Looping ==> !connected
    {
      if !connected {
        return Nothing;
      }
      ghost var stream := incoming;
      var head := ReceiveAll(2);
      if head.Error? {
        return Raises;
      }
      if |head.bytes| != 2 {
        connected := false;
        return Nothing;
      }
      ghost var n := LengthOf(head.bytes);
      assert stream[..2] == head.bytes && stream[2..] == incoming;
      r := ReadBody(LengthOf(head.bytes), patience);
      if r.Whole? {
        assert stream[2..][..n] == stream[2..2 + n] && stream[2..][n..] == stream[2 + n..];
      }
    }

    /** The body is gathered chunk by chunk. A receive that fails closes the socket, but the
        loop goes on; the first of all raises instead, for its warning measures the last
        chunk, which there is none of. */
    method ReadBody(length: nat, patience: nat) returns (r: ReadOutcome)
      requires connected
      modifies `incoming, `connected
      ensures r.Whole? <==> length <= |old(incoming)|
      ensures r.Whole? ==> r.value == old(incoming)[..length] && incoming == old(incoming)[length..] && connected
      ensures !r.Whole? && !broken ==> r == Nothing && !connected
      ensures !r.Whole? && broken ==> r == if old(incoming) == [] then Raises else Looping
      ensures r == Raises ==> connected
      ensures r == Looping ==> !connected
    {
      var got, chunks, failures := 0, [], 0;
      while got < length
        invariant got <= length && |Concat(chunks)| == got
        invariant Concat(chunks) + incoming == old(incoming)
        invariant chunks == [] <==> got == 0
        invariant connected || (broken && incoming == [] && got > 0 && got < length)
        decreases length - got, patience + 1 - failures
      {
        var data := Receive(length - got);
        if data.Error? {
          if chunks == [] {
            return Raises;
          }
          connected := false;
          if failures >= patience {
            return Looping;
          }
          failures := failures + 1;
        } else if data.bytes == [] {
          connected := false;
          return Nothing;
        } else {
          ConcatAppends(chunks, data.bytes);
          Reassociate(Concat(chunks), data.bytes, incoming);
          chunks := chunks + [data.bytes];
          got := got + |data.bytes|;
        }
      }
      return Whole(Concat(chunks));
    }
  }
}
