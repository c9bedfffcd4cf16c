/** The control messages between the kernel and the controller: each is written on one side
    and read on the other, in Python (python/src/message.py) and in C
    (src/lib/serialize.c), by code that shares nothing but the byte layout. */
module Messages {
  import opened Machine
  import opened Wire
  import opened Options

  const CREATE: int := 0
  const MEASURE: int := 1
  const UPDATE_FIELDS: int := 3
  const STATE: int := 6
  const PARAM: int := 7

  const HEADER_LEN: int := 8
  const FIELD_LEN: int := 13
  const ALG_LEN: int := 64
  const MAX_MUTABLE_REG: int := 222
  const MAX_REPORT_REG: int := 110
  const REPORT_MSG_SIZE: int := 900

  // ------------------------------------------------------------ the header

  datatype Header = Header(kind: u16, len: u16, sockId: u32)

  /** `struct.pack("=HHI", ...)`, and the memory of the packed C struct. */
  function HeaderBytes(h: Header): (bs: seq<byte>)
    ensures |bs| == HEADER_LEN
  {
    Le(2, h.kind) + Le(2, h.len) + Le(4, h.sockId)
  }

  function HeaderAt(buf: seq<byte>): Header
    requires |buf| >= HEADER_LEN
  {
    Bounds();
    LeOfUnLe(buf[0..2]);
    LeOfUnLe(buf[2..4]);
    LeOfUnLe(buf[4..8]);
    Header(UnLe(buf[0..2]), UnLe(buf[2..4]), UnLe(buf[4..8]))
  }

  /** read_header: the kernel reads four kinds of message only. */
  function ReadHeader(buf: seq<byte>): Option<Header>
    requires |buf| >= HEADER_LEN
  {
    if HeaderAt(buf).kind in {STATE, PARAM, UPDATE_FIELDS, MEASURE} then Some(HeaderAt(buf)) else None
  }

  lemma HeaderRoundTrip(h: Header, rest: seq<byte>)
    ensures HeaderAt(HeaderBytes(h) + rest) == h
  {
    var buf := HeaderBytes(h) + rest;
    Bounds();
    assert buf[0..2] == Le(2, h.kind);
    assert buf[2..4] == Le(2, h.len);
    assert buf[4..8] == Le(4, h.sockId);
    UnLeOfLe(2, h.kind);
    UnLeOfLe(2, h.len);
    UnLeOfLe(4, h.sockId);
  }

  // ------------------------------------------------------------ UPDATE_FIELDS

  datatype UpdateField = UpdateField(regType: byte, regIndex: u32, value: u64)

  /** `struct.pack("<BIQ", ...)`. */
  function FieldBytes(f: UpdateField): (bs: seq<byte>)
    ensures |bs| == FIELD_LEN
  {
    Le(1, f.regType) + Le(4, f.regIndex) + Le(8, f.value)
  }

  function FieldsBytes(fs: seq<UpdateField>): (bs: seq<byte>)
    ensures |bs| == FIELD_LEN * |fs|
  {
    if fs == [] then [] else FieldsBytes(fs[..|fs| - 1]) + FieldBytes(fs[|fs| - 1])
  }

  /** What UpdateMsg.serialize returns. */
  function UpdateBytes(fs: seq<UpdateField>): (bs: seq<byte>)
    ensures |bs| == 4 + FIELD_LEN * |fs|
  {
    Le(4, |fs|) + FieldsBytes(fs)
  }

  /** UpdateMsg of python/src/message.py. */
  class UpdateMsg {
    var numFields: nat
    var fields: seq<UpdateField>

    ghost predicate Valid()
      reads this
    {
      numFields == |fields|
    }

    constructor ()
      ensures Valid() && fields == []
    {
      numFields := 0;
      fields := [];
    }

    method AddField(f: UpdateField)
      requires Valid()
      modifies this
      ensures Valid() && fields == old(fields) + [f]
    {
      fields := fields + [f];
      numFields := numFields + 1;
    }

    method Serialize() returns (buf: seq<byte>)
      requires Valid()
      ensures buf == UpdateBytes(fields)
    {
      buf := Le(4, numFields);
      for i := 0 to |fields|
        invariant buf == Le(4, numFields) + FieldsBytes(fields[..i])
      {
        assert fields[..i + 1][..i] == fields[..i];
        buf := buf + FieldBytes(fields[i]);
      }
      assert fields[..|fields|] == fields;
    }
  }

  /** The packed C struct at an offset of the buffer. */
  function FieldAt(buf: seq<byte>, at: nat): UpdateField
    requires at + FIELD_LEN <= |buf|
  {
    Bounds();
    LeOfUnLe(buf[at + 1..at + 5]);
    LeOfUnLe(buf[at + 5..at + 13]);
    UpdateField(buf[at], UnLe(buf[at + 1..at + 5]), UnLe(buf[at + 5..at + 13]))
  }

  /** The num C structs from an offset on. */
  function FieldsAt(buf: seq<byte>, at: nat, num: nat): (fs: seq<UpdateField>)
    requires at + FIELD_LEN * num <= |buf|
    ensures |fs| == num
  {
    if num == 0 then [] else FieldsAt(buf, at, num - 1) + [FieldAt(buf, at + FIELD_LEN * (num - 1))]
  }

  lemma FieldRoundTrip(f: UpdateField, before: seq<byte>, after: seq<byte>)
    ensures FieldAt(before + FieldBytes(f) + after, |before|) == f
  {
    var buf, at := before + FieldBytes(f) + after, |before|;
    Bounds();
    assert buf[at..at + 13] == FieldBytes(f);
    assert buf[at] == FieldBytes(f)[0] == f.regType;
    assert buf[at + 1..at + 5] == FieldBytes(f)[1..5] == Le(4, f.regIndex);
    assert buf[at + 5..at + 13] == FieldBytes(f)[5..13] == Le(8, f.value);
    UnLeOfLe(4, f.regIndex);
    UnLeOfLe(8, f.value);
  }

  /** Any number of fields, in any order, reads back as written. */
  lemma {:induction false} FieldsRoundTrip(fs: seq<UpdateField>, before: seq<byte>, after: seq<byte>)
    ensures FieldsAt(before + FieldsBytes(fs) + after, |before|, |fs|) == fs
  {
    if fs != [] {
      var n := |fs| - 1;
      var init, last := fs[..n], FieldBytes(fs[n]);
      Split(before, FieldsBytes(init), last, after);
      FieldsRoundTrip(init, before, last + after);
      FieldRoundTrip(fs[n], before + FieldsBytes(init), after);
    }
  }

  /** check_update_fields_msg: the count as read through one char, refused above 222. */
  function ReadCount(buf: seq<byte>): Option<nat>
    requires |buf| > 0
  {
    if CharToU32(buf[0]) > MAX_MUTABLE_REG then None else Some(CharToU32(buf[0]))
  }

  /** The count the kernel reads is the one written exactly up to 127 fields; above that,
      it is refused when its low byte is 128 or more and truncated to that byte otherwise. */
  lemma CountSurvivesExactly(n: u32, rest: seq<byte>)
    ensures ReadCount(Le(4, n) + rest) == Some(n) <==> n < 128
    ensures ReadCount(Le(4, n) + rest) == if n % 256 < 128 then Some(n % 256) else None
  {
    LeFour(n);
    assert (Le(4, n) + rest)[0] == n % 256;
  }

  // ------------------------------------------------------------ MEASURE

  function WordsBytes(ws: seq<u64>): (bs: seq<byte>)
    ensures |bs| == 8 * |ws|
  {
    if ws == [] then [] else WordsBytes(ws[..|ws| - 1]) + Le(8, ws[|ws| - 1])
  }

  /** write_measure_msg into a buffer of the given size, None for its negative returns. The
      struct it copies from has room for 110 fields. */
  function WriteMeasure(bufSize: int, sid: u32, requestId: u32, fields: seq<u64>): Option<seq<byte>>
    requires |fields| <= MAX_REPORT_REG
  {
    var len := Wrap16(HEADER_LEN + 8 + 8 * |fields|);
    if bufSize < 0 || bufSize < len then None
    else Some(HeaderBytes(Header(MEASURE, len, sid)) + Le(4, requestId) + Le(4, |fields|)
              + WordsBytes(fields))
  }

  /** MeasureMsg of python/src/message.py. */
  class MeasureMsg {
    var requestId: int
    var fieldNum: int
    var data: seq<u64>

    constructor ()
      ensures data == []
    {
      requestId, fieldNum, data := 0, 0, [];
    }

    method FromRaw(buf: seq<byte>) returns (ok: bool)
      modifies this
      ensures ok == ReadReport(buf).Some?
      ensures ok ==> requestId == ReadReport(buf).value.requestId && fieldNum == |ReadReport(buf).value.fields|
      ensures ok ==> data == old(data) + ReadReport(buf).value.fields
    {
      if |buf| < 8 {
        return false;
      }
      requestId := UnLe(buf[0..4]);
      fieldNum := UnLe(buf[4..8]);
      if |buf| < 8 + 8 * fieldNum {
        return false;
      }
      for i := 0 to fieldNum
        invariant requestId == UnLe(buf[0..4]) && fieldNum == UnLe(buf[4..8])
        invariant data == old(data) + WordsAt(buf, 8, i)
      {
        data := data + [WordAt(buf, 8 + 8 * i)];
      }
      return true;
    }
  }

  function WordAt(buf: seq<byte>, at: nat): u64
    requires at + 8 <= |buf|
  {
    Bounds();
    LeOfUnLe(buf[at..at + 8]);
    UnLe(buf[at..at + 8])
  }

  function WordsAt(buf: seq<byte>, at: nat, num: nat): (ws: seq<u64>)
    requires at + 8 * num <= |buf|
    ensures |ws| == num
  {
    if num == 0 then [] else WordsAt(buf, at, num - 1) + [WordAt(buf, at + 8 * (num - 1))]
  }

  /** What MeasureMsg.from_raw makes of the bytes after the header. */
  datatype Report = Report(requestId: int, fields: seq<u64>)

  function ReadReport(buf: seq<byte>): Option<Report> {
    if |buf| < 8 || |buf| < 8 + 8 * UnLe(buf[4..8]) then None
    else Some(Report(UnLe(buf[0..4]), WordsAt(buf, 8, UnLe(buf[4..8]))))
  }

  lemma Middle(before: seq<byte>, mid: seq<byte>, after: seq<byte>)
    ensures (before + mid + after)[|before|..|before| + |mid|] == mid
  {
  }

  lemma Split(before: seq<byte>, init: seq<byte>, last: seq<byte>, after: seq<byte>)
    ensures before + (init + last) + after == before + init + (last + after)
    ensures before + (init + last) + after == (before + init) + last + after
  {
  }

  lemma {:induction false} WordsRoundTrip(ws: seq<u64>, before: seq<byte>, after: seq<byte>)
    ensures WordsAt(before + WordsBytes(ws) + after, |before|, |ws|) == ws
  {
    if ws != [] {
      var n := |ws| - 1;
      var init, last := ws[..n], Le(8, ws[n]);
      Split(before, WordsBytes(init), last, after);
      WordsRoundTrip(init, before, last + after);
      WordRoundTrip(ws[n], before + WordsBytes(init), after);
    }
  }

  lemma WordRoundTrip(w: u64, before: seq<byte>, after: seq<byte>)
    ensures WordAt(before + Le(8, w) + after, |before|) == w
  {
    Middle(before, Le(8, w), after);
    Bounds();
    UnLeOfLe(8, w);
  }

  /** What follows the header of a report. */
  function ReportBytes(requestId: u32, fields: seq<u64>): seq<byte>
    requires |fields| <= MAX_REPORT_REG
  {
    Le(4, requestId) + Le(4, |fields|) + WordsBytes(fields)
  }

  lemma MeasureParts(sid: u32, requestId: u32, fields: seq<u64>)
    requires |fields| <= MAX_REPORT_REG
    ensures WriteMeasure(REPORT_MSG_SIZE, sid, requestId, fields)
      == Some(HeaderBytes(Header(MEASURE, 16 + 8 * |fields|, sid)) + ReportBytes(requestId, fields))
  {
    WrapsNot(|fields|);
    Regroup(HeaderBytes(Header(MEASURE, 16 + 8 * |fields|, sid)), Le(4, requestId), Le(4, |fields|),
      WordsBytes(fields));
  }

  lemma WrapsNot(n: nat)
    requires n <= MAX_REPORT_REG
    ensures Wrap16(HEADER_LEN + 8 + 8 * n) == 16 + 8 * n <= REPORT_MSG_SIZE
  {
  }

  lemma Regroup(a: seq<byte>, b: seq<byte>, c: seq<byte>, d: seq<byte>)
    ensures a + b + c + d == a + (b + c + d)
  {
  }

  lemma ReportRoundTrip(requestId: u32, fields: seq<u64>)
    requires |fields| <= MAX_REPORT_REG
    ensures var body := ReportBytes(requestId, fields);
      && |body| == 8 + 8 * |fields|
      && UnLe(body[0..4]) == requestId
      && UnLe(body[4..8]) == |fields|
      && WordsAt(body, 8, |fields|) == fields
  {
    var prefix := Le(4, requestId) + Le(4, |fields|);
    var body := ReportBytes(requestId, fields);
    Bounds();
    assert body[0..4] == Le(4, requestId) && body[4..8] == Le(4, |fields|);
    UnLeOfLe(4, requestId);
    UnLeOfLe(4, |fields|);
    assert body == prefix + WordsBytes(fields) + [];
    WordsRoundTrip(fields, prefix, []);
  }

  /** Every report of up to 110 fields fits the kernel's 900-byte buffer, and the
      controller reads back the connection, the request and every field. */
  lemma MeasureRoundTrip(sid: u32, requestId: u32, fields: seq<u64>)
    requires |fields| <= MAX_REPORT_REG
    ensures var out := WriteMeasure(REPORT_MSG_SIZE, sid, requestId, fields);
      && out.Some? && |out.value| == 16 + 8 * |fields|
      && HeaderAt(out.value) == Header(MEASURE, 16 + 8 * |fields|, sid)
      && var body := out.value[HEADER_LEN..];
         && UnLe(body[0..4]) == requestId
         && UnLe(body[4..8]) == |fields|
         && WordsAt(body, 8, |fields|) == fields
  {
    var h := Header(MEASURE, 16 + 8 * |fields|, sid);
    MeasureParts(sid, requestId, fields);
    HeaderRoundTrip(h, ReportBytes(requestId, fields));
    ReportRoundTrip(requestId, fields);
    assert (HeaderBytes(h) + ReportBytes(requestId, fields))[HEADER_LEN..]
      == ReportBytes(requestId, fields);
  }

  /** The request id the controller sends, as the kernel reads and echoes it. */
  function EchoedId(requestId: u32): u32 { CharToU32(Le(4, requestId)[0]) }

  /** A request id comes back with the report exactly when it is below 128 or among the
      128 largest. */
  lemma RequestIdSurvivesExactly(sid: u32, requestId: u32, fields: seq<u64>)
    requires |fields| <= MAX_REPORT_REG
    ensures var out := WriteMeasure(REPORT_MSG_SIZE, sid, EchoedId(requestId), fields);
      && out.Some? && |out.value| >= HEADER_LEN + 4
      && (UnLe(out.value[HEADER_LEN..][0..4]) == requestId <==>
            requestId < 128 || requestId >= TWO32 - 128)
  {
    CharSurvivesExactly(requestId);
    MeasureRoundTrip(sid, EchoedId(requestId), fields);
  }

  // ------------------------------------------------------------ CREATE

  /** What the socket knows of a flow, in host order. */
  datatype Flow = Flow(initCwnd: u32, mss: u32, srcIp: u32, srcPort: u16, dstIp: u32, dstPort: u16,
                       alg: seq<byte>)

  /** `struct CreateMsg`, which holds ports and addresses in network order. */
  function CreateBody(f: Flow): (bs: seq<byte>)
    requires |f.alg| == ALG_LEN
    ensures |bs| == 24 + ALG_LEN
  {
    AddressRoundTrip(f.srcIp);
    AddressRoundTrip(f.dstIp);
    Le(4, f.initCwnd) + Le(4, f.mss) + Le(4, Htonl(f.srcIp)) + Le(4, Htons(f.srcPort))
    + Le(4, Htonl(f.dstIp)) + Le(4, Htons(f.dstPort)) + f.alg
  }

  /** write_create_msg. */
  function CreateBytes(sid: u32, f: Flow): (bs: seq<byte>)
    requires |f.alg| == ALG_LEN
    ensures |bs| == 96
  {
    HeaderBytes(Header(CREATE, HEADER_LEN + 24 + ALG_LEN, sid)) + CreateBody(f)
  }

  /** What CreateMsg.from_raw makes of the bytes after the header. */
  datatype Created = Created(initCwnd: int, mss: int, srcIp: int, srcPort: int, dstIp: int, dstPort: int,
                             alg: seq<byte>)

  function ReadCreate(buf: seq<byte>): Created
    requires |buf| >= 24 + ALG_LEN
  {
    Created(SwapHalves(buf[0..4]), SwapHalves(buf[4..8]), UnBe4(buf[8..12]), SwapHalves(buf[12..16]),
            UnBe4(buf[16..20]), SwapHalves(buf[20..24]), buf[24..])
  }

  lemma SixWords(a: seq<byte>, b: seq<byte>, c: seq<byte>, d: seq<byte>, e: seq<byte>, f: seq<byte>,
                 rest: seq<byte>)
    requires |a| == |b| == |c| == |d| == |e| == |f| == 4
    ensures var all := a + b + c + d + e + f + rest;
      && |all| >= 24
      && all[0..4] == a && all[4..8] == b && all[8..12] == c && all[12..16] == d
      && all[16..20] == e && all[20..24] == f && all[24..] == rest
  {
  }

  lemma CreateParts(f: Flow)
    requires |f.alg| == ALG_LEN
    ensures Htonl(f.srcIp) >= 0 && Htonl(f.dstIp) >= 0
    ensures var buf := CreateBody(f);
      && buf[0..4] == Le(4, f.initCwnd) && buf[4..8] == Le(4, f.mss)
      && buf[8..12] == Le(4, Htonl(f.srcIp)) && buf[12..16] == Le(4, Htons(f.srcPort))
      && buf[16..20] == Le(4, Htonl(f.dstIp)) && buf[20..24] == Le(4, Htons(f.dstPort))
      && buf[24..] == f.alg
  {
    AddressRoundTrip(f.srcIp);
    AddressRoundTrip(f.dstIp);
    SixWords(Le(4, f.initCwnd), Le(4, f.mss), Le(4, Htonl(f.srcIp)), Le(4, Htons(f.srcPort)),
      Le(4, Htonl(f.dstIp)), Le(4, Htons(f.dstPort)), f.alg);
  }

  /** Both halves of the number read the same in either byte order. */
  predicate Palindromes(v: u32) {
    var bs := Le(4, v); bs[0] == bs[1] && bs[2] == bs[3]
  }

  /** Ports, addresses, the algorithm's name and the connection are recovered by the
      controller; the initial window and the segment size come back exactly when their
      halves are palindromes. */
  lemma CreateRoundTrip(sid: u32, f: Flow)
    requires |f.alg| == ALG_LEN
    ensures HeaderAt(CreateBytes(sid, f)) == Header(CREATE, 96, sid)
    ensures var c := ReadCreate(CreateBytes(sid, f)[HEADER_LEN..]);
      && c.srcIp == f.srcIp && c.dstIp == f.dstIp
      && c.srcPort == f.srcPort && c.dstPort == f.dstPort && c.alg == f.alg
      && (c.initCwnd == f.initCwnd <==> Palindromes(f.initCwnd))
      && (c.mss == f.mss <==> Palindromes(f.mss))
  {
    var h := Header(CREATE, 96, sid);
    HeaderRoundTrip(h, CreateBody(f));
    assert CreateBytes(sid, f)[HEADER_LEN..] == CreateBody(f);
    CreateParts(f);
    BodyRoundTrip(f);
  }

  lemma BodyRoundTrip(f: Flow)
    requires |f.alg| == ALG_LEN
    ensures var c := ReadCreate(CreateBody(f));
      && c.srcIp == f.srcIp && c.dstIp == f.dstIp
      && c.srcPort == f.srcPort && c.dstPort == f.dstPort && c.alg == f.alg
      && c.initCwnd == SwapHalves(Le(4, f.initCwnd)) && c.mss == SwapHalves(Le(4, f.mss))
      && (c.initCwnd == f.initCwnd <==> Palindromes(f.initCwnd))
      && (c.mss == f.mss <==> Palindromes(f.mss))
  {
    CreateParts(f);
    AddressRoundTrip(f.srcIp);
    AddressRoundTrip(f.dstIp);
    PortRoundTrip(f.srcPort);
    PortRoundTrip(f.dstPort);
    SwapSurvivesExactly(f.initCwnd);
    SwapSurvivesExactly(f.mss);
  }
}
