/** The monitor intervals of src/tcp_neo.c as an unbounded log: every interval ever
    started, in order, the last one still being sent. The class in NeoRing.dfy keeps the
    same intervals in twenty slots. */
module NeoLog {
  import opened Machine

  const SLOTS: int := 20
  const MONITOR_INTERVAL: int := 30000
  const IGNORE_PACKETS: int := 1

  /** The statistics of one interval; its sending rate is not part of this model. */
  datatype Interval = Interval(
    recvStart: u64, recvEnd: u64, sendStart: u64, sendEnd: u64, startRtt: u64, endRtt: u64,
    sentBase: u32, ended: u32, lost: u32, delivered: u32)

  const BLANK := Interval(0, 0, 0, 0, 0, 0, 0, 0, 0, 0)

  /** What the socket shows when an ACK is processed: rtt is `srtt_us >> 3`. */
  datatype Sock = Sock(segsOut: u32, delivered: u32, lost: u32, mstamp: u64, rtt: u64)

  /** The log, the interval now receiving ACKs, and the counters of `struct neo_data`. */
  datatype Model = Model(
    log: seq<Interval>, r: nat, counted: u32, lostBase: u32, deliveredBase: u32, doubleCounted: u32)

  /** At least one interval is being sent, it is open, and it is the newest. */
  ghost predicate Valid(m: Model) {
    && m.r < |m.log| <= m.r + SLOTS
    && m.log[|m.log| - 1].ended == 0
  }

  // ------------------------------------------------------------ one ACK

  /** The interval a slot holds before it is started again. */
  function Previous(log: seq<Interval>): Interval {
    if |log| < SLOTS then BLANK else log[|log| - SLOTS]
  }

  /** start_interval: five fields are set, the receive times stay what they were. */
  function Started(before: Interval, sock: Sock): Interval {
    before.(ended := 0, lost := 0, delivered := 0, sentBase := Max(sock.segsOut, 1),
            sendStart := sock.mstamp)
  }

  /** The interval being sent has run its time. */
  predicate SendEnds(i: Interval, sock: Sock) {
    Wrap64(sock.mstamp - i.sendStart) >= MONITOR_INTERVAL
  }

  /** Closing the interval being sent would reuse the slot still receiving. */
  ghost predicate Exhausts(m: Model, sock: Sock)
    requires Valid(m)
  {
    SendEnds(m.log[|m.log| - 1], sock) && |m.log| == m.r + SLOTS
  }

  function Closed(i: Interval, sock: Sock): Interval {
    i.(ended := sock.segsOut, sendEnd := sock.mstamp)
  }

  ghost function SendSide(m: Model, sock: Sock): Model
    requires Valid(m) && !Exhausts(m, sock)
  {
    var s := |m.log| - 1;
    if SendEnds(m.log[s], sock) then
      var closed := m.log[s := Closed(m.log[s], sock)];
      m.(log := closed + [Started(Previous(closed), sock)])
    else m
  }

  /** neo_update_interval: the deltas since the last ACK go to one interval. */
  function Credited(i: Interval, m: Model, sock: Sock): Interval {
    i.(recvEnd := sock.mstamp, endRtt := sock.rtt,
       lost := Wrap32(i.lost + Wrap32(sock.lost - m.lostBase)),
       delivered := Wrap32(i.delivered + Wrap32(sock.delivered - m.deliveredBase)))
  }

  /** The ACKs so far, before this one, have passed the interval's first packet. */
  predicate Credits(i: Interval, before: u32) {
    before > Wrap32(IGNORE_PACKETS + i.sentBase)
  }

  /** All but the last packet of a closed interval are accounted for. */
  predicate ReceiveEnds(i: Interval, counted: u32) {
    i.ended != 0 && i.ended - IGNORE_PACKETS < counted
  }

  ghost function CreditSide(m: Model, sock: Sock): Model
    requires Valid(m)
  {
    var i := m.log[m.r];
    m.(counted := Wrap32(sock.delivered + sock.lost - m.doubleCounted),
       log := if Credits(i, m.counted) then m.log[m.r := Credited(i, m, sock)] else m.log)
  }

  function Receiving(i: Interval, sock: Sock): Interval {
    i.(recvStart := sock.mstamp, startRtt := sock.rtt)
  }

  ghost function AdvanceSide(m: Model, sock: Sock): Model
    requires Valid(m)
  {
    if ReceiveEnds(m.log[m.r], m.counted) then
      m.(log := m.log[m.r + 1 := Receiving(m.log[m.r + 1], sock)], r := m.r + 1)
    else m
  }

  /** neo_process. */
  ghost function Process(m: Model, sock: Sock): (m': Model)
    requires Valid(m) && !Exhausts(m, sock)
    ensures Valid(m')
  {
    AdvanceSide(CreditSide(SendSide(m, sock), sock), sock)
  }

  /** neo_cong_control: an ACK without a valid rate sample only moves the bases. */
  ghost function Ack(m: Model, sock: Sock, sampled: bool): (m': Model)
    requires Valid(m) && !(sampled && Exhausts(m, sock))
    ensures Valid(m')
  {
    var p := if sampled then Process(m, sock) else m;
    p.(lostBase := sock.lost, deliveredBase := sock.delivered)
  }

  /** neo_set_state on a timeout: what is counted twice is re-measured. */
  function Timeout(m: Model, sock: Sock, inFlight: u32): Model {
    var extra := Wrap32(Wrap32(Wrap32(sock.delivered + sock.lost + inFlight) - sock.segsOut)
                        - m.doubleCounted);
    m.(doubleCounted := Wrap32(m.doubleCounted + extra))
  }

  /** The state neo_init leaves; the counters it does not touch are arbitrary. */
  function Init(counted: u32, lostBase: u32, deliveredBase: u32, sock: Sock): Model {
    Model([Started(BLANK, sock)], 0, counted, lostBase, deliveredBase, 0)
  }

  lemma ExtraMeans(all: int, segs: int, twice: int)
    ensures Wrap32(twice + Wrap32(Wrap32(Wrap32(all) - segs) - twice)) == Wrap32(all - segs)
  {
    WrapAdds(all, -segs);
    WrapAdds(all - segs, -twice);
    WrapAdds(all - segs - twice, twice);
  }

  /** After a timeout the next count is exactly the packets sent and no longer in flight,
      whatever was counted twice before. */
  lemma TimeoutRealigns(m: Model, sock: Sock, inFlight: u32)
    ensures Wrap32(sock.delivered + sock.lost - Timeout(m, sock, inFlight).doubleCounted)
      == Wrap32(sock.segsOut - inFlight)
  {
    var all := sock.delivered + sock.lost + inFlight;
    ExtraMeans(all, sock.segsOut, m.doubleCounted);
    WrapSubtracts(sock.delivered + sock.lost, all - sock.segsOut);
  }
}
