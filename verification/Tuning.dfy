/** The control path and the congestion controls together: what the controller decides is
    what the flow runs with after its next invocation. */
module Tuning {
  import opened Machine
  import opened Messages
  import opened Options
  import opened ConnectionModel
  import opened Staging
  import opened ControlPath
  import CubicCurve
  import CubicModel
  import VanillaModel

  /** A connection that may be retuned: its CREATE was sent, and what is staged concerns only
      the n registers of its congestion control. */
  ghost predicate Tunable(c: Conn, n: nat) {
    c.sentCreate && forall k :: 0 <= k < |c.writes| ==> c.writes[k].regIndex < n
  }

  /** The parameters that the next invocation hands over after the message arrived, as one
      call in front of the answers to a pending request. */
  ghost predicate HandsOver(c: Conn, fs: seq<UpdateField>, clock: Clock, sent: int, reply: Option<seq<u64>>,
                            params: seq<u64>) {
    Invoke(StageFields(c, fs), clock, sent, reply).trace == c.trace + [SetParams(params)] + Answers(c, reply)
  }

  /** send_scubic_message names beta before bic_scale. */
  const SCUBIC_ORDER: seq<u32> := [1, 0]

  /** A decision sent to scubic, of two values each between 1 and 1023, is what the flow
      runs with, with both scales derived from it; any other decision changes nothing. */
  lemma CubicRunsAsDecided(c: Conn, sid: u16, bicScale: u64, beta: u64, bufSize: int,
                           clock: Clock, sent: int, reply: Option<seq<u64>>, ca: CubicModel.Ca)
    returns (params: seq<u64>)
    requires Tunable(c, 2)
    requires bufSize >= |UpdateMessage(sid, ActionFields(SCUBIC_ORDER, map[0 := bicScale, 1 := beta]))|
    ensures var buf := UpdateMessage(sid, ActionFields(SCUBIC_ORDER, map[0 := bicScale, 1 := beta]));
      && Complete(buf) && ReadMessage(buf, bufSize).Fields? && ReadMessage(buf, bufSize).sid == sid
      && HandsOver(c, ReadMessage(buf, bufSize).fs, clock, sent, reply, params)
    ensures var ca' := CubicModel.SetParams(ca, true, params);
      if 1 <= bicScale < 1024 && 1 <= beta < 1024 then
        && ca'.bicScale == bicScale && ca'.beta == beta
        && ca'.cubeFactor == CubicCurve.CubeFactor(bicScale)
        && ca'.betaScale == CubicModel.BetaScale(beta)
        && ca' == ca.(bicScale := bicScale, beta := beta, cubeFactor := ca'.cubeFactor, betaScale := ca'.betaScale)
      else ca' == ca
  {
    var values: map<u32, u64> := map[0 := bicScale, 1 := beta];
    params := Delivered(c, sid, SCUBIC_ORDER, values, 2, bufSize, clock, sent, reply);
    assert params[0] == values[0] && params[1] == values[1];
  }

  lemma Delivered(c: Conn, sid: u16, order: seq<u32>, values: map<u32, u64>, n: nat, bufSize: int,
                  clock: Clock, sent: int, reply: Option<seq<u64>>) returns (params: seq<u64>)
    requires forall i :: 0 <= i < |order| ==> order[i] in values
    requires Iterates(order, n) && n > 0 && |order| < 128 && Tunable(c, n)
    requires bufSize >= |UpdateMessage(sid, ActionFields(order, values))|
    ensures var buf := UpdateMessage(sid, ActionFields(order, values));
      && Complete(buf) && ReadMessage(buf, bufSize).Fields? && ReadMessage(buf, bufSize).sid == sid
      && HandsOver(c, ReadMessage(buf, bufSize).fs, clock, sent, reply, params)
    ensures |params| == n && forall r: u32 :: r < n ==> r in values && params[r] == values[r]
  {
    ActionsArriveInOrder(c, sid, order, values, n, bufSize, clock, sent, reply);
    var fs := ReadMessage(UpdateMessage(sid, ActionFields(order, values)), bufSize).fs;
    var d := Invoke(StageFields(c, fs), clock, sent, reply);
    var ps: seq<u64> :| d.trace == c.trace + [SetParams(ps)] + Answers(c, reply) && |ps| == n
      && forall r: u32 :: r < n ==> r in values && ps[r] == values[r];
    params := ps;
  }

  /** A decision sent to vanilla, whatever order its keys are iterated in: four values whose
      low halves lie between 1 and 1024 are what the flow runs with, gamma doubled; otherwise
      nothing changes. */
  lemma VanillaRunsAsDecided(c: Conn, sid: u16, order: seq<u32>, values: map<u32, u64>, bufSize: int,
                             clock: Clock, sent: int, reply: Option<seq<u64>>, v: VanillaModel.Vanilla)
    returns (params: seq<u64>)
    requires forall i :: 0 <= i < |order| ==> order[i] in values
    requires Iterates(order, 4) && |order| < 128 && Tunable(c, 4)
    requires bufSize >= |UpdateMessage(sid, ActionFields(order, values))|
    ensures var buf := UpdateMessage(sid, ActionFields(order, values));
      && Complete(buf) && ReadMessage(buf, bufSize).Fields? && ReadMessage(buf, bufSize).sid == sid
      && HandsOver(c, ReadMessage(buf, bufSize).fs, clock, sent, reply, params)
    ensures forall r: u32 :: r < 4 ==> r in values
    ensures var v' := VanillaModel.SetParams(v, true, params);
      if forall r: u32 :: r < 4 ==> VanillaModel.CheckParam(values[r]) then
        v' == v.(alpha := Wrap16(values[0]), beta := Wrap16(values[1]), gamma := 2 * Wrap16(values[2]),
                 delta := Wrap16(values[3]))
      else v' == v
  {
    params := Delivered(c, sid, order, values, 4, bufSize, clock, sent, reply);
    assert params[0] == values[0] && params[1] == values[1] && params[2] == values[2] && params[3] == values[3];
    if VanillaModel.CheckParam(values[2]) {
      VanillaModel.DoubledGamma(values[2]);
    }
  }

  /** And what it decides is what the ACKs do: from the invocation that hands it over, in a
      run of plain steps outside slow start without another decision, n ACKs on a fast path
      and m on a slow one move the window, fraction included, up by n times the alpha decided
      and down by m times the beta, of which no more than 512 count. */
  lemma VanillaSteersAsDecided(c: Conn, sid: u16, order: seq<u32>, values: map<u32, u64>, bufSize: int,
                               clock: Clock, sent: int, reply: Option<seq<u64>>,
                               v: VanillaModel.Vanilla, a: VanillaModel.AckInfo, rest: seq<VanillaModel.Event>)
    returns (params: seq<u64>)
    requires forall i :: 0 <= i < |order| ==> order[i] in values
    requires Iterates(order, 4) && |order| < 128 && Tunable(c, 4)
    requires bufSize >= |UpdateMessage(sid, ActionFields(order, values))|
    requires VanillaModel.Inv(v) && VanillaModel.AllAllowed(rest)
    requires forall r: u32 :: r < 4 && r in values ==> VanillaModel.CheckParam(values[r])
    ensures var buf := UpdateMessage(sid, ActionFields(order, values));
      && Complete(buf) && ReadMessage(buf, bufSize).Fields? && ReadMessage(buf, bufSize).sid == sid
      && HandsOver(c, ReadMessage(buf, bufSize).fs, clock, sent, reply, params)
    ensures forall r: u32 :: r < 4 ==> r in values
    ensures var es := [VanillaModel.Ack(a, params)] + rest;
      VanillaModel.AllAllowed(es) && (VanillaModel.OneDecision(v, es) ==> SteersBy(v, es, values[0], values[1]))
  {
    params := Delivered(c, sid, order, values, 4, bufSize, clock, sent, reply);
    assert params[0] == values[0] && params[1] == values[1];
    var es := [VanillaModel.Ack(a, params)] + rest;
    if VanillaModel.OneDecision(v, es) {
      assert es[0].tuning == params;
      DecisionSteers(v, es);
    }
  }

  /** The ACKs of the run add the one and take away the other. */
  ghost predicate SteersBy(v: VanillaModel.Vanilla, es: seq<VanillaModel.Event>, alpha: u64, beta: u64)
    requires VanillaModel.Inv(v) && VanillaModel.AllAllowed(es)
  {
    VanillaModel.Total(VanillaModel.Run(v, es)) == VanillaModel.Total(v)
      + VanillaModel.Acks(v, es, true) * Wrap16(alpha) - VanillaModel.Acks(v, es, false) * Min(Wrap16(beta), 512)
  }

  lemma DecisionSteers(v: VanillaModel.Vanilla, es: seq<VanillaModel.Event>)
    requires VanillaModel.Inv(v) && VanillaModel.AllAllowed(es) && VanillaModel.OneDecision(v, es)
    ensures es != [] && VanillaModel.Steers(v, es[0]) && VanillaModel.Decides(es[0].tuning)
    ensures SteersBy(v, es, es[0].tuning[0], es[0].tuning[1])
  {
    VanillaModel.DecisionLasts(v, es);
    VanillaModel.RunSteers(v, es, Wrap16(es[0].tuning[0]), Wrap16(es[0].tuning[1]));
    assert VanillaModel.CheckParam(es[0].tuning[0]);
  }
}
