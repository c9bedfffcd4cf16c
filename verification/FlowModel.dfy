/** The controller's maps from environments and their flow ids to kernel sockets
    (python/src/spine_flow.py), as the message handlers of python/src/spine.py use them. */
module FlowModel {

  /** A flow's number within its environment. */
  datatype FlowId = FlowId(number: int)

  /** What the controller keeps of a CREATE: the kernel's socket id and the port. */
  datatype Flow = Flow(sockId: int, dstPort: int)

  /** ActiveFlowMap: kernel_flows, flow_id_to_sock_id and dst_port_to_flow_id. */
  datatype Maps = Maps(kernel: map<int, Flow>, sockOf: map<FlowId, int>, flowOf: map<int, FlowId>)

  const EMPTY := Maps(map[], map[], map[])

  // ------------------------------------------------------------ one environment

  function TryAssociate(m: Maps, flow: Flow): Maps {
    if flow.dstPort in m.flowOf && m.flowOf[flow.dstPort] !in m.sockOf
    then m.(sockOf := m.sockOf[m.flowOf[flow.dstPort] := flow.sockId])
    else m
  }

  function AddFlow(m: Maps, flow: Flow): Maps {
    if flow.sockId in m.kernel then m
    else TryAssociate(m.(kernel := m.kernel[flow.sockId := flow]), flow)
  }

  function AddPort(m: Maps, port: int, flowId: FlowId): Maps {
    if port in m.flowOf then m else m.(flowOf := m.flowOf[port := flowId])
  }

  function RemoveSock(m: Maps, sockId: int): Maps {
    if sockId in m.kernel
    then m.(flowOf := m.flowOf - {m.kernel[sockId].dstPort}, kernel := m.kernel - {sockId})
    else m
  }

  function RemoveFlow(m: Maps, flowId: FlowId): Maps {
    if flowId in m.sockOf
    then RemoveSock(m.(sockOf := m.sockOf - {flowId}), m.sockOf[flowId])
    else m
  }

  /** The ports remove_flow_by_flowId returns: one, or none for None. */
  function RemovedPorts(m: Maps, flowId: FlowId): set<int> {
    if flowId in m.sockOf && m.sockOf[flowId] in m.kernel then {m.kernel[m.sockOf[flowId]].dstPort} else {}
  }

  /** Every associated flow id points to a known kernel flow whose port maps back to it. */
  ghost predicate Coherent(m: Maps) {
    && (forall f :: f in m.sockOf ==> m.sockOf[f] in m.kernel)
    && (forall f :: f in m.sockOf ==>
          && m.kernel[m.sockOf[f]].dstPort in m.flowOf
          && m.flowOf[m.kernel[m.sockOf[f]].dstPort] == f)
    && (forall s :: s in m.kernel ==> m.kernel[s].sockId == s)
  }

  /** So no two flow ids share a socket. */
  lemma AssociationIsInjective(m: Maps, f: FlowId, g: FlowId)
    requires Coherent(m) && f in m.sockOf && g in m.sockOf && m.sockOf[f] == m.sockOf[g]
    ensures f == g
  {
    assert m.flowOf[m.kernel[m.sockOf[f]].dstPort] == m.flowOf[m.kernel[m.sockOf[g]].dstPort];
  }

  lemma AddFlowKeeps(m: Maps, flow: Flow)
    requires Coherent(m)
    ensures Coherent(AddFlow(m, flow))
  {
  }

  lemma AddPortKeeps(m: Maps, port: int, flowId: FlowId)
    requires Coherent(m)
    ensures Coherent(AddPort(m, port, flowId))
  {
  }

  lemma RemoveFlowKeeps(m: Maps, flowId: FlowId)
    requires Coherent(m)
    ensures Coherent(RemoveFlow(m, flowId))
  {
    if flowId in m.sockOf {
      forall f | f in m.sockOf && f != flowId ensures m.sockOf[f] != m.sockOf[flowId] {
        if m.sockOf[f] == m.sockOf[flowId] {
          AssociationIsInjective(m, f, flowId);
        }
      }
    }
  }

  /** An END takes back exactly what its START and CREATE put in. */
  lemma EndUndoesStart(m: Maps, flow: Flow, flowId: FlowId)
    requires flow.sockId !in m.kernel && flow.dstPort !in m.flowOf && flowId !in m.sockOf
    ensures RemoveFlow(AddFlow(AddPort(m, flow.dstPort, flowId), flow), flowId) == m
    ensures RemovedPorts(AddFlow(AddPort(m, flow.dstPort, flowId), flow), flowId) == {flow.dstPort}
  {
    var started := AddPort(m, flow.dstPort, flowId);
    var created := AddFlow(started, flow);
    assert created.sockOf == m.sockOf[flowId := flow.sockId];
    assert created.sockOf - {flowId} == m.sockOf;
    assert created.kernel - {flow.sockId} == m.kernel;
    assert created.flowOf - {flow.dstPort} == m.flowOf;
  }

  /** remove_flow_by_sockId on its own keeps the maps coherent exactly when no flow id is
      associated with the socket, which is why only remove_flow_by_flowId may call it. */
  lemma RemoveSockAlone(m: Maps, sockId: int)
    requires Coherent(m) && sockId in m.kernel
    ensures Coherent(RemoveSock(m, sockId)) <==> (forall f :: f in m.sockOf ==>
      m.kernel[m.sockOf[f]].dstPort != m.kernel[sockId].dstPort)
  {
    var r, port := RemoveSock(m, sockId), m.kernel[sockId].dstPort;
    if f :| f in m.sockOf && m.kernel[m.sockOf[f]].dstPort == port {
      assert f in r.sockOf && port !in r.flowOf;
      assert m.sockOf[f] == sockId || r.kernel[r.sockOf[f]].dstPort == port;
    }
  }

  // ------------------------------------------------------------ all environments

  type Env = string

  /** EnvFlows: the maps per hashed environment id, and its two caches. */
  datatype Control = Control(envs: map<int, Maps>, envOfPort: map<int, Env>, envOfSock: map<int, Env>)

  const NO_ENVS := Control(map[], map[], map[])

  /** The messages that reach the maps. */
  datatype Event =
    | Register(env: Env)
    | StartFlow(env: Env, port: int, flowId: FlowId)
    | EndFlow(env: Env, flowId: FlowId)
    | Terminate(env: Env)
    | Create(flow: Flow)
    | Release(sockId: int)

  /** release_env: the environment's maps and every cache entry that names it. */
  function ReleaseEnv(c: Control, h: Env -> int, env: Env): Control {
    Control(c.envs - {h(env)},
            map p | p in c.envOfPort && c.envOfPort[p] != env :: c.envOfPort[p],
            map s | s in c.envOfSock && c.envOfSock[s] != env :: c.envOfSock[s])
  }

  /** register_env starts over, whatever was there. */
  function RegisterEnv(c: Control, h: Env -> int, env: Env): Control {
    c.(envs := c.envs[h(env) := EMPTY])
  }

  /** The handler of START. */
  function HandleStart(c: Control, h: Env -> int, env: Env, port: int, flowId: FlowId): Control {
    if h(env) !in c.envs then c
    else c.(envs := c.envs[h(env) := AddPort(c.envs[h(env)], port, flowId)],
            envOfPort := if port in c.envOfPort then c.envOfPort else c.envOfPort[port := env])
  }

  /** The handler of END. */
  function HandleEnd(c: Control, h: Env -> int, env: Env, flowId: FlowId): Control {
    if h(env) !in c.envs then c
    else c.(envs := c.envs[h(env) := RemoveFlow(c.envs[h(env)], flowId)],
            envOfPort := c.envOfPort - RemovedPorts(c.envs[h(env)], flowId))
  }

  /** The handler of TERMINATE. */
  function HandleTerminate(c: Control, h: Env -> int, env: Env): Control {
    if h(env) !in c.envs then c else ReleaseEnv(c, h, env)
  }

  /** The handler of the kernel's CREATE. */
  function HandleCreate(c: Control, h: Env -> int, flow: Flow): Control {
    if flow.dstPort !in c.envOfPort || h(c.envOfPort[flow.dstPort]) !in c.envs then c
    else
      var env := c.envOfPort[flow.dstPort];
      c.(envs := c.envs[h(env) := AddFlow(c.envs[h(env)], flow)],
         envOfSock := if flow.sockId in c.envOfSock then c.envOfSock else c.envOfSock[flow.sockId := env])
  }

  /** The handler of the kernel's RELEASE only drops the cached socket. */
  function HandleRelease(c: Control, sockId: int): Control {
    c.(envOfSock := c.envOfSock - {sockId})
  }

  function Step(c: Control, h: Env -> int, e: Event): Control {
    match e
    case Register(env) => RegisterEnv(c, h, env)
    case StartFlow(env, port, flowId) => HandleStart(c, h, env, port, flowId)
    case EndFlow(env, flowId) => HandleEnd(c, h, env, flowId)
    case Terminate(env) => HandleTerminate(c, h, env)
    case Create(flow) => HandleCreate(c, h, flow)
    case Release(sockId) => HandleRelease(c, sockId)
  }

  function Run(h: Env -> int, es: seq<Event>): Control
    decreases |es|
  {
    if es == [] then NO_ENVS else Step(Run(h, es[..|es| - 1]), h, es[|es| - 1])
  }

  ghost predicate AllCoherent(c: Control) { forall k :: k in c.envs ==> Coherent(c.envs[k]) }

  lemma StepKeepsCoherent(c: Control, h: Env -> int, e: Event)
    requires AllCoherent(c)
    ensures AllCoherent(Step(c, h, e))
  {
    match e
    case StartFlow(env, port, flowId) =>
      var key := h(env);
      if key in c.envs { AddPortKeeps(c.envs[key], port, flowId); }
    case EndFlow(env, flowId) =>
      var key := h(env);
      if key in c.envs { RemoveFlowKeeps(c.envs[key], flowId); }
    case Create(flow) =>
      if flow.dstPort in c.envOfPort && h(c.envOfPort[flow.dstPort]) in c.envs {
        var key := h(c.envOfPort[flow.dstPort]);
        AddFlowKeeps(c.envs[key], flow);
      }
    case _ =>
  }

  /** Over every run of messages the maps of every environment stay coherent. */
  lemma {:induction false} RunsAreCoherent(h: Env -> int, es: seq<Event>)
    ensures AllCoherent(Run(h, es))
    decreases |es|
  {
    if es != [] {
      RunsAreCoherent(h, es[..|es| - 1]);
      StepKeepsCoherent(Run(h, es[..|es| - 1]), h, es[|es| - 1]);
    }
  }

  /** After release_env nothing names the environment, and nothing else is lost. */
  lemma ReleaseForgets(c: Control, h: Env -> int, env: Env)
    ensures var r := ReleaseEnv(c, h, env);
      && h(env) !in r.envs && env !in r.envOfPort.Values && env !in r.envOfSock.Values
      && (forall p :: p in c.envOfPort && c.envOfPort[p] != env ==>
            p in r.envOfPort && r.envOfPort[p] == c.envOfPort[p])
      && (forall s :: s in c.envOfSock && c.envOfSock[s] != env ==>
            s in r.envOfSock && r.envOfSock[s] == c.envOfSock[s])
      && (forall k :: k in c.envs && k != h(env) ==> k in r.envs && r.envs[k] == c.envs[k])
  {
  }

  /** Nothing of a flow is known yet: neither its number, its port nor its socket. */
  ghost predicate Fresh(c: Control, h: Env -> int, env: Env, flowId: FlowId, flow: Flow) {
    && h(env) in c.envs
    && flow.sockId !in c.envs[h(env)].kernel && flow.dstPort !in c.envs[h(env)].flowOf
    && flowId !in c.envs[h(env)].sockOf
    && flow.dstPort !in c.envOfPort && flow.sockId !in c.envOfSock
  }

  /** A START and then a CREATE on its port: the port and the socket belong to the
      environment, and the flow is steered through the socket. */
  lemma CreateFindsItsFlow(c: Control, h: Env -> int, env: Env, flowId: FlowId, flow: Flow)
    requires Fresh(c, h, env, flowId, flow)
    ensures var m := c.envs[h(env)];
      Step(Step(c, h, StartFlow(env, flow.dstPort, flowId)), h, Create(flow))
        == Control(c.envs[h(env) := Maps(m.kernel[flow.sockId := flow], m.sockOf[flowId := flow.sockId],
                                         m.flowOf[flow.dstPort := flowId])],
                   c.envOfPort[flow.dstPort := env], c.envOfSock[flow.sockId := env])
  {
  }

  /** The whole life of a flow leaves no trace: after its START and CREATE, the kernel's
      RELEASE and its END everything is as it was, both caches included; without the RELEASE
      only the socket's cache entry is left. */
  lemma FlowLeavesNoTrace(c: Control, h: Env -> int, env: Env, flowId: FlowId, flow: Flow)
    requires Fresh(c, h, env, flowId, flow)
    ensures var live := Step(Step(c, h, StartFlow(env, flow.dstPort, flowId)), h, Create(flow));
      && Step(Step(live, h, Release(flow.sockId)), h, EndFlow(env, flowId)) == c
      && Step(live, h, EndFlow(env, flowId)) == c.(envOfSock := c.envOfSock[flow.sockId := env])
  {
    var m, key := c.envs[h(env)], h(env);
    CreateFindsItsFlow(c, h, env, flowId, flow);
    EndUndoesStart(m, flow, flowId);
    var live := Step(Step(c, h, StartFlow(env, flow.dstPort, flowId)), h, Create(flow));
    var ended := Step(live, h, EndFlow(env, flowId));
    assert live.envs[key] == AddFlow(AddPort(m, flow.dstPort, flowId), flow);
    assert ended.envs == c.envs;
    assert ended.envOfPort == c.envOfPort;
    var released := Step(live, h, Release(flow.sockId));
    assert released.envOfSock == c.envOfSock && released.envs == live.envs && released.envOfPort == live.envOfPort;
  }

  /** A port stays with the environment that started it first; once the flow associated with
      it has ended it goes to the next environment that starts it. */
  lemma PortPassesOn(c: Control, h: Env -> int, env: Env, flowId: FlowId, next: Env, other: FlowId, port: int)
    requires h(env) in c.envs && h(next) in c.envs
    requires var m := c.envs[h(env)];
      && port in c.envOfPort && flowId in m.sockOf
      && m.sockOf[flowId] in m.kernel && m.kernel[m.sockOf[flowId]].dstPort == port
    ensures Step(c, h, StartFlow(next, port, other)).envOfPort == c.envOfPort
    ensures Step(Step(c, h, EndFlow(env, flowId)), h, StartFlow(next, port, other)).envOfPort
      == c.envOfPort[port := next]
  {
    var ended := Step(c, h, EndFlow(env, flowId));
    assert RemovedPorts(c.envs[h(env)], flowId) == {port};
    assert ended.envOfPort == c.envOfPort - {port} && h(next) in ended.envs;
  }

  /** A socket id stays with the environment that had it first; once the kernel has released
      it, it goes to the environment on whose port it is announced next. */
  lemma SocketPassesOn(c: Control, h: Env -> int, flow: Flow)
    requires flow.dstPort in c.envOfPort && h(c.envOfPort[flow.dstPort]) in c.envs && flow.sockId in c.envOfSock
    ensures Step(c, h, Create(flow)).envOfSock == c.envOfSock
    ensures Step(Step(c, h, Release(flow.sockId)), h, Create(flow)).envOfSock
      == c.envOfSock[flow.sockId := c.envOfPort[flow.dstPort]]
  {
    var released := Step(c, h, Release(flow.sockId));
    assert released.envOfSock == c.envOfSock - {flow.sockId} && released.envOfPort == c.envOfPort;
  }

  /** To an environment that has just registered every flow is fresh, whatever it did before,
      unless the caches still name its port or its socket. */
  lemma RegistrationForgets(c: Control, h: Env -> int, env: Env, flowId: FlowId, flow: Flow)
    ensures Fresh(Step(c, h, Register(env)), h, env, flowId, flow) <==>
      flow.dstPort !in c.envOfPort && flow.sockId !in c.envOfSock
  {
  }

  /** The flows of an environment that has not registered, or has left, are ignored, and so is
      its leaving. */
  lemma UnregisteredIsIgnored(c: Control, h: Env -> int, e: Event, env: Env)
    requires h(env) !in c.envs && Named(e) == {env} && !e.Register?
    ensures Step(c, h, e) == c
  {
    assert env in Named(e);
  }

  // ------------------------------------------------------------ where a decision goes

  /** An environment said that it uses the port for the flow. */
  ghost predicate Claimed(h: Env -> int, es: seq<Event>, key: int, port: int, flowId: FlowId) {
    exists i :: 0 <= i < |es| && es[i].StartFlow? && h(es[i].env) == key && es[i].port == port && es[i].flowId == flowId
  }

  ghost predicate Announced(es: seq<Event>, flow: Flow) { Create(flow) in es }

  /** Everything in an environment's maps was said to the controller. */
  ghost predicate Grounded(h: Env -> int, es: seq<Event>, c: Control) {
    && (forall k, s :: k in c.envs && s in c.envs[k].kernel ==> Announced(es, c.envs[k].kernel[s]))
    && (forall k, p :: k in c.envs && p in c.envs[k].flowOf ==> Claimed(h, es, k, p, c.envs[k].flowOf[p]))
  }

  lemma ClaimsLast(h: Env -> int, es: seq<Event>, e: Event, key: int, port: int, flowId: FlowId)
    requires Claimed(h, es, key, port, flowId)
    ensures Claimed(h, es + [e], key, port, flowId)
  {
    var i :| 0 <= i < |es| && es[i].StartFlow? && h(es[i].env) == key && es[i].port == port && es[i].flowId == flowId;
    assert (es + [e])[i] == es[i];
  }

  /** A step adds at most the flow or the claim of its own message. */
  lemma StepAdds(c: Control, h: Env -> int, e: Event, k: int)
    requires k in Step(c, h, e).envs
    ensures var m := Step(c, h, e).envs[k];
      && (forall s :: s in m.kernel ==> (k in c.envs && s in c.envs[k].kernel && c.envs[k].kernel[s] == m.kernel[s])
                                        || e == Create(m.kernel[s]))
      && (forall p :: p in m.flowOf ==> (k in c.envs && p in c.envs[k].flowOf && c.envs[k].flowOf[p] == m.flowOf[p])
                                        || (e.StartFlow? && h(e.env) == k && e.port == p && e.flowId == m.flowOf[p]))
  {
  }

  lemma GroundedStep(h: Env -> int, es: seq<Event>, c: Control, e: Event)
    requires Grounded(h, es, c)
    ensures Grounded(h, es + [e], Step(c, h, e))
  {
    var all, r := es + [e], Step(c, h, e);
    assert all[|es|] == e;
    forall k, s | k in r.envs && s in r.envs[k].kernel ensures Announced(all, r.envs[k].kernel[s]) {
      StepAdds(c, h, e, k);
    }
    forall k, p | k in r.envs && p in r.envs[k].flowOf ensures Claimed(h, all, k, p, r.envs[k].flowOf[p]) {
      StepAdds(c, h, e, k);
      if k in c.envs && p in c.envs[k].flowOf && c.envs[k].flowOf[p] == r.envs[k].flowOf[p] {
        ClaimsLast(h, es, e, k, p, r.envs[k].flowOf[p]);
      }
    }
  }

  lemma {:induction false} RunsAreGrounded(h: Env -> int, es: seq<Event>)
    ensures Grounded(h, es, Run(h, es))
    decreases |es|
  {
    if es != [] {
      var before := es[..|es| - 1];
      RunsAreGrounded(h, before);
      GroundedStep(h, before, Run(h, before), es[|es| - 1]);
      assert before + [es[|es| - 1]] == es;
    }
  }

  /** In every reachable state the socket to which an environment's decision for a flow is
      sent is one the kernel announced, on the very port the environment started that flow
      with; no other flow of the environment is steered through it; and where socket ids are
      reused only once no environment knows a flow under them, that announcement is the
      socket's latest. */
  lemma DecisionsReachTheirFlow(h: Env -> int, es: seq<Event>, env: Env, flowId: FlowId) returns (flow: Flow)
    requires h(env) in Run(h, es).envs && flowId in Run(h, es).envs[h(env)].sockOf
    ensures flow.sockId == Run(h, es).envs[h(env)].sockOf[flowId]
    ensures Announced(es, flow) && Claimed(h, es, h(env), flow.dstPort, flowId)
    ensures forall other :: other in Run(h, es).envs[h(env)].sockOf && other != flowId ==>
      Run(h, es).envs[h(env)].sockOf[other] != flow.sockId
    ensures ReusesEnded(h, es) ==> flow == LatestCreate(es, flow.sockId)
  {
    RunsAreCoherent(h, es);
    RunsAreGrounded(h, es);
    CurrentExactlyWhen(h, es);
    var key := h(env);
    var m := Run(h, es).envs[key];
    flow := m.kernel[m.sockOf[flowId]];
    forall other | other in m.sockOf && other != flowId ensures m.sockOf[other] != flow.sockId {
      if m.sockOf[other] == m.sockOf[flowId] {
        AssociationIsInjective(m, other, flowId);
      }
    }
  }

  // ------------------------------------------------------------ stale announcements

  /** The latest announcement of a socket. */
  function LatestCreate(es: seq<Event>, sockId: int): (flow: Flow)
    ensures flow.sockId == sockId
    ensures Create(flow) in es || forall f :: Create(f) in es ==> f.sockId != sockId
    decreases |es|
  {
    if es == [] then Flow(sockId, 0)
    else
      var e, before := es[|es| - 1], es[..|es| - 1];
      assert es == before + [e];
      if e.Create? && e.flow.sockId == sockId then e.flow else LatestCreate(before, sockId)
  }

  /** No environment knows the socket under another announcement. */
  ghost predicate Unknown(c: Control, flow: Flow) {
    forall k :: k in c.envs && flow.sockId in c.envs[k].kernel ==> c.envs[k].kernel[flow.sockId] == flow
  }

  /** Every CREATE of the run finds its socket unknown, or known from an announcement just
      like it: a socket id is reused, with another port, only once no environment knows a
      flow under it, because that has ended, or because the environment has left or
      registered again. */
  ghost predicate ReusesEnded(h: Env -> int, es: seq<Event>)
    decreases |es|
  {
    es == [] ||
    (ReusesEnded(h, es[..|es| - 1]) &&
     (es[|es| - 1].Create? ==> Unknown(Run(h, es[..|es| - 1]), es[|es| - 1].flow)))
  }

  /** Every known socket is known as it was last announced. */
  ghost predicate Current(c: Control, es: seq<Event>) {
    forall k, s :: k in c.envs && s in c.envs[k].kernel ==> c.envs[k].kernel[s] == LatestCreate(es, s)
  }

  ghost predicate AlwaysCurrent(h: Env -> int, es: seq<Event>)
    decreases |es|
  {
    Current(Run(h, es), es) && (es == [] || AlwaysCurrent(h, es[..|es| - 1]))
  }

  lemma LatestThen(es: seq<Event>, e: Event, s: int)
    ensures LatestCreate(es + [e], s) == if e.Create? && e.flow.sockId == s then e.flow else LatestCreate(es, s)
  {
    assert (es + [e])[..|es|] == es;
  }

  /** Sockets enter an environment's maps only with their own announcement. */
  lemma StepKeepsKnown(c: Control, h: Env -> int, e: Event, k: int, s: int)
    requires k in Step(c, h, e).envs && s in Step(c, h, e).envs[k].kernel
    ensures if k in c.envs && s in c.envs[k].kernel then
              e.Register? || Step(c, h, e).envs[k].kernel[s] == c.envs[k].kernel[s]
            else e.Create? && e.flow.sockId == s && Step(c, h, e).envs[k].kernel[s] == e.flow
  {
  }

  lemma StepCurrent(c: Control, h: Env -> int, es: seq<Event>, e: Event)
    requires Current(c, es) && AllCoherent(c)
    ensures Current(Step(c, h, e), es + [e]) <==> (e.Create? ==> Unknown(c, e.flow))
  {
    var r := Step(c, h, e);
    forall k, s | k in r.envs && s in r.envs[k].kernel && (e.Create? ==> Unknown(c, e.flow))
      ensures r.envs[k].kernel[s] == LatestCreate(es + [e], s)
    {
      LatestThen(es, e, s);
      StepKeepsKnown(c, h, e, k, s);
    }
    if e.Create? && !Unknown(c, e.flow) {
      var k :| k in c.envs && e.flow.sockId in c.envs[k].kernel && c.envs[k].kernel[e.flow.sockId] != e.flow;
      LatestThen(es, e, e.flow.sockId);
      assert r.envs[k].kernel[e.flow.sockId] == c.envs[k].kernel[e.flow.sockId];
    }
  }

  /** Over every run: all along, each known socket is known as it was last announced, so
      that decisions reach the flow that has it now, exactly if a socket id is announced with
      another port only once no environment knows a flow under it. */
  lemma {:induction false} CurrentExactlyWhen(h: Env -> int, es: seq<Event>)
    ensures AlwaysCurrent(h, es) <==> ReusesEnded(h, es)
    decreases |es|
  {
    if es != [] {
      var before, e := es[..|es| - 1], es[|es| - 1];
      assert before + [e] == es;
      CurrentExactlyWhen(h, before);
      RunsAreCoherent(h, before);
      if ReusesEnded(h, before) {
        assert Current(Run(h, before), before);
        StepCurrent(Run(h, before), h, before, e);
      }
    }
  }

  /** A run on which a decision goes astray: the kernel releases socket 1 and announces it
      again for the second flow before the environment has ended the first. The first flow
      goes on steering the socket, which is now the second's, and the second steers none. */
  lemma ReuseGoesAstray(h: Env -> int, env: Env)
    ensures var f1, f2 := FlowId(1), FlowId(2);
      var es := [Register(env), StartFlow(env, 80, f1), Create(Flow(1, 80)), Release(1),
                 StartFlow(env, 81, f2), Create(Flow(1, 81))];
      && h(env) in Run(h, es).envs
      && var m := Run(h, es).envs[h(env)];
         m.sockOf == map[f1 := 1] && LatestCreate(es, 1) == Flow(1, 81) && m.flowOf[80 := f1][81 := f2] == m.flowOf
  {
    var f1, f2, key := FlowId(1), FlowId(2), h(env);
    var es := [Register(env), StartFlow(env, 80, f1), Create(Flow(1, 80)), Release(1),
               StartFlow(env, 81, f2), Create(Flow(1, 81))];
    assert es[..5][..4] == es[..4] && es[..4][..3] == es[..3] && es[..3][..2] == es[..2];
    assert es[..2][..1] == es[..1] == [Register(env)] && es[..1][..0] == [];
    assert Run(h, es[..1]) == RegisterEnv(NO_ENVS, h, env);
    var c2 := Run(h, es[..2]);
    assert c2.envs[key] == Maps(map[], map[], map[80 := f1]) && c2.envOfPort == map[80 := env];
    var c3 := Run(h, es[..3]);
    assert c3.envs[key] == Maps(map[1 := Flow(1, 80)], map[f1 := 1], map[80 := f1]);
    assert c3.envOfPort == map[80 := env];
    var c4 := Run(h, es[..4]);
    assert c4.envs[key] == c3.envs[key] && c4.envOfPort == c3.envOfPort;
    var c5 := Run(h, es[..5]);
    assert c5.envs[key] == Maps(map[1 := Flow(1, 80)], map[f1 := 1], map[80 := f1, 81 := f2]);
    assert c5.envOfPort == map[80 := env, 81 := env];
    assert Run(h, es) == Step(c5, h, Create(Flow(1, 81)));
    assert Run(h, es).envs[key] == c5.envs[key];
  }

  // ------------------------------------------------------------ a port that stays taken

  /** The port belongs to the flow, and no socket associated with the flow has it. */
  ghost predicate Waits(c: Control, key: int, port: int, flowId: FlowId) {
    && key in c.envs
    && port in c.envs[key].flowOf && c.envs[key].flowOf[port] == flowId
    && (flowId in c.envs[key].sockOf && c.envs[key].sockOf[flowId] in c.envs[key].kernel ==>
          c.envs[key].kernel[c.envs[key].sockOf[flowId]].dstPort != port)
  }

  /** What could still free the port or associate it: the environment leaving or starting
      over, or the kernel announcing a socket with that port. */
  predicate Touches(h: Env -> int, e: Event, key: int, port: int) {
    match e
    case Register(env) => h(env) == key
    case Terminate(env) => h(env) == key
    case Create(flow) => flow.dstPort == port
    case _ => false
  }

  lemma StepWaits(c: Control, h: Env -> int, e: Event, key: int, port: int, flowId: FlowId)
    requires AllCoherent(c) && Waits(c, key, port, flowId) && !Touches(h, e, key, port)
    ensures Waits(Step(c, h, e), key, port, flowId)
  {
    match e
    case EndFlow(env, ended) =>
      var k := h(env);
      if k == key {
        RemoveOther(c.envs[key], ended, port);
      }
    case _ =>
  }

  /** An END takes the port away only with a flow whose socket has that port. */
  lemma RemoveOther(m: Maps, ended: FlowId, port: int)
    requires Coherent(m) && port in m.flowOf
    ensures port !in RemoveFlow(m, ended).flowOf <==>
      ended in m.sockOf && m.kernel[m.sockOf[ended]].dstPort == port
  {
  }

  /** A flow that ends before the kernel announces it leaves its port taken: whatever else
      happens, later ENDs of the same flow and STARTs of others on the port included, the
      port still belongs to the ended flow, until the environment leaves. */
  lemma {:induction false} EndBeforeCreate(h: Env -> int, es: seq<Event>, env: Env, port: int, flowId: FlowId,
                                           more: seq<Event>)
    requires Waits(Run(h, es), h(env), port, flowId)
    requires forall i :: 0 <= i < |more| ==> !Touches(h, more[i], h(env), port)
    ensures Waits(Run(h, es + [EndFlow(env, flowId)] + more), h(env), port, flowId)
    decreases |more|
  {
    var ended := es + [EndFlow(env, flowId)];
    if more == [] {
      assert ended + more == ended && ended[..|es|] == es;
      RunsAreCoherent(h, es);
      StepWaits(Run(h, es), h, EndFlow(env, flowId), h(env), port, flowId);
    } else {
      var before, e := more[..|more| - 1], more[|more| - 1];
      EndBeforeCreate(h, es, env, port, flowId, before);
      RunsAreCoherent(h, ended + before);
      assert (ended + more)[..|ended + more| - 1] == ended + before;
      StepWaits(Run(h, ended + before), h, e, h(env), port, flowId);
    }
  }

  // ------------------------------------------------------------ the caches

  /** The environment a message names. */
  function Named(e: Event): set<Env> {
    match e
    case Register(env) => {env}
    case StartFlow(env, _, _) => {env}
    case EndFlow(env, _) => {env}
    case Terminate(env) => {env}
    case _ => {}
  }

  ghost predicate NamesOnly(es: seq<Event>, ids: set<Env>) {
    forall i :: 0 <= i < |es| ==> Named(es[i]) <= ids
  }

  ghost predicate InjectiveOn(h: Env -> int, ids: set<Env>) {
    forall a, b :: a in ids && b in ids && h(a) == h(b) ==> a == b
  }

  /** Every cached environment is registered. */
  ghost predicate CachesAreLive(h: Env -> int, c: Control) {
    && (forall p :: p in c.envOfPort ==> h(c.envOfPort[p]) in c.envs)
    && (forall s :: s in c.envOfSock ==> h(c.envOfSock[s]) in c.envs)
  }

  /** Only environments of the run are cached. */
  ghost predicate CachesOnly(c: Control, ids: set<Env>) {
    c.envOfPort.Values <= ids && c.envOfSock.Values <= ids
  }

  lemma StepLive(c: Control, h: Env -> int, e: Event, ids: set<Env>)
    requires InjectiveOn(h, ids) && Named(e) <= ids
    requires CachesAreLive(h, c) && CachesOnly(c, ids)
    ensures CachesAreLive(h, Step(c, h, e)) && CachesOnly(Step(c, h, e), ids)
  {
    match e
    case Terminate(env) =>
      var r := Step(c, h, e);
      forall p | p in r.envOfPort ensures h(r.envOfPort[p]) in r.envs {
        assert r.envOfPort[p] == c.envOfPort[p] && c.envOfPort[p] in c.envOfPort.Values;
      }
      forall s | s in r.envOfSock ensures h(r.envOfSock[s]) in r.envs {
        assert r.envOfSock[s] == c.envOfSock[s] && c.envOfSock[s] in c.envOfSock.Values;
      }
    case _ =>
  }

  lemma {:induction false} LiveOverRuns(h: Env -> int, es: seq<Event>, ids: set<Env>)
    requires InjectiveOn(h, ids) && NamesOnly(es, ids)
    ensures CachesAreLive(h, Run(h, es)) && CachesOnly(Run(h, es), ids)
    decreases |es|
  {
    if es != [] {
      LiveOverRuns(h, es[..|es| - 1], ids);
      StepLive(Run(h, es[..|es| - 1]), h, es[|es| - 1], ids);
    }
  }

  /** Two environments whose ids hash alike: one leaving takes the other's maps with it, and
      the port cache still names the other. */
  lemma CollisionStrands(h: Env -> int, a: Env, b: Env)
    requires h(a) == h(b) && a != b
    ensures !CachesAreLive(h, Run(h, [Register(b), StartFlow(b, 80, FlowId(1)), Terminate(a)]))
  {
    var es := [Register(b), StartFlow(b, 80, FlowId(1)), Terminate(a)];
    assert es[..2] == [Register(b), StartFlow(b, 80, FlowId(1))];
    assert es[..2][..1] == [Register(b)] && es[..2][..1][..0] == [];
    var started := Run(h, es[..2]);
    assert Run(h, es[..2][..1]) == RegisterEnv(NO_ENVS, h, b);
    assert started.envOfPort[80] == b && h(a) in started.envs;
    assert Run(h, es) == ReleaseEnv(started, h, a);
    assert 80 in Run(h, es).envOfPort;
  }

  /** For any set of environments: the caches name only registered ones over all runs of
      their messages exactly when no two of their ids hash alike. */
  lemma CachesLiveExactlyWhen(h: Env -> int, ids: set<Env>)
    ensures (forall es :: NamesOnly(es, ids) ==> CachesAreLive(h, Run(h, es))) <==> InjectiveOn(h, ids)
  {
    if InjectiveOn(h, ids) {
      forall es | NamesOnly(es, ids) ensures CachesAreLive(h, Run(h, es)) {
        LiveOverRuns(h, es, ids);
      }
    } else {
      var a, b :| a in ids && b in ids && h(a) == h(b) && a != b;
      CollisionStrands(h, a, b);
      assert NamesOnly([Register(b), StartFlow(b, 80, FlowId(1)), Terminate(a)], ids);
    }
  }
}
