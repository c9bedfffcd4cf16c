/** The classes of python/src/spine_flow.py and, from python/src/spine.py, the handlers that
    update them. Each method is proved to perform the step of FlowModel. */
module SpineFlow {
  import opened FlowModel

  class ActiveFlowMap {
    var kernelFlows: map<int, Flow>
    var flowIdToSockId: map<FlowId, int>
    var dstPortToFlowId: map<int, FlowId>

    ghost function State(): Maps
      reads this
    {
      Maps(kernelFlows, flowIdToSockId, dstPortToFlowId)
    }

    constructor ()
      ensures State() == EMPTY
    {
      kernelFlows, flowIdToSockId, dstPortToFlowId := map[], map[], map[];
    }

    method Associate(flow: Flow)
      modifies `flowIdToSockId
      ensures State() == TryAssociate(old(State()), flow)
    {
      if flow.dstPort in dstPortToFlowId {
        var flowId := dstPortToFlowId[flow.dstPort];
        if flowId !in flowIdToSockId {
          flowIdToSockId := flowIdToSockId[flowId := flow.sockId];
        }
      }
    }

    method AddFlowWithSockId(flow: Flow) returns (added: bool)
      modifies `kernelFlows, `flowIdToSockId
      ensures State() == AddFlow(old(State()), flow)
      ensures added == (flow.sockId !in old(kernelFlows))
    {
      if flow.sockId !in kernelFlows {
        kernelFlows := kernelFlows[flow.sockId := flow];
        Associate(flow);
        return true;
      }
      return false;
    }

    method AddFlowWithDstPort(port: int, flowId: FlowId)
      modifies `dstPortToFlowId
      ensures State() == AddPort(old(State()), port, flowId)
    {
      if port !in dstPortToFlowId {
        dstPortToFlowId := dstPortToFlowId[port := flowId];
      }
    }

    /** The port of the removed flow, as a set of at most one. */
    method RemoveFlowBySockId(sockId: int) returns (ports: set<int>)
      modifies `kernelFlows, `dstPortToFlowId
      ensures State() == RemoveSock(old(State()), sockId)
      ensures ports == if sockId in old(kernelFlows) then {old(kernelFlows)[sockId].dstPort} else {}
    {
      if sockId in kernelFlows {
        var port := kernelFlows[sockId].dstPort;
        dstPortToFlowId := dstPortToFlowId - {port};
        kernelFlows := kernelFlows - {sockId};
        return {port};
      }
      return {};
    }

    method RemoveFlowByFlowId(flowId: FlowId) returns (ports: set<int>)
      modifies this
      ensures State() == RemoveFlow(old(State()), flowId)
      ensures ports == RemovedPorts(old(State()), flowId)
    {
      if flowId in flowIdToSockId {
        var sockId := flowIdToSockId[flowId];
        flowIdToSockId := flowIdToSockId - {flowId};
        ports := RemoveFlowBySockId(sockId);
        return;
      }
      return {};
    }

    method RemoveAllEnvFlows()
      modifies `flowIdToSockId
      ensures flowIdToSockId == map[]
    {
      var ids := flowIdToSockId.Keys;
      while ids != {}
        invariant flowIdToSockId.Keys == ids
        decreases ids
      {
        var flowId :| flowId in ids;
        flowIdToSockId := flowIdToSockId - {flowId};
        ids := ids - {flowId};
      }
      assert flowIdToSockId.Keys == {};
    }
  }

  class EnvFlows {
    var flowsPerEnv: map<int, ActiveFlowMap>
    var dstPortToEnvId: map<int, Env>
    var sockIdToEnvId: map<int, Env>

    ghost function State(): Control
      reads this, flowsPerEnv.Values
    {
      Control(map k | k in flowsPerEnv :: flowsPerEnv[k].State(), dstPortToEnvId, sockIdToEnvId)
    }

    /** Every environment has maps of its own. */
    ghost predicate Valid()
      reads this
    {
      forall j, k :: j in flowsPerEnv && k in flowsPerEnv && flowsPerEnv[j] == flowsPerEnv[k] ==> j == k
    }

    /** Where the maps of one environment change, the others' do not. */
    twostate lemma OthersStay(key: int)
      requires old(Valid()) && flowsPerEnv == old(flowsPerEnv) && key in flowsPerEnv
      requires forall k :: k in flowsPerEnv && flowsPerEnv[k] != flowsPerEnv[key] ==> unchanged(flowsPerEnv[k])
      ensures State().envs == old(State()).envs[key := flowsPerEnv[key].State()]
    {
      forall k | k in flowsPerEnv && k != key ensures State().envs[k] == old(State()).envs[k] {
        assert flowsPerEnv[k] != flowsPerEnv[key];
      }
    }

    constructor ()
      ensures Valid() && State() == NO_ENVS
    {
      flowsPerEnv, dstPortToEnvId, sockIdToEnvId := map[], map[], map[];
    }

    method Register(h: Env -> int, env: Env)
      requires Valid()
      modifies `flowsPerEnv
      ensures Valid() && State() == RegisterEnv(old(State()), h, env)
    {
      var maps := new ActiveFlowMap();
      flowsPerEnv := flowsPerEnv[h(env) := maps];
    }

    method Release(h: Env -> int, env: Env)
      requires Valid()
      modifies this
      ensures Valid() && State() == ReleaseEnv(old(State()), h, env)
    {
      flowsPerEnv := flowsPerEnv - {h(env)};
      dstPortToEnvId := map p | p in dstPortToEnvId && dstPortToEnvId[p] != env :: dstPortToEnvId[p];
      sockIdToEnvId := map s | s in sockIdToEnvId && sockIdToEnvId[s] != env :: sockIdToEnvId[s];
    }

    method OnStart(h: Env -> int, env: Env, port: int, flowId: FlowId)
      requires Valid()
      modifies `dstPortToEnvId, flowsPerEnv.Values
      ensures Valid() && State() == HandleStart(old(State()), h, env, port, flowId)
    {
      var key := h(env);
      if key !in flowsPerEnv {
        return;
      }
      if port !in dstPortToEnvId {
        dstPortToEnvId := dstPortToEnvId[port := env];
      }
      flowsPerEnv[key].AddFlowWithDstPort(port, flowId);
      OthersStay(key);
    }

    method OnEnd(h: Env -> int, env: Env, flowId: FlowId)
      requires Valid()
      modifies `dstPortToEnvId, flowsPerEnv.Values
      ensures Valid() && State() == HandleEnd(old(State()), h, env, flowId)
    {
      var key := h(env);
      if key !in flowsPerEnv {
        return;
      }
      var ports := flowsPerEnv[key].RemoveFlowByFlowId(flowId);
      OthersStay(key);
      dstPortToEnvId := dstPortToEnvId - ports;
    }

    method OnTerminate(h: Env -> int, env: Env)
      requires Valid()
      modifies this, flowsPerEnv.Values
      ensures Valid() && State() == HandleTerminate(old(State()), h, env)
    {
      var key := h(env);
      if key !in flowsPerEnv {
        return;
      }
      flowsPerEnv[key].RemoveAllEnvFlows();
      OthersStay(key);
      Release(h, env);
    }

    method OnCreate(h: Env -> int, flow: Flow)
      requires Valid()
      modifies `sockIdToEnvId, flowsPerEnv.Values
      ensures Valid() && State() == HandleCreate(old(State()), h, flow)
    {
      if flow.dstPort !in dstPortToEnvId {
        return;
      }
      var env := dstPortToEnvId[flow.dstPort];
      var key := h(env);
      if key !in flowsPerEnv {
        return;
      }
      var added := flowsPerEnv[key].AddFlowWithSockId(flow);
      OthersStay(key);
      if flow.sockId !in sockIdToEnvId {
        sockIdToEnvId := sockIdToEnvId[flow.sockId := env];
      }
    }

    method OnRelease(sockId: int)
      requires Valid()
      modifies `sockIdToEnvId
      ensures Valid() && State() == HandleRelease(old(State()), sockId)
    {
      sockIdToEnvId := sockIdToEnvId - {sockId};
    }
  }
}
