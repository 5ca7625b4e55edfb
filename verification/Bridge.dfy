/** `SmBridge.register_agent` and `unregister_agent` (sm_bridge/router.py) over the simple converter. */
module Bridge {
  import opened Wrappers
  import opened AgentFacts
  import opened Separators
  import opened DeltaStores
  import opened Gateway
  import opened Identifiers

  datatype SimpleAgent = SimpleAgent(id: string, ns: string, isPublic: bool, body: string)

  datatype Registry = Registry(registryId: string, didMethod: string, providerUrl: string)

  const LEGACY: Proof := Proof("legacy", "opaque-dict", NOT_VERIFIED, None,
    Some("legacy-unverified: pre-v0.4 proof payload carried no verifiable evidence"))

  /** `SimpleAgentConverter.to_sm`, with the fields no operation here looks into kept as they are. */
  function ToSm(reg: Registry, a: SimpleAgent): Facts
  {
    Facts(BuildDid(reg.didMethod, reg.providerUrl, a.ns, a.id), Some(CreateHandle(reg.registryId, a.ns, a.id)),
          a.body, Some(LEGACY))
  }

  datatype State = State(agents: map<string, SimpleAgent>, log: seq<Delta>)

  datatype Op = Register(agent: SimpleAgent) | Unregister(id: string)

  function Record(log: seq<Delta>, action: string, facts: Facts): seq<Delta>
  {
    log + [Delta(|log| + 1, action, facts)]
  }

  function Apply(reg: Registry, s: State, op: Op): State
  {
    match op
    case Register(a) =>
      State(s.agents[a.id := a], if a.isPublic then Record(s.log, "upsert", ToSm(reg, a)) else s.log)
    case Unregister(id) =>
      if id !in s.agents then s
      else State(s.agents - {id},
                 if s.agents[id].isPublic then Record(s.log, "delete", ToSm(reg, s.agents[id])) else s.log)
  }

  class SmBridge {
    const reg: Registry
    const store: DeltaStore
    var agents: map<string, SimpleAgent>

    ghost predicate Valid()
      reads this, store
    {
      store.Valid()
    }

    ghost function Abstract(): State
      reads this, store
    {
      State(agents, store.deltas)
    }

    constructor (reg: Registry, store: DeltaStore)
      requires store.Valid()
      ensures Valid() && this.reg == reg && this.store == store && Abstract() == State(map[], store.deltas)
    {
      this.reg, this.store, agents := reg, store, map[];
    }

    method RegisterAgent(agent: SimpleAgent) returns (facts: Facts)
      requires Valid()
      modifies this, store
      ensures Valid() && facts == ToSm(reg, agent)
      ensures Abstract() == Apply(reg, old(Abstract()), Register(agent))
      ensures agents == old(agents)[agent.id := agent]
      ensures store.deltas == old(store.deltas)
                              + if agent.isPublic then [Delta(|old(store.deltas)| + 1, "upsert", facts)] else []
      ensures facts.handle == Some("@" + reg.registryId + ":" + agent.ns + "/" + agent.id) && facts.body == agent.body
      ensures facts.proof == Some(Proof("legacy", "opaque-dict", NOT_VERIFIED, None,
                Some("legacy-unverified: pre-v0.4 proof payload carried no verifiable evidence")))
      ensures facts.id == "did:" + reg.didMethod + ":" + Domain(reg.providerUrl) + ":agents:" + agent.ns + ":" + agent.id
    {
      agents := agents[agent.id := agent];
      facts := ToSm(reg, agent);
      if agent.isPublic {
        var _ := store.Add("upsert", facts);
      }
    }

    method UnregisterAgent(agentId: string)
      requires Valid()
      modifies this, store
      ensures Valid() && Abstract() == Apply(reg, old(Abstract()), Unregister(agentId))
      ensures agents == old(agents) - {agentId}
      ensures store.deltas == old(store.deltas)
                              + if agentId in old(agents) && old(agents)[agentId].isPublic then
                                  [Delta(|old(store.deltas)| + 1, "delete", ToSm(reg, old(agents)[agentId]))]
                                else []
    {
      if agentId in agents {
        var agent := agents[agentId];
        var facts := ToSm(reg, agent);
        agents := agents - {agentId};
        if agent.isPublic {
          var _ := store.Add("delete", facts);
        }
      }
    }
  }

  // ----- the catalog tracks the registry --------------------------------------------------

  /** What the catalog should show: the registered public agents at their latest facts, under their ids. */
  function Listing(reg: Registry, agents: map<string, SimpleAgent>): Catalog
  {
    map id | id in agents && agents[id].isPublic :: ToSm(reg, agents[id])
  }

  ghost predicate CleanAgent(a: SimpleAgent)
  {
    ':' !in a.id && '/' !in a.id
  }

  /** Everything recorded describes an agent with a clean id, and agents are filed under their ids. */
  ghost predicate Ok(reg: Registry, s: State)
  {
    && Sequenced(s.log)
    && (forall id <- s.agents :: s.agents[id].id == id && CleanAgent(s.agents[id]))
    && (forall d <- s.log :: Describes(reg, d.agent))
  }

  ghost predicate Describes(reg: Registry, f: Facts)
  {
    exists a :: CleanAgent(a) && f == ToSm(reg, a)
  }

  ghost predicate Tracks(reg: Registry, s: State)
  {
    Replay(s.log, DefaultSlug) == Listing(reg, s.agents)
  }

  /** A public agent is not registered again as private without being unregistered first. */
  predicate Permitted(s: State, op: Op)
  {
    op.Register? ==> op.agent.isPublic || op.agent.id !in s.agents || !s.agents[op.agent.id].isPublic
  }

  ghost predicate CleanOp(op: Op)
  {
    op.Register? ==> CleanAgent(op.agent)
  }

  lemma {:induction false} SlugIsId(reg: Registry, a: SimpleAgent)
    requires CleanAgent(a)
    ensures DefaultSlug(ToSm(reg, a)) == a.id == AfterLast(ToSm(reg, a).id, ':')
  {
    var handle := CreateHandle(reg.registryId, a.ns, a.id);
    var front := "@" + reg.registryId + ":" + a.ns;
    assert handle == front + ['/'] + a.id;
    assert handle[|front|] == '/';
    AfterLastOf(front, '/', a.id);
    var didFront := "did:" + reg.didMethod + ":" + Domain(reg.providerUrl) + ":agents:" + a.ns;
    assert ToSm(reg, a).id == didFront + [':'] + a.id;
    AfterLastOf(didFront, ':', a.id);
  }

  lemma {:induction false} BridgeSlugsStable(reg: Registry, s: State)
    requires Ok(reg, s)
    ensures SlugsStable(s.log, DefaultSlug)
  {
    forall d, e | d in s.log && e in s.log && d.agent.id == e.agent.id
      ensures DefaultSlug(d.agent) == DefaultSlug(e.agent)
    {
      assert Describes(reg, d.agent) && Describes(reg, e.agent);
      var a :| CleanAgent(a) && d.agent == ToSm(reg, a);
      var b :| CleanAgent(b) && e.agent == ToSm(reg, b);
      SlugIsId(reg, a);
      SlugIsId(reg, b);
    }
  }

  lemma ApplyOk(reg: Registry, s: State, op: Op)
    requires Ok(reg, s) && CleanOp(op)
    ensures Ok(reg, Apply(reg, s, op))
  {
    match op
    case Register(a) =>
      assert Describes(reg, ToSm(reg, a));
    case Unregister(id) =>
      if id in s.agents {
        assert Describes(reg, ToSm(reg, s.agents[id]));
      }
  }

  lemma ReplayRecord(log: seq<Delta>, action: string, facts: Facts)
    ensures Replay(Record(log, action, facts), DefaultSlug)
         == Step(Replay(log, DefaultSlug), DefaultSlug, Delta(|log| + 1, action, facts))
  {
    assert Record(log, action, facts)[..|log|] == log;
  }

  /** One operation keeps catalog and registry together exactly when it is permitted. */
  lemma {:induction false} TracksStep(reg: Registry, s: State, op: Op)
    requires Ok(reg, s) && CleanOp(op) && Tracks(reg, s)
    ensures Tracks(reg, Apply(reg, s, op)) <==> Permitted(s, op)
  {
    hide Replay, DefaultSlug, ToSm;
    var s' := Apply(reg, s, op);
    match op
    case Register(a) =>
      SlugIsId(reg, a);
      ReplayRecord(s.log, "upsert", ToSm(reg, a));
      if a.isPublic {
        assert Listing(reg, s'.agents) == Listing(reg, s.agents)[a.id := ToSm(reg, a)];
      } else if Permitted(s, op) {
        assert Listing(reg, s'.agents) == Listing(reg, s.agents);
      } else {
        assert a.id in Listing(reg, s.agents) && a.id !in Listing(reg, s'.agents);
      }
    case Unregister(id) =>
      if id in s.agents {
        SlugIsId(reg, s.agents[id]);
        ReplayRecord(s.log, "delete", ToSm(reg, s.agents[id]));
        assert Listing(reg, s'.agents) == Listing(reg, s.agents) - {id};
      }
  }

  function Run(reg: Registry, ops: seq<Op>): State
  {
    if ops == [] then State(map[], []) else Apply(reg, Run(reg, ops[..|ops| - 1]), ops[|ops| - 1])
  }

  /** After any permitted run on fresh stores, `current_facts` with `default_slug` is exactly the registered
      public agents at their latest facts. */
  lemma {:induction false} CatalogTracksRegistry(reg: Registry, ops: seq<Op>, snapshot: seq<Delta>)
    requires forall op <- ops :: CleanOp(op)
    requires forall i :: 0 <= i < |ops| ==> Permitted(Run(reg, ops[..i]), ops[i])
    requires IsSnapshot(Run(reg, ops).log, snapshot)
    ensures Replay(snapshot, DefaultSlug) == Listing(reg, Run(reg, ops).agents)
  {
    hide Replay, DefaultSlug, IsSnapshot;
    RunTracks(reg, ops);
    BridgeSlugsStable(reg, Run(reg, ops));
    SnapshotIsReplay(Run(reg, ops).log, snapshot, DefaultSlug);
  }

  lemma {:induction false} RunTracks(reg: Registry, ops: seq<Op>)
    requires forall op <- ops :: CleanOp(op)
    requires forall i :: 0 <= i < |ops| ==> Permitted(Run(reg, ops[..i]), ops[i])
    ensures Ok(reg, Run(reg, ops)) && Tracks(reg, Run(reg, ops))
  {
    if ops != [] {
      var n := |ops| - 1;
      var front := ops[..n];
      forall i | 0 <= i < n ensures Permitted(Run(reg, front[..i]), front[i]) {
        assert front[..i] == ops[..i] && front[i] == ops[i];
      }
      RunTracks(reg, front);
      assert Permitted(Run(reg, ops[..n]), ops[n]);
      ApplyOk(reg, Run(reg, front), ops[n]);
      TracksStep(reg, Run(reg, front), ops[n]);
    }
  }

  /** Registering a public agent again as private leaves it in the catalog. */
  lemma {:induction false} PrivateAgainStays(reg: Registry, a: SimpleAgent)
    requires CleanAgent(a) && a.isPublic
    ensures var s := Run(reg, [Register(a), Register(a.(isPublic := false))]);
            a.id in Replay(s.log, DefaultSlug) && a.id !in Listing(reg, s.agents)
  {
    var ops := [Register(a), Register(a.(isPublic := false))];
    assert ops[..1] == [ops[0]] && ops[..1][..0] == [];
    assert Run(reg, ops[..1]) == Apply(reg, Run(reg, []), ops[0]);
    SlugIsId(reg, a);
    ReplayRecord([], "upsert", ToSm(reg, a));
  }
}
