/**
 scripts/check_grafana_dashboards.py `_golden_agent_identities`: local checks on agent identities that
 together make one rooted tree.
 */
module AgentTree {
  import opened Outcomes
  import opened Sorting

  /** The identity a lifecycle record carries; a text is absent or empty when it is not a usable string. */
  datatype Record = Record(
    agentId: string, sessionId: string, rootId: string, rootSessionId: string, lifecycleId: string,
    executionId: string, parentId: string, parentSessionId: string, depth: Option<int>)

  datatype Agent = Agent(
    agentId: string, sessionId: string, rootId: string, parentId: string, rootSessionId: string,
    parentSessionId: string, lifecycleId: string, executionId: string, depth: int)

  /** Agents by id, and the ids in the order they were first seen. */
  type Agents = map<string, Agent>

  datatype IdentityError =
    | Incomplete | Conflicting(id: string) | RootCount(n: nat) | BadRoot | LostRoot(id: string)
    | ParentSessionOfRoot(id: string) | MissingParent(id: string) | WrongParentSession(id: string)
    | WrongDepth(id: string) | TooShallow

  predicate Complete(r: Record) {
    && r.depth.Some? && r.agentId != "" && r.sessionId != "" && r.rootId != "" && r.rootSessionId != ""
    && r.lifecycleId != "" && r.executionId != ""
  }

  function AgentOf(r: Record): Agent
    requires r.depth.Some?
  {
    Agent(r.agentId, r.sessionId, r.rootId, r.parentId, r.rootSessionId, r.parentSessionId, r.lifecycleId,
        r.executionId, r.depth.value)
  }

  /** The ids of the complete records, as first seen. */
  function Seen(records: seq<Record>): (ids: seq<string>)
    ensures Distinct(ids)
  {
    if records == [] then []
    else
      var before, last := Seen(records[..|records| - 1]), records[|records| - 1];
      if Complete(last) && last.agentId !in before then before + [last.agentId] else before
  }

  /** Every record is complete and says what the registered agent says. */
  ghost predicate Agreed(records: seq<Record>, agents: Agents) {
    forall r | r in records :: Complete(r) && r.agentId in agents && agents[r.agentId] == AgentOf(r)
  }

  /** Every agent is registered under its id as the first complete record describes it. */
  ghost predicate Registered(records: seq<Record>, agents: Agents) {
    forall id | id in agents :: agents[id].agentId == id && FirstOf(records, id, agents[id])
  }

  /** The first complete record with this id describes the agent. */
  ghost predicate FirstOf(records: seq<Record>, id: string, agent: Agent) {
    exists i | 0 <= i < |records| :: Describes(records[i], id) && AgentOf(records[i]) == agent &&
      NoneBefore(records, id, i)
  }

  predicate Describes(r: Record, id: string) {
    Complete(r) && r.agentId == id
  }

  ghost predicate NoneBefore(records: seq<Record>, id: string, i: nat) {
    forall j | 0 <= j < i && j < |records| :: !Describes(records[j], id)
  }

  // ----- what the local checks ask

  predicate IsRoot(agents: Agents, id: string) {
    id in agents && agents[id].parentId == ""
  }

  predicate RootIdentity(root: Agent) {
    root.depth == 0 && root.rootId == root.agentId && root.rootSessionId == root.sessionId
  }

  /** The checks on one agent. */
  predicate AgentOk(agents: Agents, root: Agent, agent: Agent) {
    && agent.rootId == root.agentId && agent.rootSessionId == root.sessionId
    && if agent.parentId == "" then agent.parentSessionId == ""
       else && agent.parentId in agents
            && agent.parentSessionId == agents[agent.parentId].sessionId
            && agent.depth == agents[agent.parentId].depth + 1
  }

  ghost predicate TreeAt(agents: Agents, root: string) {
    && root in agents && (forall id :: IsRoot(agents, id) <==> id == root)
    && RootIdentity(agents[root])
    && (forall id | id in agents :: agents[id].agentId == id && AgentOk(agents, agents[root], agents[id]))
  }

  ghost predicate LocalTree(agents: Agents) {
    && (exists root | root in agents :: TreeAt(agents, root))
    && (exists id | id in agents :: agents[id].depth >= 3)
  }

  // ----- what the records have to say

  /** The record has a depth and all the texts but those about a parent. */
  predicate Identified(r: Record) {
    && r.agentId != "" && r.sessionId != "" && r.rootId != "" && r.rootSessionId != ""
    && r.lifecycleId != "" && r.executionId != "" && r.depth.Some?
  }

  /** One level below the agent of `parent`, in its session. */
  predicate ChildRecord(r: Record, parent: Record) {
    && parent.agentId == r.parentId && parent.sessionId == r.parentSessionId
    && parent.depth.Some? && r.depth == Some(parent.depth.value + 1)
  }

  /** The record is about the tree of `root`: it is of the root agent, or a child of some recorded agent. */
  ghost predicate InTreeOf(r: Record, root: Record, records: seq<Record>) {
    && r.rootId == root.agentId && r.rootSessionId == root.sessionId
    && (r.parentId == "" ==> r.agentId == root.agentId)
    && (r.parentId != "" ==> exists parent | parent in records :: ChildRecord(r, parent))
  }

  ghost predicate RootOf(records: seq<Record>, root: Record) {
    && root.parentId == "" && root.parentSessionId == "" && root.depth == Some(0)
    && forall r | r in records :: InTreeOf(r, root, records)
  }

  /** Records that leave nothing out, never contradict each other, and describe one tree at least three levels deep. */
  ghost predicate TellOneTree(records: seq<Record>) {
    && (forall r | r in records :: Identified(r))
    && (forall r, s | r in records && s in records && r.agentId == s.agentId :: r == s)
    && (exists root | root in records :: RootOf(records, root))
    && (exists r | r in records && r.depth.Some? :: r.depth.value >= 3)
  }

  lemma SameAgentSameRecord(r: Record, s: Record)
    requires r.depth.Some? && s.depth.Some?
    ensures AgentOf(r) == AgentOf(s) <==> r == s
  {
  }

  lemma RecordOf(records: seq<Record>, agents: Agents, id: string) returns (r: Record)
    requires Registered(records, agents) && id in agents
    ensures r in records && Complete(r) && r.agentId == id && agents[id] == AgentOf(r)
  {
    var i :| 0 <= i < |records| && Describes(records[i], id) && AgentOf(records[i]) == agents[id] &&
        NoneBefore(records, id, i);
    r := records[i];
  }

  /** Clean agents come from records that tell one tree. */
  lemma TreeIsTold(records: seq<Record>, agents: Agents)
    requires Registered(records, agents) && Agreed(records, agents) && LocalTree(agents)
    ensures TellOneTree(records)
  {
    hide *;
    var id, root, deepest := TreeWitness(records, agents);
    RootIsTold(records, agents, id, root);
    NoConflict(records, agents);
    forall r | r in records ensures Identified(r) && InTreeOf(r, root, records) {
      InTree(records, agents, id, root, r);
    }
    TellTree(records, root, deepest);
  }

  lemma TreeWitness(records: seq<Record>, agents: Agents) returns (id: string, root: Record, deepest: Record)
    requires Registered(records, agents) && LocalTree(agents)
    ensures TreeAt(agents, id) && root in records && Complete(root) && root.agentId == id
    ensures deepest in records && deepest.depth.Some? && deepest.depth.value >= 3
  {
    hide Registered, TreeAt;
    id :| id in agents && TreeAt(agents, id);
    var deep :| deep in agents && agents[deep].depth >= 3;
    root := RecordOf(records, agents, id);
    deepest := RecordOf(records, agents, deep);
  }

  lemma TellTree(records: seq<Record>, root: Record, deepest: Record)
    requires forall r | r in records :: Identified(r) && InTreeOf(r, root, records)
    requires forall r, s | r in records && s in records && r.agentId == s.agentId :: r == s
    requires root in records && root.parentId == "" && root.parentSessionId == "" && root.depth == Some(0)
    requires deepest in records && deepest.depth.Some? && deepest.depth.value >= 3
    ensures TellOneTree(records)
  {
    hide Identified, InTreeOf;
    assert RootOf(records, root);
  }

  lemma NoConflict(records: seq<Record>, agents: Agents)
    requires Agreed(records, agents)
    ensures forall r, s | r in records && s in records && r.agentId == s.agentId :: r == s
  {
    forall r, s | r in records && s in records && r.agentId == s.agentId ensures r == s {
      SameAgentSameRecord(r, s);
      hide AgentOf;
    }
  }

  lemma RootIsTold(records: seq<Record>, agents: Agents, id: string, root: Record)
    requires Agreed(records, agents) && TreeAt(agents, id)
    requires root in records && Complete(root) && root.agentId == id
    ensures root.parentId == "" && root.parentSessionId == "" && root.depth == Some(0)
  {
    assert IsRoot(agents, id) && AgentOk(agents, agents[id], agents[id]);
  }

  lemma InTree(records: seq<Record>, agents: Agents, id: string, root: Record, r: Record)
    requires Registered(records, agents) && Agreed(records, agents) && TreeAt(agents, id)
    requires root in records && Complete(root) && root.agentId == id && r in records
    ensures Identified(r) && InTreeOf(r, root, records)
  {
    AgreedAt(records, agents, r);
    AgreedAt(records, agents, root);
    NodeAt(agents, id, r.agentId);
    hide Registered, Agreed, TreeAt;
    if r.parentId != "" {
      var parent := RecordOf(records, agents, r.parentId);
      assert ChildRecord(r, parent);
    }
  }

  lemma AgreedAt(records: seq<Record>, agents: Agents, r: Record)
    requires Agreed(records, agents) && r in records
    ensures Complete(r) && r.agentId in agents && agents[r.agentId] == AgentOf(r)
  {
    hide Complete, AgentOf;
  }

  lemma NodeAt(agents: Agents, root: string, id: string)
    requires TreeAt(agents, root) && id in agents
    ensures AgentOk(agents, agents[root], agents[id]) && (agents[id].parentId == "" ==> id == root)
  {
    assert IsRoot(agents, id) <==> id == root;
    hide AgentOk, RootIdentity;
  }

  /** Records that tell one tree give clean agents. */
  lemma ToldIsTree(records: seq<Record>, agents: Agents)
    requires Registered(records, agents) && TellOneTree(records)
    requires forall r | r in records && Complete(r) :: r.agentId in agents
    ensures Agreed(records, agents) && LocalTree(agents)
  {
    hide Registered;
    forall r | r in records ensures Complete(r) && r.agentId in agents && agents[r.agentId] == AgentOf(r) {
      assert Identified(r);
      var other := RecordOf(records, agents, r.agentId);
    }
    var root :| root in records && RootOf(records, root);
    var deep :| deep in records && deep.depth.Some? && deep.depth.value >= 3;
    assert InTreeOf(root, root, records);
    assert agents[deep.agentId].depth >= 3;
    ToldTreeAt(records, agents, root);
  }

  lemma ToldTreeAt(records: seq<Record>, agents: Agents, root: Record)
    requires Registered(records, agents) && Agreed(records, agents)
    requires root in records && root.parentId == "" && root.parentSessionId == "" && root.depth == Some(0)
    requires forall r | r in records :: InTreeOf(r, root, records)
    requires forall r, s | r in records && s in records && r.agentId == s.agentId :: r == s
    ensures root.agentId in agents && TreeAt(agents, root.agentId)
  {
    hide Registered;
    assert InTreeOf(root, root, records);
    forall id | id in agents
      ensures agents[id].agentId == id && AgentOk(agents, agents[root.agentId], agents[id])
      ensures IsRoot(agents, id) <==> id == root.agentId
    {
      var r := RecordOf(records, agents, id);
      assert InTreeOf(r, root, records);
      if r.parentId != "" {
        var parent :| parent in records && ChildRecord(r, parent);
      }
    }
  }

  // ----- the checks

  ghost predicate SameIds(ids: seq<string>, agents: Agents) {
    forall id :: id in ids <==> id in agents
  }

  ghost predicate RegisterState(records: seq<Record>, ids: seq<string>, agents: Agents, agreed: bool) {
    && ids == Seen(records) && SameIds(ids, agents)
    && Registered(records, agents) && (agreed <==> Agreed(records, agents))
  }

  lemma RegisterBad(records: seq<Record>, r: Record, ids: seq<string>, agents: Agents, agreed: bool)
    requires RegisterState(records, ids, agents, agreed)
    requires !Complete(r) || (r.agentId in agents && agents[r.agentId] != AgentOf(r))
    ensures RegisterState(records + [r], ids, agents, false)
  {
    SeenMore(records, r);
    assert r in records + [r];
    forall id | id in agents ensures FirstOf(records + [r], id, agents[id]) {
      FirstStays(records, r, id, agents[id]);
    }
    hide Complete, Seen, FirstOf;
  }

  lemma RegisterGood(records: seq<Record>, r: Record, ids: seq<string>, agents: Agents, agreed: bool)
    requires RegisterState(records, ids, agents, agreed)
    requires Complete(r) && (r.agentId in agents ==> agents[r.agentId] == AgentOf(r))
    ensures RegisterState(records + [r], if r.agentId in agents then ids else ids + [r.agentId],
              agents[r.agentId := AgentOf(r)], agreed)
  {
    SeenMore(records, r);
    forall x | x in records && Complete(x) ensures x.agentId in agents {
      CompleteIsSeen(records, x);
    }
    RegisteredMore(records, r, agents);
    if Agreed(records, agents) {
      AgreedStays(records, r, agents);
    }
    if Agreed(records + [r], agents[r.agentId := AgentOf(r)]) {
      AgreedBefore(records, r, agents);
    }
    SameIdsMore(ids, agents, AgentOf(r), r.agentId);
    assert r.agentId in ids <==> r.agentId in agents;
    hide Seen, Registered, Agreed, SameIds;
  }

  lemma SameIdsMore(ids: seq<string>, agents: Agents, agent: Agent, id: string)
    requires SameIds(ids, agents)
    ensures SameIds(if id in agents then ids else ids + [id], agents[id := agent])
  {
  }

  lemma RegisteredMore(records: seq<Record>, r: Record, agents: Agents)
    requires Registered(records, agents) && Complete(r)
    requires forall x | x in records && Complete(x) :: x.agentId in agents
    requires r.agentId in agents ==> agents[r.agentId] == AgentOf(r)
    ensures Registered(records + [r], agents[r.agentId := AgentOf(r)])
  {
    var more := agents[r.agentId := AgentOf(r)];
    forall id | id in more ensures more[id].agentId == id && FirstOf(records + [r], id, more[id]) {
      if id in agents {
        FirstStays(records, r, id, agents[id]);
      } else {
        FirstNew(records, r);
      }
    }
  }

  lemma FirstStays(records: seq<Record>, r: Record, id: string, agent: Agent)
    requires FirstOf(records, id, agent)
    ensures FirstOf(records + [r], id, agent)
  {
    hide AgentOf;
    var i :| 0 <= i < |records| && Describes(records[i], id) && AgentOf(records[i]) == agent &&
        NoneBefore(records, id, i);
    var all := records + [r];
    assert all[i] == records[i] && NoneBefore(all, id, i);
  }

  lemma FirstNew(records: seq<Record>, r: Record)
    requires Complete(r) && forall x | x in records :: !Describes(x, r.agentId)
    ensures FirstOf(records + [r], r.agentId, AgentOf(r))
  {
    var all := records + [r];
    assert all[|records|] == r && Describes(r, r.agentId);
    hide Describes;
    assert NoneBefore(all, r.agentId, |records|);
  }

  lemma AgreedStays(records: seq<Record>, r: Record, agents: Agents)
    requires Agreed(records, agents) && Complete(r) && (r.agentId in agents ==> agents[r.agentId] == AgentOf(r))
    ensures Agreed(records + [r], agents[r.agentId := AgentOf(r)])
  {
    hide Complete, AgentOf;
    assert forall x :: x in records + [r] <==> x in records || x == r;
  }

  lemma AgreedBefore(records: seq<Record>, r: Record, agents: Agents)
    requires Complete(r) && Agreed(records + [r], agents[r.agentId := AgentOf(r)]) &&
              (r.agentId in agents ==> agents[r.agentId] == AgentOf(r))
    requires forall id :: id in Seen(records) ==> id in agents
    ensures Agreed(records, agents)
  {
    hide AgentOf;
    forall x | x in records ensures Complete(x) && x.agentId in agents && agents[x.agentId] == AgentOf(x) {
      assert x in records + [r];
      CompleteIsSeen(records, x);
    }
  }

  lemma SeenMore(records: seq<Record>, r: Record)
    ensures Seen(records + [r]) ==
            if Complete(r) && r.agentId !in Seen(records) then Seen(records) + [r.agentId] else Seen(records)
  {
    assert (records + [r])[..|records|] == records;
  }

  lemma {:induction false} CompleteIsSeen(records: seq<Record>, r: Record)
    requires r in records && Complete(r)
    ensures r.agentId in Seen(records)
  {
    var n := |records| - 1;
    if r != records[n] {
      assert r in records[..n];
      CompleteIsSeen(records[..n], r);
    }
  }

  /** Two complete records disagree about an agent. */
  ghost predicate Contradicted(records: seq<Record>, id: string) {
    exists r, s | r in records && s in records :: Describes(r, id) && Describes(s, id) && r != s
  }

  /** What is wrong with the records taken together. */
  ghost predicate RecordError(records: seq<Record>, e: IdentityError) {
    match e
    case Incomplete => exists r | r in records :: !Identified(r)
    case Conflicting(id) => Contradicted(records, id)
    case _ => false
  }

  ghost predicate Blamed(records: seq<Record>, errors: seq<IdentityError>) {
    forall e :: e in errors <==> RecordError(records, e)
  }

  lemma ContradictedMore(records: seq<Record>, r: Record, id: string)
    ensures Contradicted(records + [r], id) <==>
              || Contradicted(records, id)
              || (Describes(r, id) && exists s | s in records :: Describes(s, id) && s != r)
  {
    assert forall x :: x in records + [r] <==> x in records || x == r;
  }

  lemma BlamedIncomplete(records: seq<Record>, r: Record, errors: seq<IdentityError>)
    requires Blamed(records, errors) && !Complete(r)
    ensures Blamed(records + [r], errors + [Incomplete])
  {
    forall id ensures Contradicted(records + [r], id) <==> Contradicted(records, id) {
      ContradictedMore(records, r, id);
    }
    assert !Identified(r);
    hide Contradicted, Identified, Complete;
    assert forall x :: x in records + [r] <==> x in records || x == r;
    assert forall e :: e in errors + [Incomplete] <==> e in errors || e == Incomplete;
  }

  lemma OthersBlamed(records: seq<Record>, r: Record)
    requires Complete(r)
    ensures RecordError(records + [r], Incomplete) <==> RecordError(records, Incomplete)
    ensures forall id | id != r.agentId :: Contradicted(records + [r], id) <==> Contradicted(records, id)
  {
    forall id | id != r.agentId ensures Contradicted(records + [r], id) <==> Contradicted(records, id) {
      ContradictedMore(records, r, id);
      hide Contradicted;
    }
    assert Identified(r);
    hide Contradicted, Identified, Complete;
    assert forall x :: x in records + [r] <==> x in records || x == r;
  }

  lemma BlamedConflict(records: seq<Record>, r: Record, ids: seq<string>, agents: Agents, errors: seq<IdentityError>)
    requires RegisterState(records, ids, agents, errors == []) && Blamed(records, errors)
    requires Complete(r) && r.agentId in agents && agents[r.agentId] != AgentOf(r)
    ensures Blamed(records + [r], errors + [Conflicting(r.agentId)])
  {
    var s := RecordOf(records, agents, r.agentId);
    assert Describes(s, r.agentId) && Describes(r, r.agentId) && s != r;
    OthersBlamed(records, r);
    ContradictedMore(records, r, r.agentId);
    hide Contradicted, Complete, RegisterState, Describes;
    var more := errors + [Conflicting(r.agentId)];
    forall e ensures e in more <==> RecordError(records + [r], e) {
      assert e in more <==> e in errors || e == Conflicting(r.agentId);
    }
  }

  lemma BlamedNothing(records: seq<Record>, r: Record, ids: seq<string>, agents: Agents, errors: seq<IdentityError>)
    requires RegisterState(records, ids, agents, errors == []) && Blamed(records, errors)
    requires Complete(r) && (r.agentId in agents ==> agents[r.agentId] == AgentOf(r))
    ensures Blamed(records + [r], errors)
  {
    OthersBlamed(records, r);
    ContradictedMore(records, r, r.agentId);
    forall s | s in records && Describes(s, r.agentId) && s != r ensures Contradicted(records, r.agentId) {
      CompleteIsSeen(records, s);
      var w := RecordOf(records, agents, r.agentId);
      SameAgentSameRecord(w, r);
      assert Describes(w, r.agentId);
    }
    hide Contradicted, Complete, RegisterState;
    forall e ensures e in errors <==> RecordError(records + [r], e) {
    }
  }

  method Register(records: seq<Record>) returns (ids: seq<string>, agents: Agents, errors: seq<IdentityError>)
    ensures RegisterState(records, ids, agents, errors == []) && Blamed(records, errors)
  {
    ids, agents, errors := [], map[], [];
    assert records[..0] == [];
    assert RegisterState([], ids, agents, true) && Blamed([], errors);
    hide RegisterState, Blamed;
    for i := 0 to |records|
      invariant RegisterState(records[..i], ids, agents, errors == []) && Blamed(records[..i], errors)
    {
      var record := records[i];
      assert records[..i + 1] == records[..i] + [record];
      if !Complete(record) {
        RegisterBad(records[..i], record, ids, agents, errors == []);
        BlamedIncomplete(records[..i], record, errors);
        errors := errors + [Incomplete];
      } else {
        var candidate := AgentOf(record);
        if candidate.agentId in agents && agents[candidate.agentId] != candidate {
          RegisterBad(records[..i], record, ids, agents, errors == []);
          BlamedConflict(records[..i], record, ids, agents, errors);
          errors := errors + [Conflicting(candidate.agentId)];
        } else {
          RegisterGood(records[..i], record, ids, agents, errors == []);
          BlamedNothing(records[..i], record, ids, agents, errors);
          if candidate.agentId !in agents {
            ids := ids + [candidate.agentId];
          }
          agents := agents[candidate.agentId := candidate];
        }
      }
    }
    assert records[..|records|] == records;
  }

  /** What is wrong with one agent. */
  predicate AgentError(agents: Agents, root: Agent, agent: Agent, e: IdentityError) {
    match e
    case LostRoot(id) =>
      id == agent.agentId && !(agent.rootId == root.agentId && agent.rootSessionId == root.sessionId)
    case ParentSessionOfRoot(id) => id == agent.agentId && agent.parentId == "" && agent.parentSessionId != ""
    case MissingParent(id) => id == agent.agentId && agent.parentId != "" && agent.parentId !in agents
    case WrongParentSession(id) =>
      id == agent.agentId && agent.parentId != "" && agent.parentId in agents &&
      agent.parentSessionId != agents[agent.parentId].sessionId
    case WrongDepth(id) =>
      id == agent.agentId && agent.parentId != "" && agent.parentId in agents &&
      agent.depth - agents[agent.parentId].depth != 1
    case _ => false
  }

  method CheckAgent(agents: Agents, root: Agent, agent: Agent) returns (errors: seq<IdentityError>)
    ensures errors == [] <==> AgentOk(agents, root, agent)
    ensures forall e :: e in errors <==> AgentError(agents, root, agent, e)
  {
    errors := [];
    if agent.rootId != root.agentId || agent.rootSessionId != root.sessionId {
      errors := errors + [LostRoot(agent.agentId)];
    }
    if agent.parentId == "" {
      if agent.parentSessionId != "" {
        errors := errors + [ParentSessionOfRoot(agent.agentId)];
      }
      return;
    }
    if agent.parentId !in agents {
      return errors + [MissingParent(agent.agentId)];
    }
    var parent := agents[agent.parentId];
    if agent.parentSessionId != parent.sessionId {
      errors := errors + [WrongParentSession(agent.agentId)];
    }
    if agent.depth != parent.depth + 1 {
      errors := errors + [WrongDepth(agent.agentId)];
    }
  }

  ghost predicate AllOk(agents: Agents, root: Agent, ids: seq<string>)
  {
    forall id | id in ids :: id in agents && AgentOk(agents, root, agents[id])
  }

  lemma AllOkMore(agents: Agents, root: Agent, ids: seq<string>, id: string)
    requires id in agents
    ensures AllOk(agents, root, ids + [id]) <==> AllOk(agents, root, ids) && AgentOk(agents, root, agents[id])
  {
    hide AgentOk;
    assert forall x :: x in ids + [id] <==> x in ids || x == id;
  }

  /** Some agent has this error. */
  ghost predicate SomeError(agents: Agents, root: Agent, ids: seq<string>, e: IdentityError) {
    exists id | id in ids :: id in agents && AgentError(agents, root, agents[id], e)
  }

  lemma SomeErrorMore(agents: Agents, root: Agent, ids: seq<string>, id: string)
    requires id in agents
    ensures forall e :: SomeError(agents, root, ids + [id], e) <==>
              SomeError(agents, root, ids, e) || AgentError(agents, root, agents[id], e)
  {
    hide AgentError;
    assert forall x :: x in ids + [id] <==> x in ids || x == id;
  }

  method CheckAgents(agents: Agents, root: Agent, ids: seq<string>) returns (errors: seq<IdentityError>)
    requires forall id | id in ids :: id in agents
    ensures errors == [] <==> AllOk(agents, root, ids)
    ensures forall e :: e in errors <==> SomeError(agents, root, ids, e)
  {
    errors := [];
    NobodyChecked(agents, root);
    hide *;
    assert ids[..0] == [];
    for i := 0 to |ids|
      invariant errors == [] <==> AllOk(agents, root, ids[..i])
      invariant forall e :: e in errors <==> SomeError(agents, root, ids[..i], e)
    {
      assert ids[i] in ids;
      var problems := CheckAgent(agents, root, agents[ids[i]]);
      AllOkMore(agents, root, ids[..i], ids[i]);
      SomeErrorMore(agents, root, ids[..i], ids[i]);
      assert ids[..i + 1] == ids[..i] + [ids[i]];
      errors := errors + problems;
    }
    assert ids[..|ids|] == ids;
  }

  /** The ids of the agents without a parent. */
  function Roots(agents: Agents): set<string> {
    set id | id in agents && agents[id].parentId == ""
  }

  /** What is wrong with the agents taken together. */
  ghost predicate TreeError(agents: Agents, e: IdentityError) {
    if |Roots(agents)| != 1 then e == RootCount(|Roots(agents)|)
    else exists root | root in Roots(agents) :: ErrorUnder(agents, agents[root], e)
  }

  ghost predicate ErrorUnder(agents: Agents, root: Agent, e: IdentityError) {
    match e
    case BadRoot => root.depth != 0 || root.rootId != root.agentId || root.rootSessionId != root.sessionId
    case TooShallow => forall id | id in agents :: agents[id].depth < 3
    case _ => exists id | id in agents :: AgentError(agents, root, agents[id], e)
  }

  /** The checks on what has been registered. */
  method CheckTree(ghost records: seq<Record>, ids: seq<string>, agents: Agents) returns (errors: seq<IdentityError>)
    requires RegisterState(records, ids, agents, Agreed(records, agents))
    ensures errors == [] <==> LocalTree(agents)
    ensures forall e :: e in errors <==> TreeError(agents, e)
  {
    KeysAreIds(records, agents);
    LocalTreeIff(agents, ids);
    var roots := RootsAmong(agents, ids);
    RootsFound(agents, ids);
    hide *;
    if |roots| != 1 {
      NoSingleRoot(agents, ids);
      return [RootCount(|roots|)];
    }
    var root := agents[roots[0]];
    var problems := CheckAgents(agents, root, ids);
    errors := (if RootIdentity(root) then [] else [BadRoot]) + problems +
        if MaxDepth(agents, ids) < 3 then [TooShallow] else [];
    TreeErrorIff(agents, ids, root, problems);
  }

  lemma RootsFound(agents: Agents, ids: seq<string>)
    requires Distinct(ids) && SameIds(ids, agents)
    ensures |RootsAmong(agents, ids)| == |Roots(agents)|
    ensures forall id | id in RootsAmong(agents, ids) :: id in Roots(agents) && id in agents
  {
    RootsAre(agents, ids);
    DistinctSize(RootsAmong(agents, ids), Roots(agents));
  }

  lemma NoSingleRoot(agents: Agents, ids: seq<string>)
    requires |Roots(agents)| != 1
    ensures forall e :: TreeError(agents, e) <==> e == RootCount(|Roots(agents)|)
  {
    hide Roots, ErrorUnder;
  }

  lemma TreeErrorIff(agents: Agents, ids: seq<string>, root: Agent, problems: seq<IdentityError>)
    requires SameIds(ids, agents) && |Roots(agents)| == 1
    requires exists id | id in Roots(agents) :: root == agents[id]
    requires forall e :: e in problems <==> SomeError(agents, root, ids, e)
    ensures var errors := (if RootIdentity(root) then [] else [BadRoot]) + problems +
                if MaxDepth(agents, ids) < 3 then [TooShallow] else [];
            forall e :: e in errors <==> TreeError(agents, e)
  {
    MaxDepthIs(agents, ids);
    var id :| id in Roots(agents) && root == agents[id];
    forall other | other in Roots(agents) ensures other == id {
      assert Roots(agents) == {id} by {
        Singleton(Roots(agents), id);
      }
    }
    var errors := (if RootIdentity(root) then [] else [BadRoot]) + problems +
        if MaxDepth(agents, ids) < 3 then [TooShallow] else [];
    hide Roots, MaxDepth;
    forall e ensures TreeError(agents, e) <==> ErrorUnder(agents, root, e) {
    }
    hide TreeError;
  }

  lemma Singleton(s: set<string>, x: string)
    requires |s| == 1 && x in s
    ensures s == {x}
  {
    assert |s - {x}| == 0;
  }

  /** scripts/check_grafana_dashboards.py `_golden_agent_identities`. */
  method AgentIdentities(records: seq<Record>) returns (ids: seq<string>, agents: Agents, errors: seq<IdentityError>)
    ensures ids == Seen(records) && forall id :: id in ids <==> id in agents
    ensures Registered(records, agents)
    ensures errors == [] <==> Agreed(records, agents) && LocalTree(agents)
    ensures errors == [] <==> TellOneTree(records)
    ensures forall e :: e in errors <==> RecordError(records, e) || TreeError(agents, e)
  {
    ids, agents, errors := Register(records);
    ToldIff(records, ids, agents);
    var problems := CheckTree(records, ids, agents);
    hide RecordError, TreeError, Registered, Agreed, LocalTree, TellOneTree, Seen;
    errors := errors + problems;
  }

  lemma ToldIff(records: seq<Record>, ids: seq<string>, agents: Agents)
    requires Registered(records, agents) && ids == Seen(records) && SameIds(ids, agents)
    ensures Agreed(records, agents) && LocalTree(agents) <==> TellOneTree(records)
  {
    forall r | r in records && Complete(r) ensures r.agentId in agents {
      CompleteIsSeen(records, r);
    }
    hide Registered, Agreed, LocalTree, TellOneTree, Complete, Seen;
    if Agreed(records, agents) && LocalTree(agents) {
      TreeIsTold(records, agents);
    }
    if TellOneTree(records) {
      ToldIsTree(records, agents);
    }
  }

  lemma NobodyChecked(agents: Agents, root: Agent)
    ensures AllOk(agents, root, []) && forall e :: !SomeError(agents, root, [], e)
  {
  }

  lemma RootsInside(agents: Agents, ids: seq<string>)
    requires Distinct(ids) && (forall id | id in ids :: id in agents) && |RootsAmong(agents, ids)| == 1
    ensures RootsAmong(agents, ids)[0] in agents
  {
    RootsAre(agents, ids);
    assert RootsAmong(agents, ids)[0] in RootsAmong(agents, ids);
  }

  lemma KeysAreIds(records: seq<Record>, agents: Agents)
    requires Registered(records, agents)
    ensures forall id | id in agents :: agents[id].agentId == id
  {
    hide FirstOf;
  }

  /** The checks in the order they are made amount to the local conditions on a tree. */
  lemma LocalTreeIff(agents: Agents, ids: seq<string>)
    requires Distinct(ids) && SameIds(ids, agents) && forall id | id in agents :: agents[id].agentId == id
    ensures var roots := RootsAmong(agents, ids);
            LocalTree(agents) <==>
              && |roots| == 1 && roots[0] in agents && RootIdentity(agents[roots[0]])
              && AllOk(agents, agents[roots[0]], ids) && MaxDepth(agents, ids) >= 3
  {
    var roots := RootsAmong(agents, ids);
    RootsAre(agents, ids);
    MaxDepthIs(agents, ids);
    hide Distinct, RootsAmong, MaxDepth, AgentOk, RootIdentity;
    if |roots| == 1 {
      OneRoot(agents, roots);
      assert roots[0] in roots;
      assert forall root | root in agents && TreeAt(agents, root) :: root == roots[0] by {
        assert IsRoot(agents, roots[0]);
      }
      assert TreeAt(agents, roots[0]) <==> RootIdentity(agents[roots[0]]) && AllOk(agents, agents[roots[0]], ids);
      hide TreeAt, AllOk;
    } else if LocalTree(agents) {
      var other :| other in agents && TreeAt(agents, other);
      assert IsRoot(agents, other);
      assert forall id | id in roots :: IsRoot(agents, id);
      JustOne(roots, other);
      assert false;
    }
  }

  lemma NotTwo(xs: seq<string>, x: string)
    requires |xs| >= 2 && forall y | y in xs :: y == x
    ensures !Distinct(xs)
  {
    assert xs[0] in xs && xs[1] in xs;
  }

  lemma JustOne(xs: seq<string>, x: string)
    requires Distinct(xs) && x in xs && forall y | y in xs :: y == x
    ensures |xs| == 1
  {
    if |xs| >= 2 {
      NotTwo(xs, x);
    }
  }

  lemma OneRoot(agents: Agents, roots: seq<string>)
    requires |roots| == 1 && forall id :: id in roots <==> id in agents && agents[id].parentId == ""
    ensures forall id :: IsRoot(agents, id) <==> id == roots[0]
  {
    forall id ensures id in roots <==> id == roots[0] {
    }
  }

  function RootsAmong(agents: Agents, ids: seq<string>): seq<string>
    requires forall id | id in ids :: id in agents
  {
    if ids == [] then []
    else
      var n := |ids| - 1;
      RootsAmong(agents, ids[..n]) + if agents[ids[n]].parentId == "" then [ids[n]] else []
  }

  function MaxDepth(agents: Agents, ids: seq<string>): int
    requires forall id | id in ids :: id in agents
  {
    if ids == [] then -1
    else
      var n := |ids| - 1;
      var before := MaxDepth(agents, ids[..n]);
      if before < agents[ids[n]].depth || n == 0 then agents[ids[n]].depth else before
  }

  lemma {:induction false} MaxDepthIs(agents: Agents, ids: seq<string>)
    requires forall id | id in ids :: id in agents
    ensures MaxDepth(agents, ids) >= 3 <==> exists id | id in ids :: agents[id].depth >= 3
  {
    if ids != [] {
      var n := |ids| - 1;
      MaxDepthIs(agents, ids[..n]);
      assert forall id :: id in ids <==> id in ids[..n] || id == ids[n];
      assert n == 0 ==> ids[..n] == [];
    }
  }

  lemma {:induction false} RootsAre(agents: Agents, ids: seq<string>)
    requires Distinct(ids) && forall id | id in ids :: id in agents
    ensures forall id :: id in RootsAmong(agents, ids) <==> id in ids && agents[id].parentId == ""
    ensures Distinct(RootsAmong(agents, ids))
  {
    if ids != [] {
      var n := |ids| - 1;
      RootsAre(agents, ids[..n]);
      assert forall id :: id in ids <==> id in ids[..n] || id == ids[n];
      assert ids[n] !in ids[..n];
    }
  }

  // ----- one rooted tree

  /** The `k`-th parent of an agent. */
  function Ancestor(agents: Agents, id: string, k: nat): Option<string> {
    if k == 0 then (if id in agents then Some(id) else None)
    else
      var below := Ancestor(agents, id, k - 1);
      if below.Some? && below.value in agents && agents[below.value].parentId in agents
          then Some(agents[below.value].parentId)
      else None
  }

  /** An agent of least depth. */
  lemma {:induction false} Shallowest(agents: Agents, among: set<string>) returns (id: string)
    requires among != {} && among <= agents.Keys
    ensures id in among && forall other | other in among :: agents[id].depth <= agents[other].depth
  {
    id :| id in among;
    if among != {id} {
      var rest := Shallowest(agents, among - {id});
      if agents[rest].depth < agents[id].depth {
        id := rest;
      }
    }
  }

  lemma ParentOf(agents: Agents, root: string, id: string)
    requires TreeAt(agents, root) && id in agents && id != root
    ensures agents[id].parentId in agents && agents[agents[id].parentId].depth == agents[id].depth - 1
  {
    hide RootIdentity;
    assert !IsRoot(agents, id);
  }

  lemma NoNegativeDepth(agents: Agents, root: string, id: string)
    requires TreeAt(agents, root) && id in agents
    ensures agents[id].depth >= 0
    ensures agents[id].depth == 0 <==> id == root
  {
    assert agents[root].depth == 0;
    hide TreeAt;
    var least := Shallowest(agents, agents.Keys);
    if least != root {
      ParentOf(agents, root, least);
    }
    if id != root {
      ParentOf(agents, root, id);
    }
  }

  /** Going up `k` times loses `k` levels, as far as the root. */
  lemma {:induction false} AncestorDepth(agents: Agents, root: string, id: string, k: nat)
    requires TreeAt(agents, root) && id in agents && k <= agents[id].depth
    ensures Ancestor(agents, id, k).Some? && Ancestor(agents, id, k).value in agents
    ensures agents[Ancestor(agents, id, k).value].depth == agents[id].depth - k
  {
    hide TreeAt;
    if k > 0 {
      AncestorDepth(agents, root, id, k - 1);
      var below := Ancestor(agents, id, k - 1).value;
      NoNegativeDepth(agents, root, below);
      ParentOf(agents, root, below);
    }
  }

  /**
   The local checks make one rooted tree: from every agent the chain of parents reaches the one root in
   exactly as many steps as the agent's depth says, and never comes back to an agent.
   */
  lemma OneRootedTree(agents: Agents, root: string, id: string)
    ensures TreeAt(agents, root) && id in agents ==>
              && agents[id].depth >= 0
              && Ancestor(agents, id, agents[id].depth) == Some(root)
              && (forall k: nat | k < agents[id].depth ::
                    Ancestor(agents, id, k).Some? && Ancestor(agents, id, k) != Some(root))
              && (forall k: nat | 0 < k <= agents[id].depth :: Ancestor(agents, id, k) != Some(id))
  {
    if TreeAt(agents, root) && id in agents {
      hide TreeAt;
      NoNegativeDepth(agents, root, id);
      var d := agents[id].depth;
      AncestorDepth(agents, root, id, d);
      NoNegativeDepth(agents, root, Ancestor(agents, id, d).value);
      forall k: nat | k <= d
        ensures Ancestor(agents, id, k).Some?
        ensures k < d ==> Ancestor(agents, id, k) != Some(root)
        ensures 0 < k ==> Ancestor(agents, id, k) != Some(id)
      {
        AncestorDepth(agents, root, id, k);
        NoNegativeDepth(agents, root, Ancestor(agents, id, k).value);
      }
    }
  }

  /** What a clean report means: a tree at least three levels deep, described alike by every record. */
  lemma CleanReport(records: seq<Record>, agents: Agents)
    ensures Registered(records, agents) && Agreed(records, agents) && LocalTree(agents) ==>
              exists root, deep :: root in agents && deep in agents
                && agents[deep].depth >= 3 && Ancestor(agents, deep, agents[deep].depth) == Some(root)
                && forall id | id in agents ::
                     agents[id].depth >= 0 && Ancestor(agents, id, agents[id].depth) == Some(root)
  {
    if Registered(records, agents) && Agreed(records, agents) && LocalTree(agents) {
      hide TreeAt, Ancestor, Registered, Agreed;
      var root :| root in agents && TreeAt(agents, root);
      var deep :| deep in agents && agents[deep].depth >= 3;
      forall id | id in agents ensures agents[id].depth >= 0 && Ancestor(agents, id, agents[id].depth) == Some(root) {
        OneRootedTree(agents, root, id);
      }
    }
  }
}
