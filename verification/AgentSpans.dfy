/**
 scripts/check_grafana_dashboards.py `_golden_topology` and the span checks of `_golden_trace_errors`:
 the trace that holds one span per agent, model call, tool call and approval, and its time intervals.
 */
module AgentSpans {
  import opened Outcomes
  import opened Sorting
  import opened AgentTree

  datatype Span = Span(
    traceId: string, spanId: string, parentSpanId: string, start: int, end: int,
    family: string, agentId: string, lifecycleEvent: string, approvalId: string)

  /** One chosen span per agent, per model call, per tool call and per turn, and the approval. */
  datatype Selection = Selection(
    traceId: string, invocations: map<string, Span>, models: map<string, Span>, tools: map<string, Span>,
    turns: map<string, Span>, approval: Span)

  /** What the caller expects: the stamp, the agents with model and tool calls, the agent whose tool was approved. */
  datatype Request = Request(stamp: string, models: set<string>, tools: set<string>, approvalTool: string)

  /** A trace does not fit, or fits, or looking it up fails on an unknown agent. */
  datatype Attempt = Skip | Chosen(selection: Selection) | KeyError

  const INVOKE := "span.agent.invoke"
  const CHAT := "span.model.chat"
  const EXECUTE := "span.tool.execute"
  const TRANSITION := "span.agent.transition"
  const APPROVAL := "span.approval.resolve"

  function Matching(spans: seq<Span>, wanted: Span -> bool): (found: seq<Span>)
    ensures forall s :: s in found <==> s in spans && wanted(s)
  {
    if spans == [] then []
    else
      var n := |spans| - 1;
      assert forall s :: s in spans <==> s in spans[..n] || s == spans[n];
      Matching(spans[..n], wanted) + if wanted(spans[n]) then [spans[n]] else []
  }

  function OfAgent(trace: seq<Span>, family: string, id: string): seq<Span> {
    Matching(trace, (s: Span) => s.family == family && s.agentId == id)
  }

  function ChildrenOf(trace: seq<Span>, family: string, id: string, parent: string): seq<Span> {
    Matching(trace, (s: Span) => s.family == family && s.agentId == id && s.parentSpanId == parent)
  }

  function TurnEnds(trace: seq<Span>, id: string): seq<Span> {
    Matching(trace, (s: Span) => s.family == TRANSITION && s.lifecycleEvent == "turn_end" && s.agentId == id)
  }

  function Approvals(trace: seq<Span>, id: string, approvalId: string, parent: string): seq<Span> {
    Matching(trace, (s: Span) => s.family == APPROVAL && s.agentId == id && s.approvalId == approvalId &&
        s.parentSpanId == parent)
  }

  datatype Verdict = Holds | Broken | Unknown

  /** The first `n` agents' invocations hang together as their agents do. */
  function TreeVerdict(agents: Agents, ids: seq<string>, invocations: map<string, Span>, n: nat): Verdict
    requires n <= |ids| && forall id | id in ids :: id in agents && id in invocations
  {
    if n == 0 then Holds
    else
      var before, agent, span := TreeVerdict(agents, ids, invocations, n - 1), agents[ids[n - 1]],
          invocations[ids[n - 1]];
      if !before.Holds? then before
      else if agent.parentId == "" then (if span.parentSpanId == "" then Holds else Broken)
      else if agent.parentId !in invocations then Unknown
      else if span.parentSpanId == invocations[agent.parentId].spanId then Holds
      else Broken
  }

  /** Some span belongs to a wanted agent that has no invocation. */
  predicate AsksForUnknown(trace: seq<Span>, family: string, wanted: set<string>, known: set<string>) {
    exists s | s in trace :: s.family == family && s.agentId in wanted && s.agentId !in known
  }

  /** The one span found for each wanted agent, if there is exactly one. */
  function Singles(found: string -> seq<Span>, wanted: set<string>): (r: Option<map<string, Span>>)
    ensures r.Some? ==> r.value.Keys == wanted
  {
    if forall id | id in wanted :: |found(id)| == 1 then Some(map id | id in wanted :: found(id)[0]) else None
  }

  lemma SinglesAre(found: string -> seq<Span>, wanted: set<string>, chosen: map<string, Span>)
    ensures Singles(found, wanted) == Some(chosen) <==>
              chosen.Keys == wanted && forall id | id in wanted :: found(id) == [chosen[id]]
  {
    if chosen.Keys == wanted && forall id | id in wanted :: found(id) == [chosen[id]] {
      assert forall id | id in wanted :: found(id) == [chosen[id]] && |found(id)| == 1;
      assert Singles(found, wanted).value == chosen;
    }
  }

  function ChildFinder(trace: seq<Span>, family: string, invocations: map<string, Span>): string -> seq<Span> {
    (id: string) => if id in invocations then ChildrenOf(trace, family, id, invocations[id].spanId) else []
  }

  function TurnFinder(trace: seq<Span>): string -> seq<Span> {
    (id: string) => TurnEnds(trace, id)
  }

  function AgentFinder(trace: seq<Span>): string -> seq<Span> {
    (id: string) => OfAgent(trace, INVOKE, id)
  }

  /** The search in one trace. */
  function TrySpans(trace: seq<Span>, traceId: string, agents: Agents, ids: seq<string>, q: Request): Attempt
    requires (forall id :: id in ids <==> id in agents) && q.approvalTool in q.tools
  {
    var invocations := Singles(AgentFinder(trace), agents.Keys);
    if invocations.None? then Skip
    else
      match TreeVerdict(agents, ids, invocations.value, |ids|)
      case Unknown => KeyError
      case Broken => Skip
      case Holds => TryChildren(trace, traceId, q, invocations.value)
  }

  /** The search for the children of the invocations. */
  function TryChildren(trace: seq<Span>, traceId: string, q: Request, invocations: map<string, Span>): Attempt
    requires q.approvalTool in q.tools
  {
    if AsksForUnknown(trace, CHAT, q.models, invocations.Keys) ||
        AsksForUnknown(trace, EXECUTE, q.tools, invocations.Keys)
    then KeyError
    else
      var models := Singles(ChildFinder(trace, CHAT, invocations), q.models);
      var tools := Singles(ChildFinder(trace, EXECUTE, invocations), q.tools);
      var turns := Singles(TurnFinder(trace), q.models);
      if models.None? || tools.None? || turns.None? then Skip
      else
        var approvals := Approvals(trace, q.approvalTool, "golden-approval-" + q.stamp,
            tools.value[q.approvalTool].spanId);
        if |approvals| != 1 then Skip
        else Chosen(Selection(traceId, invocations, models.value, tools.value, turns.value, approvals[0]))
  }

  /** Trace ids in the order of their first span. */
  function TraceIds(spans: seq<Span>): (ids: seq<string>)
    ensures Distinct(ids)
  {
    if spans == [] then []
    else
      var before, last := TraceIds(spans[..|spans| - 1]), spans[|spans| - 1];
      if last.traceId in before then before else before + [last.traceId]
  }

  function SpansOf(spans: seq<Span>, traceId: string): seq<Span> {
    Matching(spans, (s: Span) => s.traceId == traceId)
  }

  ghost predicate HasOneRoot(agents: Agents) {
    exists root | root in agents :: forall id :: IsRoot(agents, id) <==> id == root
  }

  function TryTrace(spans: seq<Span>, traceId: string, agents: Agents, ids: seq<string>, q: Request): Attempt
    requires (forall id :: id in ids <==> id in agents) && q.approvalTool in q.tools
  {
    TrySpans(SpansOf(spans, traceId), traceId, agents, ids, q)
  }

  /** The trace at position `i` gives `r` and none before it fits. */
  ghost predicate FirstAt(spans: seq<Span>, agents: Agents, ids: seq<string>, q: Request, i: nat, r: Attempt)
    requires (forall id :: id in ids <==> id in agents) && q.approvalTool in q.tools && i < |TraceIds(spans)|
  {
    && TryTrace(spans, TraceIds(spans)[i], agents, ids, q) == r
    && forall j | 0 <= j < i :: TryTrace(spans, TraceIds(spans)[j], agents, ids, q) == Skip
  }

  /** scripts/check_grafana_dashboards.py `_golden_topology`. */
  method Topology(spans: seq<Span>, agents: Agents, ids: seq<string>, q: Request) returns (r: Attempt)
    requires Distinct(ids) && forall id :: id in ids <==> id in agents
    ensures r != Skip ==>
              && HasOneRoot(agents) && q.models != {} && q.tools != {} && q.approvalTool in q.tools
              && exists i :: 0 <= i < |TraceIds(spans)| && FirstAt(spans, agents, ids, q, i, r)
    ensures r == Skip && HasOneRoot(agents) && q.models != {} && q.tools != {} && q.approvalTool in q.tools ==>
              forall id | id in TraceIds(spans) :: TryTrace(spans, id, agents, ids, q) == Skip
  {
    hide TryTrace, TraceIds;
    var roots := RootsAmong(agents, ids);
    OneRootIff(agents, ids);
    if |roots| != 1 || q.models == {} || q.tools == {} || q.approvalTool !in q.tools {
      return Skip;
    }
    var traces := TraceIds(spans);
    for i := 0 to |traces|
      invariant forall j | 0 <= j < i :: TryTrace(spans, traces[j], agents, ids, q) == Skip
    {
      var attempt := TryTrace(spans, traces[i], agents, ids, q);
      if attempt != Skip {
        assert FirstAt(spans, agents, ids, q, i, attempt);
        return attempt;
      }
    }
    return Skip;
  }

  lemma OneRootIff(agents: Agents, ids: seq<string>)
    requires Distinct(ids) && forall id :: id in ids <==> id in agents
    ensures |RootsAmong(agents, ids)| == 1 <==> HasOneRoot(agents)
  {
    var roots := RootsAmong(agents, ids);
    RootsAre(agents, ids);
    if |roots| == 1 {
      OneRoot(agents, roots);
      assert roots[0] in roots;
    } else if HasOneRoot(agents) {
      var root :| root in agents && forall id :: IsRoot(agents, id) <==> id == root;
      assert IsRoot(agents, root);
      assert forall id | id in roots :: IsRoot(agents, id);
      JustOne(roots, root);
      assert false;
    }
  }

  // ----- the chosen spans in time

  predicate ByDepth(a: Agent, b: Agent) {
    a.depth <= b.depth
  }

  function ValuesIn(spans: map<string, Span>, ids: seq<string>): (r: seq<Span>)
    requires forall id | id in ids :: id in spans
    ensures forall s :: s in r <==> exists id :: id in ids && spans[id] == s
  {
    if ids == [] then []
    else
      var n := |ids| - 1;
      assert forall id :: id in ids <==> id in ids[..n] || id == ids[n];
      ValuesIn(spans, ids[..n]) + [spans[ids[n]]]
  }

  function AgentValues(agents: Agents, ids: seq<string>): (r: seq<Agent>)
    requires forall id | id in ids :: id in agents
    ensures |r| == |ids| && forall i | 0 <= i < |ids| :: r[i] == agents[ids[i]]
  {
    seq(|ids|, i requires 0 <= i < |ids| => assert ids[i] in ids; agents[ids[i]])
  }

  /** Agent ids from the root down. */
  function IdsByDepth(agents: Agents, ids: seq<string>): (r: seq<string>)
    requires forall id | id in ids :: id in agents
  {
    var ordered := SortBy(AgentValues(agents, ids), ByDepth);
    seq(|ordered|, i requires 0 <= i < |ordered| => ordered[i].agentId)
  }

  lemma IdsByDepthSame(agents: Agents, ids: seq<string>)
    requires forall id | id in ids :: id in agents && agents[id].agentId == id
    ensures forall id :: id in IdsByDepth(agents, ids) <==> id in ids
  {
    var values := AgentValues(agents, ids);
    var ordered := SortBy(values, ByDepth);
    SameElements(ordered, values);
    forall id ensures id in IdsByDepth(agents, ids) <==> id in ids {
      if id in IdsByDepth(agents, ids) {
        var i :| 0 <= i < |ordered| && ordered[i].agentId == id;
        assert ordered[i] in values;
        var j :| 0 <= j < |values| && values[j] == ordered[i];
        assert ids[j] in ids;
      }
      if id in ids {
        var j :| 0 <= j < |ids| && ids[j] == id;
        assert values[j] in ordered;
        var i :| 0 <= i < |ordered| && ordered[i] == values[j];
        assert IdsByDepth(agents, ids)[i] == id;
      }
    }
  }

  ghost predicate Fits(sel: Selection, agents: Agents, q: Request) {
    && sel.invocations.Keys == agents.Keys && sel.models.Keys == q.models && sel.tools.Keys == q.tools
    && sel.turns.Keys == q.models
  }

  /** The order in which the chosen spans are listed. */
  function Listed(sel: Selection, agents: Agents, ids: seq<string>): seq<Span>
    requires forall id | id in ids :: id in agents && agents[id].agentId == id
    requires sel.invocations.Keys == agents.Keys
  {
    IdsByDepthSame(agents, ids);
    ValuesIn(sel.invocations, IdsByDepth(agents, ids))
    + ValuesIn(sel.models, SortedSet(sel.models.Keys))
    + ValuesIn(sel.tools, SortedSet(sel.tools.Keys))
    + ValuesIn(sel.turns, SortedSet(sel.turns.Keys))
    + [sel.approval]
  }

  datatype SpanError = BadIds | BadBounds(span: Span) | OutsideParent(span: Span)

  predicate GoodBounds(s: Span) {
    s.start > 0 && s.end >= s.start
  }

  predicate Inside(s: Span, outer: Span) {
    outer.start <= s.start && s.end <= outer.end
  }

  predicate GoodIds(spans: seq<Span>) {
    forall i | 0 <= i < |spans| :: spans[i].spanId != "" && forall j | 0 <= j < i :: spans[j].spanId != spans[i].spanId
  }

  /** The spans by id; of two with the same id the later one. */
  function ById(spans: seq<Span>): map<string, Span> {
    if spans == [] then map[]
    else
      var last := spans[|spans| - 1];
      var before := ById(spans[..|spans| - 1]);
      if last.spanId != "" then before[last.spanId := last] else before
  }

  predicate SpanOk(s: Span, byId: map<string, Span>) {
    GoodBounds(s) && (s.parentSpanId in byId ==> Inside(s, byId[s.parentSpanId]))
  }

  /** A span with good bounds reaches beyond its parent. */
  predicate Escapes(s: Span, byId: map<string, Span>) {
    GoodBounds(s) && s.parentSpanId in byId && !Inside(s, byId[s.parentSpanId])
  }

  ghost predicate Sound(spans: seq<Span>) {
    GoodIds(spans) && forall s | s in spans :: SpanOk(s, ById(spans))
  }

  /** The ids and the intervals checked by `_golden_trace_errors`. */
  method SpanErrors(selected: seq<Span>) returns (errors: seq<SpanError>)
    ensures errors == [] <==> Sound(selected)
    ensures BadIds in errors <==> !GoodIds(selected)
    ensures forall s :: BadBounds(s) in errors <==> s in selected && !GoodBounds(s)
    ensures forall s :: OutsideParent(s) in errors <==> s in selected && Escapes(s, ById(selected))
  {
    errors := [];
    var spanIds := SpanIds(selected);
    IdsCounted(selected);
    if "" in spanIds || |spanIds| != |selected| {
      errors := [BadIds];
    }
    var byId := ById(selected);
    for i := 0 to |selected|
      invariant errors == [] <==> GoodIds(selected) && forall j | 0 <= j < i :: SpanOk(selected[j], byId)
      invariant BadIds in errors <==> !GoodIds(selected)
      invariant forall s :: BadBounds(s) in errors <==> s in selected[..i] && !GoodBounds(s)
      invariant forall s :: OutsideParent(s) in errors <==> s in selected[..i] && Escapes(s, byId)
    {
      var span := selected[i];
      if span.start <= 0 || span.end < span.start {
        errors := errors + [BadBounds(span)];
      } else if span.parentSpanId in byId {
        var parent := byId[span.parentSpanId];
        if span.start < parent.start || span.end > parent.end {
          errors := errors + [OutsideParent(span)];
        }
      }
    }
  }

  function SpanIds(spans: seq<Span>): set<string> {
    set s | s in spans :: s.spanId
  }

  lemma SplitIds(front: seq<Span>, last: Span)
    ensures SpanIds(front + [last]) == SpanIds(front) + {last.spanId}
    ensures GoodIds(front + [last]) <==> GoodIds(front) && last.spanId != "" && last.spanId !in SpanIds(front)
  {
    var spans := front + [last];
    assert forall s :: s in spans <==> s in front || s == last;
    assert forall i | 0 <= i < |front| :: spans[i] == front[i];
    assert spans[|front|] == last;
    if GoodIds(front) && last.spanId != "" && last.spanId !in SpanIds(front) {
      forall i, j | 0 <= j < i < |spans| ensures spans[j].spanId != spans[i].spanId {
        assert spans[j] in front;
      }
    }
    forall s | s in front && GoodIds(spans) ensures s.spanId != last.spanId {
      var j :| 0 <= j < |front| && front[j] == s;
    }
  }

  lemma {:induction false} IdsCounted(spans: seq<Span>)
    ensures |SpanIds(spans)| <= |spans|
    ensures GoodIds(spans) <==> "" !in SpanIds(spans) && |SpanIds(spans)| == |spans|
  {
    if spans != [] {
      var front, last := spans[..|spans| - 1], spans[|spans| - 1];
      IdsCounted(front);
      SplitIds(front, last);
      assert spans == front + [last];
      hide SpanIds, GoodIds;
    }
  }

  // ----- everything happens within the root invocation

  lemma {:induction false} ByIdHas(spans: seq<Span>, s: Span)
    requires GoodIds(spans) && s in spans
    ensures s.spanId in ById(spans) && ById(spans)[s.spanId] == s
  {
    var front, last := spans[..|spans| - 1], spans[|spans| - 1];
    assert spans == front + [last];
    SplitIds(front, last);
    if s != last {
      assert s in front;
      assert s.spanId in SpanIds(front);
      ByIdHas(front, s);
    }
  }

  /** A listed span whose parent is listed lies inside it. */
  lemma InsideParent(spans: seq<Span>, s: Span, parent: Span)
    requires Sound(spans) && s in spans && parent in spans && s.parentSpanId == parent.spanId
    ensures Inside(s, parent)
  {
    ByIdHas(spans, parent);
  }

  /** What a chosen selection looks like. */
  ghost predicate Connected(sel: Selection, agents: Agents, q: Request) {
    && Fits(sel, agents, q) && q.approvalTool in q.tools
    && (forall id | id in agents && agents[id].parentId != "" ::
          agents[id].parentId in sel.invocations &&
              sel.invocations[id].parentSpanId == sel.invocations[agents[id].parentId].spanId)
    && (forall id | id in sel.models ::
          id in sel.invocations && sel.models[id].parentSpanId == sel.invocations[id].spanId)
    && (forall id | id in sel.tools ::
          id in sel.invocations && sel.tools[id].parentSpanId == sel.invocations[id].spanId)
    && sel.approval.parentSpanId == sel.tools[q.approvalTool].spanId
  }

  lemma {:induction false} VerdictHolds(agents: Agents, ids: seq<string>, invocations: map<string, Span>, n: nat,
                                        i: nat)
    requires i < n <= |ids| && (forall id | id in ids :: id in agents && id in invocations)
    requires TreeVerdict(agents, ids, invocations, n).Holds? && agents[ids[i]].parentId != ""
    ensures agents[ids[i]].parentId in invocations
    ensures invocations[ids[i]].parentSpanId == invocations[agents[ids[i]].parentId].spanId
  {
    if i < n - 1 {
      VerdictHolds(agents, ids, invocations, n - 1, i);
    }
  }

  lemma ChildrenAre(trace: seq<Span>, family: string, wanted: set<string>, invocations: map<string, Span>)
    requires Singles(ChildFinder(trace, family, invocations), wanted).Some?
    ensures var spans := Singles(ChildFinder(trace, family, invocations), wanted).value;
            && spans.Keys == wanted
            && forall id | id in spans ::
                 id in invocations && spans[id].parentSpanId == invocations[id].spanId && spans[id] in trace
  {
    var spans := Singles(ChildFinder(trace, family, invocations), wanted).value;
    forall id | id in spans
      ensures id in invocations && spans[id].parentSpanId == invocations[id].spanId && spans[id] in trace
    {
      var found := ChildFinder(trace, family, invocations)(id);
      assert |found| == 1;
      assert found[0] in found;
    }
  }

  lemma ChosenIsConnected(trace: seq<Span>, traceId: string, agents: Agents, ids: seq<string>, q: Request)
    requires (forall id :: id in ids <==> id in agents) && q.approvalTool in q.tools
    requires TrySpans(trace, traceId, agents, ids, q).Chosen?
    ensures Connected(TrySpans(trace, traceId, agents, ids, q).selection, agents, q)
  {
    hide Singles, AgentFinder, TryChildren;
    var invocations := Singles(AgentFinder(trace), agents.Keys).value;
    ChildrenConnected(trace, traceId, q, invocations);
    hide TreeVerdict;
    forall id | id in agents && agents[id].parentId != ""
      ensures agents[id].parentId in invocations &&
                invocations[id].parentSpanId == invocations[agents[id].parentId].spanId
    {
      assert id in ids;
      var i :| 0 <= i < |ids| && ids[i] == id;
      VerdictHolds(agents, ids, invocations, |ids|, i);
    }
  }

  lemma ChildrenConnected(trace: seq<Span>, traceId: string, q: Request, invocations: map<string, Span>)
    requires q.approvalTool in q.tools && TryChildren(trace, traceId, q, invocations).Chosen?
    ensures var sel := TryChildren(trace, traceId, q, invocations).selection;
            && sel.invocations == invocations && sel.models.Keys == q.models && sel.tools.Keys == q.tools
            && sel.turns.Keys == q.models
            && (forall id | id in sel.models ::
                  id in sel.invocations && sel.models[id].parentSpanId == sel.invocations[id].spanId)
            && (forall id | id in sel.tools ::
                  id in sel.invocations && sel.tools[id].parentSpanId == sel.invocations[id].spanId)
            && sel.approval.parentSpanId == sel.tools[q.approvalTool].spanId
  {
    hide Singles, ChildFinder, TurnFinder, Approvals, AsksForUnknown;
    var sel := TryChildren(trace, traceId, q, invocations).selection;
    ChildrenAre(trace, CHAT, q.models, invocations);
    ChildrenAre(trace, EXECUTE, q.tools, invocations);
    ApprovalIs(trace, q, sel.tools[q.approvalTool].spanId);
  }

  lemma ApprovalIs(trace: seq<Span>, q: Request, parent: string)
    ensures var found := Approvals(trace, q.approvalTool, "golden-approval-" + q.stamp, parent);
            forall s | s in found :: s.parentSpanId == parent
    ensures var found := Approvals(trace, q.approvalTool, "golden-approval-" + q.stamp, parent);
            |found| == 1 ==> found[0] in found
  {
  }

  lemma ListedHas(sel: Selection, agents: Agents, ids: seq<string>, id: string)
    requires (forall id | id in ids :: id in agents && agents[id].agentId == id) &&
              (forall id | id in agents :: id in ids)
    requires sel.invocations.Keys == agents.Keys
    ensures id in sel.invocations ==> sel.invocations[id] in Listed(sel, agents, ids)
    ensures id in sel.models ==> sel.models[id] in Listed(sel, agents, ids)
    ensures id in sel.tools ==> sel.tools[id] in Listed(sel, agents, ids)
    ensures sel.approval in Listed(sel, agents, ids)
  {
    IdsByDepthSame(agents, ids);
    hide IdsByDepth, SortedSet;
    assert forall x :: x in SortedSet(sel.models.Keys) <==> x in sel.models;
    assert forall x :: x in SortedSet(sel.tools.Keys) <==> x in sel.tools;
  }

  lemma {:induction false} InvocationInside(sel: Selection, agents: Agents, ids: seq<string>, q: Request, root: string,
                                            id: string)
    requires TreeAt(agents, root) && Connected(sel, agents, q) && (forall id :: id in ids <==> id in agents) &&
              id in agents
    requires Sound(Listed(sel, agents, ids))
    ensures Inside(sel.invocations[id], sel.invocations[root])
    decreases if agents[id].depth >= 0 then agents[id].depth else 0
  {
    hide TreeAt, Sound, Listed;
    if id != root {
      NoNegativeDepth(agents, root, id);
      ParentOf(agents, root, id);
      var parent := agents[id].parentId;
      InvocationInside(sel, agents, ids, q, root, parent);
      Keyed(agents, root, ids);
      ListedHas(sel, agents, ids, id);
      ListedHas(sel, agents, ids, parent);
      NotRoot(agents, root, id);
      InsideParent(Listed(sel, agents, ids), sel.invocations[id], sel.invocations[parent]);
    }
  }

  lemma NotRoot(agents: Agents, root: string, id: string)
    requires TreeAt(agents, root) && id in agents && id != root
    ensures agents[id].parentId != ""
  {
    assert !IsRoot(agents, id);
  }

  lemma Keyed(agents: Agents, root: string, ids: seq<string>)
    requires TreeAt(agents, root) && forall id :: id in ids <==> id in agents
    ensures forall id | id in ids :: id in agents && agents[id].agentId == id
  {
  }

  /**
   When the identities make a tree and the spans of the chosen trace are reported without error, every
   invocation, model call, tool call and approval lies inside the root invocation's interval.
   */
  lemma AllWithinRoot(sel: Selection, agents: Agents, ids: seq<string>, q: Request, root: string, s: Span)
    requires forall id :: id in ids <==> id in agents
    ensures TreeAt(agents, root) && Connected(sel, agents, q) && Sound(Listed(sel, agents, ids))
            && (s in sel.invocations.Values || s in sel.models.Values || s in sel.tools.Values || s == sel.approval) ==>
              Inside(s, sel.invocations[root])
  {
    if TreeAt(agents, root) && Connected(sel, agents, q) && Sound(Listed(sel, agents, ids)) {
      Keyed(agents, root, ids);
      hide TreeAt, Sound, Listed;
      var listed := Listed(sel, agents, ids);
      if s in sel.invocations.Values {
        var id :| id in sel.invocations && sel.invocations[id] == s;
        InvocationInside(sel, agents, ids, q, root, id);
      }
      if s in sel.models.Values {
        var id :| id in sel.models && sel.models[id] == s;
        InvocationInside(sel, agents, ids, q, root, id);
        ListedHas(sel, agents, ids, id);
        InsideParent(listed, s, sel.invocations[id]);
      }
      if s in sel.tools.Values {
        var id :| id in sel.tools && sel.tools[id] == s;
        ToolInside(sel, agents, ids, q, root, id);
      }
      if s == sel.approval {
        ToolInside(sel, agents, ids, q, root, q.approvalTool);
        ListedHas(sel, agents, ids, q.approvalTool);
        InsideParent(listed, s, sel.tools[q.approvalTool]);
      }
    }
  }

  lemma ToolInside(sel: Selection, agents: Agents, ids: seq<string>, q: Request, root: string, id: string)
    requires TreeAt(agents, root) && Connected(sel, agents, q) && (forall id :: id in ids <==> id in agents) &&
              id in sel.tools
    requires Sound(Listed(sel, agents, ids))
    ensures Inside(sel.tools[id], sel.invocations[root])
  {
    Keyed(agents, root, ids);
    hide TreeAt, Sound, Listed;
    InvocationInside(sel, agents, ids, q, root, id);
    ListedHas(sel, agents, ids, id);
    InsideParent(Listed(sel, agents, ids), sel.tools[id], sel.invocations[id]);
  }

  // ----- the report on a trace

  /** What the check of the spans ends with: an exception, no fitting trace, or the errors of the chosen one. */
  datatype TraceReport = Raised | NoTopology | Report(selection: Selection, errors: seq<SpanError>)

  /** Every chosen invocation, model call, tool call and the approval lies inside the root invocation. */
  ghost predicate Nested(sel: Selection, root: string) {
    && root in sel.invocations
    && (forall id | id in sel.invocations :: Inside(sel.invocations[id], sel.invocations[root]))
    && (forall id | id in sel.models :: Inside(sel.models[id], sel.invocations[root]))
    && (forall id | id in sel.tools :: Inside(sel.tools[id], sel.invocations[root]))
    && Inside(sel.approval, sel.invocations[root])
  }

  /** scripts/check_grafana_dashboards.py `_golden_trace_errors`, up to the intervals. */
  method TraceErrors(spans: seq<Span>, agents: Agents, ids: seq<string>, q: Request) returns (r: TraceReport)
    requires Distinct(ids) && (forall id :: id in ids <==> id in agents) &&
              forall id | id in ids :: agents[id].agentId == id
    ensures r.Report? ==>
              && q.approvalTool in q.tools && Connected(r.selection, agents, q)
              && exists i :: 0 <= i < |TraceIds(spans)| && FirstAt(spans, agents, ids, q, i, Chosen(r.selection))
    ensures r.Raised? ==>
              && q.approvalTool in q.tools
              && exists i :: 0 <= i < |TraceIds(spans)| && FirstAt(spans, agents, ids, q, i, KeyError)
    ensures r.Report? ==> (r.errors == [] <==> Sound(Listed(r.selection, agents, ids)))
    ensures r.NoTopology? && HasOneRoot(agents) && q.models != {} && q.tools != {} && q.approvalTool in q.tools ==>
              forall id | id in TraceIds(spans) :: TryTrace(spans, id, agents, ids, q) == Skip
    ensures r.Report? && r.errors == [] && LocalTree(agents) ==>
              exists root | root in agents :: TreeAt(agents, root) && Nested(r.selection, root)
  {
    var attempt := Topology(spans, agents, ids, q);
    if attempt.KeyError? {
      return Raised;
    }
    if attempt.Skip? {
      return NoTopology;
    }
    hide *;
    var selection := attempt.selection;
    ReportedIsConnected(spans, agents, ids, q, selection);
    var errors := SpanErrors(Listed(selection, agents, ids));
    if errors == [] && LocalTree(agents) {
      TreeIsNested(selection, agents, ids, q);
    }
    return Report(selection, errors);
  }

  lemma ReportedIsConnected(spans: seq<Span>, agents: Agents, ids: seq<string>, q: Request, sel: Selection)
    requires (forall id :: id in ids <==> id in agents) && q.approvalTool in q.tools
    requires exists i :: 0 <= i < |TraceIds(spans)| && FirstAt(spans, agents, ids, q, i, Chosen(sel))
    ensures Connected(sel, agents, q) && sel.invocations.Keys == agents.Keys
  {
    hide TrySpans;
    var i :| 0 <= i < |TraceIds(spans)| && FirstAt(spans, agents, ids, q, i, Chosen(sel));
    var traceId := TraceIds(spans)[i];
    ChosenIsConnected(SpansOf(spans, traceId), traceId, agents, ids, q);
  }

  lemma TreeIsNested(sel: Selection, agents: Agents, ids: seq<string>, q: Request)
    requires (forall id :: id in ids <==> id in agents) && (forall id | id in ids :: agents[id].agentId == id)
    requires LocalTree(agents) && Connected(sel, agents, q) && Sound(Listed(sel, agents, ids))
    ensures exists root | root in agents :: TreeAt(agents, root) && Nested(sel, root)
  {
    var root :| root in agents && TreeAt(agents, root);
    NestedAt(sel, agents, ids, q, root);
  }

  lemma NestedAt(sel: Selection, agents: Agents, ids: seq<string>, q: Request, root: string)
    requires (forall id :: id in ids <==> id in agents) && (forall id | id in ids :: agents[id].agentId == id)
    requires root in agents && TreeAt(agents, root) && Connected(sel, agents, q) && Sound(Listed(sel, agents, ids))
    ensures Nested(sel, root)
  {
    hide TreeAt, Sound, Listed, Inside;
    forall id | id in sel.invocations ensures Inside(sel.invocations[id], sel.invocations[root]) {
      AllWithinRoot(sel, agents, ids, q, root, sel.invocations[id]);
    }
    forall id | id in sel.models ensures Inside(sel.models[id], sel.invocations[root]) {
      AllWithinRoot(sel, agents, ids, q, root, sel.models[id]);
    }
    forall id | id in sel.tools ensures Inside(sel.tools[id], sel.invocations[root]) {
      AllWithinRoot(sel, agents, ids, q, root, sel.tools[id]);
    }
    AllWithinRoot(sel, agents, ids, q, root, sel.approval);
  }

  // ----- the chosen spans, picked from all spans

  /** `s` is the one span, at one place of the list, that is wanted. */
  ghost predicate Sole(spans: seq<Span>, wanted: Span -> bool, s: Span) {
    exists i | 0 <= i < |spans| :: SoleAt(spans, wanted, i) && spans[i] == s
  }

  ghost predicate SoleAt(spans: seq<Span>, wanted: Span -> bool, i: nat) {
    i < |spans| && forall j | 0 <= j < |spans| :: wanted(spans[j]) <==> j == i
  }

  lemma {:induction false} NoMatch(spans: seq<Span>, wanted: Span -> bool)
    ensures Matching(spans, wanted) == [] <==> forall j | 0 <= j < |spans| :: !wanted(spans[j])
  {
    if spans != [] {
      NoMatch(spans[..|spans| - 1], wanted);
    }
  }

  lemma MatchMore(spans: seq<Span>, last: Span, wanted: Span -> bool)
    ensures Matching(spans + [last], wanted) == Matching(spans, wanted) + if wanted(last) then [last] else []
  {
    assert (spans + [last])[..|spans|] == spans;
  }

  lemma SoleMore(spans: seq<Span>, last: Span, wanted: Span -> bool, s: Span)
    ensures !wanted(last) ==> (Sole(spans + [last], wanted, s) <==> Sole(spans, wanted, s))
    ensures wanted(last) ==>
              (Sole(spans + [last], wanted, s) <==> s == last && forall j | 0 <= j < |spans| :: !wanted(spans[j]))
  {
    var all := spans + [last];
    forall i: nat | i < |spans| && !wanted(last) ensures SoleAt(all, wanted, i) <==> SoleAt(spans, wanted, i) {
      assert forall j | 0 <= j < |spans| :: all[j] == spans[j];
    }
    assert !wanted(last) ==> !SoleAt(all, wanted, |spans|) by {
      assert all[|spans|] == last;
    }
    assert wanted(last) ==> forall i: nat | SoleAt(all, wanted, i) :: i == |spans| by {
      assert all[|spans|] == last;
    }
    assert wanted(last) ==> (SoleAt(all, wanted, |spans|) <==> forall j | 0 <= j < |spans| :: !wanted(spans[j])) by {
      assert forall j | 0 <= j < |spans| :: all[j] == spans[j];
    }
    hide SoleAt;
  }

  lemma {:induction false} SoleIff(spans: seq<Span>, wanted: Span -> bool, s: Span)
    ensures Matching(spans, wanted) == [s] <==> Sole(spans, wanted, s)
  {
    if spans != [] {
      var front, last := spans[..|spans| - 1], spans[|spans| - 1];
      assert spans == front + [last];
      SoleIff(front, wanted, s);
      NoMatch(front, wanted);
      MatchMore(front, last, wanted);
      SoleMore(front, last, wanted, s);
      hide Matching, Sole;
    }
  }

  lemma {:induction false} MatchingTwice(spans: seq<Span>, first: Span -> bool, second: Span -> bool,
                                         both: Span -> bool)
    requires forall s :: both(s) <==> first(s) && second(s)
    ensures Matching(Matching(spans, first), second) == Matching(spans, both)
  {
    if spans != [] {
      var front, last := spans[..|spans| - 1], spans[|spans| - 1];
      assert spans == front + [last];
      MatchingTwice(front, first, second, both);
      MatchMore(front, last, first);
      MatchMore(front, last, both);
      MatchMore(Matching(front, first), last, second);
      hide Matching;
      assert Matching(front, first) + [] == Matching(front, first);
      assert Matching(front, both) + [] == Matching(front, both);
    }
  }

  // Which spans of a trace are wanted.

  function Of(traceId: string, family: string, id: string): Span -> bool {
    (x: Span) => x.traceId == traceId && x.family == family && x.agentId == id
  }

  function Below(traceId: string, family: string, id: string, parent: string): Span -> bool {
    (x: Span) => x.traceId == traceId && x.family == family && x.agentId == id && x.parentSpanId == parent
  }

  function TurnEnd(traceId: string, id: string): Span -> bool {
    (x: Span) => x.traceId == traceId && x.family == "span.agent.transition" && x.agentId == id &&
      x.lifecycleEvent == "turn_end"
  }

  function Approved(traceId: string, id: string, stamp: string, parent: string): Span -> bool {
    (x: Span) => x.traceId == traceId && x.family == "span.approval.resolve" && x.agentId == id &&
      x.parentSpanId == parent && x.approvalId == "golden-approval-" + stamp
  }

  lemma OneOf(spans: seq<Span>, traceId: string, family: string, id: string, s: Span)
    ensures OfAgent(SpansOf(spans, traceId), family, id) == [s] <==> Sole(spans, Of(traceId, family, id), s)
  {
    MatchingTwice(spans, (x: Span) => x.traceId == traceId, (x: Span) => x.family == family && x.agentId == id,
        Of(traceId, family, id));
    SoleIff(spans, Of(traceId, family, id), s);
    hide Sole;
  }

  lemma OneBelow(spans: seq<Span>, traceId: string, family: string, id: string, parent: string, s: Span)
    ensures ChildrenOf(SpansOf(spans, traceId), family, id, parent) == [s] <==>
              Sole(spans, Below(traceId, family, id, parent), s)
  {
    MatchingTwice(spans, (x: Span) => x.traceId == traceId,
        (x: Span) => x.family == family && x.agentId == id && x.parentSpanId == parent,
        Below(traceId, family, id, parent));
    SoleIff(spans, Below(traceId, family, id, parent), s);
    hide Sole;
  }

  lemma OneTurn(spans: seq<Span>, traceId: string, id: string, s: Span)
    ensures TurnEnds(SpansOf(spans, traceId), id) == [s] <==> Sole(spans, TurnEnd(traceId, id), s)
  {
    MatchingTwice(spans, (x: Span) => x.traceId == traceId,
        (x: Span) => x.family == TRANSITION && x.lifecycleEvent == "turn_end" && x.agentId == id,
        TurnEnd(traceId, id));
    SoleIff(spans, TurnEnd(traceId, id), s);
    hide Sole;
  }

  lemma OneApproval(spans: seq<Span>, traceId: string, id: string, stamp: string, parent: string, s: Span)
    ensures Approvals(SpansOf(spans, traceId), id, "golden-approval-" + stamp, parent) == [s] <==>
              Sole(spans, Approved(traceId, id, stamp, parent), s)
  {
    var approvalId := "golden-approval-" + stamp;
    MatchingTwice(spans, (x: Span) => x.traceId == traceId,
        (x: Span) => x.family == APPROVAL && x.agentId == id && x.approvalId == approvalId && x.parentSpanId == parent,
        Approved(traceId, id, stamp, parent));
    SoleIff(spans, Approved(traceId, id, stamp, parent), s);
    hide Sole;
  }

  /** The invocation of an agent has no parent, or that of the agent's parent. */
  ghost predicate HangsBelow(sel: Selection, agents: Agents, id: string)
    requires id in agents && sel.invocations.Keys == agents.Keys
  {
    var parent := agents[id].parentId;
    if parent == "" then sel.invocations[id].parentSpanId == ""
    else parent in agents && sel.invocations[id].parentSpanId == sel.invocations[parent].spanId
  }

  lemma {:induction false} VerdictIff(agents: Agents, ids: seq<string>, sel: Selection, n: nat)
    requires n <= |ids| && (forall id | id in ids :: id in agents) && sel.invocations.Keys == agents.Keys
    ensures TreeVerdict(agents, ids, sel.invocations, n).Holds? <==>
              forall i | 0 <= i < n :: HangsBelow(sel, agents, ids[i])
  {
    if n > 0 {
      VerdictIff(agents, ids, sel, n - 1);
    }
  }

  /** The children of a family that are chosen for the wanted agents. */
  ghost predicate PickedChildren(spans: seq<Span>, traceId: string, family: string, wanted: set<string>,
                                 invocations: map<string, Span>, chosen: map<string, Span>) {
    && chosen.Keys == wanted <= invocations.Keys
    && forall id | id in wanted :: Sole(spans, Below(traceId, family, id, invocations[id].spanId), chosen[id])
  }

  lemma ChildrenIff(spans: seq<Span>, traceId: string, family: string, wanted: set<string>,
                    invocations: map<string, Span>, chosen: map<string, Span>)
    ensures Singles(ChildFinder(SpansOf(spans, traceId), family, invocations), wanted) == Some(chosen) <==>
              PickedChildren(spans, traceId, family, wanted, invocations, chosen)
  {
    var finder := ChildFinder(SpansOf(spans, traceId), family, invocations);
    SinglesAre(finder, wanted, chosen);
    forall id, s
      ensures finder(id) == [s] <==>
                id in invocations && Sole(spans, Below(traceId, family, id, invocations[id].spanId), s)
    {
      if id in invocations {
        OneBelow(spans, traceId, family, id, invocations[id].spanId, s);
        hide ChildrenOf, SpansOf, Sole, Below;
      }
    }
    hide ChildFinder, Singles, Sole, Below;
  }

  ghost predicate PickedTurns(spans: seq<Span>, traceId: string, wanted: set<string>, chosen: map<string, Span>) {
    chosen.Keys == wanted && forall id | id in wanted :: Sole(spans, TurnEnd(traceId, id), chosen[id])
  }

  lemma TurnsIff(spans: seq<Span>, traceId: string, wanted: set<string>, chosen: map<string, Span>)
    ensures Singles(TurnFinder(SpansOf(spans, traceId)), wanted) == Some(chosen) <==>
              PickedTurns(spans, traceId, wanted, chosen)
  {
    var finder := TurnFinder(SpansOf(spans, traceId));
    SinglesAre(finder, wanted, chosen);
    forall id, s ensures finder(id) == [s] <==> Sole(spans, TurnEnd(traceId, id), s) {
      OneTurn(spans, traceId, id, s);
      hide TurnEnds, SpansOf, Sole, TurnEnd;
    }
    hide TurnFinder, Singles, Sole, TurnEnd;
  }

  /** Everything picked below given invocations. */
  ghost predicate PickedBelow(spans: seq<Span>, traceId: string, sel: Selection, q: Request)
    requires q.approvalTool in q.tools
  {
    && sel.traceId == traceId
    && PickedChildren(spans, traceId, "span.model.chat", q.models, sel.invocations, sel.models)
    && PickedChildren(spans, traceId, "span.tool.execute", q.tools, sel.invocations, sel.tools)
    && PickedTurns(spans, traceId, q.models, sel.turns)
    && Sole(spans, Approved(traceId, q.approvalTool, q.stamp, sel.tools[q.approvalTool].spanId), sel.approval)
  }

  lemma BelowIff(spans: seq<Span>, traceId: string, sel: Selection, q: Request)
    requires q.approvalTool in q.tools
    ensures TryChildren(SpansOf(spans, traceId), traceId, q, sel.invocations) == Chosen(sel) <==>
              PickedBelow(spans, traceId, sel, q)
  {
    var trace := SpansOf(spans, traceId);
    ChildrenIff(spans, traceId, CHAT, q.models, sel.invocations, sel.models);
    ChildrenIff(spans, traceId, EXECUTE, q.tools, sel.invocations, sel.tools);
    TurnsIff(spans, traceId, q.models, sel.turns);
    if q.approvalTool in sel.tools {
      OneApproval(spans, traceId, q.approvalTool, q.stamp, sel.tools[q.approvalTool].spanId, sel.approval);
    }
    KnownOnes(spans, traceId, CHAT, q.models, sel.invocations, sel.models);
    KnownOnes(spans, traceId, EXECUTE, q.tools, sel.invocations, sel.tools);
    ChildrenParts(trace, traceId, q, sel);
    hide Sole, Approved, Singles, ChildFinder, TurnFinder, Approvals, AsksForUnknown, SpansOf, PickedChildren,
      PickedTurns, TryChildren;
  }

  /** What the search below the invocations has to find. */
  ghost predicate FoundBelow(trace: seq<Span>, traceId: string, sel: Selection, q: Request)
    requires q.approvalTool in q.tools
  {
    && sel.traceId == traceId
    && !AsksForUnknown(trace, CHAT, q.models, sel.invocations.Keys)
    && !AsksForUnknown(trace, EXECUTE, q.tools, sel.invocations.Keys)
    && Singles(ChildFinder(trace, CHAT, sel.invocations), q.models) == Some(sel.models)
    && Singles(ChildFinder(trace, EXECUTE, sel.invocations), q.tools) == Some(sel.tools)
    && Singles(TurnFinder(trace), q.models) == Some(sel.turns)
    && Approvals(trace, q.approvalTool, "golden-approval-" + q.stamp, sel.tools[q.approvalTool].spanId) ==
       [sel.approval]
  }

  lemma ChildrenParts(trace: seq<Span>, traceId: string, q: Request, sel: Selection)
    requires q.approvalTool in q.tools
    ensures TryChildren(trace, traceId, q, sel.invocations) == Chosen(sel) <==> FoundBelow(trace, traceId, sel, q)
  {
    hide Singles, ChildFinder, TurnFinder, Approvals, AsksForUnknown;
    if q.approvalTool in sel.tools {
      var approvals := Approvals(trace, q.approvalTool, "golden-approval-" + q.stamp, sel.tools[q.approvalTool].spanId);
      assert approvals == [sel.approval] <==> |approvals| == 1 && approvals[0] == sel.approval;
    }
  }

  lemma KnownOnes(spans: seq<Span>, traceId: string, family: string, wanted: set<string>,
                  invocations: map<string, Span>, chosen: map<string, Span>)
    ensures PickedChildren(spans, traceId, family, wanted, invocations, chosen) ==>
              !AsksForUnknown(SpansOf(spans, traceId), family, wanted, invocations.Keys) && chosen.Keys == wanted
  {
    hide Sole;
  }

  /** The one invocation of every agent, hanging together as the agents do. */
  ghost predicate PickedAgents(spans: seq<Span>, traceId: string, sel: Selection, agents: Agents) {
    && sel.invocations.Keys == agents.Keys
    && (forall id | id in agents :: Sole(spans, Of(traceId, "span.agent.invoke", id), sel.invocations[id]))
    && forall id | id in agents :: HangsBelow(sel, agents, id)
  }

  lemma AgentsIff(spans: seq<Span>, traceId: string, sel: Selection, agents: Agents, ids: seq<string>)
    requires forall id :: id in ids <==> id in agents
    ensures PickedAgents(spans, traceId, sel, agents) <==>
              && Singles(AgentFinder(SpansOf(spans, traceId)), agents.Keys) == Some(sel.invocations)
              && TreeVerdict(agents, ids, sel.invocations, |ids|).Holds?
  {
    InvocationsIff(spans, traceId, agents.Keys, sel.invocations);
    hide AgentFinder, Singles, Sole, Of, SpansOf;
    if sel.invocations.Keys == agents.Keys {
      VerdictIff(agents, ids, sel, |ids|);
      assert (forall i | 0 <= i < |ids| :: HangsBelow(sel, agents, ids[i])) <==>
          forall id | id in agents :: HangsBelow(sel, agents, id) by {
        hide HangsBelow, TreeVerdict;
        assert forall i | 0 <= i < |ids| :: ids[i] in ids;
      }
    }
    hide HangsBelow, TreeVerdict;
  }

  lemma InvocationsIff(spans: seq<Span>, traceId: string, wanted: set<string>, chosen: map<string, Span>)
    ensures Singles(AgentFinder(SpansOf(spans, traceId)), wanted) == Some(chosen) <==>
              chosen.Keys == wanted &&
              forall id | id in wanted :: Sole(spans, Of(traceId, "span.agent.invoke", id), chosen[id])
  {
    var finder := AgentFinder(SpansOf(spans, traceId));
    SinglesAre(finder, wanted, chosen);
    forall id, s ensures finder(id) == [s] <==> Sole(spans, Of(traceId, INVOKE, id), s) {
      OneOf(spans, traceId, INVOKE, id, s);
      hide OfAgent, SpansOf, Sole, Of;
    }
    hide AgentFinder, Singles, Sole, Of;
  }

  /** What is chosen in a trace: one span each, hanging together as the agents do, and nothing else will do. */
  lemma ChosenIff(spans: seq<Span>, traceId: string, agents: Agents, ids: seq<string>, q: Request, sel: Selection)
    requires (forall id :: id in ids <==> id in agents) && q.approvalTool in q.tools
    ensures TryTrace(spans, traceId, agents, ids, q) == Chosen(sel) <==>
              PickedAgents(spans, traceId, sel, agents) && PickedBelow(spans, traceId, sel, q)
  {
    AgentsIff(spans, traceId, sel, agents, ids);
    BelowIff(spans, traceId, sel, q);
    hide AgentFinder, Singles, TreeVerdict, TryChildren, SpansOf, PickedAgents, PickedBelow;
  }

  /** A span of trace `a` comes before all spans of trace `b`. */
  ghost predicate Precedes(spans: seq<Span>, a: string, b: string) {
    exists k | 0 <= k < |spans| :: spans[k].traceId == a && forall l | 0 <= l <= k :: spans[l].traceId != b
  }

  lemma PrecedesMore(spans: seq<Span>, last: Span, a: string, b: string)
    requires Precedes(spans, a, b)
    ensures Precedes(spans + [last], a, b)
  {
    var k :| 0 <= k < |spans| && spans[k].traceId == a && forall l | 0 <= l <= k :: spans[l].traceId != b;
    var all := spans + [last];
    assert all[k].traceId == a && forall l | 0 <= l <= k :: all[l] == spans[l];
  }

  lemma PrecedesNew(spans: seq<Span>, last: Span, a: string)
    requires a in Traces(spans) && last.traceId !in Traces(spans)
    ensures Precedes(spans + [last], a, last.traceId)
  {
    var all := spans + [last];
    var k :| 0 <= k < |spans| && spans[k].traceId == a;
    assert all[k].traceId == a;
    forall l | 0 <= l <= k ensures all[l].traceId != last.traceId {
      assert all[l] == spans[l] && spans[l] in spans;
    }
  }

  function Traces(spans: seq<Span>): set<string> {
    set s | s in spans :: s.traceId
  }

  /** Every trace is tried once, in the order in which the traces begin. */
  lemma {:induction false} TracesInOrder(spans: seq<Span>)
    ensures forall id :: id in TraceIds(spans) <==> id in Traces(spans)
    ensures forall i, j | 0 <= i < j < |TraceIds(spans)| :: Precedes(spans, TraceIds(spans)[i], TraceIds(spans)[j])
  {
    if spans != [] {
      var front, last := spans[..|spans| - 1], spans[|spans| - 1];
      TracesInOrder(front);
      assert spans == front + [last];
      assert Traces(spans) == Traces(front) + {last.traceId};
      var before, ids := TraceIds(front), TraceIds(spans);
      hide Traces, Precedes;
      forall i, j | 0 <= i < j < |ids| ensures Precedes(spans, ids[i], ids[j]) {
        assert ids[i] == before[i];
        if j < |before| {
          PrecedesMore(front, last, before[i], before[j]);
        } else {
          assert before[i] in before;
          PrecedesNew(front, last, before[i]);
        }
      }
    }
  }

  /** The spans checked are the chosen ones: all of them, and each as often as it is chosen. */
  lemma ListedAre(sel: Selection, agents: Agents, ids: seq<string>, s: Span)
    requires Distinct(ids) && (forall id :: id in ids <==> id in agents)
    requires forall id | id in ids :: agents[id].agentId == id
    requires sel.invocations.Keys == agents.Keys
    ensures s in Listed(sel, agents, ids) <==>
              s in sel.invocations.Values || s in sel.models.Values || s in sel.tools.Values ||
              s in sel.turns.Values || s == sel.approval
    ensures |Listed(sel, agents, ids)| ==
            |sel.invocations| + |sel.models| + |sel.tools| + |sel.turns| + 1
  {
    hide *;
    DistinctSize(ids, agents.Keys);
    IdsByDepthSame(agents, ids);
    IdsByDepthLength(agents, ids);
    ValuesAre(sel.invocations, IdsByDepth(agents, ids));
    SortedValues(sel.models);
    SortedValues(sel.tools);
    SortedValues(sel.turns);
    ListedParts(sel, agents, ids);
  }

  lemma ListedParts(sel: Selection, agents: Agents, ids: seq<string>)
    requires forall id | id in ids :: id in agents && agents[id].agentId == id
    requires sel.invocations.Keys == agents.Keys
    ensures forall id | id in IdsByDepth(agents, ids) :: id in sel.invocations
    ensures Listed(sel, agents, ids) ==
            ValuesIn(sel.invocations, IdsByDepth(agents, ids))
            + ValuesIn(sel.models, SortedSet(sel.models.Keys))
            + ValuesIn(sel.tools, SortedSet(sel.tools.Keys))
            + ValuesIn(sel.turns, SortedSet(sel.turns.Keys))
            + [sel.approval]
  {
    IdsByDepthSame(agents, ids);
    hide IdsByDepth, SortedSet, ValuesIn;
  }

  lemma SortedValues(spans: map<string, Span>)
    ensures |ValuesIn(spans, SortedSet(spans.Keys))| == |spans|
    ensures forall s :: s in ValuesIn(spans, SortedSet(spans.Keys)) <==> s in spans.Values
  {
    SortedSetSize(spans.Keys);
    hide SortedSet;
    ValuesAre(spans, SortedSet(spans.Keys));
  }

  lemma IdsByDepthLength(agents: Agents, ids: seq<string>)
    requires forall id | id in ids :: id in agents
    ensures |IdsByDepth(agents, ids)| == |ids|
  {
    SameElements(SortBy(AgentValues(agents, ids), ByDepth), AgentValues(agents, ids));
  }

  lemma ValuesAre(spans: map<string, Span>, ids: seq<string>)
    requires forall id :: id in ids <==> id in spans
    ensures |ValuesIn(spans, ids)| == |ids|
    ensures forall s :: s in ValuesIn(spans, ids) <==> s in spans.Values
  {
    ValuesLength(spans, ids);
  }

  lemma {:induction false} ValuesLength(spans: map<string, Span>, ids: seq<string>)
    requires forall id | id in ids :: id in spans
    ensures |ValuesIn(spans, ids)| == |ids|
  {
    if ids != [] {
      ValuesLength(spans, ids[..|ids| - 1]);
    }
  }

  /** `s` is the last span with this id. */
  ghost predicate LastWith(spans: seq<Span>, id: string, s: Span) {
    s.spanId == id && exists i | 0 <= i < |spans| :: spans[i] == s && NoneFrom(spans, id, i + 1)
  }

  ghost predicate NoneFrom(spans: seq<Span>, id: string, i: nat) {
    forall j | i <= j < |spans| :: spans[j].spanId != id
  }

  lemma LastMore(spans: seq<Span>, last: Span, id: string, s: Span)
    ensures last.spanId != id && LastWith(spans, id, s) ==> LastWith(spans + [last], id, s)
    ensures last.spanId == id ==> LastWith(spans + [last], id, last)
  {
    var all := spans + [last];
    assert all[|spans|] == last;
    if last.spanId != id && LastWith(spans, id, s) {
      var i :| 0 <= i < |spans| && spans[i] == s && NoneFrom(spans, id, i + 1);
      assert all[i] == s && NoneFrom(all, id, i + 1);
    }
    assert last.spanId == id ==> NoneFrom(all, id, |spans| + 1);
  }

  /** A parent is looked up among the spans with an id; of two with one id the later is found. */
  lemma {:induction false} ByIdIs(spans: seq<Span>, id: string)
    ensures id in ById(spans) <==> id != "" && id in SpanIds(spans)
    ensures id in ById(spans) ==> LastWith(spans, id, ById(spans)[id])
  {
    if spans != [] {
      var front, last := spans[..|spans| - 1], spans[|spans| - 1];
      ByIdIs(front, id);
      assert spans == front + [last];
      SplitIds(front, last);
      LastMore(front, last, id, if id in ById(front) then ById(front)[id] else last);
      hide LastWith, SpanIds, GoodIds;
    }
  }
}
