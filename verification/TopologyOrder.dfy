/**
 scripts/check_grafana_dashboards.py `_golden_agent360_errors`: Kahn's algorithm on the observed node
 graph, which must visit every node exactly when the graph has no directed cycle.
 */
module TopologyOrder {
  import opened Sorting

  /** The successors of every node. */
  type Graph = map<string, set<string>>

  ghost predicate Closed(g: Graph) {
    forall s | s in g :: g[s] <= g.Keys
  }

  /** The graph that the observed edges induce on the observed, named nodes. */
  function Induced(nodes: set<string>, edges: seq<(string, string)>): Graph {
    map s | s in nodes && s != "" :: set t | t in nodes && t != "" && (s, t) in edges
  }

  ghost predicate Walk(g: Graph, p: seq<string>) {
    && (forall i | 0 <= i < |p| :: p[i] in g)
    && forall i | 0 <= i < |p| - 1 :: p[i + 1] in g[p[i]]
  }

  ghost predicate IsCycle(g: Graph, p: seq<string>) {
    |p| >= 2 && Walk(g, p) && p[0] == p[|p| - 1]
  }

  ghost predicate Cyclic(g: Graph) {
    exists p :: IsCycle(g, p)
  }

  // ----- predecessors

  /** The predecessors of `t` outside `done`. */
  ghost function Pending(g: Graph, done: set<string>, t: string): set<string> {
    set s | s in g && s !in done && t in g[s]
  }

  ghost predicate CountsPending(g: Graph, done: set<string>, indegree: map<string, int>) {
    indegree.Keys == g.Keys && forall t | t in g :: indegree[t] == |Pending(g, done, t)|
  }

  lemma AddEdge(g: Graph, s: string, t: string, u: string)
    requires s in g && t !in g[s]
    ensures Pending(g[s := g[s] + {t}], {}, u) == Pending(g, {}, u) + if u == t then {s} else {}
    ensures s !in Pending(g, {}, t)
  {
  }

  lemma FinishNode(g: Graph, done: set<string>, s: string, t: string)
    requires s in g && s !in done
    ensures Pending(g, done + {s}, t) == Pending(g, done, t) - {s}
    ensures s in Pending(g, done, t) <==> t in g[s]
  {
  }

  function NoSuccessors(nodes: set<string>): Graph {
    map n | n in nodes && n != "" :: {}
  }

  function Zeros(g: Graph): map<string, int> {
    map n | n in g :: 0
  }

  lemma NoEdges(nodes: set<string>)
    ensures NoSuccessors(nodes) == Induced(nodes, [])
    ensures var g := NoSuccessors(nodes); CountsPending(g, {}, Zeros(g))
  {
    var g := NoSuccessors(nodes);
    forall s | s in g ensures Induced(nodes, [])[s] == g[s] {
    }
    forall t | t in g ensures Pending(g, {}, t) == {} {
    }
  }

  lemma InducedStep(nodes: set<string>, edges: seq<(string, string)>, source: string, target: string)
    ensures var g := Induced(nodes, edges);
            Induced(nodes, edges + [(source, target)]) ==
              if source in g && target in g then g[source := g[source] + {target}] else g
  {
    var g, h := Induced(nodes, edges), Induced(nodes, edges + [(source, target)]);
    forall s | s in g ensures h[s] == if s == source && target in g then g[s] + {target} else g[s] {
    }
  }

  lemma CountStep(g: Graph, indegree: map<string, int>, source: string, target: string)
    requires CountsPending(g, {}, indegree) && source in g && target in g && target !in g[source]
    ensures CountsPending(g[source := g[source] + {target}], {}, indegree[target := indegree[target] + 1])
  {
    hide Pending;
    var h := g[source := g[source] + {target}];
    forall u | u in h ensures indegree[target := indegree[target] + 1][u] == |Pending(h, {}, u)| {
      AddEdge(g, source, target, u);
      AddEdge(g, source, target, target);
    }
  }

  lemma AlreadyThere(g: Graph, source: string, target: string)
    requires source in g && target in g[source]
    ensures g[source := g[source] + {target}] == g
  {
    assert g[source] + {target} == g[source];
  }

  lemma BuildStep(nodes: set<string>, edges: seq<(string, string)>, i: nat, g: Graph, indegree: map<string, int>)
    requires i < |edges| && g == Induced(nodes, edges[..i]) && CountsPending(g, {}, indegree)
    ensures var (source, target) := edges[i];
            if source in g && target in g && target !in g[source]
            then var h := g[source := g[source] + {target}];
                 h == Induced(nodes, edges[..i + 1]) && CountsPending(h, {}, indegree[target := indegree[target] + 1])
            else g == Induced(nodes, edges[..i + 1])
  {
    hide Induced, CountsPending;
    var (source, target) := edges[i];
    assert edges[..i + 1] == edges[..i] + [(source, target)];
    InducedStep(nodes, edges[..i], source, target);
    if source in g && target in g {
      if target in g[source] {
        AlreadyThere(g, source, target);
      } else {
        CountStep(g, indegree, source, target);
      }
    }
  }

  lemma SameKeys(g: Graph, done: set<string>, indegree: map<string, int>)
    requires CountsPending(g, done, indegree)
    ensures indegree.Keys == g.Keys
  {
    hide Pending;
  }

  method BuildGraph(nodes: set<string>, edges: seq<(string, string)>)
    returns (adjacency: Graph, indegree: map<string, int>)
    ensures adjacency == Induced(nodes, edges)
    ensures CountsPending(adjacency, {}, indegree)
  {
    hide *;
    adjacency := NoSuccessors(nodes);
    indegree := Zeros(adjacency);
    NoEdges(nodes);
    assert edges[..0] == [];
    for i := 0 to |edges|
      invariant adjacency == Induced(nodes, edges[..i]) && CountsPending(adjacency, {}, indegree)
    {
      var (source, target) := edges[i];
      BuildStep(nodes, edges, i, adjacency, indegree);
      if source in adjacency && target in adjacency && target !in adjacency[source] {
        SameKeys(adjacency, {}, indegree);
        adjacency := adjacency[source := adjacency[source] + {target}];
        indegree := indegree[target := indegree[target] + 1];
      }
    }
    assert edges[..|edges|] == edges;
  }

  // ----- visiting

  /** Every edge into a visited node starts at a node visited before. */
  ghost predicate InOrder(g: Graph, order: seq<string>) {
    && Distinct(order)
    && (forall i | 0 <= i < |order| :: order[i] in g)
    && forall i, s | 0 <= i < |order| && s in g && order[i] in g[s] :: s in order[..i]
  }

  ghost function Visited(order: seq<string>): set<string> {
    set n | n in order
  }

  /** The ready list holds, once each, the unvisited nodes without unvisited predecessors. */
  ghost predicate ReadyList(g: Graph, done: set<string>, ready: seq<string>) {
    && Distinct(ready)
    && forall n :: n in ready <==> n in g && n !in done && Pending(g, done, n) == {}
  }

  lemma OrderMore(g: Graph, order: seq<string>, node: string)
    requires InOrder(g, order) && node in g && node !in order && Pending(g, Visited(order), node) == {}
    ensures InOrder(g, order + [node]) && Visited(order + [node]) == Visited(order) + {node}
  {
    forall i, s | 0 <= i < |order| + 1 && s in g && (order + [node])[i] in g[s] ensures s in (order + [node])[..i] {
      if i < |order| {
        assert (order + [node])[..i] == order[..i];
      } else {
        assert (order + [node])[..i] == order;
        assert s !in Pending(g, Visited(order), node);
      }
    }
  }

  lemma {:induction false} VisitedSize(g: Graph, order: seq<string>)
    requires Distinct(order) && forall i | 0 <= i < |order| :: order[i] in g
    ensures |Visited(order)| == |order| <= |g|
  {
    DistinctSize(order);
    InSubset(Visited(order), g.Keys);
  }

  lemma {:induction false} DistinctSize(xs: seq<string>)
    requires Distinct(xs)
    ensures |Visited(xs)| == |xs|
  {
    if xs != [] {
      var front, last := xs[..|xs| - 1], xs[|xs| - 1];
      DistinctSize(front);
      assert Visited(xs) == Visited(front) + {last};
    }
  }

  lemma {:induction false} InSubset(a: set<string>, b: set<string>)
    requires a <= b
    ensures |a| <= |b|
    ensures |a| == |b| ==> a == b
  {
    if a != {} {
      var x :| x in a;
      InSubset(a - {x}, b - {x});
    }
  }

  function Sources(indegree: map<string, int>): set<string> {
    set n | n in indegree && indegree[n] == 0
  }

  /** Kahn's loop: visits nodes whose predecessors are all visited, as long as there is one. */
  method VisitAll(g: Graph, degrees: map<string, int>) returns (visited: nat, ghost order: seq<string>)
    requires Closed(g) && CountsPending(g, {}, degrees)
    ensures InOrder(g, order) && visited == |order|
    ensures ReadyList(g, Visited(order), [])
  {
    hide *;
    var indegree := degrees;
    var ready := SortedSet(Sources(indegree));
    visited := 0;
    order := [];
    FirstReady(g, degrees);
    while ready != []
      invariant InOrder(g, order) && visited == |order| && CountsPending(g, Visited(order), indegree)
      invariant ReadyList(g, Visited(order), ready)
      decreases |g| - visited
    {
      var node := ready[0];
      SplitHead(ready);
      ready := ready[1..];
      visited := visited + 1;
      HeadReady(g, order, node, ready);
      ghost var before := Visited(order);
      order := order + [node];
      indegree, ready := Settle(g, before, node, indegree, ready);
    }
  }

  lemma OrderSize(g: Graph, order: seq<string>)
    requires InOrder(g, order)
    ensures |order| <= |g|
  {
    VisitedSize(g, order);
  }

  lemma OrderDone(g: Graph, order: seq<string>)
    requires InOrder(g, order)
    ensures DoneFirst(g, Visited(order))
  {
    forall n, s | n in Visited(order) && s in g && n in g[s] ensures s in Visited(order) {
      var i :| 0 <= i < |order| && order[i] == n;
      assert s in order[..i];
    }
  }

  lemma SplitHead(ready: seq<string>)
    requires ready != []
    ensures [ready[0]] + ready[1..] == ready
  {
  }

  lemma FirstReady(g: Graph, degrees: map<string, int>)
    requires CountsPending(g, {}, degrees)
    ensures InOrder(g, []) && Visited([]) == {} && ReadyList(g, {}, SortedSet(Sources(degrees)))
  {
    hide Pending;
  }

  lemma HeadReady(g: Graph, order: seq<string>, node: string, rest: seq<string>)
    requires InOrder(g, order) && ReadyList(g, Visited(order), [node] + rest)
    ensures node in g && node !in Visited(order) && Pending(g, Visited(order), node) == {}
    ensures InOrder(g, order + [node]) && Visited(order + [node]) == Visited(order) + {node} && |order| < |g|
    ensures DoneFirst(g, Visited(order))
  {
    assert ([node] + rest)[0] == node;
    OrderDone(g, order);
    hide Pending;
    OrderMore(g, order, node);
    OrderSize(g, order + [node]);
  }

  // ----- the inner loop

  /** The successors in `part` have lost the predecessor being visited. */
  ghost predicate HalfCounted(g: Graph, done: set<string>, part: seq<string>, indegree: map<string, int>) {
    indegree.Keys == g.Keys && forall t | t in g :: indegree[t] == |Pending(g, done, t)| - if t in part then 1 else 0
  }

  ghost predicate HalfReady(g: Graph, done: set<string>, node: string, rest: seq<string>, part: seq<string>,
                            ready: seq<string>) {
    && Distinct(ready)
    && forall n :: n in ready <==> n in rest || (n in part && Pending(g, done, n) == {node})
  }

  lemma OneLeft(s: set<string>, x: string)
    requires x in s
    ensures |s| == 1 <==> s == {x}
  {
    assert |s - {x}| == |s| - 1;
    if |s| == 1 {
      assert s - {x} == {};
    }
  }

  lemma SettleStep(g: Graph, done: set<string>, node: string, rest: seq<string>, targets: seq<string>, i: nat,
                   indegree: map<string, int>, ready: seq<string>)
    requires Closed(g) && node in g && node !in done && ReadyList(g, done, [node] + rest)
    requires i < |targets| && Ascending(targets) && forall t :: t in targets <==> t in g[node]
    requires HalfCounted(g, done, targets[..i], indegree) && HalfReady(g, done, node, rest, targets[..i], ready)
    ensures var target := targets[i];
            && target in indegree
            && var less := indegree[target := indegree[target] - 1];
            && HalfCounted(g, done, targets[..i + 1], less)
            && HalfReady(g, done, node, rest, targets[..i + 1], if less[target] == 0 then ready + [target] else ready)
  {
    var target, part := targets[i], targets[..i];
    TargetFacts(g, node, targets, i);
    hide Closed, HalfCounted, HalfReady, Ascending;
    FinishNode(g, done, node, target);
    NotInRest(g, done, node, rest, target);
    hide Pending, ReadyList, TextLeq;
    OneLeft(Pending(g, done, target), node);
    HalfCountedStep(g, done, part, target, indegree);
    HalfReadyStep(g, done, node, rest, part, target, ready);
  }

  lemma TargetFacts(g: Graph, node: string, targets: seq<string>, i: nat)
    requires Closed(g) && node in g && i < |targets| && Ascending(targets) && forall t :: t in targets <==> t in g[node]
    ensures targets[i] in g && targets[i] in g[node] && targets[..i + 1] == targets[..i] + [targets[i]] &&
              targets[i] !in targets[..i]
  {
    hide TextLeq;
    assert targets[i] in targets;
  }

  lemma HalfCountedStep(g: Graph, done: set<string>, part: seq<string>, target: string, indegree: map<string, int>)
    requires HalfCounted(g, done, part, indegree) && target in g && target !in part
    ensures target in indegree && indegree[target] == |Pending(g, done, target)|
    ensures HalfCounted(g, done, part + [target], indegree[target := indegree[target] - 1])
  {
    hide Pending;
  }

  lemma HalfReadyStep(g: Graph, done: set<string>, node: string, rest: seq<string>, part: seq<string>, target: string,
                      ready: seq<string>)
    requires HalfReady(g, done, node, rest, part, ready) && target !in rest && target !in part
    ensures HalfReady(g, done, node, rest, part + [target],
              if Pending(g, done, target) == {node} then ready + [target] else ready)
  {
    hide Pending;
  }

  lemma SettleStart(g: Graph, done: set<string>, node: string, rest: seq<string>, indegree: map<string, int>)
    requires CountsPending(g, done, indegree) && ReadyList(g, done, [node] + rest)
    ensures HalfCounted(g, done, [], indegree) && HalfReady(g, done, node, rest, [], rest)
  {
    hide Pending;
    assert forall i, j | 0 <= i < j < |rest| :: rest[i] == ([node] + rest)[i + 1] && rest[j] == ([node] + rest)[j + 1];
  }

  lemma CountedEnd(g: Graph, done: set<string>, node: string, part: seq<string>, indegree: map<string, int>)
    requires node in g && node !in done && HalfCounted(g, done, part, indegree) &&
              forall t :: t in part <==> t in g[node]
    ensures CountsPending(g, done + {node}, indegree)
  {
    forall t | t in g ensures indegree[t] == |Pending(g, done + {node}, t)| {
      FinishNode(g, done, node, t);
    }
  }

  /** Visited nodes have no unvisited predecessors. */
  ghost predicate DoneFirst(g: Graph, done: set<string>) {
    forall n | n in done :: Pending(g, done, n) == {}
  }

  lemma NotInRest(g: Graph, done: set<string>, node: string, rest: seq<string>, n: string)
    requires ReadyList(g, done, [node] + rest)
    ensures n in rest <==> n != node && n in g && n !in done && Pending(g, done, n) == {}
    ensures node in g && node !in done && Pending(g, done, node) == {}
  {
    hide Pending;
    var all := [node] + rest;
    assert n in all <==> n == node || n in rest;
    assert all[0] == node;
    forall i | 0 <= i < |rest| ensures rest[i] != node {
      assert all[i + 1] == rest[i];
    }
  }

  lemma ReadyEnd(g: Graph, done: set<string>, node: string, rest: seq<string>, part: seq<string>, ready: seq<string>)
    requires Closed(g) && DoneFirst(g, done) && ReadyList(g, done, [node] + rest)
    requires node in g && node !in done && Pending(g, done, node) == {}
    requires HalfReady(g, done, node, rest, part, ready) && forall t :: t in part <==> t in g[node]
    ensures ReadyList(g, done + {node}, ready)
  {
    forall n ensures n in ready <==> n in g && n !in done + {node} && Pending(g, done + {node}, n) == {} {
      NotInRest(g, done, node, rest, n);
      FinishNode(g, done, node, n);
      hide Pending, ReadyList;
    }
  }

  /** The inner loop: `node` leaves the predecessors of its successors, and some become ready. */
  method Settle(g: Graph, ghost done: set<string>, node: string, degrees: map<string, int>, rest: seq<string>)
    returns (indegree: map<string, int>, ready: seq<string>)
    requires Closed(g) && DoneFirst(g, done) && CountsPending(g, done, degrees) && ReadyList(g, done, [node] + rest)
    ensures CountsPending(g, done + {node}, indegree) && ReadyList(g, done + {node}, ready)
  {
    hide *;
    indegree, ready := degrees, rest;
    NotInRest(g, done, node, rest, node);
    var targets := SortedSet(g[node]);
    SettleStart(g, done, node, rest, degrees);
    for i := 0 to |targets|
      invariant HalfCounted(g, done, targets[..i], indegree) && HalfReady(g, done, node, rest, targets[..i], ready)
    {
      var target := targets[i];
      SettleStep(g, done, node, rest, targets, i, indegree, ready);
      indegree := indegree[target := indegree[target] - 1];
      if indegree[target] == 0 {
        ready := ready + [target];
      }
    }
    assert targets[..|targets|] == targets;
    CountedEnd(g, done, node, targets, indegree);
    ReadyEnd(g, done, node, rest, targets, ready);
  }

  // ----- cycles

  lemma {:induction false} WalkBack(g: Graph, order: seq<string>, p: seq<string>, i: nat, k: nat)
    requires InOrder(g, order) && Walk(g, p) && i < |p| && k <= |order| && p[i] in order[..k]
    ensures i < k && p[0] in order[..k - i]
  {
    if i > 0 {
      var j :| 0 <= j < k && order[j] == p[i];
      assert p[i] in g[p[i - 1]];
      assert p[i - 1] in order[..j];
      WalkBack(g, order, p, i - 1, j);
      assert order[..j - (i - 1)] <= order[..k - i];
      var m :| 0 <= m < j - (i - 1) && order[m] == p[0];
      assert order[..k - i][m] == p[0];
    }
  }

  /** A cycle through a visited node would go back in the order of visits for ever. */
  lemma {:induction false} NoCycleThrough(g: Graph, order: seq<string>, p: seq<string>, k: nat)
    requires InOrder(g, order) && IsCycle(g, p) && k <= |order|
    ensures p[0] !in order[..k]
  {
    if p[0] in order[..k] {
      WalkBack(g, order, p, |p| - 1, k);
      NoCycleThrough(g, order, p, k - (|p| - 1));
      assert false;
    }
  }

  /** Every node of the set has a predecessor in it. */
  ghost predicate Stuck(g: Graph, nodes: set<string>) {
    forall t | t in nodes :: HasPredecessor(g, nodes, t)
  }

  ghost predicate HasPredecessor(g: Graph, nodes: set<string>, t: string) {
    exists s :: s in nodes && s in g && t in g[s]
  }

  lemma PredecessorIn(g: Graph, nodes: set<string>, t: string) returns (s: string)
    requires Stuck(g, nodes) && t in nodes
    ensures s in nodes && s in g && t in g[s]
  {
    assert HasPredecessor(g, nodes, t) by {
      hide HasPredecessor;
    }
    hide Stuck;
    s :| s in nodes && s in g && t in g[s];
  }

  lemma WalkFrom(g: Graph, s: string, q: seq<string>)
    requires s in g && q != [] && Walk(g, q) && q[0] in g[s]
    ensures Walk(g, [s] + q)
  {
    var p := [s] + q;
    forall i | 0 <= i < |p| - 1 ensures p[i] in g && p[i + 1] in g[p[i]] {
      if i > 0 {
        assert p[i] == q[i - 1] && p[i + 1] == q[i];
      }
    }
  }

  lemma {:induction false} LongWalk(g: Graph, nodes: set<string>, n: nat) returns (p: seq<string>)
    requires Stuck(g, nodes) && nodes != {}
    ensures |p| == n + 1 && Walk(g, p) && forall i | 0 <= i < |p| :: p[i] in nodes
  {
    if n == 0 {
      hide Stuck;
      var t :| t in nodes;
      var s := PredecessorIn(g, nodes, t);
      p := [s];
    } else {
      hide Stuck, Walk;
      var q := LongWalk(g, nodes, n - 1);
      var s := PredecessorIn(g, nodes, q[0]);
      WalkFrom(g, s, q);
      p := [s] + q;
    }
  }

  lemma Repeats(p: seq<string>, nodes: set<string>) returns (i: nat, j: nat)
    requires |p| > |nodes| && forall k | 0 <= k < |p| :: p[k] in nodes
    ensures i < j < |p| && p[i] == p[j]
  {
    if Distinct(p) {
      DistinctSize(p);
      InSubset(Visited(p), nodes);
      assert false;
    }
    i, j :| 0 <= i < j < |p| && p[i] == p[j];
  }

  lemma PartOfWalk(g: Graph, p: seq<string>, i: nat, j: nat)
    requires Walk(g, p) && i <= j < |p|
    ensures Walk(g, p[i..j + 1])
  {
  }

  lemma StuckIsCyclic(g: Graph, nodes: set<string>)
    requires Stuck(g, nodes) && nodes != {}
    ensures Cyclic(g)
  {
    hide Stuck, Walk;
    var p := LongWalk(g, nodes, |nodes|);
    var i, j := Repeats(p, nodes);
    PartOfWalk(g, p, i, j);
    assert IsCycle(g, p[i..j + 1]);
  }

  lemma CycleIffLeftOver(g: Graph, order: seq<string>)
    requires Closed(g) && InOrder(g, order) && ReadyList(g, Visited(order), [])
    ensures |order| == |g| <==> !Cyclic(g)
  {
    VisitedSize(g, order);
    var left := g.Keys - Visited(order);
    if left == {} {
      assert Visited(order) == g.Keys;
      forall p | IsCycle(g, p) ensures false {
        assert p[0] in g.Keys;
        assert order[..|order|] == order;
        assert p[0] in order[..|order|];
        NoCycleThrough(g, order, p, |order|);
      }
    } else {
      assert Visited(order) != g.Keys;
      InSubset(Visited(order), g.Keys);
      forall t | t in left ensures HasPredecessor(g, left, t) {
        LeftHasPending(g, order, t);
        var s :| s in Pending(g, Visited(order), t);
        assert s in left && s in g && t in g[s];
      }
      StuckIsCyclic(g, left);
    }
  }

  lemma LeftHasPending(g: Graph, order: seq<string>, t: string)
    requires ReadyList(g, Visited(order), []) && t in g && t !in Visited(order)
    ensures Pending(g, Visited(order), t) != {}
  {
    assert t !in [];
  }

  lemma InducedClosed(nodes: set<string>, edges: seq<(string, string)>)
    ensures Closed(Induced(nodes, edges)) && Induced(nodes, edges).Keys == nodes - {""}
  {
  }

  /** Observed edges lead from a named node over named nodes back to it. */
  ghost predicate ClosedWalk(nodes: set<string>, edges: seq<(string, string)>, p: seq<string>) {
    && |p| >= 2 && p[0] == p[|p| - 1] && (forall i | 0 <= i < |p| :: p[i] in nodes && p[i] != "")
    && forall i | 0 <= i < |p| - 1 :: (p[i], p[i + 1]) in edges
  }

  lemma ClosedWalksCycle(nodes: set<string>, edges: seq<(string, string)>)
    ensures Cyclic(Induced(nodes, edges)) <==> exists p :: ClosedWalk(nodes, edges, p)
  {
    forall p ensures IsCycle(Induced(nodes, edges), p) <==> ClosedWalk(nodes, edges, p) {
      ClosedWalkCycles(nodes, edges, p);
    }
    hide IsCycle, ClosedWalk, Induced;
  }

  lemma ClosedWalkCycles(nodes: set<string>, edges: seq<(string, string)>, p: seq<string>)
    ensures IsCycle(Induced(nodes, edges), p) <==> ClosedWalk(nodes, edges, p)
  {
  }

  /** The topology check: an error exactly when the observed nodes and edges contain a directed cycle. */
  method FindsCycle(nodes: set<string>, edges: seq<(string, string)>) returns (error: bool)
    ensures error <==> Cyclic(Induced(nodes, edges))
    ensures error <==> exists p :: ClosedWalk(nodes, edges, p)
  {
    ClosedWalksCycle(nodes, edges);
    var adjacency, indegree := BuildGraph(nodes, edges);
    InducedClosed(nodes, edges);
    hide *;
    ghost var order;
    var visited;
    visited, order := VisitAll(adjacency, indegree);
    CycleIffLeftOver(adjacency, order);
    return visited != |adjacency|;
  }

  /** The order in which the edges were observed, and observing one twice, does not matter. */
  lemma EdgesAsSet(nodes: set<string>, edges: seq<(string, string)>, others: seq<(string, string)>)
    ensures (forall e :: e in edges <==> e in others) ==> Induced(nodes, edges) == Induced(nodes, others)
  {
    if forall e :: e in edges <==> e in others {
      forall s | s in nodes && s != "" ensures Induced(nodes, edges)[s] == Induced(nodes, others)[s] {
        forall t ensures t in Induced(nodes, edges)[s] <==> t in Induced(nodes, others)[s] {
          assert (s, t) in edges <==> (s, t) in others;
        }
      }
    }
  }

  /** A self-loop on a named node is a cycle. */
  lemma SelfLoopIsCycle(nodes: set<string>, edges: seq<(string, string)>, n: string)
    ensures n in nodes && n != "" && (n, n) in edges ==> Cyclic(Induced(nodes, edges))
  {
    if n in nodes && n != "" && (n, n) in edges {
      assert IsCycle(Induced(nodes, edges), [n, n]);
    }
  }
}
