/**
 * The dependency graph (crates/trx-core/src/graph.rs, `IssueGraph`): one
 * node per issue of a snapshot, in snapshot order, and one edge from an
 * issue to each of its dependency targets that is itself in the snapshot.
 * Nodes are numbered as petgraph numbers them, by insertion.
 */
module Graph {
  import opened Wrappers
  import opened Issues

  /** An edge `source -> target` between node indices, labelled with the dependency type. */
  datatype Edge = Edge(source: nat, target: nat, depType: DependencyType)

  /** The `DiGraph` (node weights and edges in insertion order) and `node_map`. */
  datatype IssueGraph = IssueGraph(nodes: seq<string>, edges: seq<Edge>, nodeMap: map<string, nat>)

  /** Every edge joins two nodes of the graph. */
  predicate WellFormed(g: IssueGraph)
  {
    forall k | 0 <= k < |g.edges| :: g.edges[k].source < |g.nodes| && g.edges[k].target < |g.nodes|
  }

  // ---------------------------------------------------------------------------
  // Building the graph

  /** The ids of the issues, in order: the node weights. */
  function Ids(issues: seq<Issue>): (r: seq<string>)
    ensures |r| == |issues| && forall i | 0 <= i < |issues| :: r[i] == issues[i].id
  {
    seq(|issues|, i requires 0 <= i < |issues| => issues[i].id)
  }

  /** `node_map` after the first loop: an id maps to the last node carrying it. */
  function NodeMapOf(issues: seq<Issue>): map<string, nat>
  {
    if issues == [] then map[]
    else NodeMapOf(issues[..|issues| - 1])[issues[|issues| - 1].id := |issues| - 1]
  }

  /** `node_map` holds exactly the snapshot's ids, each at a node carrying it. */
  lemma {:induction false} NodeMapFacts(issues: seq<Issue>)
    ensures forall id :: id in NodeMapOf(issues) <==> id in Ids(issues)
    ensures forall id | id in NodeMapOf(issues) ::
      NodeMapOf(issues)[id] < |issues| && issues[NodeMapOf(issues)[id]].id == id
  {
    if issues != [] {
      var front := issues[..|issues| - 1];
      NodeMapFacts(front);
      assert Ids(issues) == Ids(front) + [issues[|issues| - 1].id];
    }
  }

  /** The edges the inner loop adds for the dependencies `deps` of the node `from`. */
  function DepEdges(from: nat, deps: seq<Dependency>, nodeMap: map<string, nat>): seq<Edge>
  {
    if deps == [] then []
    else
      var last := deps[|deps| - 1];
      DepEdges(from, deps[..|deps| - 1], nodeMap)
      + (if last.dependsOnId in nodeMap then [Edge(from, nodeMap[last.dependsOnId], last.depType)] else [])
  }

  /** The edges the second loop adds for the first `k` issues. */
  function EdgesOf(issues: seq<Issue>, nodeMap: map<string, nat>, k: nat): seq<Edge>
    requires k <= |issues| && forall i | 0 <= i < |issues| :: issues[i].id in nodeMap
  {
    if k == 0 then []
    else EdgesOf(issues, nodeMap, k - 1) + DepEdges(nodeMap[issues[k - 1].id], issues[k - 1].dependencies, nodeMap)
  }

  /** The graph `from_issues` builds; every edge joins two of its nodes. */
  function BuildGraph(issues: seq<Issue>): (g: IssueGraph)
    ensures WellFormed(g)
  {
    NodeMapFacts(issues);
    var nodeMap := NodeMapOf(issues);
    EdgesJoinNodes(issues, nodeMap);
    IssueGraph(Ids(issues), EdgesOf(issues, nodeMap, |issues|), nodeMap)
  }

  /** `dep` is dependency `d` of issue `i` and the edge the graph holds for it. */
  predicate EdgeFor(issues: seq<Issue>, nodeMap: map<string, nat>, i: nat, d: nat, e: Edge)
  {
    i < |issues| && issues[i].id in nodeMap && d < |issues[i].dependencies|
    && var dep := issues[i].dependencies[d];
    dep.dependsOnId in nodeMap
    && e == Edge(nodeMap[issues[i].id], nodeMap[dep.dependsOnId], dep.depType)
  }

  /** The inner loop adds an edge for exactly the dependencies whose target is a node. */
  lemma {:induction false} DepEdgesMembers(from: nat, deps: seq<Dependency>, nodeMap: map<string, nat>)
    ensures forall e :: e in DepEdges(from, deps, nodeMap) <==>
      exists d | 0 <= d < |deps| :: deps[d].dependsOnId in nodeMap
        && e == Edge(from, nodeMap[deps[d].dependsOnId], deps[d].depType)
  {
    if deps != [] {
      var front := deps[..|deps| - 1];
      DepEdgesMembers(from, front, nodeMap);
      forall e | exists d | 0 <= d < |deps| :: deps[d].dependsOnId in nodeMap
                   && e == Edge(from, nodeMap[deps[d].dependsOnId], deps[d].depType)
        ensures e in DepEdges(from, deps, nodeMap)
      {
        var d :| 0 <= d < |deps| && deps[d].dependsOnId in nodeMap
                 && e == Edge(from, nodeMap[deps[d].dependsOnId], deps[d].depType);
        if d < |deps| - 1 {
          assert front[d] == deps[d];
        }
      }
      forall e | e in DepEdges(from, front, nodeMap)
        ensures exists d | 0 <= d < |deps| :: deps[d].dependsOnId in nodeMap
                  && e == Edge(from, nodeMap[deps[d].dependsOnId], deps[d].depType)
      {
        var d :| 0 <= d < |front| && front[d].dependsOnId in nodeMap
                 && e == Edge(from, nodeMap[front[d].dependsOnId], front[d].depType);
        assert deps[d] == front[d];
      }
    }
  }

  /** The second loop adds an edge for exactly the dependencies whose target is a node. */
  lemma {:induction false} EdgesOfMembers(issues: seq<Issue>, nodeMap: map<string, nat>, k: nat)
    requires k <= |issues| && forall i | 0 <= i < |issues| :: issues[i].id in nodeMap
    ensures forall e :: e in EdgesOf(issues, nodeMap, k) <==>
      exists i, d | 0 <= i < k && 0 <= d :: EdgeFor(issues, nodeMap, i, d, e)
  {
    if k > 0 {
      EdgesOfMembers(issues, nodeMap, k - 1);
      var from := nodeMap[issues[k - 1].id];
      var deps := issues[k - 1].dependencies;
      DepEdgesMembers(from, deps, nodeMap);
      forall e | e in DepEdges(from, deps, nodeMap)
        ensures exists i, d | 0 <= i < k && 0 <= d :: EdgeFor(issues, nodeMap, i, d, e)
      {
        var d :| 0 <= d < |deps| && deps[d].dependsOnId in nodeMap
                 && e == Edge(from, nodeMap[deps[d].dependsOnId], deps[d].depType);
        assert EdgeFor(issues, nodeMap, k - 1, d, e);
      }
      forall e | exists i, d | 0 <= i < k && 0 <= d :: EdgeFor(issues, nodeMap, i, d, e)
        ensures e in EdgesOf(issues, nodeMap, k)
      {
        var i, d :| 0 <= i < k && 0 <= d && EdgeFor(issues, nodeMap, i, d, e);
        if i == k - 1 {
          assert e in DepEdges(from, deps, nodeMap);
        } else {
          assert e in EdgesOf(issues, nodeMap, k - 1);
        }
      }
    }
  }

  /** Every edge the loops add joins two nodes, since `node_map` only holds node indices. */
  lemma EdgesJoinNodes(issues: seq<Issue>, nodeMap: map<string, nat>)
    requires forall i | 0 <= i < |issues| :: issues[i].id in nodeMap
    requires forall id | id in nodeMap :: nodeMap[id] < |issues|
    ensures WellFormed(IssueGraph(Ids(issues), EdgesOf(issues, nodeMap, |issues|), nodeMap))
  {
    var edges := EdgesOf(issues, nodeMap, |issues|);
    EdgesOfMembers(issues, nodeMap, |issues|);
    forall k | 0 <= k < |edges|
      ensures edges[k].source < |issues| && edges[k].target < |issues|
    {
      assert edges[k] in edges;
    }
  }

  /**
   * `from_issues`: the graph holds an edge for exactly the dependencies whose
   * target is in the snapshot, from the owner's node to the target's node.
   */
  lemma GraphEdges(issues: seq<Issue>)
    ensures var g := BuildGraph(issues);
      forall e :: e in g.edges <==> exists i, d | 0 <= i < |issues| && 0 <= d :: EdgeFor(issues, g.nodeMap, i, d, e)
  {
    NodeMapFacts(issues);
    EdgesOfMembers(issues, NodeMapOf(issues), |issues|);
  }

  /** `IssueGraph::from_issues`: add every node, then every edge whose target is a node. */
  method FromIssues(issues: seq<Issue>) returns (g: IssueGraph)
    ensures g == BuildGraph(issues)
  {
    var nodes, nodeMap := AddNodes(issues);
    NodeMapFacts(issues);
    var edges := AddEdges(issues, nodeMap);
    g := IssueGraph(nodes, edges, nodeMap);
  }

  /** The first loop: a node per issue, and its id in `node_map`. */
  method AddNodes(issues: seq<Issue>) returns (nodes: seq<string>, nodeMap: map<string, nat>)
    ensures nodes == Ids(issues) && nodeMap == NodeMapOf(issues)
  {
    nodes := [];
    nodeMap := map[];
    var i := 0;
    while i < |issues|
      invariant 0 <= i <= |issues|
      invariant nodes == Ids(issues[..i]) && nodeMap == NodeMapOf(issues[..i])
    {
      assert issues[..i + 1][..i] == issues[..i];
      nodes := nodes + [issues[i].id];
      nodeMap := nodeMap[issues[i].id := i];
      i := i + 1;
    }
    assert issues[..i] == issues;
  }

  /** The second loop: for each issue, an edge per dependency whose target is a node. */
  method AddEdges(issues: seq<Issue>, nodeMap: map<string, nat>) returns (edges: seq<Edge>)
    requires forall i | 0 <= i < |issues| :: issues[i].id in nodeMap
    ensures edges == EdgesOf(issues, nodeMap, |issues|)
  {
    edges := [];
    var i := 0;
    while i < |issues|
      invariant 0 <= i <= |issues|
      invariant edges == EdgesOf(issues, nodeMap, i)
    {
      // the lookup of the issue's own id always succeeds
      var from := nodeMap[issues[i].id];
      edges := AddDepEdges(edges, from, issues[i].dependencies, nodeMap);
      i := i + 1;
    }
  }

  /** The inner loop over one issue's dependencies. */
  method AddDepEdges(edges: seq<Edge>, from: nat, deps: seq<Dependency>, nodeMap: map<string, nat>)
    returns (r: seq<Edge>)
    ensures r == edges + DepEdges(from, deps, nodeMap)
  {
    r := edges;
    var d := 0;
    while d < |deps|
      invariant 0 <= d <= |deps|
      invariant r == edges + DepEdges(from, deps[..d], nodeMap)
    {
      assert deps[..d + 1][..d] == deps[..d];
      if deps[d].dependsOnId in nodeMap {
        r := r + [Edge(from, nodeMap[deps[d].dependsOnId], deps[d].depType)];
      }
      d := d + 1;
    }
    assert deps[..d] == deps;
  }

  // ---------------------------------------------------------------------------
  // Neighbours

  /**
   * The ids of the sources of the edges into node `idx` among the first `k`
   * edges, newest edge first (petgraph lists neighbours in reverse order of
   * edge insertion).
   */
  function Incoming(g: IssueGraph, idx: nat, k: nat): (r: seq<string>)
    requires WellFormed(g) && k <= |g.edges|
    ensures forall x :: x in r <==>
      exists j | 0 <= j < k :: g.edges[j].target == idx && g.nodes[g.edges[j].source] == x
  {
    if k == 0 then []
    else
      var e := g.edges[k - 1];
      (if e.target == idx then [g.nodes[e.source]] else []) + Incoming(g, idx, k - 1)
  }

  /** The ids of the targets of the edges out of node `idx` among the first `k` edges, newest first. */
  function Outgoing(g: IssueGraph, idx: nat, k: nat): (r: seq<string>)
    requires WellFormed(g) && k <= |g.edges|
    ensures forall x :: x in r <==>
      exists j | 0 <= j < k :: g.edges[j].source == idx && g.nodes[g.edges[j].target] == x
  {
    if k == 0 then []
    else
      var e := g.edges[k - 1];
      (if e.source == idx then [g.nodes[e.target]] else []) + Outgoing(g, idx, k - 1)
  }

  /** `blocked_by`: the ids with an edge into the node of `id`; none for an id that is not a node. */
  function BlockedBy(g: IssueGraph, id: string): (r: seq<string>)
    requires WellFormed(g)
    ensures id !in g.nodeMap ==> r == []
  {
    if id in g.nodeMap then Incoming(g, g.nodeMap[id], |g.edges|) else []
  }

  /** `blocking`: the ids the node of `id` has an edge to; none for an id that is not a node. */
  function Blocking(g: IssueGraph, id: string): (r: seq<string>)
    requires WellFormed(g)
    ensures id !in g.nodeMap ==> r == []
  {
    if id in g.nodeMap then Outgoing(g, g.nodeMap[id], |g.edges|) else []
  }

  /** Issue `i` of the snapshot has dependency `d` on `target`. */
  predicate DependsOn(issues: seq<Issue>, i: nat, d: nat, target: string)
  {
    i < |issues| && d < |issues[i].dependencies| && issues[i].dependencies[d].dependsOnId == target
  }

  /** Issue `x` of the snapshot has a dependency on `target`. */
  predicate HasDependent(issues: seq<Issue>, x: string, target: string)
  {
    exists i, d | 0 <= i < |issues| && 0 <= d < |issues[i].dependencies| :: issues[i].id == x && DependsOn(issues, i, d, target)
  }

  /** The edge into a node of the snapshot's graph comes from a dependency on that node's id. */
  lemma EdgeIsDependency(issues: seq<Issue>, e: Edge)
    requires e in BuildGraph(issues).edges
    ensures var g := BuildGraph(issues);
      e.source < |issues| && e.target < |issues| && HasDependent(issues, g.nodes[e.source], g.nodes[e.target])
  {
    GraphEdges(issues);
    NodeMapFacts(issues);
    var nm := NodeMapOf(issues);
    var i, d :| 0 <= i < |issues| && 0 <= d && EdgeFor(issues, nm, i, d, e);
    var dep := issues[i].dependencies[d];
    assert issues[nm[dep.dependsOnId]].id == dep.dependsOnId;
    assert issues[nm[issues[i].id]].id == issues[i].id;
    assert DependsOn(issues, i, d, dep.dependsOnId);
  }

  /** A dependency between two issues of the snapshot is an edge between their nodes. */
  lemma DependencyIsEdge(issues: seq<Issue>, x: string, target: string)
    requires HasDependent(issues, x, target) && target in Ids(issues)
    ensures var g := BuildGraph(issues);
      x in g.nodeMap && target in g.nodeMap
      && exists j | 0 <= j < |g.edges| :: g.edges[j].source == g.nodeMap[x] && g.edges[j].target == g.nodeMap[target]
  {
    GraphEdges(issues);
    NodeMapFacts(issues);
    var g := BuildGraph(issues);
    var nm := g.nodeMap;
    var i, d :| 0 <= i < |issues| && 0 <= d < |issues[i].dependencies| && issues[i].id == x && DependsOn(issues, i, d, target);
    assert x in Ids(issues);
    var e := Edge(nm[x], nm[target], issues[i].dependencies[d].depType);
    assert EdgeFor(issues, nm, i, d, e);
    assert e in g.edges;
    var j :| 0 <= j < |g.edges| && g.edges[j] == e;
  }

  /**
   * On the graph of a snapshot, `blocked_by(id)` lists exactly the issues
   * with a dependency on `id`, provided `id` is in the snapshot: one hop,
   * of any dependency type.
   */
  lemma BlockedByDependents(issues: seq<Issue>, id: string, x: string)
    ensures x in BlockedBy(BuildGraph(issues), id) <==> id in Ids(issues) && HasDependent(issues, x, id)
  {
    NodeMapFacts(issues);
    var g := BuildGraph(issues);
    if x in BlockedBy(g, id) {
      var j :| 0 <= j < |g.edges| && g.edges[j].target == g.nodeMap[id] && g.nodes[g.edges[j].source] == x;
      EdgeIsDependency(issues, g.edges[j]);
    }
    if id in Ids(issues) && HasDependent(issues, x, id) {
      DependencyIsEdge(issues, x, id);
      assert g.nodes[g.nodeMap[x]] == x;
    }
  }

  /**
   * On the graph of a snapshot, `blocking(id)` lists exactly the targets in
   * the snapshot of the dependencies of the issue `id`.
   */
  lemma BlockingTargets(issues: seq<Issue>, id: string, x: string)
    ensures x in Blocking(BuildGraph(issues), id) <==> x in Ids(issues) && HasDependent(issues, id, x)
  {
    NodeMapFacts(issues);
    var g := BuildGraph(issues);
    if x in Blocking(g, id) {
      var j :| 0 <= j < |g.edges| && g.edges[j].source == g.nodeMap[id] && g.nodes[g.edges[j].target] == x;
      EdgeIsDependency(issues, g.edges[j]);
    }
    if x in Ids(issues) && HasDependent(issues, id, x) {
      DependencyIsEdge(issues, id, x);
      assert g.nodes[g.nodeMap[x]] == x;
    }
  }

  // ---------------------------------------------------------------------------
  // Ready work

  /** The filter of `ready_issues`: open, and no `Blocks` dependency on an open issue of `all`. */
  predicate IsReady(x: Issue, all: seq<Issue>)
  {
    IsOpen(x.status) && !IsBlockedBy(x, all)
  }

  /** The ready issues of `xs`, in order, judged against the snapshot `all`. */
  function ReadyAmong(xs: seq<Issue>, all: seq<Issue>): (r: seq<Issue>)
    ensures |r| <= |xs|
    ensures forall x :: x in r <==> x in xs && IsReady(x, all)
  {
    if xs == [] then []
    else (if IsReady(xs[0], all) then [xs[0]] else []) + ReadyAmong(xs[1..], all)
  }

  /** `ready_issues`: the ready issues of the snapshot, in snapshot order. */
  function ReadyIssues(issues: seq<Issue>): (r: seq<Issue>)
    ensures forall x :: x in r <==> x in issues && IsReady(x, issues)
  {
    ReadyAmong(issues, issues)
  }

  /** The filter keeps order: it works piece by piece. */
  lemma {:induction false} ReadyAmongConcat(a: seq<Issue>, b: seq<Issue>, all: seq<Issue>)
    ensures ReadyAmong(a + b, all) == ReadyAmong(a, all) + ReadyAmong(b, all)
  {
    if a == [] {
      assert a + b == b;
    } else {
      var head := if IsReady(a[0], all) then [a[0]] else [];
      var ab := a + b;
      assert ab[0] == a[0] && ab[1..] == a[1..] + b;
      ReadyAmongConcat(a[1..], b, all);
      assert ReadyAmong(ab, all) == head + ReadyAmong(a[1..] + b, all);
      assert ReadyAmong(a, all) == head + ReadyAmong(a[1..], all);
    }
  }


  /** A `ParentChild` or `Related` dependency never changes readiness. */
  lemma ReadyIgnoresOtherKinds(x: Issue, all: seq<Issue>, target: string, depType: DependencyType, now: Timestamp)
    requires depType != Blocks
    ensures IsReady(AddDependency(x, target, depType, now), all) == IsReady(x, all)
  {
    var y := AddDependency(x, target, depType, now);
    if IsBlockedBy(y, all) {
      var k :| 0 <= k < |y.dependencies| && y.dependencies[k].depType == Blocks
               && OpenIn(all, y.dependencies[k].dependsOnId);
      assert x.dependencies[k] == y.dependencies[k];
    }
    if IsBlockedBy(x, all) {
      var k :| 0 <= k < |x.dependencies| && x.dependencies[k].depType == Blocks
               && OpenIn(all, x.dependencies[k].dependsOnId);
      assert y.dependencies[k] == x.dependencies[k];
    }
  }

  /** A `Blocks` dependency on an open issue of the snapshot makes an issue not ready. */
  lemma BlocksOnOpenNotReady(x: Issue, all: seq<Issue>, target: string, now: Timestamp)
    requires OpenIn(all, target)
    ensures !IsReady(AddDependency(x, target, Blocks, now), all)
  {
    var y := AddDependency(x, target, Blocks, now);
    assert y.dependencies[|x.dependencies|].dependsOnId == target;
  }

  /**
   * The unit test of `ready_issues`: with two new issues, the second given a
   * `Blocks` dependency on the first, only the first is ready.
   */
  lemma ReadyExample(id1: string, id2: string, now: Timestamp)
    ensures var first := New(id1, "First", now);
      var second := AddDependency(New(id2, "Second", now), id1, Blocks, now);
      ReadyIssues([first, second]) == [first]
  {
    var first := New(id1, "First", now);
    var second := AddDependency(New(id2, "Second", now), id1, Blocks, now);
    var xs := [first, second];
    assert OpenIn(xs, id1) by { assert xs[0].id == id1; }
    BlocksOnOpenNotReady(New(id2, "Second", now), xs, id1, now);
    assert IsReady(first, xs);
    assert ReadyAmong(xs[1..], xs) == [] by { assert xs[1..][1..] == []; }
  }

  // ---------------------------------------------------------------------------
  // Cycles and topological order

  /** The graph has an edge `a -> b`. */
  predicate HasEdge(g: IssueGraph, a: nat, b: nat)
  {
    exists k | 0 <= k < |g.edges| :: g.edges[k].source == a && g.edges[k].target == b
  }

  /** A walk along edges, of at least one edge. */
  predicate IsPath(g: IssueGraph, p: seq<nat>)
  {
    |p| >= 2 && forall k | 0 <= k < |p| - 1 :: HasEdge(g, p[k], p[k + 1])
  }

  /** A walk that returns to where it started; a self-loop is one. */
  predicate IsCycle(g: IssueGraph, p: seq<nat>)
  {
    IsPath(g, p) && p[0] == p[|p| - 1]
  }

  ghost predicate HasCycle(g: IssueGraph)
  {
    exists p :: IsCycle(g, p)
  }

  ghost predicate Reaches(g: IssueGraph, a: nat, b: nat)
  {
    exists p :: IsPath(g, p) && p[0] == a && p[|p| - 1] == b
  }

  predicate Distinct(s: seq<nat>)
  {
    forall i, j | 0 <= i < j < |s| :: s[i] != s[j]
  }

  /** Every edge between two entries of `order` goes forward. */
  predicate Forward(g: IssueGraph, order: seq<nat>)
  {
    forall i, j | 0 <= i < |order| && 0 <= j < |order| && HasEdge(g, order[i], order[j]) :: i < j
  }

  /** `order` is a permutation of the nodes in which every edge goes forward. */
  predicate TopoOrder(g: IssueGraph, order: seq<nat>)
  {
    |order| == |g.nodes| && Distinct(order)
    && (forall k | 0 <= k < |order| :: order[k] < |g.nodes|)
    && (forall x | 0 <= x < |g.nodes| :: x in order)
    && Forward(g, order)
  }

  /** The node indices below `n`. */
  function Range(n: nat): (r: set<nat>)
    ensures forall x :: x in r <==> 0 <= x < n
  {
    if n == 0 then {} else Range(n - 1) + {n - 1}
  }

  lemma {:induction false} RangeCard(n: nat)
    ensures |Range(n)| == n
  {
    if n > 0 {
      RangeCard(n - 1);
    }
  }

  lemma {:induction false} SubsetCard(a: set<nat>, b: set<nat>)
    requires a <= b
    ensures |a| <= |b|
    decreases |b|
  {
    if a != {} {
      var x :| x in a;
      SubsetCard(a - {x}, b - {x});
    }
  }

  function Elements(s: seq<nat>): set<nat>
  {
    set x | x in s
  }

  lemma {:induction false} DistinctCard(s: seq<nat>)
    requires Distinct(s)
    ensures |Elements(s)| == |s|
  {
    if s != [] {
      var front := s[..|s| - 1];
      assert Distinct(front);
      DistinctCard(front);
      assert Elements(s) == Elements(front) + {s[|s| - 1]};
      assert s[|s| - 1] !in Elements(front);
    }
  }

  /** Fewer than `n` distinct nodes below `n` leave a node out. */
  lemma Missing(s: seq<nat>, n: nat)
    requires Distinct(s) && |s| < n && forall k | 0 <= k < |s| :: s[k] < n
    ensures exists y | 0 <= y < n :: y !in s
  {
    if forall y | 0 <= y < n :: y in s {
      RangeCard(n);
      DistinctCard(s);
      SubsetCard(Range(n), Elements(s));
    }
  }

  /** `n` distinct nodes below `n` are all of them. */
  lemma Covers(s: seq<nat>, n: nat)
    requires Distinct(s) && |s| == n && forall k | 0 <= k < |s| :: s[k] < n
    ensures forall y | 0 <= y < n :: y in s
  {
    forall y | 0 <= y < n
      ensures y in s
    {
      if y !in s {
        RangeCard(n);
        DistinctCard(s);
        SubsetCard(Elements(s), Range(n) - {y});
      }
    }
  }

  /** More than `n` entries below `n` repeat one. */
  lemma Repeats(w: seq<nat>, n: nat)
    requires |w| > n && forall k | 0 <= k < |w| :: w[k] < n
    ensures exists i, j | 0 <= i < j < |w| :: w[i] == w[j]
  {
    if Distinct(w) {
      RangeCard(n);
      DistinctCard(w);
      SubsetCard(Elements(w), Range(n));
    }
  }

  /** The position of `x` in `order`. */
  function IndexOf(order: seq<nat>, x: nat): (r: nat)
    requires x in order
    ensures r < |order| && order[r] == x
  {
    if order[0] == x then 0 else 1 + IndexOf(order[1..], x)
  }

  /** Along a path, positions in a forward order only grow. */
  lemma {:induction false} PathGoesForward(g: IssueGraph, order: seq<nat>, p: seq<nat>, m: nat)
    requires WellFormed(g) && TopoOrder(g, order) && IsPath(g, p) && 1 <= m < |p|
    ensures p[0] in order && p[m] in order && IndexOf(order, p[0]) < IndexOf(order, p[m])
  {
    assert HasEdge(g, p[m - 1], p[(m - 1) + 1]);
    var e :| 0 <= e < |g.edges| && g.edges[e].source == p[m - 1] && g.edges[e].target == p[m];
    assert p[m - 1] in order && p[m] in order;
    var i, j := IndexOf(order, p[m - 1]), IndexOf(order, p[m]);
    assert HasEdge(g, order[i], order[j]);
    if m > 1 {
      PathGoesForward(g, order, p, m - 1);
    }
  }

  /** A graph with a topological order has no cycle. */
  lemma OrderedHasNoCycle(g: IssueGraph, order: seq<nat>)
    requires WellFormed(g) && TopoOrder(g, order)
    ensures !HasCycle(g)
  {
    if HasCycle(g) {
      var p :| IsCycle(g, p);
      PathGoesForward(g, order, p, |p| - 1);
    }
  }

  /** Node `y` has an edge into it from a node not yet in `order`. */
  predicate Pending(g: IssueGraph, order: seq<nat>, y: nat)
  {
    exists k | 0 <= k < |g.edges| :: g.edges[k].target == y && g.edges[k].source !in order
  }

  /** Walking edges backwards from `y` through nodes that are all pending, `len` steps. */
  lemma {:induction false} BackWalk(g: IssueGraph, order: seq<nat>, y: nat, len: nat) returns (w: seq<nat>)
    requires WellFormed(g) && y < |g.nodes| && y !in order
    requires forall z | 0 <= z < |g.nodes| && z !in order :: Pending(g, order, z)
    ensures |w| == len + 1 && w[0] == y
    ensures forall k | 0 <= k < |w| :: w[k] < |g.nodes| && w[k] !in order
    ensures forall k | 0 <= k < len :: HasEdge(g, w[k + 1], w[k])
  {
    if len == 0 {
      w := [y];
    } else {
      var v := BackWalk(g, order, y, len - 1);
      var last := v[len - 1];
      var e :| 0 <= e < |g.edges| && g.edges[e].target == last && g.edges[e].source !in order;
      w := v + [g.edges[e].source];
      assert HasEdge(g, w[len], w[len - 1]);
    }
  }

  /** When every node not yet ordered is pending, the graph has a cycle. */
  lemma StuckMeansCycle(g: IssueGraph, order: seq<nat>, y: nat)
    requires WellFormed(g) && y < |g.nodes| && y !in order
    requires forall z | 0 <= z < |g.nodes| && z !in order :: Pending(g, order, z)
    ensures HasCycle(g)
  {
    var n := |g.nodes|;
    var w := BackWalk(g, order, y, n);
    Repeats(w, n);
    var i, j :| 0 <= i < j < |w| && w[i] == w[j];
    ClosedBackWalk(g, w, i, j);
  }

  /** A backward walk that comes back to a node it passed, read forwards, is a cycle. */
  lemma ClosedBackWalk(g: IssueGraph, w: seq<nat>, i: nat, j: nat)
    requires i < j < |w| && w[i] == w[j]
    requires forall k | 0 <= k < |w| - 1 :: HasEdge(g, w[k + 1], w[k])
    ensures HasCycle(g)
  {
    var p := seq(j - i + 1, k requires 0 <= k <= j - i => w[j - k]);
    forall k | 0 <= k < |p| - 1
      ensures HasEdge(g, p[k], p[k + 1])
    {
      var m := j - k - 1;
      assert p[k] == w[m + 1] && p[k + 1] == w[m];
    }
    assert IsCycle(g, p);
  }

  /** Adding a node none of whose incoming edges is pending keeps the order forward and closed. */
  lemma AppendKeeps(g: IssueGraph, order: seq<nat>, x: nat)
    requires Forward(g, order) && x !in order && !Pending(g, order, x)
    requires forall k | 0 <= k < |g.edges| && g.edges[k].target in order :: g.edges[k].source in order
    ensures Forward(g, order + [x])
    ensures forall k | 0 <= k < |g.edges| && g.edges[k].target in order + [x] :: g.edges[k].source in order + [x]
  {
    var o := order + [x];
    // no edge leaves `x` for a node of `o`
    assert forall k | 0 <= k < |g.edges| && g.edges[k].source == x :: g.edges[k].target !in o;
    forall i, j | 0 <= i < |o| && 0 <= j < |o| && HasEdge(g, o[i], o[j])
      ensures i < j
    {
      var e :| 0 <= e < |g.edges| && g.edges[e].source == o[i] && g.edges[e].target == o[j];
      if i < |order| && j < |order| {
        assert HasEdge(g, order[i], order[j]);
      }
    }
  }

  /** Whether some edge into `y` comes from a node not yet in `order`. */
  method PendingNode(g: IssueGraph, order: seq<nat>, y: nat) returns (b: bool)
    ensures b <==> Pending(g, order, y)
  {
    var k := 0;
    while k < |g.edges|
      invariant 0 <= k <= |g.edges|
      invariant forall j | 0 <= j < k :: !(g.edges[j].target == y && g.edges[j].source !in order)
    {
      if g.edges[k].target == y && g.edges[k].source !in order {
        return true;
      }
      k := k + 1;
    }
    return false;
  }

  /** The first node, if any, not yet in `order` with no pending incoming edge. */
  method FindSource(g: IssueGraph, order: seq<nat>) returns (x: Option<nat>)
    ensures x.Some? ==> x.value < |g.nodes| && x.value !in order && !Pending(g, order, x.value)
    ensures x.None? ==> forall y | 0 <= y < |g.nodes| && y !in order :: Pending(g, order, y)
  {
    var y := 0;
    while y < |g.nodes|
      invariant 0 <= y <= |g.nodes|
      invariant forall z | 0 <= z < y && z !in order :: Pending(g, order, z)
    {
      if y !in order {
        var pending := PendingNode(g, order, y);
        if !pending {
          return Some(y);
        }
      }
      y := y + 1;
    }
    return None;
  }

  /**
   * The topological sort `topological_order` relies on: a permutation of the
   * nodes with every edge forward, or nothing when the graph has a cycle.
   */
  method Toposort(g: IssueGraph) returns (r: Option<seq<nat>>)
    requires WellFormed(g)
    ensures r.Some? ==> TopoOrder(g, r.value)
    ensures r.None? ==> HasCycle(g)
  {
    var n := |g.nodes|;
    var order: seq<nat> := [];
    while |order| < n
      invariant |order| <= n && Distinct(order)
      invariant forall k | 0 <= k < |order| :: order[k] < n
      invariant Forward(g, order)
      invariant forall k | 0 <= k < |g.edges| && g.edges[k].target in order :: g.edges[k].source in order
      decreases n - |order|
    {
      var x := FindSource(g, order);
      if x.None? {
        Missing(order, n);
        var y :| 0 <= y < n && y !in order;
        StuckMeansCycle(g, order, y);
        return None;
      }
      AppendKeeps(g, order, x.value);
      order := order + [x.value];
    }
    Covers(order, n);
    return Some(order);
  }

  /** `has_cycles`: whether some walk returns to its start. */
  method HasCycles(g: IssueGraph) returns (b: bool)
    requires WellFormed(g)
    ensures b <==> HasCycle(g)
  {
    var r := Toposort(g);
    if r.Some? {
      OrderedHasNoCycle(g, r.value);
    }
    b := r.None?;
  }

  /** The ids of the nodes in `order`. */
  function NodeIds(g: IssueGraph, order: seq<nat>): (r: seq<string>)
    requires forall k | 0 <= k < |order| :: order[k] < |g.nodes|
    ensures |r| == |order| && forall k | 0 <= k < |order| :: r[k] == g.nodes[order[k]]
  {
    seq(|order|, k requires 0 <= k < |order| => g.nodes[order[k]])
  }

  /** `topological_order`: `None` exactly when the graph has a cycle, otherwise the ids in a topological order. */
  method TopologicalOrder(g: IssueGraph) returns (r: Option<seq<string>>)
    requires WellFormed(g)
    ensures r.None? <==> HasCycle(g)
    ensures r.Some? ==> exists order :: TopoOrder(g, order) && r.value == NodeIds(g, order)
  {
    var order := Toposort(g);
    match order
    case None =>
      r := None;
    case Some(o) =>
      OrderedHasNoCycle(g, o);
      r := Some(NodeIds(g, o));
  }

  // ---------------------------------------------------------------------------
  // Strongly connected components

  /** The strongly connected component of node `x`. */
  ghost function Component(g: IssueGraph, x: nat): set<nat>
  {
    set y | 0 <= y < |g.nodes| && (y == x || (Reaches(g, x, y) && Reaches(g, y, x)))
  }

  /**
   * `find_cycles`: the strongly connected components with more than one node,
   * and the single nodes with a self-loop.
   */
  ghost function FindCycles(g: IssueGraph): set<set<nat>>
  {
    set x | 0 <= x < |g.nodes| && (|Component(g, x)| > 1 || HasEdge(g, x, x)) :: Component(g, x)
  }

  /** Two paths that meet join into one. */
  lemma PathJoin(g: IssueGraph, p: seq<nat>, q: seq<nat>)
    requires IsPath(g, p) && IsPath(g, q) && p[|p| - 1] == q[0]
    ensures IsPath(g, p + q[1..])
  {
    var r := p + q[1..];
    forall k | 0 <= k < |r| - 1
      ensures HasEdge(g, r[k], r[k + 1])
    {
      if k < |p| - 1 {
        assert r[k] == p[k] && r[k + 1] == p[k + 1];
      } else {
        var m := k - |p| + 1;
        assert r[k] == q[m] && r[k + 1] == q[m + 1];
      }
    }
  }

  /** A cycle puts its first node in a component `find_cycles` reports. */
  lemma CycleIsReported(g: IssueGraph, p: seq<nat>)
    requires WellFormed(g) && IsCycle(g, p)
    ensures FindCycles(g) != {}
  {
    var x := p[0];
    assert HasEdge(g, p[0], p[0 + 1]);
    var e :| 0 <= e < |g.edges| && g.edges[e].source == p[0] && g.edges[e].target == p[1];
    if p[1] == x {
      assert Component(g, x) in FindCycles(g);
    } else {
      var y := p[1];
      assert IsPath(g, [x, y]);
      assert IsPath(g, p[1..]) by {
        forall k | 0 <= k < |p[1..]| - 1
          ensures HasEdge(g, p[1..][k], p[1..][k + 1])
        {
          assert p[1..][k] == p[k + 1] && p[1..][k + 1] == p[(k + 1) + 1];
        }
      }
      assert Reaches(g, x, y) && Reaches(g, y, x);
      assert {x, y} <= Component(g, x);
      SubsetCard({x, y}, Component(g, x));
      assert Component(g, x) in FindCycles(g);
    }
  }

  /** A reported component holds a cycle. */
  lemma ReportedHasCycle(g: IssueGraph, x: nat)
    requires |Component(g, x)| > 1 || HasEdge(g, x, x)
    ensures HasCycle(g)
  {
    if HasEdge(g, x, x) {
      assert IsCycle(g, [x, x]);
    } else {
      if forall y | y in Component(g, x) :: y == x {
        SubsetCard(Component(g, x), {x});
      }
      var y :| y in Component(g, x) && y != x;
      var p :| IsPath(g, p) && p[0] == x && p[|p| - 1] == y;
      var q :| IsPath(g, q) && q[0] == y && q[|q| - 1] == x;
      PathJoin(g, p, q);
      assert IsCycle(g, p + q[1..]);
    }
  }

  /** `find_cycles` reports nothing exactly when `has_cycles` is false. */
  lemma FindCyclesIffCycle(g: IssueGraph)
    requires WellFormed(g)
    ensures FindCycles(g) == {} <==> !HasCycle(g)
  {
    if HasCycle(g) {
      var p :| IsCycle(g, p);
      CycleIsReported(g, p);
    }
    if FindCycles(g) != {} {
      var c :| c in FindCycles(g);
      var x :| 0 <= x < |g.nodes| && (|Component(g, x)| > 1 || HasEdge(g, x, x)) && c == Component(g, x);
      ReportedHasCycle(g, x);
    }
  }
}
