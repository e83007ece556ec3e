/** `topological_sort_branches`: Kahn's algorithm over the configured parents. */
module TopoSort {
  import opened Wrappers
  import opened Chains
  import opened Branches
  import opened Names

  datatype SortOutcome =
    | Sorted(order: seq<Branch>, graph: map<Branch, Option<Branch>>)
    | CycleDetected(remaining: set<Branch>)

  ghost function Nodes(g: map<Branch, Branch>): set<Branch> {
    g.Keys + g.Values
  }

  /** Both ends of every parent link are among `nodes`. */
  ghost predicate ParentsAmong(g: map<Branch, Branch>, nodes: set<Branch>) {
    (forall b :: b in g ==> b in nodes) &&
    forall b {:trigger g[b] in nodes} :: b in g ==> g[b] in nodes
  }

  /** `graph` records the parent of every local node, or None for a local root that has children. */
  ghost predicate Records(
      config: map<Branch, string>, locals: seq<Branch>, graph: map<Branch, Option<Branch>>)
  {
    graph.Keys == (set b | b in locals && b in Nodes(ParentGraph(config, locals))) &&
    forall b :: b in graph ==> graph[b] == BranchParent(config, b)
  }

  lemma RecordsEdges(config: map<Branch, string>, locals: seq<Branch>, graph: map<Branch, Option<Branch>>)
    requires Records(config, locals, graph)
    ensures forall b :: b in ParentGraph(config, locals) ==>
              b in graph && graph[b] == Some(ParentGraph(config, locals)[b])
    ensures forall b :: b in graph && graph[b].Some? ==> b in ParentGraph(config, locals)
  {
  }

  /** No branch comes before its parent. */
  ghost predicate ParentsBefore(g: map<Branch, Branch>, order: seq<Branch>) {
    forall i {:trigger order[..i]} :: 0 <= i < |order| && order[i] in g ==> g[order[i]] in order[..i]
  }

  method BuildGraph(config: map<Branch, string>, locals: seq<Branch>)
    returns (graph: map<Branch, Option<Branch>>, nodes: set<Branch>)
    ensures Records(config, locals, graph)
    ensures nodes == Nodes(ParentGraph(config, locals))
  {
    ghost var g := ParentGraph(config, locals);
    graph, nodes := map[], {};
    for i := 0 to |locals|
      invariant forall b :: b in graph <==> b in locals[..i] && b in Nodes(g)
      invariant forall b :: b in graph ==> graph[b] == BranchParent(config, b)
      invariant forall b :: b in locals[..i] && b in g ==> b in nodes && g[b] in nodes
      invariant nodes <= Nodes(g)
    {
      var branch := locals[i];
      assert locals[..i + 1] == locals[..i] + [branch];
      var parent := BranchParent(config, branch);
      if parent.Some? {
        assert branch in g;
        assert parent.value in g.Values;
        graph := graph[branch := parent];
        nodes := nodes + {branch, parent.value};
      } else if exists b :: b in locals && BranchParent(config, b) == Some(branch) {
        ghost var b :| b in locals && BranchParent(config, b) == Some(branch);
        assert b in g && g[b] in g.Values;
        graph := graph[branch := None];
        nodes := nodes + {branch};
      }
    }
    assert locals[..|locals|] == locals;
  }

  /** `adj` lists the children of every node, and `inDegree` counts its parents. */
  ghost predicate Counts(
      g: map<Branch, Branch>, nodes: set<Branch>, S: set<Branch>, inDegree: map<Branch, int>,
      adj: map<Branch, seq<Branch>>)
  {
    inDegree.Keys == nodes && adj.Keys == nodes &&
    (forall p :: p in adj ==> Distinct(adj[p]) && forall c :: c in adj[p] <==> c in S && c in g && g[c] == p) &&
    forall n :: n in nodes ==> inDegree[n] == if n in S && n in g then 1 else 0
  }

  lemma CountsAdd(
      g: map<Branch, Branch>, nodes: set<Branch>, S: set<Branch>, inDegree: map<Branch, int>,
      adj: map<Branch, seq<Branch>>, child: Branch)
    requires Counts(g, nodes, S, inDegree, adj) && child !in S
    requires child in g ==> child in nodes && g[child] in nodes
    ensures child !in g ==> Counts(g, nodes, S + {child}, inDegree, adj)
    ensures child in g ==>
              Counts(g, nodes, S + {child}, inDegree[child := inDegree[child] + 1],
                     adj[g[child] := adj[g[child]] + [child]])
  {
    if child in g {
      var longer := adj[g[child]] + [child];
      assert forall x :: x in longer <==> x in adj[g[child]] || x == child;
      assert child !in adj[g[child]];
    }
  }

  method BuildCounts(ghost g: map<Branch, Branch>, graph: map<Branch, Option<Branch>>, nodes: set<Branch>)
    returns (inDegree: map<Branch, int>, adj: map<Branch, seq<Branch>>)
    requires ParentsAmong(g, nodes)
    requires forall b :: b in g ==> b in graph && graph[b] == Some(g[b])
    requires forall b :: b in graph && graph[b].Some? ==> b in g
    ensures Counts(g, nodes, g.Keys, inDegree, adj)
  {
    inDegree := map n | n in nodes :: 0;
    adj := map n | n in nodes :: [];
    var todo := graph.Keys;
    while todo != {}
      invariant todo <= graph.Keys
      invariant Counts(g, nodes, graph.Keys - todo, inDegree, adj)
    {
      var child :| child in todo;
      var parent := graph[child];
      CountsAdd(g, nodes, graph.Keys - todo, inDegree, adj, child);
      assert graph.Keys - todo + {child} == graph.Keys - (todo - {child});
      todo := todo - {child};
      if parent.Some? && parent.value in adj {
        adj := adj[parent.value := adj[parent.value] + [child]];
        inDegree := inDegree[child := inDegree[child] + 1];
      }
    }
    CountsOfEdges(g, nodes, graph.Keys, inDegree, adj);
  }

  /** Branches recorded without a parent count for nothing. */
  lemma CountsOfEdges(
      g: map<Branch, Branch>, nodes: set<Branch>, S: set<Branch>, inDegree: map<Branch, int>,
      adj: map<Branch, seq<Branch>>)
    requires Counts(g, nodes, S, inDegree, adj) && g.Keys <= S
    ensures Counts(g, nodes, g.Keys, inDegree, adj)
  {
  }

  /**
   * The state of Kahn's algorithm: `order` is out, `queue` is ready, and only the edges from `order`
   * have been taken away, except those to `pending`.
   */
  ghost predicate Kahn(
      g: map<Branch, Branch>, nodes: set<Branch>, inDegree: map<Branch, int>, order: seq<Branch>, queue: seq<Branch>,
      pending: set<Branch>)
  {
    inDegree.Keys == nodes && Distinct(order + queue) &&
    (forall b :: b in order || b in queue ==> b in nodes) &&
    (forall n :: n in nodes ==>
       inDegree[n] == if n in g && (g[n] !in order || n in pending) then 1 else 0) &&
    forall n :: n in nodes ==> (inDegree[n] == 0 <==> n in order || n in queue)
  }

  lemma KahnStart(
      g: map<Branch, Branch>, nodes: set<Branch>, inDegree: map<Branch, int>, adj: map<Branch, seq<Branch>>,
      queue: seq<Branch>)
    requires Counts(g, nodes, g.Keys, inDegree, adj)
    requires Distinct(queue) && forall n :: n in queue <==> n in nodes && inDegree[n] == 0
    ensures Kahn(g, nodes, inDegree, [], queue, {})
  {
    assert [] + queue == queue;
  }

  lemma KahnPop(
      g: map<Branch, Branch>, nodes: set<Branch>, inDegree: map<Branch, int>, order: seq<Branch>,
      queue: seq<Branch>, pending: set<Branch>)
    requires queue != [] && Kahn(g, nodes, inDegree, order, queue, {}) && ParentsBefore(g, order)
    requires pending == set c | c in g && g[c] == queue[0]
    ensures Kahn(g, nodes, inDegree, order + [queue[0]], queue[1..], pending)
    ensures ParentsBefore(g, order + [queue[0]])
    ensures queue[0] in nodes && queue[0] !in order && |order| < |nodes|
  {
    var longer := order + [queue[0]];
    assert longer + queue[1..] == order + queue;
    assert queue[0] !in order by {
      assert (order + queue)[|order|] == queue[0];
      assert forall i :: 0 <= i < |order| ==> (order + queue)[i] == order[i];
    }
    assert queue[0] in g ==> g[queue[0]] in order;
    assert Distinct(order) by {
      assert forall i :: 0 <= i < |order| ==> (order + queue)[i] == order[i];
    }
    DistinctSize(order);
    SubsetSize(Members(order), nodes - {queue[0]});
    forall i | 0 <= i < |longer| && longer[i] in g ensures g[longer[i]] in longer[..i] {
      if i < |order| {
        assert longer[..i] == order[..i];
      } else {
        assert longer[..i] == order;
      }
    }
  }

  lemma KahnRelease(
      g: map<Branch, Branch>, nodes: set<Branch>, inDegree: map<Branch, int>, order: seq<Branch>, queue: seq<Branch>,
      pending: set<Branch>, child: Branch)
    requires Kahn(g, nodes, inDegree, order, queue, pending)
    requires child in pending && child in g && g[child] in order && child in nodes
    ensures inDegree[child] == 1
    ensures Kahn(g, nodes, inDegree[child := 0], order, queue + [child], pending - {child})
  {
    assert order + (queue + [child]) == (order + queue) + [child];
  }

  /** The body of the loop: take away the edges from `parent`, queueing the children set free. */
  method ReleaseChildren(
      ghost g: map<Branch, Branch>, ghost nodes: set<Branch>, parent: Branch, children: seq<Branch>,
      inDegree0: map<Branch, int>, ghost order: seq<Branch>, queue0: seq<Branch>)
    returns (inDegree: map<Branch, int>, queue: seq<Branch>)
    requires parent in order
    requires Distinct(children) && forall c :: c in children <==> c in g && g[c] == parent
    requires forall c :: c in children ==> c in nodes
    requires Kahn(g, nodes, inDegree0, order, queue0, Members(children))
    ensures Kahn(g, nodes, inDegree, order, queue, {})
  {
    inDegree, queue := inDegree0, queue0;
    assert children[0..] == children;
    for i := 0 to |children|
      invariant Kahn(g, nodes, inDegree, order, queue, Members(children[i..]))
    {
      var child := children[i];
      assert child in children && child in children[i..] && child in g;
      assert Members(children[i + 1..]) == Members(children[i..]) - {child} by {
        assert children[i..] == [child] + children[i + 1..];
      }
      KahnRelease(g, nodes, inDegree, order, queue, Members(children[i..]), child);
      inDegree := inDegree[child := inDegree[child] - 1];
      if inDegree[child] == 0 {
        queue := queue + [child];
      }
    }
    assert Members(children[|children|..]) == {};
  }

  ghost predicate ListsChildren(g: map<Branch, Branch>, adj: map<Branch, seq<Branch>>) {
    forall p :: p in adj ==> Distinct(adj[p]) && forall c :: c in adj[p] <==> c in g && g[c] == p
  }

  /** The edges from a branch that was put out, if it has any. */
  method FreeChildren(
      ghost g: map<Branch, Branch>, ghost nodes: set<Branch>, adj: map<Branch, seq<Branch>>, parent: Branch,
      inDegree0: map<Branch, int>, ghost order: seq<Branch>, queue0: seq<Branch>, ghost pending: set<Branch>)
    returns (inDegree: map<Branch, int>, queue: seq<Branch>)
    requires ParentsAmong(g, nodes) && parent in order && pending == set c | c in g && g[c] == parent
    requires adj.Keys == nodes && ListsChildren(g, adj)
    requires Kahn(g, nodes, inDegree0, order, queue0, pending)
    ensures Kahn(g, nodes, inDegree, order, queue, {})
  {
    inDegree, queue := inDegree0, queue0;
    if parent in adj {
      var children := SortNames(adj[parent]);
      SortNamesKeepsMembers(adj[parent]);
      assert pending == Members(children);
      inDegree, queue := ReleaseChildren(g, nodes, parent, children, inDegree, order, queue);
    }
  }

  /** The chain of a branch that was put out ends within as many steps as there were branches before it. */
  lemma {:induction false} OutputChainsEnd(g: map<Branch, Branch>, order: seq<Branch>, i: nat)
    requires ParentsBefore(g, order) && i < |order|
    ensures Up(g, order[i], i + 1) == None
    decreases i
  {
    if order[i] in g {
      assert g[order[i]] in order[..i];
      var j :| 0 <= j < i && order[..i][j] == g[order[i]];
      OutputChainsEnd(g, order, j);
      UpAdd(g, g[order[i]], j + 1, i - (j + 1));
    }
  }

  /** When the queue runs dry, what is left over is what hangs from a cycle. */
  lemma LeftoversHangFromCycles(
      g: map<Branch, Branch>, nodes: set<Branch>, inDegree: map<Branch, int>, order: seq<Branch>)
    requires ParentsAmong(g, nodes)
    requires Kahn(g, nodes, inDegree, order, [], {}) && ParentsBefore(g, order)
    ensures forall n :: n in nodes ==> (inDegree[n] > 0 <==> n !in order)
    ensures forall n :: n in nodes ==> (inDegree[n] > 0 <==> Endless(g, n))
  {
    assert order + [] == order;
    var left := set n | n in nodes && inDegree[n] > 0;
    forall n | n in nodes ensures inDegree[n] > 0 <==> Endless(g, n) {
      if n in left {
        ClosedIsEndless(g, left, n);
      } else {
        var i :| 0 <= i < |order| && order[i] == n;
        OutputChainsEnd(g, order, i);
      }
    }
  }

  /** A graph has an endless chain exactly when some node has one. */
  lemma AcyclicIffNodesEnd(g: map<Branch, Branch>)
    ensures Acyclic(g) <==> forall n :: n in Nodes(g) ==> !Endless(g, n)
  {
    AcyclicIffChainsEnd(g);
    forall b | Endless(g, b) ensures b in Nodes(g) {
      assert Up(g, b, 1).Some?;
    }
  }

  /** The main loop. */
  method Drain(
      ghost g: map<Branch, Branch>, ghost nodes: set<Branch>, inDegree0: map<Branch, int>,
      adj: map<Branch, seq<Branch>>, queue0: seq<Branch>)
    returns (order: seq<Branch>, inDegree: map<Branch, int>)
    requires ParentsAmong(g, nodes)
    requires Kahn(g, nodes, inDegree0, [], queue0, {}) && Counts(g, nodes, g.Keys, inDegree0, adj)
    ensures Kahn(g, nodes, inDegree, order, [], {}) && ParentsBefore(g, order)
  {
    var queue := queue0;
    inDegree, order := inDegree0, [];
    while queue != []
      invariant Kahn(g, nodes, inDegree, order, queue, {}) && ParentsBefore(g, order)
      decreases |nodes| - |order|
    {
      var parent := queue[0];
      ghost var pending := set c | c in g && g[c] == parent;
      KahnPop(g, nodes, inDegree, order, queue, pending);
      order := order + [parent];
      inDegree, queue := FreeChildren(g, nodes, adj, parent, inDegree, order, queue[1..], pending);
    }
  }

  /** Everything came out exactly when as many branches came out as there are nodes. */
  lemma OutputSize(g: map<Branch, Branch>, nodes: set<Branch>, inDegree: map<Branch, int>, order: seq<Branch>)
    requires Kahn(g, nodes, inDegree, order, [], {})
    ensures Distinct(order) && forall b :: b in order ==> b in nodes
    ensures |order| == |nodes| <==> forall b :: b in nodes ==> b in order
  {
    assert order + [] == order;
    DistinctSize(order);
    SubsetSize(Members(order), nodes);
    if forall b :: b in nodes ==> b in order {
      assert Members(order) == nodes;
    }
  }

  /** When the queue has run dry, the number of branches put out tells whether every chain ends. */
  lemma Drained(g: map<Branch, Branch>, nodes: set<Branch>, inDegree: map<Branch, int>, order: seq<Branch>)
    requires ParentsAmong(g, nodes)
    requires Kahn(g, nodes, inDegree, order, [], {}) && ParentsBefore(g, order)
    ensures nodes <= inDegree.Keys && Distinct(order)
    ensures |order| == |nodes| ==> Members(order) == nodes
    ensures |order| == |nodes| <==> forall n :: n in nodes ==> !Endless(g, n)
    ensures (set n | n in nodes && inDegree[n] > 0) == set n | n in nodes && Endless(g, n)
  {
    LeftoversHangFromCycles(g, nodes, inDegree, order);
    OutputSize(g, nodes, inDegree, order);
  }

  /** Kahn's algorithm on the recorded graph. */
  method SortNodes(ghost g: map<Branch, Branch>, graph: map<Branch, Option<Branch>>, nodes: set<Branch>)
    returns (r: SortOutcome)
    requires ParentsAmong(g, nodes)
    requires forall b :: b in g ==> b in graph && graph[b] == Some(g[b])
    requires forall b :: b in graph && graph[b].Some? ==> b in g
    ensures r.Sorted? <==> forall n :: n in nodes ==> !Endless(g, n)
    ensures r.Sorted? ==>
              r.graph == graph && Distinct(r.order) && Members(r.order) == nodes && ParentsBefore(g, r.order)
    ensures r.CycleDetected? ==> r.remaining == set n | n in nodes && Endless(g, n)
  {
    var inDegree, adj := BuildCounts(g, graph, nodes);
    var queue := AnyOrder(set n | n in nodes && inDegree[n] == 0);
    KahnStart(g, nodes, inDegree, adj, queue);
    var order, finalDegree := Drain(g, nodes, inDegree, adj, queue);
    Drained(g, nodes, finalDegree, order);
    if |order| != |nodes| {
      return CycleDetected(set n | n in nodes && finalDegree[n] > 0);
    }
    return Sorted(order, graph);
  }

  method TopologicalSort(config: map<Branch, string>, locals: seq<Branch>) returns (r: SortOutcome)
    ensures r.Sorted? <==> Acyclic(ParentGraph(config, locals))
    ensures r.Sorted? ==>
              Distinct(r.order) && Members(r.order) == Nodes(ParentGraph(config, locals)) &&
              ParentsBefore(ParentGraph(config, locals), r.order) &&
              Records(config, locals, r.graph)
    ensures r.CycleDetected? ==>
              r.remaining == (set n | n in Nodes(ParentGraph(config, locals)) &&
                                      Endless(ParentGraph(config, locals), n)) &&
              exists b :: b in r.remaining && OnCycle(ParentGraph(config, locals), b)
  {
    ghost var g := ParentGraph(config, locals);
    var graph, nodes := BuildGraph(config, locals);
    r := SortNodes(g, graph, nodes);
    AcyclicIffNodesEnd(g);
    if r.CycleDetected? {
      ghost var n :| n in nodes && Endless(g, n);
      LeftoverCycle(g, r.remaining, n);
    }
  }

  /** The cycle above an endless chain lies among the leftovers. */
  lemma LeftoverCycle(g: map<Branch, Branch>, left: set<Branch>, n: Branch)
    requires left == set x | x in Nodes(g) && Endless(g, x)
    requires n in left
    ensures exists b :: b in left && OnCycle(g, b)
  {
    var k := EndlessReachesCycle(g, n);
    var b := Up(g, n, k).value;
    CycleIsEndless(g, b);
    assert Up(g, b, 1).Some?;
    assert b in g;
  }
}
