/** `get_stack_branches_ordered`: the stack of a branch, from its base down, parents first. */
module Stacks {
  import opened Wrappers
  import opened Chains
  import opened Branches

  /** `order` starts at `base` and lists every other branch after its parent. */
  ghost predicate ParentsFirst(g: map<Branch, Branch>, base: Branch, order: seq<Branch>) {
    Distinct(order) &&
    (order != [] ==> order[0] == base) &&
    forall i {:trigger order[..i]} :: 0 < i < |order| ==> order[i] in g && g[order[i]] in order[..i]
  }

  /** `order` is the stack under `base`: the base and its descendants, parents first. */
  ghost predicate IsStack(g: map<Branch, Branch>, base: Branch, order: seq<Branch>) {
    order != [] && ParentsFirst(g, base, order) &&
    forall b :: b in order <==> b == base || Descends(g, b, base)
  }

  /** Everything seen hangs below `base`; what waits has its parent listed already. */
  ghost predicate Listing(
      g: map<Branch, Branch>, base: Branch, order: seq<Branch>, queue: seq<Branch>, visited: set<Branch>)
  {
    (order == [] ==> queue == [base]) &&
    (forall b :: b in visited <==> b in order || b in queue) &&
    (forall b :: b in visited ==> b == base || Descends(g, b, base)) &&
    (forall k :: 0 <= k < |queue| ==> queue[k] == base || (queue[k] in g && g[queue[k]] in order)) &&
    base in visited
  }

  lemma ListingPop(
      g: map<Branch, Branch>, base: Branch, order: seq<Branch>, queue: seq<Branch>, visited: set<Branch>)
    requires queue != [] && Listing(g, base, order, queue, visited) && ParentsFirst(g, base, order)
    ensures queue[0] !in order ==>
              Listing(g, base, order + [queue[0]], queue[1..], visited) &&
              ParentsFirst(g, base, order + [queue[0]])
    ensures queue[0] in order ==> Listing(g, base, order, queue[1..], visited)
    ensures queue[0] == base || queue[0] in g
  {
    assert queue == [queue[0]] + queue[1..];
    if queue[0] !in order {
      var longer := order + [queue[0]];
      forall i | 0 < i < |longer| ensures longer[i] in g && g[longer[i]] in longer[..i] {
        if i < |order| {
          assert longer[..i] == order[..i];
        } else {
          assert longer[..i] == order;
        }
      }
    }
  }

  lemma ListingAppend(
      g: map<Branch, Branch>, base: Branch, order: seq<Branch>, queue: seq<Branch>, visited: set<Branch>,
      b: Branch, child: Branch)
    requires Listing(g, base, order, queue, visited) && order != []
    requires b in order && child in g && g[child] == b
    ensures Listing(g, base, order, queue + [child], visited + {child})
  {
    assert Descends(g, child, base) by {
      if b == base {
        assert Up(g, child, 1) == Some(base) by {
          assert Up(g, g[child], 0) == Some(base);
        }
      } else {
        var n: nat :| n > 0 && Up(g, b, n) == Some(base);
        assert Up(g, child, n + 1) == Some(base);
      }
    }
  }

  /** The inner loop of the listing: queue the children not seen yet. */
  method QueueUnseen(
      base: Branch, current: Branch, config: map<Branch, string>, locals: seq<Branch>, ghost order: seq<Branch>,
      visited0: set<Branch>, queue0: seq<Branch>)
    returns (visited: set<Branch>, queue: seq<Branch>)
    requires Listing(ParentGraph(config, locals), base, order, queue0, visited0) && current in order
    ensures Listing(ParentGraph(config, locals), base, order, queue, visited)
    ensures visited0 <= visited
    ensures forall c :: c in locals && BranchParent(config, c) == Some(current) ==> c in visited
  {
    ghost var g := ParentGraph(config, locals);
    visited, queue := visited0, queue0;
    var children := BranchChildren(config, current, locals);
    for i := 0 to |children|
      invariant Listing(g, base, order, queue, visited)
      invariant visited0 <= visited
      invariant forall k :: 0 <= k < i ==> children[k] in visited
    {
      var child := children[i];
      assert child in children;
      if child !in visited && child in locals {
        ListingAppend(g, base, order, queue, visited, current, child);
        visited := visited + {child};
        queue := queue + [child];
      }
    }
    forall c | c in locals && BranchParent(config, c) == Some(current) ensures c in visited {
      assert c in children;
    }
  }

  lemma ListingComplete(g: map<Branch, Branch>, base: Branch, order: seq<Branch>, visited: set<Branch>)
    requires Listing(g, base, order, [], visited) && ParentsFirst(g, base, order)
    requires forall c :: c in g && g[c] in order ==> c in visited
    ensures IsStack(g, base, order)
  {
    forall b | Descends(g, b, base) ensures b in order {
      var n: nat :| n > 0 && Up(g, b, n) == Some(base);
      ClosedHoldsDescendants(g, base, visited, b, n);
    }
  }

  /** The breadth-first listing of the stack below `base`. */
  method ListFrom(base: Branch, config: map<Branch, string>, locals: seq<Branch>)
    returns (order: seq<Branch>, visited: set<Branch>)
    ensures IsStack(ParentGraph(config, locals), base, order)
    ensures forall b :: b in visited <==> b in order
  {
    ghost var g := ParentGraph(config, locals);
    order := [];
    var queue := [base];
    visited := {base};
    var processed: set<Branch> := {};
    while queue != []
      invariant Listing(g, base, order, queue, visited) && ParentsFirst(g, base, order)
      invariant forall b :: b in processed <==> b in order
      invariant forall c :: c in g && g[c] in processed ==> c in visited
      decreases g.Keys + {base} - processed, |queue|
    {
      var current := queue[0];
      ListingPop(g, base, order, queue, visited);
      queue := queue[1..];
      if current in processed {
        continue;
      }
      order := order + [current];
      processed := processed + {current};
      visited, queue := QueueUnseen(base, current, config, locals, order, visited, queue);
    }
    ListingComplete(g, base, order, visited);
  }

  /** The walk graph from a local branch is part of the local parent graph. */
  lemma {:induction false} WalkStaysLocal(
      config: map<Branch, string>, mainline: set<Branch>, locals: seq<Branch>, b: Branch, n: nat)
    requires b in locals && Up(WalkGraph(config, mainline, locals), b, n).Some?
    ensures Up(ParentGraph(config, locals), b, n) == Up(WalkGraph(config, mainline, locals), b, n)
    decreases n
  {
    if n > 0 {
      WalkStaysLocal(config, mainline, locals, BranchParent(config, b).value, n - 1);
    }
  }

  /** A start branch is in the stack under the top of its walk exactly when it is local. */
  lemma StackHoldsLocalStart(
      start: Branch, mainline: set<Branch>, config: map<Branch, string>, locals: seq<Branch>,
      base: Branch, order: seq<Branch>)
    requires IsTop(WalkGraph(config, mainline, locals), start, base) && base in locals
    requires IsStack(ParentGraph(config, locals), base, order)
    ensures start in locals <==> start in order
  {
    if start in locals {
      var n: nat :| Up(WalkGraph(config, mainline, locals), start, n) == Some(base);
      WalkStaysLocal(config, mainline, locals, start, n);
    }
  }

  method StackBranchesOrdered(
      start: Branch, mainline: set<Branch>, config: map<Branch, string>, locals: seq<Branch>)
    returns (r: Result<seq<Branch>, Branch>, warned: bool)
    ensures r.Err? <==> Endless(WalkGraph(config, mainline, locals), start)
    ensures r.Ok? && r.value != [] ==>
              IsTop(WalkGraph(config, mainline, locals), start, r.value[0]) &&
              IsStack(ParentGraph(config, locals), r.value[0], r.value)
    ensures r.Ok? ==> (start in locals <==> start in r.value)
    ensures r.Ok? && r.value == [] ==> IsTop(WalkGraph(config, mainline, locals), start, start)
    ensures !warned
  {
    ghost var g := ParentGraph(config, locals);
    warned := false;
    var top := StackBase(start, mainline, config, locals);
    if top.Err? {
      return Err(top.error), false;
    }
    var base := top.value;
    if base !in locals {
      return Ok([]), false;
    }
    var order, visited := ListFrom(base, config, locals);
    StackHoldsLocalStart(start, mainline, config, locals, base, order);
    if start !in visited && start in locals {
      warned := true;
    }
    r := Ok(order);
  }
}
