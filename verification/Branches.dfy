/**
 * The branch walks of python/tools/git_utils.py.  The repository is abstracted to the list of local
 * branches and the map from a branch to the text of its `branch.<name>.parent` setting.
 */
module Branches {
  import opened Wrappers
  import opened Chains
  import opened Strings

  /** `get_branch_parent`: the stripped text of the setting, if there is any left. */
  function BranchParent(config: map<Branch, string>, b: Branch): Option<Branch> {
    if b == "" then None
    else if b in config && Strip(config[b]) != "" then Some(Strip(config[b]))
    else None
  }

  /**
   * A named branch has a parent exactly when its setting is not all white space; the parent is what is
   * left between the white space at both ends.
   */
  lemma ParentIsName(config: map<Branch, string>, b: Branch)
    ensures BranchParent(config, b).Some? <==> b != "" && b in config && !AllSpace(config[b])
    ensures BranchParent(config, b).Some? ==>
              Tight(BranchParent(config, b).value) && Surrounded(config[b], BranchParent(config, b).value)
  {
    if b in config {
      StripEmpty(config[b]);
      StripIsTight(config[b]);
    }
  }

  /** What a setting can hold so that it is read back unchanged. */
  predicate IsName(p: Branch) {
    p != "" && Strip(p) == p
  }

  lemma ParentIsStripped(config: map<Branch, string>, b: Branch)
    requires BranchParent(config, b).Some?
    ensures IsName(BranchParent(config, b).value)
  {
    StripTwice(config[b]);
  }

  /** The parent links of the branches in `locals`, as a graph. */
  ghost function ParentGraph(config: map<Branch, string>, locals: seq<Branch>): map<Branch, Branch> {
    map b | b in locals && BranchParent(config, b).Some? :: BranchParent(config, b).value
  }

  /** The links the ancestor walk follows: to a parent that is local and not a mainline branch. */
  ghost function WalkGraph(config: map<Branch, string>, mainline: set<Branch>, locals: seq<Branch>)
    : map<Branch, Branch>
  {
    map b | b in config && BranchParent(config, b).Some? && BranchParent(config, b).value !in mainline &&
        BranchParent(config, b).value in locals
      :: BranchParent(config, b).value
  }

  /** `get_branch_children` as a filter of the local branches, in their listed order. */
  function ChildList(config: map<Branch, string>, p: Branch, locals: seq<Branch>): (r: seq<Branch>)
    ensures forall c :: c in r <==> c in locals && BranchParent(config, c) == Some(p)
  {
    if locals == [] then []
    else
      var rest := ChildList(config, p, locals[..|locals| - 1]);
      var c := locals[|locals| - 1];
      assert forall b :: b in locals <==> b in locals[..|locals| - 1] || b == c;
      if BranchParent(config, c) == Some(p) then rest + [c] else rest
  }

  method BranchChildren(config: map<Branch, string>, p: Branch, locals: seq<Branch>)
    returns (children: seq<Branch>)
    ensures children == ChildList(config, p, locals)
  {
    children := [];
    for i := 0 to |locals|
      invariant children == ChildList(config, p, locals[..i])
    {
      assert locals[..i + 1][..i] == locals[..i];
      if BranchParent(config, locals[i]) == Some(p) {
        children := children + [locals[i]];
      }
    }
    assert locals[..|locals|] == locals;
  }

  // ----- get_ancestors

  /** `walk` lists the whole chain above `start`, nearest first, and stops where the chain stops. */
  ghost predicate IsWholeChain(g: map<Branch, Branch>, start: Branch, walk: seq<Branch>) {
    (forall i :: 0 <= i < |walk| ==> Up(g, start, i + 1) == Some(walk[i])) &&
    Up(g, start, |walk| + 1) == None
  }

  method Ancestors(start: Branch, mainline: set<Branch>, config: map<Branch, string>, locals: seq<Branch>)
    returns (r: Result<seq<Branch>, Branch>)
    ensures r.Ok? ==> IsWholeChain(WalkGraph(config, mainline, locals), start, r.value)
    ensures r.Ok? ==> Distinct([start] + r.value)
    ensures r.Err? <==> Endless(WalkGraph(config, mainline, locals), start)
    ensures r.Err? ==> OnCycle(WalkGraph(config, mainline, locals), r.error)
  {
    ghost var g := WalkGraph(config, mainline, locals);
    var ancestors := [];
    var current := start;
    var visited := {start};
    while true
      invariant current == ([start] + ancestors)[|ancestors|]
      invariant forall i :: 0 <= i <= |ancestors| ==> Up(g, start, i) == Some(([start] + ancestors)[i])
      invariant forall b :: b in visited <==> b in [start] + ancestors
      invariant Distinct([start] + ancestors)
      invariant forall b :: b in ancestors ==> b in locals
      decreases (set b | b in locals) + {start} - visited
    {
      UpStep(g, start, |ancestors|);
      var parent := BranchParent(config, current);
      if parent.None? || parent.value in mainline || parent.value !in locals {
        assert Up(g, start, |ancestors| + 1) == None;
        return Ok(ancestors);
      }
      assert Up(g, start, |ancestors| + 1) == Some(parent.value);
      if parent.value in visited {
        var i :| 0 <= i <= |ancestors| && ([start] + ancestors)[i] == parent.value;
        RepeatIsCycle(g, start, i, |ancestors| + 1);
        CycleAboveIsEndless(g, start, i);
        return Err(parent.value);
      }
      assert [start] + (ancestors + [parent.value]) == ([start] + ancestors) + [parent.value];
      ancestors := ancestors + [parent.value];
      visited := visited + {parent.value};
      current := parent.value;
    }
  }

  lemma CycleAboveIsEndless(g: map<Branch, Branch>, b: Branch, k: nat)
    requires Up(g, b, k).Some? && OnCycle(g, Up(g, b, k).value)
    ensures Endless(g, b)
  {
    CycleIsEndless(g, Up(g, b, k).value);
    forall n: nat ensures Up(g, b, n).Some? {
      UpAdd(g, b, k, n);
      PrefixDefined(g, b, n, k + n);
    }
  }

  // ----- get_stack_base

  /** `base` is the top of the walk from `start`. */
  ghost predicate IsTop(g: map<Branch, Branch>, start: Branch, base: Branch) {
    exists n: nat :: Up(g, start, n) == Some(base) && Up(g, start, n + 1) == None
  }

  method StackBase(start: Branch, mainline: set<Branch>, config: map<Branch, string>, locals: seq<Branch>)
    returns (r: Result<Branch, Branch>)
    ensures r.Ok? ==> IsTop(WalkGraph(config, mainline, locals), start, r.value)
    ensures r.Ok? ==> r.value == start || r.value in locals
    ensures r.Err? <==> Endless(WalkGraph(config, mainline, locals), start)
  {
    var ancestors := Ancestors(start, mainline, config, locals);
    match ancestors {
      case Err(b) => return Err(b);
      case Ok(walk) =>
        ghost var g := WalkGraph(config, mainline, locals);
        if walk == [] {
          assert Up(g, start, 0) == Some(start) && Up(g, start, 0 + 1) == None;
          return Ok(start);
        }
        assert Up(g, start, |walk|) == Some(walk[|walk| - 1]);
        UpStep(g, start, |walk| - 1);
        return Ok(walk[|walk| - 1]);
    }
  }

  // ----- get_descendants

  datatype Visit = Visit(branch: Branch, path: seq<Branch>)

  /** `path` leads down from `start` to `b`, one parent link at a time. */
  ghost predicate LeadsDown(g: map<Branch, Branch>, start: Branch, path: seq<Branch>, b: Branch) {
    |path| >= 2 && path[0] == start && path[|path| - 1] == b &&
    forall i :: 0 < i < |path| ==> path[i] in g && g[path[i]] == path[i - 1]
  }

  lemma {:induction false} LeadsDownHeight(g: map<Branch, Branch>, start: Branch, path: seq<Branch>, b: Branch, i: nat)
    requires LeadsDown(g, start, path, b) && i < |path|
    ensures Up(g, path[i], i) == Some(start)
    decreases i
  {
    if i > 0 {
      LeadsDownHeight(g, start, path, b, i - 1);
    }
  }

  /** A child met again on the path of its parent betrays a cycle through `start`. */
  lemma PathRevisitIsCycle(g: map<Branch, Branch>, start: Branch, path: seq<Branch>, b: Branch, child: Branch)
    requires LeadsDown(g, start, path, b)
    requires child in path && child in g && g[child] == b
    ensures OnCycle(g, start)
  {
    var i :| 0 <= i < |path| && path[i] == child;
    LeadsDownHeight(g, start, path, b, |path| - 1);
    if i == 0 {
      assert Up(g, start, |path|) == Some(start);
    } else {
      assert path[i - 1] == b;
      LeadsDownHeight(g, start, path, b, i - 1);
      RepeatIsCycle(g, b, i - 1, |path| - 1);
    }
  }

  predicate Waiting(queue: seq<Visit>, b: Branch) {
    exists k :: 0 <= k < |queue| && queue[k].branch == b
  }

  /** The queue holds paths, shortest first, whose lengths differ by at most one. */
  ghost predicate QueueLevels(g: map<Branch, Branch>, start: Branch, queue: seq<Visit>, level: nat) {
    (forall k :: 0 <= k < |queue| ==>
       LeadsDown(g, start, queue[k].path, queue[k].branch) && level <= |queue[k].path| <= level + 1) &&
    forall i, j :: 0 <= i <= j < |queue| ==> |queue[i].path| <= |queue[j].path|
  }

  /** The branches found so far, with their nondecreasing distances below `start`. */
  ghost predicate Levels(g: map<Branch, Branch>, start: Branch, found: seq<Branch>, dist: seq<nat>) {
    |dist| == |found| &&
    (forall i :: 0 <= i < |found| ==> dist[i] > 0 && Up(g, found[i], dist[i]) == Some(start)) &&
    forall i, j :: 0 <= i <= j < |found| ==> dist[i] <= dist[j]
  }

  /** `found` lists each searched branch once, with distances below `level`. */
  ghost predicate Found(
      g: map<Branch, Branch>, start: Branch, found: seq<Branch>, dist: seq<nat>, level: nat, processed: set<Branch>)
  {
    Levels(g, start, found, dist) && Distinct(found) &&
    (forall b :: b in processed <==> b in found) &&
    forall i :: 0 <= i < |dist| ==> dist[i] < level
  }

  lemma FoundAppend(
      g: map<Branch, Branch>, start: Branch, found: seq<Branch>, dist: seq<nat>, processed: set<Branch>,
      path: seq<Branch>, b: Branch)
    requires Found(g, start, found, dist, |path|, processed)
    requires LeadsDown(g, start, path, b) && b !in processed
    ensures Found(g, start, found + [b], dist + [|path| - 1], |path|, processed + {b})
  {
    LeadsDownHeight(g, start, path, b, |path| - 1);
  }

  /** The children of `start` and of the searched branches have all been seen; `start` is none of them. */
  ghost predicate ChildrenSeen(g: map<Branch, Branch>, start: Branch, processed: set<Branch>, visited: set<Branch>) {
    (forall c :: c in g && (g[c] == start || g[c] in processed) ==> c in visited) &&
    (start in g ==> g[start] !in processed)
  }

  /** No branch is listed before another that is closer to `start`. */
  ghost predicate NearestFirst(g: map<Branch, Branch>, start: Branch, found: seq<Branch>) {
    forall i, j, m: nat, n: nat ::
      (0 <= i <= j < |found| && m > 0 && n > 0 &&
       Up(g, found[i], m) == Some(start) && Up(g, found[j], n) == Some(start)) ==> m <= n
  }

  lemma LevelsAreNearestFirst(g: map<Branch, Branch>, start: Branch, found: seq<Branch>, dist: seq<nat>)
    requires Levels(g, start, found, dist) && !OnCycle(g, start)
    ensures NearestFirst(g, start, found)
  {
    forall i, j, m: nat, n: nat |
      0 <= i <= j < |found| && m > 0 && n > 0 &&
      Up(g, found[i], m) == Some(start) && Up(g, found[j], n) == Some(start)
      ensures m <= n
    {
      HeightUnique(g, found[i], start, m, dist[i]);
      HeightUnique(g, found[j], start, n, dist[j]);
    }
  }

  /** A set that holds the children of `start` and of its own members holds all descendants. */
  lemma {:induction false} ClosedHoldsDescendants(
      g: map<Branch, Branch>, start: Branch, S: set<Branch>, b: Branch, n: nat)
    requires forall c :: c in g && (g[c] == start || g[c] in S) ==> c in S
    requires n > 0 && Up(g, b, n) == Some(start)
    ensures b in S
    decreases n
  {
    assert b in g;
    if n == 1 {
      assert Up(g, g[b], 0) == Some(g[b]);
    } else {
      ClosedHoldsDescendants(g, start, S, g[b], n - 1);
    }
  }

  /** Once everything found has been searched, every descendant is found and `start` is on no cycle. */
  lemma SearchComplete(g: map<Branch, Branch>, start: Branch, S: set<Branch>)
    requires forall c :: c in g && (g[c] == start || g[c] in S) ==> c in S
    requires start in g ==> g[start] !in S
    ensures !OnCycle(g, start)
    ensures forall b :: Descends(g, b, start) ==> b in S
  {
    forall b, n: nat | n > 0 && Up(g, b, n) == Some(start) ensures b in S {
      ClosedHoldsDescendants(g, start, S, b, n);
    }
    if OnCycle(g, start) {
      CycleParent(g, start);
      assert false;
    }
  }

  lemma CycleParent(g: map<Branch, Branch>, b: Branch)
    requires OnCycle(g, b)
    ensures b in g && (g[b] == b || Descends(g, g[b], b))
  {
    var n: nat :| n > 0 && Up(g, b, n) == Some(b);
    assert Up(g, g[b], n - 1) == Some(b);
  }

  lemma LevelsDescend(g: map<Branch, Branch>, start: Branch, found: seq<Branch>, dist: seq<nat>)
    requires Levels(g, start, found, dist)
    ensures forall b :: b in found ==> Descends(g, b, start)
  {
    forall b | b in found ensures Descends(g, b, start) {
      var i :| 0 <= i < |found| && found[i] == b;
      assert dist[i] > 0 && Up(g, b, dist[i]) == Some(start);
    }
  }

  lemma WaitingTail(queue: seq<Visit>)
    requires queue != []
    ensures forall b :: Waiting(queue, b) <==> b == queue[0].branch || Waiting(queue[1..], b)
  {
    forall b ensures Waiting(queue, b) <==> b == queue[0].branch || Waiting(queue[1..], b) {
      if k :| 0 < k < |queue| && queue[k].branch == b {
        assert queue[1..][k - 1].branch == b;
      }
      if k :| 0 <= k < |queue[1..]| && queue[1..][k].branch == b {
        assert queue[k + 1].branch == b;
      }
    }
  }

  lemma WaitingAppend(queue: seq<Visit>, v: Visit)
    ensures forall b :: Waiting(queue + [v], b) <==> Waiting(queue, b) || b == v.branch
  {
    forall b ensures Waiting(queue + [v], b) <==> Waiting(queue, b) || b == v.branch {
      if k :| 0 <= k < |queue| && queue[k].branch == b {
        assert (queue + [v])[k].branch == b;
      }
      assert (queue + [v])[|queue|] == v;
    }
  }

  /** What the search knows between visits: everything seen is searched or waits in the queue. */
  ghost predicate Searching(
      g: map<Branch, Branch>, start: Branch, queue: seq<Visit>, level: nat,
      visited: set<Branch>, processed: set<Branch>)
  {
    QueueLevels(g, start, queue, level) &&
    processed <= visited <= g.Keys &&
    (forall b :: b in visited ==> b in processed || Waiting(queue, b)) &&
    forall k :: 0 <= k < |queue| ==> queue[k].branch in visited
  }

  lemma SearchingStart(g: map<Branch, Branch>, start: Branch, children: seq<Branch>, queue: seq<Visit>)
    requires forall c :: c in children <==> c in g && g[c] == start
    requires |queue| == |children|
    requires forall i :: 0 <= i < |children| ==> queue[i] == Visit(children[i], [start, children[i]])
    ensures Searching(g, start, queue, 2, set b | b in children, {})
  {
    forall b | b in children ensures Waiting(queue, b) {
      var k :| 0 <= k < |children| && children[k] == b;
      assert queue[k].branch == b;
    }
  }

  lemma SearchingPop(
      g: map<Branch, Branch>, start: Branch, queue: seq<Visit>, level: nat,
      visited: set<Branch>, processed: set<Branch>)
    requires queue != [] && Searching(g, start, queue, level, visited, processed)
    ensures Searching(g, start, queue[1..], |queue[0].path|, visited, processed + {queue[0].branch})
    ensures LeadsDown(g, start, queue[0].path, queue[0].branch) && level <= |queue[0].path|
    ensures queue[0].branch in g
  {
    WaitingTail(queue);
  }

  lemma SearchingAppend(
      g: map<Branch, Branch>, start: Branch, queue: seq<Visit>, path: seq<Branch>, b: Branch, child: Branch,
      visited: set<Branch>, processed: set<Branch>)
    requires LeadsDown(g, start, path, b) && child in g && g[child] == b
    requires Searching(g, start, queue, |path|, visited, processed)
    ensures Searching(
              g, start, queue + [Visit(child, path + [child])], |path|, visited + {child}, processed)
  {
    WaitingAppend(queue, Visit(child, path + [child]));
  }

  lemma ChildrenSeenAdd(
      g: map<Branch, Branch>, start: Branch, b: Branch, processed: set<Branch>,
      visited0: set<Branch>, visited: set<Branch>)
    requires ChildrenSeen(g, start, processed, visited0) && visited0 <= visited
    requires forall c :: c in g && g[c] == b ==> c in visited && c != start
    ensures ChildrenSeen(g, start, processed + {b}, visited)
  {
  }

  /** The inner loop of `get_descendants`: queue the unseen children, or report the child met again. */
  method QueueChildren(
      start: Branch, current: Branch, path: seq<Branch>, config: map<Branch, string>, locals: seq<Branch>,
      visited0: set<Branch>, queue0: seq<Visit>, ghost processed: set<Branch>)
    returns (again: Option<Branch>, visited: set<Branch>, queue: seq<Visit>)
    requires LeadsDown(ParentGraph(config, locals), start, path, current)
    requires Searching(ParentGraph(config, locals), start, queue0, |path|, visited0, processed)
    ensures again.Some? ==> OnCycle(ParentGraph(config, locals), start)
    ensures again.None? ==> Searching(ParentGraph(config, locals), start, queue, |path|, visited, processed)
    ensures again.None? ==> visited0 <= visited
    ensures again.None? ==> var g := ParentGraph(config, locals);
              forall c :: c in g && g[c] == current ==> c in visited && c != start
  {
    ghost var g := ParentGraph(config, locals);
    visited, queue := visited0, queue0;
    var children := BranchChildren(config, current, locals);
    for i := 0 to |children|
      invariant Searching(g, start, queue, |path|, visited, processed)
      invariant visited0 <= visited
      invariant forall k :: 0 <= k < i ==> children[k] in visited && children[k] != start
    {
      var child := children[i];
      assert child in children;
      if child in path {
        PathRevisitIsCycle(g, start, path, current, child);
        return Some(child), visited, queue;
      }
      if child !in visited && child in locals {
        SearchingAppend(g, start, queue, path, current, child, visited, processed);
        visited := visited + {child};
        var newPath := path + [child];
        queue := queue + [Visit(child, newPath)];
      }
    }
    forall c | c in g && g[c] == current ensures c in visited && c != start {
      assert c in children;
    }
    again := None;
  }

  /** When nothing waits any more, what was found is everything below `start`. */
  lemma SearchEnds(
      g: map<Branch, Branch>, start: Branch, found: seq<Branch>, dist: seq<nat>, level: nat, visited: set<Branch>,
      processed: set<Branch>)
    requires Found(g, start, found, dist, level, processed) && ChildrenSeen(g, start, processed, visited)
    requires visited == processed
    ensures !OnCycle(g, start) && NearestFirst(g, start, found)
    ensures forall b :: b in found <==> Descends(g, b, start)
  {
    SearchComplete(g, start, processed);
    LevelsDescend(g, start, found, dist);
    LevelsAreNearestFirst(g, start, found, dist);
  }

  method Descendants(start: Branch, config: map<Branch, string>, locals: seq<Branch>)
    returns (r: Result<seq<Branch>, Branch>)
    ensures r.Err? <==> OnCycle(ParentGraph(config, locals), start)
    ensures r.Ok? ==> Distinct(r.value)
    ensures r.Ok? ==> forall b :: b in r.value <==> Descends(ParentGraph(config, locals), b, start)
    ensures r.Ok? ==> NearestFirst(ParentGraph(config, locals), start, r.value)
  {
    ghost var g := ParentGraph(config, locals);
    var descendants: seq<Branch> := [];
    ghost var dist: seq<nat> := [];
    var directChildren := BranchChildren(config, start, locals);
    var queue := seq(|directChildren|, i requires 0 <= i < |directChildren| =>
      Visit(directChildren[i], [start, directChildren[i]]));
    var visited := set b | b in directChildren;
    var processed: set<Branch> := {};
    ghost var level: nat := 2;
    SearchingStart(g, start, directChildren, queue);
    while queue != []
      invariant Searching(g, start, queue, level, visited, processed)
      invariant Found(g, start, descendants, dist, level, processed)
      invariant ChildrenSeen(g, start, processed, visited)
      decreases g.Keys - processed, |queue|
    {
      SearchingPop(g, start, queue, level, visited, processed);
      var current, path := queue[0].branch, queue[0].path;
      queue := queue[1..];
      level := |path|;
      if current in processed {
        continue;
      }
      FoundAppend(g, start, descendants, dist, processed, path, current);
      descendants := descendants + [current];
      dist := dist + [|path| - 1];
      processed := processed + {current};
      var again, seen, longer := QueueChildren(start, current, path, config, locals, visited, queue, processed);
      if again.Some? {
        return Err(again.value);
      }
      ChildrenSeenAdd(g, start, current, processed - {current}, visited, seen);
      assert processed - {current} + {current} == processed;
      visited, queue := seen, longer;
    }
    SearchEnds(g, start, descendants, dist, level, visited, processed);
    return Ok(descendants);
  }
}
