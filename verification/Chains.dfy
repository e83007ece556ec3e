/**
 * Branches form a functional graph: each one has at most one configured parent.  This module holds
 * the theory of parent chains in such a graph: iterated parents, chains that never end, and cycles.
 */
module Chains {
  import opened Wrappers

  type Branch = string

  /** The tree of files that a ref resolves to. */
  type Tree = int

  /** The branch reached from `b` by following `n` parent links, if the chain is that long. */
  ghost function Up(g: map<Branch, Branch>, b: Branch, n: nat): Option<Branch>
    decreases n
  {
    if n == 0 then Some(b) else if b in g then Up(g, g[b], n - 1) else None
  }

  ghost predicate OnCycle(g: map<Branch, Branch>, b: Branch) {
    exists n: nat :: n > 0 && Up(g, b, n) == Some(b)
  }

  ghost predicate Acyclic(g: map<Branch, Branch>) {
    forall b :: !OnCycle(g, b)
  }

  /** The parent chain of `b` never reaches a branch without a parent. */
  ghost predicate Endless(g: map<Branch, Branch>, b: Branch) {
    forall n: nat :: Up(g, b, n).Some?
  }

  /** `d` is reached from `b` by at least one parent link. */
  ghost predicate Descends(g: map<Branch, Branch>, b: Branch, d: Branch) {
    exists n: nat :: n > 0 && Up(g, b, n) == Some(d)
  }

  function Members(s: seq<Branch>): set<Branch> {
    set b | b in s
  }

  lemma {:induction false} UpAdd(g: map<Branch, Branch>, b: Branch, m: nat, n: nat)
    ensures Up(g, b, m + n) == if Up(g, b, m).Some? then Up(g, Up(g, b, m).value, n) else None
    decreases m
  {
    if m > 0 && b in g {
      UpAdd(g, g[b], m - 1, n);
    }
  }

  lemma UpStep(g: map<Branch, Branch>, b: Branch, n: nat)
    ensures Up(g, b, n + 1) ==
            if Up(g, b, n).Some? && Up(g, b, n).value in g then Some(g[Up(g, b, n).value]) else None
  {
    UpAdd(g, b, n, 1);
    if Up(g, b, n).Some? {
      var x := Up(g, b, n).value;
      assert Up(g, x, 1) == if x in g then Up(g, g[x], 0) else None;
    }
  }

  /** Two positions of a sequence hold the same element when it is longer than the set it draws from. */
  lemma {:induction false} Pigeonhole(s: seq<Branch>, S: set<Branch>)
    requires forall i :: 0 <= i < |s| ==> s[i] in S
    requires |s| > |S|
    ensures exists i, j :: 0 <= i < j < |s| && s[i] == s[j]
    decreases |s|
  {
    var last := s[|s| - 1];
    var rest := s[..|s| - 1];
    if i :| 0 <= i < |rest| && rest[i] == last {
      assert s[i] == s[|s| - 1];
    } else {
      Pigeonhole(rest, S - {last});
      var i, j :| 0 <= i < j < |rest| && rest[i] == rest[j];
      assert s[i] == s[j];
    }
  }

  /** Walking round a cycle any number of times comes back to its start. */
  lemma {:induction false} CycleRepeats(g: map<Branch, Branch>, b: Branch, n: nat, k: nat)
    requires Up(g, b, n) == Some(b)
    ensures Up(g, b, n * k) == Some(b)
  {
    if k > 0 {
      CycleRepeats(g, b, n, k - 1);
      UpAdd(g, b, n, n * (k - 1));
      assert n + n * (k - 1) == n * k;
    }
  }

  lemma PrefixDefined(g: map<Branch, Branch>, b: Branch, m: nat, n: nat)
    requires m <= n && Up(g, b, n).Some?
    ensures Up(g, b, m).Some?
  {
    UpAdd(g, b, m, n - m);
  }

  lemma CycleIsEndless(g: map<Branch, Branch>, b: Branch)
    requires OnCycle(g, b)
    ensures Endless(g, b)
  {
    var n: nat :| n > 0 && Up(g, b, n) == Some(b);
    forall k: nat ensures Up(g, b, k).Some? {
      CycleRepeats(g, b, n, k);
      assert k <= n * k;
      PrefixDefined(g, b, k, n * k);
    }
  }

  /** Equal branches at two heights of a chain put that branch on a cycle. */
  lemma RepeatIsCycle(g: map<Branch, Branch>, b: Branch, i: nat, j: nat)
    requires i < j && Up(g, b, i).Some? && Up(g, b, i) == Up(g, b, j)
    ensures OnCycle(g, Up(g, b, i).value)
  {
    UpAdd(g, b, i, j - i);
  }

  /** A chain that never ends runs into a cycle: the graph is finite. */
  lemma EndlessReachesCycle(g: map<Branch, Branch>, b: Branch) returns (k: nat)
    requires Endless(g, b)
    ensures OnCycle(g, Up(g, b, k).value)
  {
    var s := seq(|g.Keys| + 1, i requires 0 <= i => Up(g, b, i).value);
    forall i | 0 <= i < |s| ensures s[i] in g.Keys {
      UpStep(g, b, i);
      assert Up(g, b, i + 1).Some?;
    }
    Pigeonhole(s, g.Keys);
    var i, j :| 0 <= i < j < |s| && s[i] == s[j];
    RepeatIsCycle(g, b, i, j);
    k := i;
  }

  /** A finite set of branches whose parents stay inside it has only endless chains. */
  lemma ClosedIsEndless(g: map<Branch, Branch>, S: set<Branch>, b: Branch)
    requires forall x :: x in S ==> x in g && g[x] in S
    requires b in S
    ensures Endless(g, b)
  {
    forall n: nat ensures Up(g, b, n).Some? {
      ClosedUp(g, S, b, n);
    }
  }

  lemma {:induction false} ClosedUp(g: map<Branch, Branch>, S: set<Branch>, b: Branch, n: nat)
    requires forall x :: x in S ==> x in g && g[x] in S
    requires b in S
    ensures Up(g, b, n).Some? && Up(g, b, n).value in S
    decreases n
  {
    if n > 0 {
      ClosedUp(g, S, g[b], n - 1);
    }
  }

  /** A graph is acyclic exactly when every chain ends. */
  lemma AcyclicIffChainsEnd(g: map<Branch, Branch>)
    ensures Acyclic(g) <==> forall b :: !Endless(g, b)
  {
    forall b | OnCycle(g, b) ensures Endless(g, b) {
      CycleIsEndless(g, b);
    }
    forall b | Endless(g, b) ensures !Acyclic(g) {
      var k := EndlessReachesCycle(g, b);
    }
  }

  /** Off a cycle, a branch sits at one height only in any chain that passes it. */
  lemma HeightUnique(g: map<Branch, Branch>, b: Branch, d: Branch, m: nat, n: nat)
    requires !OnCycle(g, d)
    requires Up(g, b, m) == Some(d) && Up(g, b, n) == Some(d)
    ensures m == n
  {
    if m < n {
      RepeatIsCycle(g, b, m, n);
    } else if n < m {
      RepeatIsCycle(g, b, n, m);
    }
  }

  lemma ChainEnd(g: map<Branch, Branch>, b: Branch) returns (h: nat)
    requires Acyclic(g)
    ensures Up(g, b, h) == None
  {
    AcyclicIffChainsEnd(g);
    assert !Endless(g, b);
    h :| Up(g, b, h).None?;
  }

  /** Further up a chain that ends, less of it is left. */
  lemma HeightBelow(g: map<Branch, Branch>, b: Branch, h: nat, p: Branch, k: nat)
    requires Up(g, b, h) == None && Up(g, b, k) == Some(p)
    ensures k < h && Up(g, p, h - k) == None
  {
    if h <= k {
      PrefixDefined(g, b, h, k);
    } else {
      UpAdd(g, b, k, h - k);
    }
  }
}
