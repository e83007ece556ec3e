/**
 * What tools/git_prune_all.py decides to prune: a branch goes when its tree equals the tree of its
 * nearest ancestor that stays.  The first half states that rule, shows that it fixes the set of pruned
 * branches, and shows what contracting the forest keeps; the second half is the marking loop.
 */
module PruneMarks {
  import opened Wrappers
  import opened Chains
  import opened Names
  import opened TopoSort

  /** `r` is reached from `b` in `n` steps, through pruned branches only, and stays itself. */
  ghost predicate NearestAt(g: map<Branch, Branch>, pruned: set<Branch>, b: Branch, r: Branch, n: nat) {
    n > 0 && Up(g, b, n) == Some(r) && r !in pruned &&
    forall k: nat :: 0 < k < n ==> Up(g, b, k).Some? && Up(g, b, k).value in pruned
  }

  /** `r` is the nearest proper ancestor of `b` that is not pruned. */
  ghost predicate Nearest(g: map<Branch, Branch>, pruned: set<Branch>, b: Branch, r: Branch) {
    exists n: nat :: NearestAt(g, pruned, b, r, n)
  }

  /** `git diff --quiet a b` succeeds: both resolve, to the same tree. */
  predicate Identical(tree: map<Branch, Tree>, a: Branch, b: Branch) {
    a in tree && b in tree && tree[a] == tree[b]
  }

  /** The branches to prune, by the rule. */
  ghost predicate IsPruneSet(
      g: map<Branch, Branch>, known: set<Branch>, tree: map<Branch, Tree>, pruned: set<Branch>)
  {
    forall b :: b in pruned <==>
      b in g && exists r :: Nearest(g, pruned, b, r) && r in known && Identical(tree, r, b)
  }

  lemma NearestUnique(g: map<Branch, Branch>, pruned: set<Branch>, b: Branch, r: Branch, s: Branch)
    requires Nearest(g, pruned, b, r) && Nearest(g, pruned, b, s)
    ensures r == s
  {
    var m: nat :| NearestAt(g, pruned, b, r, m);
    var n: nat :| NearestAt(g, pruned, b, s, n);
    assert m == n;
  }

  /** Two sets that agree on the ancestors of a branch have the same nearest ancestor to offer. */
  lemma NearestAgrees(
      g: map<Branch, Branch>, P: set<Branch>, Q: set<Branch>, b: Branch, r: Branch)
    requires Nearest(g, P, b, r)
    requires forall k: nat, x :: k > 0 && Up(g, b, k) == Some(x) ==> (x in P <==> x in Q)
    ensures Nearest(g, Q, b, r)
  {
    var n: nat :| NearestAt(g, P, b, r, n);
    assert NearestAt(g, Q, b, r, n);
  }

  /** In an acyclic forest the rule fixes every branch: sets that satisfy it agree. */
  lemma {:induction false} PruneSetsAgree(
      g: map<Branch, Branch>, known: set<Branch>, tree: map<Branch, Tree>,
      P: set<Branch>, Q: set<Branch>, b: Branch, h: nat)
    requires IsPruneSet(g, known, tree, P) && IsPruneSet(g, known, tree, Q)
    requires Up(g, b, h) == None
    ensures b in P <==> b in Q
    decreases h
  {
    if h > 0 && b in g {
      forall k: nat, x | k > 0 && Up(g, b, k) == Some(x) ensures x in P <==> x in Q {
        if k <= h {
          UpAdd(g, b, k, h - k);
          PruneSetsAgree(g, known, tree, P, Q, x, h - k);
        } else {
          UpAdd(g, b, h, k - h);
        }
      }
      forall r | Nearest(g, P, b, r) ensures Nearest(g, Q, b, r) {
        NearestAgrees(g, P, Q, b, r);
      }
      forall r | Nearest(g, Q, b, r) ensures Nearest(g, P, b, r) {
        NearestAgrees(g, Q, P, b, r);
      }
    }
  }

  /** The set of pruned branches does not depend on the order they are examined in. */
  lemma PruneSetUnique(
      g: map<Branch, Branch>, known: set<Branch>, tree: map<Branch, Tree>, P: set<Branch>, Q: set<Branch>)
    requires Acyclic(g)
    requires IsPruneSet(g, known, tree, P) && IsPruneSet(g, known, tree, Q)
    ensures P == Q
  {
    forall b ensures b in P <==> b in Q {
      var h := ChainEnd(g, b);
      PruneSetsAgree(g, known, tree, P, Q, b, h);
    }
  }

  // ----- the contracted forest

  /** `after` is `g` without the pruned branches, each child moved to its nearest remaining ancestor. */
  ghost predicate Contracts(g: map<Branch, Branch>, pruned: set<Branch>, after: map<Branch, Branch>) {
    after.Keys == g.Keys - pruned &&
    forall c :: c in after ==> Nearest(g, pruned, c, after[c])
  }

  /** The nearest remaining ancestor lies no further up than any other remaining ancestor. */
  lemma {:induction false} NearestBelow(
      g: map<Branch, Branch>, pruned: set<Branch>, b: Branch, a: Branch, n: nat, r: Branch, k: nat)
    requires n > 0 && Up(g, b, n) == Some(a) && a !in pruned
    requires NearestAt(g, pruned, b, r, k)
    ensures k <= n && Up(g, r, n - k) == Some(a)
  {
    assert k <= n;
    UpAdd(g, b, k, n - k);
  }

  lemma {:induction false} ContractionKeepsAncestor(
      g: map<Branch, Branch>, pruned: set<Branch>, after: map<Branch, Branch>, b: Branch, a: Branch, n: nat)
    requires Contracts(g, pruned, after)
    requires b !in pruned && a !in pruned
    requires n > 0 && Up(g, b, n) == Some(a)
    ensures Descends(after, b, a)
    decreases n
  {
    var k: nat :| NearestAt(g, pruned, b, after[b], k);
    NearestBelow(g, pruned, b, a, n, after[b], k);
    if k == n {
      assert Up(after, after[b], 0) == Some(a);
      assert Up(after, b, 1) == Some(a);
    } else {
      ContractionKeepsAncestor(g, pruned, after, after[b], a, n - k);
      var m: nat :| m > 0 && Up(after, after[b], m) == Some(a);
      assert Up(after, b, m + 1) == Some(a);
    }
  }

  lemma {:induction false} ContractionAddsNoAncestor(
      g: map<Branch, Branch>, pruned: set<Branch>, after: map<Branch, Branch>, b: Branch, a: Branch, n: nat)
    requires Contracts(g, pruned, after)
    requires n > 0 && Up(after, b, n) == Some(a)
    ensures Descends(g, b, a)
    decreases n
  {
    var k: nat :| NearestAt(g, pruned, b, after[b], k);
    if n == 1 {
      assert Up(after, after[b], 0) == Some(a);
    } else {
      ContractionAddsNoAncestor(g, pruned, after, after[b], a, n - 1);
      var m: nat :| m > 0 && Up(g, after[b], m) == Some(a);
      UpAdd(g, b, k, m);
    }
  }

  /** Among the branches that stay, who descends from whom is exactly what it was. */
  lemma ContractionKeepsAncestry(
      g: map<Branch, Branch>, pruned: set<Branch>, after: map<Branch, Branch>, b: Branch, a: Branch)
    requires Contracts(g, pruned, after)
    requires b !in pruned && a !in pruned
    ensures Descends(after, b, a) <==> Descends(g, b, a)
  {
    if Descends(g, b, a) {
      var n: nat :| n > 0 && Up(g, b, n) == Some(a);
      ContractionKeepsAncestor(g, pruned, after, b, a, n);
    }
    if Descends(after, b, a) {
      var n: nat :| n > 0 && Up(after, b, n) == Some(a);
      ContractionAddsNoAncestor(g, pruned, after, b, a, n);
    }
  }

  lemma ContractionAcyclic(g: map<Branch, Branch>, pruned: set<Branch>, after: map<Branch, Branch>)
    requires Acyclic(g) && Contracts(g, pruned, after)
    ensures Acyclic(after)
  {
    forall b, n: nat | n > 0 && Up(after, b, n) == Some(b) ensures false {
      ContractionAddsNoAncestor(g, pruned, after, b, b, n);
      assert OnCycle(g, b);
    }
  }

  lemma NearestIsParent(g: map<Branch, Branch>, pruned: set<Branch>, b: Branch)
    requires b in g && g[b] !in pruned
    ensures forall r :: Nearest(g, pruned, b, r) ==> r == g[b]
  {
    NearestThroughParent(g, pruned, b, g[b]);
    forall r | Nearest(g, pruned, b, r) ensures r == g[b] {
      NearestUnique(g, pruned, b, r, g[b]);
    }
  }

  lemma {:induction false} NothingLeftToPruneAt(
      g: map<Branch, Branch>, known: set<Branch>, tree: map<Branch, Tree>, pruned: set<Branch>,
      after: map<Branch, Branch>, known': set<Branch>, tree': map<Branch, Tree>, again: set<Branch>,
      b: Branch, h: nat)
    requires IsPruneSet(g, known, tree, pruned) && Contracts(g, pruned, after)
    requires known' <= known && forall x :: x in tree' ==> x in tree && tree'[x] == tree[x]
    requires IsPruneSet(after, known', tree', again)
    requires Up(g, b, h) == None
    ensures b !in again
    decreases h
  {
    if b in after {
      var p := after[b];
      var k: nat :| NearestAt(g, pruned, b, p, k);
      HeightBelow(g, b, h, p, k);
      NothingLeftToPruneAt(g, known, tree, pruned, after, known', tree', again, p, h - k);
      NearestIsParent(after, again, b);
    }
  }

  /** Pruning is idempotent: in the contracted forest the rule prunes nothing. */
  lemma NothingLeftToPrune(
      g: map<Branch, Branch>, known: set<Branch>, tree: map<Branch, Tree>, pruned: set<Branch>,
      after: map<Branch, Branch>, known': set<Branch>, tree': map<Branch, Tree>, again: set<Branch>)
    requires Acyclic(g)
    requires IsPruneSet(g, known, tree, pruned) && Contracts(g, pruned, after)
    requires known' <= known && forall x :: x in tree' ==> x in tree && tree'[x] == tree[x]
    requires IsPruneSet(after, known', tree', again)
    ensures Acyclic(after) && again == {}
  {
    ContractionAcyclic(g, pruned, after);
    forall b ensures b !in again {
      var h := ChainEnd(g, b);
      NothingLeftToPruneAt(g, known, tree, pruned, after, known', tree', again, b, h);
    }
  }

  // ----- the marking loop

  /**
   * The loop invariant: `done` are the branches examined, and `nearest` (ghost) is the effective parent
   * found for each of them that has a parent at all.
   */
  ghost predicate Marking(
      g: map<Branch, Branch>, known: set<Branch>, tree: map<Branch, Tree>, done: set<Branch>,
      pruned: set<Branch>, remap: map<Branch, Branch>, nearest: map<Branch, Branch>)
  {
    pruned <= done && remap.Keys == pruned &&
    nearest.Keys == done * g.Keys &&
    (forall b :: b in nearest ==>
       Nearest(g, pruned, b, nearest[b]) && nearest[b] in done - pruned &&
       (b in pruned <==> nearest[b] in known && Identical(tree, nearest[b], b))) &&
    forall b :: b in pruned ==> b in nearest && remap[b] == nearest[b]
  }

  /** Marking another branch does not move a nearest ancestor that has been examined already. */
  lemma NearestKeeps(g: map<Branch, Branch>, pruned: set<Branch>, b: Branch, r: Branch, x: Branch)
    requires Nearest(g, pruned, b, r) && x != r
    ensures Nearest(g, pruned + {x}, b, r)
  {
    var n: nat :| NearestAt(g, pruned, b, r, n);
    assert NearestAt(g, pruned + {x}, b, r, n);
  }

  lemma NearestThroughParent(g: map<Branch, Branch>, pruned: set<Branch>, b: Branch, r: Branch)
    requires b in g
    requires if g[b] in pruned then Nearest(g, pruned, g[b], r) else r == g[b]
    ensures Nearest(g, pruned, b, r)
  {
    if g[b] in pruned {
      var n: nat :| NearestAt(g, pruned, g[b], r, n);
      forall k: nat | 0 < k < n + 1 ensures Up(g, b, k).Some? && Up(g, b, k).value in pruned {
        assert Up(g, b, k) == Up(g, g[b], k - 1);
      }
      assert NearestAt(g, pruned, b, r, n + 1);
    } else {
      assert Up(g, g[b], 0) == Some(r);
      assert NearestAt(g, pruned, b, r, 1);
    }
  }

  lemma MarkingStep(
      g: map<Branch, Branch>, known: set<Branch>, tree: map<Branch, Tree>, done: set<Branch>,
      pruned: set<Branch>, remap: map<Branch, Branch>, nearest: map<Branch, Branch>, b: Branch, r: Branch)
    requires Marking(g, known, tree, done, pruned, remap, nearest)
    requires b !in done && b in g && g[b] in done
    requires r == if g[b] in remap then remap[g[b]] else g[b]
    ensures var hit := r in known && Identical(tree, r, b);
            Marking(g, known, tree, done + {b}, if hit then pruned + {b} else pruned,
                    if hit then remap[b := r] else remap, nearest[b := r])
  {
    NearestThroughParent(g, pruned, b, r);
    forall x, y | Nearest(g, pruned, x, y) && y != b ensures Nearest(g, pruned + {b}, x, y) {
      NearestKeeps(g, pruned, x, y, b);
    }
  }

  lemma MarkingSkip(
      g: map<Branch, Branch>, known: set<Branch>, tree: map<Branch, Tree>, done: set<Branch>,
      pruned: set<Branch>, remap: map<Branch, Branch>, nearest: map<Branch, Branch>, b: Branch)
    requires Marking(g, known, tree, done, pruned, remap, nearest) && b !in g
    ensures Marking(g, known, tree, done + {b}, pruned, remap, nearest)
  {
  }

  lemma MarkingDone(
      g: map<Branch, Branch>, known: set<Branch>, tree: map<Branch, Tree>, done: set<Branch>,
      pruned: set<Branch>, remap: map<Branch, Branch>, nearest: map<Branch, Branch>)
    requires Marking(g, known, tree, done, pruned, remap, nearest) && g.Keys <= done
    ensures IsPruneSet(g, known, tree, pruned)
  {
    forall b | b in g && exists r :: Nearest(g, pruned, b, r) && r in known && Identical(tree, r, b)
      ensures b in pruned
    {
      var r :| Nearest(g, pruned, b, r) && r in known && Identical(tree, r, b);
      NearestUnique(g, pruned, b, r, nearest[b]);
    }
  }

  /** The first phase of `main`: compare every branch, parents first, with its effective parent. */
  method Mark(
      ghost g: map<Branch, Branch>, order: seq<Branch>, graph: map<Branch, Option<Branch>>,
      locals: set<Branch>, mainline: set<Branch>, tree: map<Branch, Tree>)
    returns (remap: map<Branch, Branch>, pruned: set<Branch>)
    requires Distinct(order) && ParentsBefore(g, order) && g.Keys <= Members(order)
    requires forall b :: b in g ==> b in graph && graph[b] == Some(g[b])
    requires forall b :: b in graph && graph[b].Some? ==> b in g
    ensures IsPruneSet(g, locals + mainline, tree, pruned)
    ensures remap.Keys == pruned
    ensures forall b :: b in pruned ==>
              Nearest(g, pruned, b, remap[b]) && remap[b] !in pruned && remap[b] in locals + mainline &&
              Identical(tree, remap[b], b)
  {
    remap, pruned := map[], {};
    ghost var nearest: map<Branch, Branch> := map[];
    for i := 0 to |order|
      invariant Marking(g, locals + mainline, tree, Members(order[..i]), pruned, remap, nearest)
    {
      var branch := order[i];
      PrefixGrows(order, i);
      if branch !in graph || graph[branch].None? {
        MarkingSkip(g, locals + mainline, tree, Members(order[..i]), pruned, remap, nearest, branch);
        continue;
      }
      var parent := graph[branch].value;
      assert g[order[i]] in order[..i];
      var effective := if parent in remap then remap[parent] else parent;
      MarkingStep(g, locals + mainline, tree, Members(order[..i]), pruned, remap, nearest, branch, effective);
      nearest := nearest[branch := effective];
      if effective !in locals && effective !in mainline {
        continue;
      }
      if Identical(tree, effective, branch) {
        pruned := pruned + {branch};
        remap := remap[branch := effective];
      }
    }
    assert order[..|order|] == order;
    MarkingDone(g, locals + mainline, tree, Members(order), pruned, remap, nearest);
  }
}
