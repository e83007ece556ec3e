/**
 * The merge loops of tools/git_update_all.py and tools/git_update_stack.py.  A ref is abstracted to the
 * set of commits reachable from it, and a merge makes at most one new commit.
 */
module Merges {
  import opened Wrappers
  import opened Chains
  import opened Branches
  import opened Stacks
  import opened TopoSort
  import opened Repository

  type Commit = nat

  /** The history after `ref` has been merged into `b`, with the merge commits `added`. */
  ghost function AfterMerge(commits: map<Branch, set<Commit>>, b: Branch, ref: Branch, added: set<Commit>)
    : map<Branch, set<Commit>>
    requires b in commits && ref in commits
  {
    commits[b := commits[b] + commits[ref] + added]
  }

  /** The commits in `added` are neither in a history nor among the merge commits. */
  ghost predicate New(added: set<Commit>, commits: map<Branch, set<Commit>>, made: set<Commit>) {
    forall c :: c in added ==> c !in made && forall x :: x in commits ==> c !in commits[x]
  }

  ghost predicate Bounded(commits: map<Branch, set<Commit>>, n: nat) {
    forall b, c :: b in commits && c in commits[b] ==> c < n
  }

  lemma MergeIsBounded(commits: map<Branch, set<Commit>>, b: Branch, ref: Branch, n: nat)
    requires Bounded(commits, n) && b in commits && ref in commits
    ensures Bounded(AfterMerge(commits, b, ref, {}), n) && Bounded(AfterMerge(commits, b, ref, {n}), n + 1)
    ensures New({n}, commits, {})
  {
  }

  class History {
    var commits: map<Branch, set<Commit>>
    var places: Worktrees
    /** The merge commits made so far, and an id above all commits. */
    ghost var made: set<Commit>
    var next: Commit
    /** How many checked commands failed, and how many whose failure the program ignores. */
    ghost var failures: nat
    ghost var ignored: nat
    /** How often the worktrees could not be listed, which the program ignores as well. */
    ghost var unlisted: nat

    ghost predicate Valid()
      reads this
    {
      Bounded(commits, next) && forall c :: c in made ==> c < next
    }

    constructor (commits: map<Branch, set<Commit>>, places: Worktrees, next: Commit)
      requires Bounded(commits, next)
      ensures Valid() && made == {} && failures == ignored == unlisted == 0
      ensures this.commits == commits && this.places == places
    {
      this.commits, this.places, this.next, made := commits, places, next, {};
      failures, ignored, unlisted := 0, 0, 0;
    }

    /** `get_worktree_branches`: an empty listing when `git worktree list` fails. */
    method ListWorktrees() returns (listing: map<Branch, string>, ghost listed: bool)
      modifies this`unlisted
      ensures Lists(places, listed, listing)
      ensures unlisted == old(unlisted) + if listed then 0 else 1
    {
      var fine := *;
      listed := fine;
      if fine {
        listing := ReadWorktrees(places);
      } else {
        listing, unlisted := map[], unlisted + 1;
      }
    }

    /** `git checkout <b>` of a local branch; one that is checked out in another worktree is refused. */
    method Checkout(b: Branch, ghost check: bool) returns (ok: bool)
      modifies this`places, this`failures, this`ignored
      ensures ok ==> old(places).Head() == Some(b) || !old(places).CheckedOut(b)
      ensures places == if ok then old(places).Switched(Some(b)) else old(places)
      ensures failures == old(failures) + if !ok && check then 1 else 0
      ensures ignored == old(ignored) + if !ok && !check then 1 else 0
    {
      ok := *;
      ok := ok && (places.Head() == Some(b) || !places.CheckedOut(b));
      if ok {
        places := places.Switched(Some(b));
      } else {
        failures, ignored := failures + if check then 1 else 0, ignored + if check then 0 else 1;
      }
    }

    /** The branch that `git merge` changes: the one checked out at `path`, or where the program runs. */
    function Target(path: Option<string>): Option<Branch>
      reads this
    {
      if path.Some? then places.At(path.value) else places.Head()
    }

    /**
     * `git merge <ref>`, with `-C <path>` if there is a path: a no-op when `ref` brings nothing, a fast-forward
     * or a new merge commit otherwise; it fails on a conflict, or when `ref` does not resolve.
     */
    method Merge(path: Option<string>, ref: Branch) returns (ok: bool, ghost added: set<Commit>)
      requires Valid() && Target(path).Some? && Target(path).value in commits
      modifies this`commits, this`made, this`next, this`failures
      ensures Valid()
      ensures !ok ==> commits == old(commits) && made == old(made)
      ensures ok ==> ref in old(commits) && commits == AfterMerge(old(commits), Target(path).value, ref, added)
      ensures ok ==> made == old(made) + added && added <= {old(next)} && New(added, old(commits), old(made))
      ensures failures == old(failures) + if ok then 0 else 1
    {
      var b := Target(path).value;
      ok := *;
      ok := ok && ref in commits;
      added := {};
      if !ok {
        failures := failures + 1;
        return;
      }
      MergeIsBounded(commits, b, ref, next);
      if commits[ref] <= commits[b] {
        assert commits[b] + commits[ref] + added == commits[b];
        return;
      }
      var fastForward := *;
      fastForward := fastForward && commits[b] <= commits[ref];
      if fastForward {
        assert commits[b] + commits[ref] + added == commits[ref];
        commits := commits[b := commits[ref]];
      } else {
        added := {next};
        commits := commits[b := commits[b] + commits[ref] + {next}];
        made, next := made + {next}, next + 1;
      }
    }
  }

  /** The parent graph cut above `top`. */
  ghost function Cut(g: map<Branch, Branch>, top: Option<Branch>): map<Branch, Branch> {
    if top.Some? then g - {top.value} else g
  }

  /**
   * `c` was in the history of `b`, or of a branch above it up to `top`, or of the parent of `top`,
   * before the update.
   */
  ghost predicate Inherited(
      g: map<Branch, Branch>, top: Option<Branch>, before: map<Branch, set<Commit>>, b: Branch, c: Commit)
  {
    exists n: nat :: ChainHolds(g, top, before, b, n, c)
  }

  ghost predicate ChainHolds(
      g: map<Branch, Branch>, top: Option<Branch>, before: map<Branch, set<Commit>>, b: Branch, n: nat, c: Commit)
  {
    Up(Cut(g, top), b, n).Some? &&
    var a := Up(Cut(g, top), b, n).value;
    (a in before && c in before[a]) ||
    (top == Some(a) && a in g && g[a] in before && c in before[g[a]])
  }

  /** The order in which both programs merge: the top first if there is one, every other parent before. */
  ghost predicate MergeOrder(g: map<Branch, Branch>, top: Option<Branch>, order: seq<Branch>) {
    Distinct(order) &&
    (top.Some? ==> order != [] && order[0] == top.value) &&
    forall i {:trigger order[..i]} ::
      0 <= i < |order| && order[i] in g && top != Some(order[i]) ==> g[order[i]] in order[..i]
  }

  /** The branches in `done` hold what they inherit, up to merge commits; the others are as before. */
  ghost predicate Merged(
      g: map<Branch, Branch>, top: Option<Branch>, before: map<Branch, set<Commit>>, done: seq<Branch>,
      made0: set<Commit>, commits: map<Branch, set<Commit>>, made: set<Commit>)
  {
    commits.Keys == before.Keys && made0 <= made &&
    (forall b, c :: b in before && c in before[b] ==> c !in made - made0) &&
    (forall b :: b in before && b !in done ==> commits[b] == before[b]) &&
    forall b, c :: b in before && b in done && c !in made - made0 ==>
      (c in commits[b] <==> Inherited(g, top, before, b, c))
  }

  /** What a branch inherits is its own history and what its parent inherits. */
  lemma InheritedStep(
      g: map<Branch, Branch>, top: Option<Branch>, before: map<Branch, set<Commit>>, b: Branch, c: Commit)
    requires b in before
    ensures Inherited(g, top, before, b, c) <==>
            c in before[b] ||
            (b in g && if top == Some(b) then g[b] in before && c in before[g[b]]
                       else Inherited(g, top, before, g[b], c))
  {
    var cut := Cut(g, top);
    if Inherited(g, top, before, b, c) {
      var n: nat :| ChainHolds(g, top, before, b, n, c);
      if n > 0 {
        assert ChainHolds(g, top, before, g[b], n - 1, c);
      }
    }
    if c in before[b] || (b in g && top == Some(b) && g[b] in before && c in before[g[b]]) {
      assert ChainHolds(g, top, before, b, 0, c);
    }
    if b in g && top != Some(b) && Inherited(g, top, before, g[b], c) {
      var n: nat :| ChainHolds(g, top, before, g[b], n, c);
      assert Up(cut, b, n + 1) == Up(cut, g[b], n);
      assert ChainHolds(g, top, before, b, n + 1, c);
    }
  }

  /** One successful merge, of the parent of the next branch, extends `Merged` by that branch. */
  lemma MergedStep(
      g: map<Branch, Branch>, top: Option<Branch>, before: map<Branch, set<Commit>>, done: seq<Branch>,
      made0: set<Commit>, commits: map<Branch, set<Commit>>, made: set<Commit>, b: Branch, added: set<Commit>)
    requires Merged(g, top, before, done, made0, commits, made)
    requires b in before && b in g && b !in done && g[b] in before
    requires if top == Some(b) then done == [] else g[b] in done
    requires New(added, commits, made)
    ensures Merged(g, top, before, done + [b], made0, AfterMerge(commits, b, g[b], added), made + added)
  {
    var commits', made' := AfterMerge(commits, b, g[b], added), made + added;
    forall x, c | x in before && c in before[x] ensures c !in made' - made0 {
      InheritedStep(g, top, before, x, c);
      assert c !in made - made0;
      assert x in commits && c in commits[x];
      assert c !in added;
    }
    assert forall x :: x in before && x !in done + [b] ==> commits'[x] == before[x];
    assert forall x, c :: x in before && x in done && c !in made' - made0 ==>
      (c in commits'[x] <==> Inherited(g, top, before, x, c));
    forall c | c !in made + added - made0
      ensures c in commits[b] + commits[g[b]] + added <==> Inherited(g, top, before, b, c)
    {
      InheritedStep(g, top, before, b, c);
    }
  }

  lemma MergedSkip(
      g: map<Branch, Branch>, top: Option<Branch>, before: map<Branch, set<Commit>>, done: seq<Branch>,
      made0: set<Commit>, commits: map<Branch, set<Commit>>, made: set<Commit>, b: Branch)
    requires Merged(g, top, before, done, made0, commits, made)
    requires b !in g && b !in done
    ensures Merged(g, top, before, done + [b], made0, commits, made)
  {
    if b in before {
      forall c ensures c in commits[b] <==> Inherited(g, top, before, b, c) {
        InheritedStep(g, top, before, b, c);
      }
    }
  }

  // ----- where the merges go

  /** The last branch in `order` that has a parent and no listed worktree: the one checked out last. */
  ghost function LastSwitch(order: seq<Branch>, parentOf: map<Branch, Branch>, listing: map<Branch, string>)
    : Option<Branch>
  {
    if order == [] then None
    else
      var b := order[|order| - 1];
      if b in parentOf && b !in listing then Some(b) else LastSwitch(order[..|order| - 1], parentOf, listing)
  }

  lemma {:induction false} LastSwitchListed(
      order: seq<Branch>, parentOf: map<Branch, Branch>, listing: map<Branch, string>)
    ensures LastSwitch(order, parentOf, listing).Some? <==>
            exists j :: 0 <= j < |order| && order[j] in parentOf && order[j] !in listing
    ensures LastSwitch(order, parentOf, listing).Some? ==>
              LastSwitch(order, parentOf, listing).value in order &&
              LastSwitch(order, parentOf, listing).value in parentOf &&
              LastSwitch(order, parentOf, listing).value !in listing
  {
    if order != [] {
      LastSwitchListed(order[..|order| - 1], parentOf, listing);
    }
  }

  /** The worktrees once the branches in `order` have been merged into. */
  ghost function PlacesAfter(
      w: Worktrees, order: seq<Branch>, parentOf: map<Branch, Branch>, listing: map<Branch, string>): Worktrees
  {
    var last := LastSwitch(order, parentOf, listing);
    if last.None? then w else w.Switched(last)
  }

  /** The branch that the merge for `order[i]` changes. */
  ghost function Into(
      w: Worktrees, order: seq<Branch>, parentOf: map<Branch, Branch>, listing: map<Branch, string>, i: nat)
    : Option<Branch>
    requires i < |order|
  {
    if order[i] in listing then PlacesAfter(w, order[..i], parentOf, listing).At(listing[order[i]]) else Some(order[i])
  }

  /**
   * The listing says that `order[i]` is checked out where the program runs, and that is no longer true, since
   * the program has checked out an earlier branch there.
   */
  ghost predicate Stale(
      w: Worktrees, order: seq<Branch>, parentOf: map<Branch, Branch>, listing: map<Branch, string>, i: nat)
    requires i < |order|
  {
    order[i] in parentOf && order[i] in listing && w.here == Some(listing[order[i]]) &&
    exists j :: 0 <= j < i && order[j] in parentOf && order[j] !in listing
  }

  /** One of the first `n` merges meets a stale listing. */
  ghost predicate AnyStale(
      w: Worktrees, order: seq<Branch>, parentOf: map<Branch, Branch>, listing: map<Branch, string>, n: nat)
    requires n <= |order|
  {
    exists i :: 0 <= i < n && Stale(w, order, parentOf, listing, i)
  }

  /** A merge goes into the branch it is meant for exactly when the listing is not stale by then. */
  lemma MergesIntoItself(
      w: Worktrees, listed: bool, order: seq<Branch>, parentOf: map<Branch, Branch>, listing: map<Branch, string>,
      i: nat)
    requires i < |order| && order[i] in parentOf && Distinct(order) && Lists(w, listed, listing)
    ensures Into(w, order, parentOf, listing, i) == Some(order[i]) <==> !Stale(w, order, parentOf, listing, i)
    ensures Stale(w, order, parentOf, listing, i) ==>
              Into(w, order, parentOf, listing, i) == LastSwitch(order[..i], parentOf, listing)
  {
    LastSwitchListed(order[..i], parentOf, listing);
    if exists j :: 0 <= j < i && order[j] in parentOf && order[j] !in listing {
      var j :| 0 <= j < i && order[j] in parentOf && order[j] !in listing;
      assert order[..i][j] == order[j];
    }
    if order[i] in listing {
      assert w.At(listing[order[i]]) == Some(order[i]);
    }
  }

  /** In the main worktree, or when git cannot list the worktrees, nothing goes stale. */
  lemma StaleOnlyInLinked(
      w: Worktrees, listed: bool, order: seq<Branch>, parentOf: map<Branch, Branch>, listing: map<Branch, string>)
    requires w.Once() && Lists(w, listed, listing) && Distinct(order)
    ensures AnyStale(w, order, parentOf, listing, |order|) <==>
            listed && w.here.Some? && w.Head().Some? &&
            exists i, j :: 0 <= j < i < |order| && Some(order[i]) == w.Head() && order[i] in parentOf &&
              order[j] in parentOf && order[j] !in listing
  {
    if AnyStale(w, order, parentOf, listing, |order|) {
      var i :| 0 <= i < |order| && Stale(w, order, parentOf, listing, i);
      assert w.At(listing[order[i]]) == Some(order[i]);
    }
    if i, j :| listed && w.here.Some? && 0 <= j < i < |order| && Some(order[i]) == w.Head() &&
               order[i] in parentOf && order[j] in parentOf && order[j] !in listing {
      assert w.At(listing[order[i]]) == w.At(w.here.value);
      assert Stale(w, order, parentOf, listing, i);
    }
  }

  // ----- the loop

  lemma PlacesStep(
      w: Worktrees, order: seq<Branch>, parentOf: map<Branch, Branch>, listing: map<Branch, string>, i: nat)
    requires i < |order|
    ensures PlacesAfter(w, order[..i + 1], parentOf, listing) ==
            if order[i] in parentOf && order[i] !in listing then
              PlacesAfter(w, order[..i], parentOf, listing).Switched(Some(order[i]))
            else PlacesAfter(w, order[..i], parentOf, listing)
  {
    assert order[..i + 1][..i] == order[..i];
    var last := LastSwitch(order[..i], parentOf, listing);
    if last.Some? && w.here.Some? {
      assert w.linked[w.here.value := last.value][w.here.value := order[i]] == w.linked[w.here.value := order[i]];
    }
  }

  /** No two merges meet a stale listing: it is stale for the branch that was checked out at the start only. */
  lemma StaleOnce(
      w: Worktrees, listed: bool, order: seq<Branch>, parentOf: map<Branch, Branch>, listing: map<Branch, string>,
      i: nat, j: nat)
    requires i < |order| && j < |order| && i != j && Distinct(order) && Lists(w, listed, listing)
    requires Stale(w, order, parentOf, listing, i)
    ensures !Stale(w, order, parentOf, listing, j)
  {
    assert w.At(listing[order[i]]) == Some(order[i]);
    if order[j] in listing {
      assert w.At(listing[order[j]]) == Some(order[j]);
    }
  }

  /** What the loop keeps about the history after `n` turns. */
  ghost predicate Merging(
      w: Worktrees, order: seq<Branch>, parentOf: map<Branch, Branch>, listing: map<Branch, string>,
      top: Option<Branch>, before: map<Branch, set<Commit>>, made0: set<Commit>, n: nat,
      commits: map<Branch, set<Commit>>, made: set<Commit>)
    requires n <= |order|
  {
    commits.Keys == before.Keys && (forall b :: b in before ==> before[b] <= commits[b]) &&
    (!AnyStale(w, order, parentOf, listing, n) ==> Merged(parentOf, top, before, order[..n], made0, commits, made)) &&
    forall i :: 0 <= i < n && Stale(w, order, parentOf, listing, i) && order[i] in before ==>
      commits[order[i]] == before[order[i]]
  }

  lemma MergingStep(
      w: Worktrees, listed: bool, order: seq<Branch>, parentOf: map<Branch, Branch>, listing: map<Branch, string>,
      top: Option<Branch>, before: map<Branch, set<Commit>>, made0: set<Commit>, n: nat,
      commits: map<Branch, set<Commit>>, made: set<Commit>, into: Branch, added: set<Commit>)
    requires n < |order| && MergeOrder(parentOf, top, order) && Lists(w, listed, listing)
    requires Merging(w, order, parentOf, listing, top, before, made0, n, commits, made)
    requires order[n] in parentOf && order[n] in before && parentOf[order[n]] in before && into in before
    requires Into(w, order, parentOf, listing, n) == Some(into)
    requires New(added, commits, made)
    ensures Merging(w, order, parentOf, listing, top, before, made0, n + 1,
                    AfterMerge(commits, into, parentOf[order[n]], added), made + added)
  {
    var b := order[n];
    var commits' := AfterMerge(commits, into, parentOf[b], added);
    assert order[..n + 1] == order[..n] + [b];
    MergesIntoItself(w, listed, order, parentOf, listing, n);
    if !AnyStale(w, order, parentOf, listing, n + 1) {
      assert !Stale(w, order, parentOf, listing, n);
      assert b !in order[..n];
      assert top == Some(b) ==> n == 0;
      MergedStep(parentOf, top, before, order[..n], made0, commits, made, b, added);
    }
    forall i | 0 <= i < n + 1 && Stale(w, order, parentOf, listing, i) && order[i] in before
      ensures commits'[order[i]] == before[order[i]]
    {
      if i == n {
        forall j | 0 <= j < n ensures !Stale(w, order, parentOf, listing, j) {
          StaleOnce(w, listed, order, parentOf, listing, n, j);
        }
        assert b !in order[..n];
      } else {
        StaleOnce(w, listed, order, parentOf, listing, i, n);
      }
    }
  }

  lemma MergingSkip(
      w: Worktrees, order: seq<Branch>, parentOf: map<Branch, Branch>, listing: map<Branch, string>,
      top: Option<Branch>, before: map<Branch, set<Commit>>, made0: set<Commit>, n: nat,
      commits: map<Branch, set<Commit>>, made: set<Commit>)
    requires n < |order| && Distinct(order) && order[n] !in parentOf
    requires Merging(w, order, parentOf, listing, top, before, made0, n, commits, made)
    ensures Merging(w, order, parentOf, listing, top, before, made0, n + 1, commits, made)
  {
    assert order[..n + 1] == order[..n] + [order[n]];
    assert order[n] !in order[..n];
    if !AnyStale(w, order, parentOf, listing, n + 1) {
      MergedSkip(parentOf, top, before, order[..n], made0, commits, made, order[n]);
    }
  }

  /** Check out again what was checked out at the start; a failure is ignored. */
  method Restore(hist: History, original: Option<Branch>)
    modifies hist`places, hist`failures, hist`ignored
    ensures hist.failures == old(hist.failures) && hist.ignored >= old(hist.ignored)
    ensures original.Some? && hist.ignored == old(hist.ignored) ==> hist.places.Head() == original
    ensures hist.places ==
            if original.Some? && hist.ignored == old(hist.ignored) && old(hist.places).Head() != original then
              old(hist.places).Switched(original)
            else old(hist.places)
  {
    if original.Some? && hist.places.Head() != original {
      var restored := hist.Checkout(original.value, false);
    }
  }

  /** A merge where the program runs, after checking out `b`.  On failure the branch of the start is restored. */
  method MergeHere(hist: History, b: Branch, parent: Branch, original: Option<Branch>)
    returns (ok: bool, ghost added: set<Commit>)
    requires hist.Valid() && b in hist.commits
    modifies hist
    ensures hist.Valid() && hist.unlisted == old(hist.unlisted)
    ensures ok ==> parent in old(hist.commits) && hist.commits == AfterMerge(old(hist.commits), b, parent, added)
    ensures ok ==> hist.made == old(hist.made) + added && New(added, old(hist.commits), old(hist.made))
    ensures !ok ==> hist.commits == old(hist.commits) && hist.made == old(hist.made)
    ensures hist.failures == old(hist.failures) + if ok then 0 else 1
    ensures ok ==> hist.ignored == old(hist.ignored) && hist.places == old(hist.places).Switched(Some(b))
    ensures !ok ==> Kept(old(hist.places), hist.places, {})
    ensures !ok ==> hist.places.Head() in {old(hist.places).Head(), Some(b), original}
    ensures !ok && original.Some? && hist.ignored == old(hist.ignored) ==> hist.places.Head() == original
    ensures hist.ignored >= old(hist.ignored)
  {
    added := {};
    ok := hist.Checkout(b, true);
    if ok {
      ok, added := hist.Merge(None, parent);
    }
    if !ok {
      Restore(hist, original);
    }
  }

  /** One merge: where the listing says `b` is checked out, or else here.  A failure elsewhere changes nothing. */
  method MergeParent(
      hist: History, b: Branch, parent: Branch, listing: map<Branch, string>, original: Option<Branch>)
    returns (ok: bool, ghost into: Branch, ghost added: set<Commit>)
    requires hist.Valid() && b in hist.commits
    requires b in listing ==>
               hist.places.At(listing[b]).Some? && hist.places.At(listing[b]).value in hist.commits
    modifies hist
    ensures hist.Valid() && hist.unlisted == old(hist.unlisted) && into in old(hist.commits)
    ensures if b in listing then Some(into) == old(hist.places).At(listing[b]) else into == b
    ensures ok ==> parent in old(hist.commits) && hist.commits == AfterMerge(old(hist.commits), into, parent, added)
    ensures ok ==> hist.made == old(hist.made) + added && New(added, old(hist.commits), old(hist.made))
    ensures !ok ==> hist.commits == old(hist.commits) && hist.made == old(hist.made)
    ensures hist.failures == old(hist.failures) + if ok then 0 else 1
    ensures ok ==> hist.ignored == old(hist.ignored)
    ensures ok || b in listing ==>
              hist.places == if b in listing then old(hist.places) else old(hist.places).Switched(Some(b))
    ensures !ok ==> Kept(old(hist.places), hist.places, {})
    ensures !ok ==> hist.places.Head() in {old(hist.places).Head(), Some(b), original}
    // the branch of the start is restored after a failure here, not after one elsewhere
    ensures !ok && b !in listing && original.Some? && hist.ignored == old(hist.ignored) ==>
              hist.places.Head() == original
  {
    if b in listing {
      into := hist.places.At(listing[b]).value;
      ok, added := hist.Merge(Some(listing[b]), parent);
    } else {
      into := b;
      ok, added := MergeHere(hist, b, parent, original);
    }
  }

  /** A worktree that the listing names is still on its branch, or on the branch checked out last. */
  lemma ListedTarget(
      w: Worktrees, listed: bool, order: seq<Branch>, parentOf: map<Branch, Branch>, listing: map<Branch, string>,
      i: nat)
    requires i < |order| && Lists(w, listed, listing) && order[i] in listing
    ensures Into(w, order, parentOf, listing, i).Some?
    ensures Into(w, order, parentOf, listing, i).value in order &&
            (order[i] in parentOf ==> Into(w, order, parentOf, listing, i).value in parentOf)
  {
    LastSwitchListed(order[..i], parentOf, listing);
    assert w.At(listing[order[i]]) == Some(order[i]);
  }

  /** After any number of turns only HEAD has moved, to a branch of the list. */
  lemma PlacesKept(w: Worktrees, order: seq<Branch>, parentOf: map<Branch, Branch>, listing: map<Branch, string>)
    ensures Kept(w, PlacesAfter(w, order, parentOf, listing), {})
    ensures HeadIn(PlacesAfter(w, order, parentOf, listing).Head(), w.Head(), order)
  {
    LastSwitchListed(order, parentOf, listing);
  }

  ghost predicate HeadIn(head: Option<Branch>, original: Option<Branch>, order: seq<Branch>) {
    head == original || (head.Some? && head.value in order)
  }

  lemma KeptTwice(w: Worktrees, w1: Worktrees, w2: Worktrees)
    requires Kept(w, w1, {}) && Kept(w1, w2, {})
    ensures Kept(w, w2, {})
  {
  }

  /** One turn of the loop, for a branch with a parent. */
  method MergeTurn(
      hist: History, order: seq<Branch>, i: nat, parentOf: map<Branch, Branch>, listing: map<Branch, string>,
      original: Option<Branch>, ghost top: Option<Branch>, ghost w: Worktrees, ghost listed: bool,
      ghost before: map<Branch, set<Commit>>, ghost made0: set<Commit>)
    returns (ok: bool)
    requires hist.Valid() && MergeOrder(parentOf, top, order) && Lists(w, listed, listing) && original == w.Head()
    requires i < |order| && order[i] in parentOf && forall b :: b in parentOf && b in order ==> b in before
    requires Merging(w, order, parentOf, listing, top, before, made0, i, hist.commits, hist.made)
    requires hist.places == PlacesAfter(w, order[..i], parentOf, listing)
    modifies hist
    ensures hist.Valid() && hist.unlisted == old(hist.unlisted)
    ensures Merging(w, order, parentOf, listing, top, before, made0, if ok then i + 1 else i, hist.commits, hist.made)
    ensures ok ==> hist.places == PlacesAfter(w, order[..i + 1], parentOf, listing)
    ensures hist.failures == old(hist.failures) + if ok then 0 else 1
    ensures ok ==> hist.ignored == old(hist.ignored)
    ensures !ok ==> Kept(w, hist.places, {}) && HeadIn(hist.places.Head(), original, order)
  {
    var b := order[i];
    PlacesStep(w, order, parentOf, listing, i);
    PlacesKept(w, order[..i], parentOf, listing);
    if b in listing {
      ListedTarget(w, listed, order, parentOf, listing, i);
    }
    ghost var commits, made, places := hist.commits, hist.made, hist.places;
    ghost var into, added;
    ok, into, added := MergeParent(hist, b, parentOf[b], listing, original);
    if ok {
      MergingStep(w, listed, order, parentOf, listing, top, before, made0, i, commits, made, into, added);
    } else {
      KeptTwice(w, places, hist.places);
    }
  }

  /** One turn of the loop: a branch without a parent is passed over. */
  method MergeNext(
      hist: History, order: seq<Branch>, i: nat, parentOf: map<Branch, Branch>, listing: map<Branch, string>,
      original: Option<Branch>, ghost top: Option<Branch>, ghost w: Worktrees, ghost listed: bool,
      ghost before: map<Branch, set<Commit>>, ghost made0: set<Commit>)
    returns (ok: bool)
    requires hist.Valid() && MergeOrder(parentOf, top, order) && Lists(w, listed, listing) && original == w.Head()
    requires i < |order| && forall b :: b in parentOf && b in order ==> b in before
    requires Merging(w, order, parentOf, listing, top, before, made0, i, hist.commits, hist.made)
    requires hist.places == PlacesAfter(w, order[..i], parentOf, listing)
    modifies hist
    ensures hist.Valid() && hist.unlisted == old(hist.unlisted)
    ensures Merging(w, order, parentOf, listing, top, before, made0, if ok then i + 1 else i, hist.commits, hist.made)
    ensures ok ==> hist.places == PlacesAfter(w, order[..i + 1], parentOf, listing)
    ensures hist.failures == old(hist.failures) + if ok then 0 else 1
    ensures ok ==> hist.ignored == old(hist.ignored)
    ensures !ok ==> Kept(w, hist.places, {}) && HeadIn(hist.places.Head(), original, order)
  {
    if order[i] in parentOf {
      ok := MergeTurn(hist, order, i, parentOf, listing, original, top, w, listed, before, made0);
    } else {
      PlacesStep(w, order, parentOf, listing, i);
      MergingSkip(w, order, parentOf, listing, top, before, made0, i, hist.commits, hist.made);
      ok := true;
    }
  }

  /** The loop both programs share.  It stops at the first merge or checkout that fails. */
  method MergeEach(
      hist: History, order: seq<Branch>, parentOf: map<Branch, Branch>, listing: map<Branch, string>,
      original: Option<Branch>, ghost top: Option<Branch>, ghost w: Worktrees, ghost listed: bool,
      ghost before: map<Branch, set<Commit>>, ghost made0: set<Commit>)
    returns (ok: bool, ghost done: nat)
    requires hist.Valid() && MergeOrder(parentOf, top, order) && Lists(w, listed, listing) && original == w.Head()
    requires forall b :: b in parentOf && b in order ==> b in before
    requires Merging(w, order, parentOf, listing, top, before, made0, 0, hist.commits, hist.made) && hist.places == w
    modifies hist
    ensures hist.Valid() && hist.unlisted == old(hist.unlisted) && done <= |order| && (ok <==> done == |order|)
    ensures Merging(w, order, parentOf, listing, top, before, made0, done, hist.commits, hist.made)
    ensures ok ==> hist.places == PlacesAfter(w, order, parentOf, listing) && hist.ignored == old(hist.ignored)
    ensures hist.failures == old(hist.failures) + if ok then 0 else 1
    ensures !ok ==> Kept(w, hist.places, {}) && HeadIn(hist.places.Head(), original, order)
  {
    done := 0;
    for i := 0 to |order|
      invariant hist.Valid() && hist.unlisted == old(hist.unlisted) && done == i
      invariant Merging(w, order, parentOf, listing, top, before, made0, i, hist.commits, hist.made)
      invariant hist.places == PlacesAfter(w, order[..i], parentOf, listing)
      invariant hist.failures == old(hist.failures) && hist.ignored == old(hist.ignored)
    {
      ok := MergeNext(hist, order, i, parentOf, listing, original, top, w, listed, before, made0);
      if !ok {
        return;
      }
      done := i + 1;
    }
    assert order[..|order|] == order;
    ok := true;
  }

  /** The end of a loop that no failure stopped. */
  method RestoreAfter(
      hist: History, original: Option<Branch>, ghost order: seq<Branch>, ghost parentOf: map<Branch, Branch>,
      ghost listing: map<Branch, string>, ghost w: Worktrees)
    requires original == w.Head() && hist.places == PlacesAfter(w, order, parentOf, listing)
    modifies hist`places, hist`failures, hist`ignored
    ensures hist.failures == old(hist.failures) && hist.ignored >= old(hist.ignored)
    ensures Kept(w, hist.places, {}) && HeadIn(hist.places.Head(), original, order)
    ensures original.Some? && hist.ignored == old(hist.ignored) ==> hist.places.Head() == original
  {
    PlacesKept(w, order, parentOf, listing);
    ghost var places := hist.places;
    Restore(hist, original);
    KeptTwice(w, places, hist.places);
  }

  /** What both programs do from the listing of worktrees on. */
  method MergeInOrder(
      hist: History, order: seq<Branch>, parentOf: map<Branch, Branch>, ghost top: Option<Branch>)
    returns (ok: bool, ghost done: nat, ghost listing: map<Branch, string>, ghost listed: bool)
    requires hist.Valid() && MergeOrder(parentOf, top, order)
    requires forall b :: b in parentOf && b in order ==> b in hist.commits
    modifies hist
    ensures hist.Valid() && done <= |order| && Lists(old(hist.places), listed, listing)
    ensures hist.unlisted == old(hist.unlisted) + if listed then 0 else 1
    ensures ok <==> done == |order|
    ensures hist.failures == old(hist.failures) + if ok then 0 else 1
    ensures Merging(old(hist.places), order, parentOf, listing, top, old(hist.commits), old(hist.made), done,
                    hist.commits, hist.made)
    ensures Kept(old(hist.places), hist.places, {})
    ensures HeadIn(hist.places.Head(), old(hist.places).Head(), order)
    ensures ok && old(hist.places).Head().Some? && hist.ignored == old(hist.ignored) ==>
              hist.places.Head() == old(hist.places).Head()
  {
    ghost var before, made0, w := hist.commits, hist.made, hist.places;
    var original := hist.places.Head();
    var worktrees;
    worktrees, listed := hist.ListWorktrees();
    listing := worktrees;
    ok, done := MergeEach(hist, order, parentOf, worktrees, original, top, w, listed, before, made0);
    if ok {
      RestoreAfter(hist, original, order, parentOf, worktrees, w);
    }
  }

  function ParentsOf(graph: map<Branch, Option<Branch>>): map<Branch, Branch> {
    map b | b in graph && graph[b].Some? :: graph[b].value
  }

  lemma ParentsRecorded(config: map<Branch, string>, locals: seq<Branch>, graph: map<Branch, Option<Branch>>)
    requires Records(config, locals, graph)
    ensures ParentsOf(graph) == ParentGraph(config, locals)
  {
    RecordsEdges(config, locals, graph);
  }

  /**
   * tools/git_update_all.py.  It succeeds exactly when there is no cycle and no checked command fails.  Then every
   * node holds exactly what it inherits, unless the listing of worktrees went stale on the way.
   */
  method UpdateAll(hist: History, config: map<Branch, string>, locals: seq<Branch>)
    returns (ok: bool, ghost order: seq<Branch>, ghost done: nat, ghost listing: map<Branch, string>,
             ghost listed: bool)
    requires hist.Valid() && hist.commits.Keys >= Members(locals)
    modifies hist
    ensures ok <==> Acyclic(ParentGraph(config, locals)) && hist.failures == old(hist.failures)
    ensures Acyclic(ParentGraph(config, locals)) ==>
              Distinct(order) && Members(order) == Nodes(ParentGraph(config, locals)) &&
              MergeOrder(ParentGraph(config, locals), None, order) && hist.failures <= old(hist.failures) + 1
    ensures !Acyclic(ParentGraph(config, locals)) ==> order == [] && unchanged(hist)
    ensures done <= |order| && (ok ==> done == |order|)
    ensures Acyclic(ParentGraph(config, locals)) ==>
              hist.unlisted == old(hist.unlisted) + (if listed then 0 else 1) &&
              Lists(old(hist.places), listed, listing) &&
              Merging(old(hist.places), order, ParentGraph(config, locals), listing, None, old(hist.commits),
                      old(hist.made), done, hist.commits, hist.made)
    ensures ok && !AnyStale(old(hist.places), order, ParentGraph(config, locals), listing, |order|) ==>
              Merged(ParentGraph(config, locals), None, old(hist.commits), order, old(hist.made),
                     hist.commits, hist.made)
    ensures Kept(old(hist.places), hist.places, {}) && HeadIn(hist.places.Head(), old(hist.places).Head(), order)
    ensures ok && old(hist.places).Head().Some? && hist.ignored == old(hist.ignored) ==>
              hist.places.Head() == old(hist.places).Head()
  {
    var sort := TopologicalSort(config, locals);
    if sort.CycleDetected? {
      ok, order, done, listing, listed := false, [], 0, map[], true;
      return;
    }
    order := sort.order;
    ParentsRecorded(config, locals, sort.graph);
    ok, done, listing, listed := MergeInOrder(hist, sort.order, ParentsOf(sort.graph), None);
    assert order[..|order|] == order;
  }

  /**
   * tools/git_update_stack.py.  It succeeds exactly when the target is local, its walk ends and no checked
   * command fails.
   */
  method UpdateStack(
      hist: History, target: Branch, mainline: set<Branch>, config: map<Branch, string>, locals: seq<Branch>)
    returns (ok: bool, ghost order: seq<Branch>, ghost done: nat, ghost listing: map<Branch, string>,
             ghost listed: bool)
    requires hist.Valid() && hist.commits.Keys >= Members(locals)
    modifies hist
    ensures ok <==> target in locals && !Endless(WalkGraph(config, mainline, locals), target) &&
                    hist.failures == old(hist.failures)
    ensures order != [] <==> target in locals && !Endless(WalkGraph(config, mainline, locals), target)
    ensures order == [] ==> unchanged(hist)
    ensures order != [] ==>
              IsTop(WalkGraph(config, mainline, locals), target, order[0]) &&
              IsStack(ParentGraph(config, locals), order[0], order) && target in order &&
              hist.failures <= old(hist.failures) + 1
    ensures done <= |order| && (ok ==> done == |order|)
    ensures order != [] ==>
              hist.unlisted == old(hist.unlisted) + (if listed then 0 else 1) &&
              Lists(old(hist.places), listed, listing) &&
              Merging(old(hist.places), order, ParentGraph(config, locals), listing, Some(order[0]),
                      old(hist.commits), old(hist.made), done, hist.commits, hist.made)
    ensures ok && !AnyStale(old(hist.places), order, ParentGraph(config, locals), listing, |order|) ==>
              Merged(ParentGraph(config, locals), Some(order[0]), old(hist.commits), order, old(hist.made),
                     hist.commits, hist.made)
    ensures Kept(old(hist.places), hist.places, {}) && HeadIn(hist.places.Head(), old(hist.places).Head(), order)
    ensures ok && old(hist.places).Head().Some? && hist.ignored == old(hist.ignored) ==>
              hist.places.Head() == old(hist.places).Head()
  {
    ok, order, done, listing, listed := false, [], 0, map[], true;
    if target !in locals {
      return;
    }
    var stack, warned := StackBranchesOrdered(target, mainline, config, locals);
    if stack.Err? || stack.value == [] {
      return;
    }
    order := stack.value;
    var parentOf := map b | b in locals && BranchParent(config, b).Some? :: BranchParent(config, b).value;
    assert parentOf == ParentGraph(config, locals);
    ok, done, listing, listed := MergeInOrder(hist, stack.value, parentOf, Some(stack.value[0]));
    assert order[..|order|] == order;
  }

  /**
   * In a finished update, every branch holds the old history of every branch above it: of all stacks, or up to the
   * top of one, and then that of the parent of the top as well.
   */
  lemma ChainIsInherited(
      g: map<Branch, Branch>, top: Option<Branch>, before: map<Branch, set<Commit>>, b: Branch, a: Branch, c: Commit)
    requires b == a || Descends(Cut(g, top), b, a)
    requires (a in before && c in before[a]) || (top == Some(a) && a in g && g[a] in before && c in before[g[a]])
    ensures Inherited(g, top, before, b, c)
  {
    if b == a {
      assert ChainHolds(g, top, before, b, 0, c);
    } else {
      var n: nat :| n > 0 && Up(Cut(g, top), b, n) == Some(a);
      assert ChainHolds(g, top, before, b, n, c);
    }
  }

  /** The branches of a stack hang from its base, without the link above that. */
  lemma {:induction false} StackHangs(g: map<Branch, Branch>, base: Branch, order: seq<Branch>, i: nat)
    requires ParentsFirst(g, base, order) && 0 < i < |order|
    ensures Descends(Cut(g, Some(base)), order[i], base)
  {
    assert order[i] in g && g[order[i]] in order[..i];
    var cut, p := Cut(g, Some(base)), g[order[i]];
    assert order[i] in cut;
    var j :| 0 <= j < i && order[j] == p;
    if j == 0 {
      assert Up(cut, p, 0) == Some(base);
      assert Up(cut, order[i], 1) == Some(base);
    } else {
      StackHangs(g, base, order, j);
      var n: nat :| n > 0 && Up(cut, p, n) == Some(base);
      assert Up(cut, order[i], n + 1) == Some(base);
    }
  }

  /** In a finished update of a stack, all of it holds the old histories of its base and of the parent of that. */
  lemma StackIsInherited(
      g: map<Branch, Branch>, base: Branch, order: seq<Branch>, before: map<Branch, set<Commit>>, b: Branch, c: Commit)
    requires IsStack(g, base, order) && b in order
    requires (base in before && c in before[base]) || (base in g && g[base] in before && c in before[g[base]])
    ensures Inherited(g, Some(base), before, b, c)
  {
    var i :| 0 <= i < |order| && order[i] == b;
    if i > 0 {
      StackHangs(g, base, order, i);
    }
    ChainIsInherited(g, Some(base), before, b, base, c);
  }

  /** When the listing goes stale for a branch, the update is right only if there was nothing to merge into it. */
  lemma StaleBranchMissesOut(
      w: Worktrees, order: seq<Branch>, g: map<Branch, Branch>, listing: map<Branch, string>, top: Option<Branch>,
      before: map<Branch, set<Commit>>, made0: set<Commit>, commits: map<Branch, set<Commit>>, made: set<Commit>,
      i: nat, c: Commit)
    requires i < |order| && Stale(w, order, g, listing, i) && order[i] in before
    requires Merging(w, order, g, listing, top, before, made0, |order|, commits, made)
    requires Merged(g, top, before, order, made0, commits, made)
    requires Inherited(g, top, before, order[i], c) && c !in made - made0
    ensures c in before[order[i]]
  {
    assert commits[order[i]] == before[order[i]];
  }

  /**
   * A run in a linked worktree on branch "b" that goes wrong: "a" is checked out there first, and then the parent
   * of "b" is merged into "a".  Whatever the commands do, "b" does not get what it inherits.
   */
  lemma StaleRun() returns (
      w: Worktrees, order: seq<Branch>, g: map<Branch, Branch>, listing: map<Branch, string>,
      before: map<Branch, set<Commit>>)
    ensures w.Once() && Lists(w, true, listing) && w.Head() == Some("b") && order == ["main", "a", "b"]
    ensures MergeOrder(g, None, order) && Stale(w, order, g, listing, 2)
    ensures Into(w, order, g, listing, 2) == Some("a")
    ensures forall made0, commits, made ::
              Merging(w, order, g, listing, None, before, made0, 3, commits, made) ==>
                !Merged(g, None, before, order, made0, commits, made)
  {
    w := Worktrees(Some("main"), map["/b" := "b"], Some("/b"));
    order, g, listing := ["main", "a", "b"], map["a" := "main", "b" := "main"], map["b" := "/b"];
    before := map["main" := {0}, "a" := {}, "b" := {}];
    assert order[1] in g && order[1] !in listing;
    assert Stale(w, order, g, listing, 2);
    MergesIntoItself(w, true, order, g, listing, 2);
    assert order[..1] == ["main"] && order[..2] == ["main", "a"];
    forall i {:trigger order[..i]} | 0 <= i < 3 && order[i] in g ensures g[order[i]] in order[..i] {
    }
    InheritedStep(g, None, before, "b", 0);
    InheritedStep(g, None, before, "main", 0);
    forall made0, commits, made | Merging(w, order, g, listing, None, before, made0, 3, commits, made)
      ensures !Merged(g, None, before, order, made0, commits, made)
    {
      if Merged(g, None, before, order, made0, commits, made) {
        assert 0 in before["main"];
        StaleBranchMissesOut(w, order, g, listing, None, before, made0, commits, made, 2, 0);
      }
    }
  }

  /** Every finished update from these histories is right. */
  ghost predicate RightFrom(
      w: Worktrees, order: seq<Branch>, g: map<Branch, Branch>, listing: map<Branch, string>, top: Option<Branch>,
      before: map<Branch, set<Commit>>)
  {
    forall made0, commits, made ::
      Merging(w, order, g, listing, top, before, made0, |order|, commits, made) ==>
        Merged(g, top, before, order, made0, commits, made)
  }

  /** Whenever a listing goes stale, there are histories from which no finished update is right. */
  lemma StaleHistory(
      w: Worktrees, order: seq<Branch>, g: map<Branch, Branch>, listing: map<Branch, string>, top: Option<Branch>)
    returns (before: map<Branch, set<Commit>>)
    requires MergeOrder(g, top, order) && AnyStale(w, order, g, listing, |order|)
    ensures before.Keys == Members(order)
    ensures forall made0, commits, made ::
              Merging(w, order, g, listing, top, before, made0, |order|, commits, made) ==>
                !Merged(g, top, before, order, made0, commits, made)
  {
    var i :| 0 <= i < |order| && Stale(w, order, g, listing, i);
    var b := order[i];
    assert top != Some(b);
    var p := g[b];
    assert p in order[..i] && b !in order[..i];
    before := map x | x in order :: if x == p then {0} else {};
    InheritedStep(g, top, before, p, 0);
    InheritedStep(g, top, before, b, 0);
    forall made0, commits, made | Merging(w, order, g, listing, top, before, made0, |order|, commits, made)
      ensures !Merged(g, top, before, order, made0, commits, made)
    {
      assert Inherited(g, top, before, b, 0) && commits[b] == before[b];
    }
  }

  /** All histories are updated rightly exactly when no listing goes stale. */
  lemma RightIffFresh(
      w: Worktrees, order: seq<Branch>, g: map<Branch, Branch>, listing: map<Branch, string>, top: Option<Branch>)
    requires MergeOrder(g, top, order)
    ensures (forall before :: RightFrom(w, order, g, listing, top, before)) <==>
            !AnyStale(w, order, g, listing, |order|)
  {
    assert order[..|order|] == order;
    if AnyStale(w, order, g, listing, |order|) {
      var before := StaleHistory(w, order, g, listing, top);
      assert Merging(w, order, g, listing, top, before, {}, |order|, before, {});
      assert !RightFrom(w, order, g, listing, top, before);
    }
  }
}
