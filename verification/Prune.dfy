/** tools/git_prune_all.py: mark, move the children of pruned branches up, delete. */
module Prune {
  import opened Wrappers
  import opened Chains
  import opened Branches
  import opened Names
  import opened TopoSort
  import opened PruneMarks
  import opened Repository

  datatype PruneOutcome = CycleError | NothingToPrune | Aborted | Finished(errors: bool)

  ghost predicate HasParentIn(config: map<Branch, string>, c: Branch, S: set<Branch>) {
    BranchParent(config, c).Some? && BranchParent(config, c).value in S
  }

  /** The branches that stay but hang from a branch in `gone`. */
  ghost function Orphans(config: map<Branch, string>, locals: seq<Branch>, pruned: set<Branch>, gone: set<Branch>)
    : set<Branch>
  {
    set c | c in locals && c !in pruned && HasParentIn(config, c, gone)
  }

  /** The settings after the `moved` branches went from their parents in `before` to the targets of these. */
  ghost function MovedConfig(before: map<Branch, string>, remap: map<Branch, Branch>, moved: set<Branch>)
    : map<Branch, string>
  {
    map c | c in before ::
      if c in moved && HasParentIn(before, c, remap.Keys) then remap[BranchParent(before, c).value] else before[c]
  }

  /** Every target of `remap` stays. */
  ghost predicate Resolved(pruned: set<Branch>, remap: map<Branch, Branch>) {
    remap.Keys == pruned && forall b :: b in remap ==> remap[b] !in pruned && IsName(remap[b])
  }

  lemma MovedStep(
      before: map<Branch, string>, locals: seq<Branch>, pruned: set<Branch>, remap: map<Branch, Branch>,
      moved: set<Branch>, c: Branch, b: Branch)
    requires Resolved(pruned, remap) && b in pruned && c in locals && c !in pruned && c !in moved
    requires BranchParent(MovedConfig(before, remap, moved), c) == Some(b)
    ensures MovedConfig(before, remap, moved + {c}) == MovedConfig(before, remap, moved)[c := remap[b]]
    ensures c in Orphans(before, locals, pruned, pruned)
  {
    assert BranchParent(before, c) == Some(b);
  }

  /** All orphans of `b` have moved once its children have been seen. */
  lemma ChildrenMoved(
      before: map<Branch, string>, locals: seq<Branch>, pruned: set<Branch>, remap: map<Branch, Branch>,
      moved0: set<Branch>, moved: set<Branch>, children: seq<Branch>, b: Branch)
    requires forall c :: c in locals && BranchParent(MovedConfig(before, remap, moved0), c) == Some(b) ==> c in children
    requires moved0 <= moved && Members(children) <= pruned + moved
    ensures Orphans(before, locals, pruned, {b}) <= moved
  {
    forall c | c in Orphans(before, locals, pruned, {b}) ensures c in moved {
      if c !in moved0 {
        assert BranchParent(MovedConfig(before, remap, moved0), c) == Some(b);
        assert c in Members(children);
      }
    }
  }

  lemma StillChild(
      before: map<Branch, string>, remap: map<Branch, Branch>, moved0: set<Branch>, moved: set<Branch>,
      locals: seq<Branch>, children: seq<Branch>, c: Branch, b: Branch)
    requires children == ChildList(MovedConfig(before, remap, moved0), b, locals)
    requires moved0 <= moved && c in children && c !in moved
    ensures c in locals && BranchParent(MovedConfig(before, remap, moved), c) == Some(b)
  {
    assert BranchParent(MovedConfig(before, remap, moved0), c) == Some(b);
  }

  /** The body of the inner loop: move one child, unless it is pruned itself or has been moved. */
  method MoveChild(
      repo: Repo, child: Branch, b: Branch, newParent: Branch, pruned: set<Branch>, ghost remap: map<Branch, Branch>,
      ghost moved0: set<Branch>, moved1: set<Branch>, ghost before: map<Branch, string>, ghost children: seq<Branch>)
    returns (ok: bool, moved: set<Branch>)
    requires Resolved(pruned, remap) && b in pruned && newParent == remap[b]
    requires children == ChildList(MovedConfig(before, remap, moved0), b, repo.branches) && child in children
    requires repo.config == MovedConfig(before, remap, moved1)
    requires moved0 <= moved1 <= Orphans(before, repo.branches, pruned, pruned)
    modifies repo`config, repo`writes, repo`failures, repo`configFailures
    ensures repo.config == MovedConfig(before, remap, moved)
    ensures moved1 <= moved <= Orphans(before, repo.branches, pruned, pruned)
    ensures ok ==> child in pruned + moved
    ensures repo.writes - |moved| == old(repo.writes) - |moved1|
    ensures repo.failures == old(repo.failures) + if ok then 0 else 1
    ensures repo.configFailures == old(repo.configFailures) + if ok then 0 else 1
  {
    ok, moved := true, moved1;
    if child !in pruned && child !in moved1 {
      StillChild(before, remap, moved0, moved1, repo.branches, children, child, b);
      MovedStep(before, repo.branches, pruned, remap, moved1, child, b);
      ok := repo.SetParent(child, newParent);
      if ok {
        moved := moved1 + {child};
      }
    }
  }

  /** The inner loop: move the children of one pruned branch.  It stops at the first setting that fails. */
  method MoveChildrenOf(
      repo: Repo, b: Branch, pruned: set<Branch>, remap: map<Branch, Branch>, moved0: set<Branch>,
      ghost before: map<Branch, string>)
    returns (ok: bool, moved: set<Branch>)
    requires Resolved(pruned, remap) && b in pruned
    requires repo.config == MovedConfig(before, remap, moved0)
    requires moved0 <= Orphans(before, repo.branches, pruned, pruned)
    modifies repo`config, repo`writes, repo`failures, repo`configFailures
    ensures repo.config == MovedConfig(before, remap, moved)
    ensures moved0 <= moved <= Orphans(before, repo.branches, pruned, pruned)
    ensures ok ==> Orphans(before, repo.branches, pruned, {b}) <= moved
    ensures repo.writes - |moved| == old(repo.writes) - |moved0|
    ensures repo.failures == old(repo.failures) + if ok then 0 else 1
    ensures repo.configFailures == old(repo.configFailures) + if ok then 0 else 1
  {
    ghost var orphans := Orphans(before, repo.branches, pruned, pruned);
    ok, moved := true, moved0;
    var children := BranchChildren(repo.config, b, repo.branches);
    var i := 0;
    while ok && i < |children|
      invariant i <= |children|
      invariant repo.config == MovedConfig(before, remap, moved) && moved0 <= moved <= orphans
      invariant ok ==> Members(children[..i]) <= pruned + moved
      invariant repo.writes - |moved| == old(repo.writes) - |moved0|
      invariant repo.failures == old(repo.failures) + if ok then 0 else 1
      invariant repo.configFailures == old(repo.configFailures) + if ok then 0 else 1
    {
      MembersGrow(children, i);
      ok, moved := MoveChild(repo, children[i], b, remap[b], pruned, remap, moved0, moved, before, children);
      i := i + 1;
    }
    if ok {
      MembersOfAll(children);
      ChildrenMoved(before, repo.branches, pruned, remap, moved0, moved, children, b);
    }
  }

  /** The re-parenting loop.  A failing `git config` ends the program there. */
  method MoveChildren(repo: Repo, pruned: set<Branch>, remap: map<Branch, Branch>)
    returns (ok: bool, moved: set<Branch>)
    requires Resolved(pruned, remap)
    modifies repo`config, repo`writes, repo`failures, repo`configFailures
    ensures repo.config == MovedConfig(old(repo.config), remap, moved)
    ensures moved <= Orphans(old(repo.config), repo.branches, pruned, pruned)
    ensures ok ==> moved == Orphans(old(repo.config), repo.branches, pruned, pruned)
    ensures repo.writes == old(repo.writes) + |moved|
    ensures repo.failures == old(repo.failures) + if ok then 0 else 1
    ensures repo.configFailures == old(repo.configFailures) + if ok then 0 else 1
  {
    ghost var before := repo.config;
    var todo := pruned;
    ok, moved := true, {};
    while todo != {}
      invariant todo <= pruned && ok
      invariant repo.config == MovedConfig(before, remap, moved)
      invariant Orphans(before, repo.branches, pruned, pruned - todo) <= moved
      invariant moved <= Orphans(before, repo.branches, pruned, pruned)
      invariant repo.writes == old(repo.writes) + |moved|
      invariant repo.failures == old(repo.failures) && repo.configFailures == old(repo.configFailures)
    {
      var b :| b in todo;
      todo := todo - {b};
      ok, moved := MoveChildrenOf(repo, b, pruned, remap, moved, before);
      if !ok {
        return;
      }
    }
  }

  /** The parent graph after all orphans have moved and the pruned branches are gone. */
  lemma MovedContracts(
      before: map<Branch, string>, locals: seq<Branch>, pruned: set<Branch>, remap: map<Branch, Branch>,
      moved: set<Branch>, config: map<Branch, string>, config': map<Branch, string>, locals': seq<Branch>)
    requires Resolved(pruned, remap) && pruned <= ParentGraph(before, locals).Keys
    requires forall b :: b in pruned ==> Nearest(ParentGraph(before, locals), pruned, b, remap[b])
    requires config == MovedConfig(before, remap, moved) && moved == Orphans(before, locals, pruned, pruned)
    requires forall c :: c !in pruned ==> (c in config' <==> c in config) && (c in config ==> config'[c] == config[c])
    requires Members(locals') == Members(locals) - pruned
    ensures Contracts(ParentGraph(before, locals), pruned, ParentGraph(config', locals'))
  {
    var g, after := ParentGraph(before, locals), ParentGraph(config', locals');
    assert forall b :: b in locals' <==> b in Members(locals');
    forall c ensures c in after <==> c in g && c !in pruned {
    }
    forall c | c in after ensures Nearest(g, pruned, c, after[c]) {
      NearestThroughParent(g, pruned, c, after[c]);
    }
  }

  /** After the children have moved, nothing that stays names a pruned branch. */
  lemma NoneNamesPruned(
      before: map<Branch, string>, locals: seq<Branch>, pruned: set<Branch>, remap: map<Branch, Branch>,
      moved: set<Branch>, config: map<Branch, string>, c: Branch)
    requires Resolved(pruned, remap) && config == MovedConfig(before, remap, moved)
    requires moved == Orphans(before, locals, pruned, pruned)
    requires c in locals && c !in pruned
    ensures !HasParentIn(config, c, pruned)
  {
  }

  /** What deleting the branches in `gone` leaves of the refs, the settings and the trees. */
  ghost predicate Deleted(
      locals: seq<Branch>, config: map<Branch, string>, tree: map<Branch, Tree>, gone: set<Branch>,
      locals': seq<Branch>, config': map<Branch, string>, tree': map<Branch, Tree>)
  {
    (forall b :: b in locals' <==> b in locals && b !in gone) &&
    config' == config - gone && tree' == tree - gone
  }

  lemma DeletedStep(
      locals: seq<Branch>, config: map<Branch, string>, tree: map<Branch, Tree>, gone: set<Branch>,
      locals': seq<Branch>, config': map<Branch, string>, tree': map<Branch, Tree>, b: Branch)
    requires Deleted(locals, config, tree, gone, locals', config', tree')
    ensures Deleted(locals, config, tree, gone + {b}, Without(locals', b), config' - {b}, tree' - {b})
  {
    assert config' - {b} == config - (gone + {b});
    assert tree' - {b} == tree - (gone + {b});
  }

  // ----- the worktrees while branches are deleted

  /** Where the program ends up when it switches to `target`: on it, or with HEAD detached. */
  ghost function Landing(locals: seq<Branch>, target: Branch): Option<Branch> {
    if target in locals then Some(target) else None
  }

  /** A branch that has not been freed is where it was. */
  lemma KeptElsewhere(w0: Worktrees, w: Worktrees, freed: set<Branch>, b: Branch)
    requires Kept(w0, w, freed) && b !in freed
    ensures w.Elsewhere(b) <==> w0.Elsewhere(b)
  {
    if p :| w0.here != Some(p) && w0.At(p) == Some(b) {
      assert w.At(p) == Some(b);
    }
  }

  /**
   * HEAD after the branches in `turned` have had their turn, and the branch the program takes to be checked out.
   * If HEAD stood on one of them there was one switch, to its effective parent; it may have failed, or the
   * listed worktree in which it happened may be gone.
   */
  ghost predicate HeadFollows(
      w0: Worktrees, head: Option<Branch>, listing: map<Branch, string>, remap: map<Branch, Branch>,
      locals: seq<Branch>, turned: set<Branch>, current: Option<Branch>)
  {
    var h := w0.Head();
    if h.Some? && h.value in turned && h.value in remap && current != h then
      current == Some(remap[h.value]) &&
      (head == Landing(locals, remap[h.value]) || (head == None && w0.here.Some? && h.value in listing))
    else head == current == h
  }

  /** The worktrees after the switch that one turn makes, if it makes one. */
  ghost function AfterSwitch(
      w: Worktrees, locals: seq<Branch>, target: Branch, current: Option<Branch>, now: Option<Branch>): Worktrees
  {
    if now == current then w else w.Switched(Landing(locals, target))
  }

  /** One turn of the deletion loop: switch away if need be, free the worktree, delete. */
  method DeleteOne(
      repo: Repo, b: Branch, target: Branch, current: Option<Branch>, listing: map<Branch, string>)
    returns (ok: bool, now: Option<Branch>)
    requires b != target
    requires current == Some(b) <==> repo.places.Head() == Some(b)
    requires current == Some(b) ==> !repo.places.Elsewhere(b)
    requires b in listing ==> !repo.places.Removed(listing[b]).CheckedOut(b)
    modifies repo`branches, repo`config, repo`tree, repo`places, repo`checkouts, repo`failures, repo`refused
    ensures repo.branches == if ok then Without(old(repo.branches), b) else old(repo.branches)
    ensures repo.config == if ok then old(repo.config) - {b} else old(repo.config)
    ensures repo.tree == if ok then old(repo.tree) - {b} else old(repo.tree)
    ensures repo.failures == old(repo.failures) + if ok then 0 else 1
    ensures repo.checkouts == old(repo.checkouts) + if current == Some(b) then 1 else 0
    ensures now == current || (current == Some(b) && now == Some(target))
    ensures ok && current == Some(b) ==> now == Some(target)
    ensures var w := AfterSwitch(old(repo.places), old(repo.branches), target, current, now);
            repo.places == w || (now != Some(b) && b in listing && repo.places == w.Removed(listing[b]))
    ensures ok ==> !repo.places.CheckedOut(b)
    ensures ok && b in listing ==> repo.places.At(listing[b]) == None
    // git refuses only a branch that is checked out where the program neither stands nor looks
    ensures repo.refused ==
            if current != Some(b) && b !in listing && old(repo.places).CheckedOut(b) then old(repo.refused) + {b}
            else old(repo.refused)
  {
    now := current;
    if current == Some(b) {
      var switched := repo.Checkout(target);
      if !switched {
        return false, now;
      }
      now := Some(target);
    }
    CheckedOutHereOrElsewhere(repo.places, b);
    if b in listing {
      var removed := repo.RemoveWorktree(listing[b]);
      if !removed {
        return false, now;
      }
    }
    ok := repo.DeleteBranch(b);
  }

  lemma HeadBefore(
      w0: Worktrees, head: Option<Branch>, listing: map<Branch, string>, remap: map<Branch, Branch>,
      locals: seq<Branch>, pruned: set<Branch>, turned: set<Branch>, current: Option<Branch>, b: Branch)
    requires Resolved(pruned, remap) && b in pruned && b !in turned
    requires HeadFollows(w0, head, listing, remap, locals, turned, current)
    ensures current == Some(b) <==> head == Some(b)
    ensures current == Some(b) <==> w0.Head() == Some(b)
  {
  }

  /** Removing the listed worktree of a branch frees it, since it was checked out nowhere else. */
  lemma RemovalFrees(w0: Worktrees, w: Worktrees, freed: set<Branch>, b: Branch, path: string)
    requires w0.Once() && Kept(w0, w, freed) && w0.At(path) == Some(b)
    requires w.Head() == Some(b) <==> w0.Head() == Some(b)
    ensures !w.Removed(path).CheckedOut(b)
  {
    assert forall p :: w.At(p) == Some(b) ==> w0.At(p) == Some(b);
    assert forall p :: w.Removed(path).At(p) == if p == path then None else w.At(p);
  }

  /** What is known of a branch before its turn: it is still where it was at the start. */
  lemma BeforeTurn(
      w0: Worktrees, w: Worktrees, listed: bool, listing: map<Branch, string>, remap: map<Branch, Branch>,
      locals: seq<Branch>, pruned: set<Branch>, turned: set<Branch>, current: Option<Branch>, b: Branch)
    requires w0.Once() && Lists(w0, listed, listing) && Resolved(pruned, remap)
    requires Kept(w0, w, turned * listing.Keys)
    requires HeadFollows(w0, w.Head(), listing, remap, locals, turned, current)
    requires b in pruned && b !in turned
    ensures current == Some(b) <==> w.Head() == Some(b)
    ensures current == Some(b) <==> w0.Head() == Some(b)
    ensures current == Some(b) ==> !w.Elsewhere(b)
    ensures b in listing ==> !w.Removed(listing[b]).CheckedOut(b)
    ensures current != Some(b) && b !in listing && w.CheckedOut(b) <==> Hidden(w0, listed, b)
  {
    HeadBefore(w0, w.Head(), listing, remap, locals, pruned, turned, current, b);
    HiddenIsUnlisted(w0, listed, listing, b);
    KeptElsewhere(w0, w, turned * listing.Keys, b);
    CheckedOutHereOrElsewhere(w, b);
    CheckedOutHereOrElsewhere(w0, b);
    if b in listing {
      RemovalFrees(w0, w, turned * listing.Keys, b, listing[b]);
    }
  }

  lemma KeptStep(
      w0: Worktrees, w: Worktrees, w': Worktrees, listed: bool, listing: map<Branch, string>, freed: set<Branch>,
      t: Option<Branch>, b: Branch)
    requires Kept(w0, w, freed) && Lists(w0, listed, listing)
    requires w' == w || w' == w.Switched(t) ||
             (b in listing && (w' == w.Removed(listing[b]) || w' == w.Switched(t).Removed(listing[b])))
    ensures Kept(w0, w', freed + if b in listing then {b} else {})
  {
  }

  lemma HeadStep(
      w0: Worktrees, w: Worktrees, w': Worktrees, listed: bool, listing: map<Branch, string>,
      remap: map<Branch, Branch>, locals: seq<Branch>, left: seq<Branch>, pruned: set<Branch>, turned: set<Branch>,
      current: Option<Branch>, now: Option<Branch>, b: Branch)
    requires Resolved(pruned, remap) && Lists(w0, listed, listing) && w.here == w0.here
    requires HeadFollows(w0, w.Head(), listing, remap, locals, turned, current)
    requires current == Some(b) <==> w0.Head() == Some(b)
    requires b in pruned && b !in turned && (remap[b] in left <==> remap[b] in locals)
    requires now == current || (current == Some(b) && now == Some(remap[b]))
    requires var v := AfterSwitch(w, left, remap[b], current, now);
             w' == v || (now != Some(b) && b in listing && w' == v.Removed(listing[b]))
    ensures HeadFollows(w0, w'.Head(), listing, remap, locals, turned + {b}, now)
  {
  }

  /** Where HEAD ends when nothing fails: on the effective parent, unless the worktree itself was freed. */
  ghost predicate HeadArrives(
      w0: Worktrees, head: Option<Branch>, listing: map<Branch, string>, remap: map<Branch, Branch>,
      locals: seq<Branch>, turned: set<Branch>)
  {
    var h := w0.Head();
    head == if h.Some? && h.value in turned && h.value in remap then
              (if h.value in listing then None else Landing(locals, remap[h.value]))
            else h
  }

  lemma HeadArrivesStep(
      w0: Worktrees, w: Worktrees, w': Worktrees, listed: bool, listing: map<Branch, string>,
      remap: map<Branch, Branch>, locals: seq<Branch>, left: seq<Branch>, pruned: set<Branch>, turned: set<Branch>,
      current: Option<Branch>, now: Option<Branch>, b: Branch)
    requires Resolved(pruned, remap) && Lists(w0, listed, listing) && w0.Once() && w.here == w0.here
    requires HeadArrives(w0, w.Head(), listing, remap, locals, turned)
    requires current == Some(b) <==> w0.Head() == Some(b)
    requires b in pruned && b !in turned && (remap[b] in left <==> remap[b] in locals)
    requires if current == Some(b) then now == Some(remap[b]) else now == current
    requires var v := AfterSwitch(w, left, remap[b], current, now);
             w' == v || (b in listing && w' == v.Removed(listing[b]))
    requires b in listing ==> w'.At(listing[b]) == None
    ensures HeadArrives(w0, w'.Head(), listing, remap, locals, turned + {b})
  {
    if b in listing {
      assert w0.At(listing[b]) == Some(b);
    }
  }

  /** What has been deleted does not come back into a worktree. */
  lemma GoneStayOut(
      w: Worktrees, w': Worktrees, remap: map<Branch, Branch>, left: seq<Branch>, pruned: set<Branch>,
      current: Option<Branch>, now: Option<Branch>, b: Branch, path: string, x: Branch)
    requires Resolved(pruned, remap) && b in pruned && x in pruned && !w.CheckedOut(x)
    requires var v := AfterSwitch(w, left, remap[b], current, now); w' == v || w' == v.Removed(path)
    ensures !w'.CheckedOut(x)
  {
    assert forall p :: w'.At(p) == Some(x) ==> w.At(p) == Some(x);
  }

  /** The hidden branches of a set: git refuses to delete them. */
  ghost function HiddenOf(w: Worktrees, listed: bool, S: set<Branch>): set<Branch> {
    set b | b in S && Hidden(w, listed, b)
  }

  lemma HiddenOfGrows(w: Worktrees, listed: bool, S: set<Branch>, b: Branch)
    ensures HiddenOf(w, listed, S + {b}) == HiddenOf(w, listed, S) + if Hidden(w, listed, b) then {b} else {}
  {
  }

  /** Everything the deletion loop keeps about the worktrees. */
  ghost predicate Turning(
      w0: Worktrees, w: Worktrees, listing: map<Branch, string>, remap: map<Branch, Branch>, locals: seq<Branch>,
      turned: set<Branch>, gone: set<Branch>, current: Option<Branch>, errors: bool)
  {
    Kept(w0, w, turned * listing.Keys) &&
    HeadFollows(w0, w.Head(), listing, remap, locals, turned, current) &&
    (!errors ==> HeadArrives(w0, w.Head(), listing, remap, locals, turned)) &&
    gone <= turned && forall x :: x in gone ==> !w.CheckedOut(x)
  }

  lemma TurningStep(
      w0: Worktrees, w: Worktrees, w': Worktrees, listed: bool, listing: map<Branch, string>,
      remap: map<Branch, Branch>, locals: seq<Branch>, left: seq<Branch>, pruned: set<Branch>, turned: set<Branch>,
      gone: set<Branch>, current: Option<Branch>, now: Option<Branch>, errors: bool, b: Branch, ok: bool)
    requires Resolved(pruned, remap) && Lists(w0, listed, listing) && w0.Once()
    requires Turning(w0, w, listing, remap, locals, turned, gone, current, errors)
    requires current == Some(b) <==> w0.Head() == Some(b)
    requires b in pruned && b !in turned && turned <= pruned && (remap[b] in left <==> remap[b] in locals)
    requires now == current || (current == Some(b) && now == Some(remap[b]))
    requires var v := AfterSwitch(w, left, remap[b], current, now);
             w' == v || (now != Some(b) && b in listing && w' == v.Removed(listing[b]))
    requires ok ==> !w'.CheckedOut(b) && (current == Some(b) ==> now == Some(remap[b]))
    requires ok && b in listing ==> w'.At(listing[b]) == None
    ensures Turning(w0, w', listing, remap, locals, turned + {b}, if ok then gone + {b} else gone, now, errors || !ok)
  {
    KeptStep(w0, w, w', listed, listing, turned * listing.Keys, Landing(left, remap[b]), b);
    assert (turned + {b}) * listing.Keys == turned * listing.Keys + if b in listing then {b} else {};
    HeadStep(w0, w, w', listed, listing, remap, locals, left, pruned, turned, current, now, b);
    if ok && !errors {
      HeadArrivesStep(w0, w, w', listed, listing, remap, locals, left, pruned, turned, current, now, b);
    }
    forall x | x in gone ensures !w'.CheckedOut(x) {
      GoneStayOut(w, w', remap, left, pruned, current, now, b, if b in listing then listing[b] else "", x);
    }
  }

  /** The repository when the deletion loop starts, and whether its worktrees were listed. */
  datatype Start = Start(
    branches: seq<Branch>, config: map<Branch, string>, tree: map<Branch, Tree>, places: Worktrees,
    refused: set<Branch>, checkouts: nat, failures: nat, listed: bool)

  /** What was refused, asked for and missed in the turns so far. */
  ghost predicate Counted(
      s: Start, refused: set<Branch>, checkouts: nat, failures: nat,
      turned: set<Branch>, gone: set<Branch>, errors: bool)
  {
    refused == s.refused + HiddenOf(s.places, s.listed, turned) &&
    checkouts == s.checkouts + (if s.places.Head().Some? && s.places.Head().value in turned then 1 else 0) &&
    failures >= s.failures && (errors <==> failures > s.failures) && (errors <==> gone != turned)
  }

  lemma CountedStep(
      s: Start, refused: set<Branch>, checkouts: nat, failures: nat,
      turned: set<Branch>, gone: set<Branch>, errors: bool, b: Branch)
    requires Counted(s, refused, checkouts, failures, turned, gone, errors) && gone <= turned && b !in turned
    ensures var refused' := if Hidden(s.places, s.listed, b) then refused + {b} else refused;
            var checkouts' := if s.places.Head() == Some(b) then checkouts + 1 else checkouts;
            Counted(s, refused', checkouts', failures, turned + {b}, gone + {b}, errors) &&
            Counted(s, refused', checkouts', failures + 1, turned + {b}, gone, true)
  {
    HiddenOfGrows(s.places, s.listed, turned, b);
    assert gone + {b} - {b} == gone && turned + {b} - {b} == turned;
  }

  /** The invariant of the deletion loop. */
  ghost predicate Deleting(
      s: Start, repo: Repo, listing: map<Branch, string>, remap: map<Branch, Branch>,
      turned: set<Branch>, gone: set<Branch>, current: Option<Branch>, errors: bool)
    reads repo
  {
    Deleted(s.branches, s.config, s.tree, gone, repo.branches, repo.config, repo.tree) &&
    Turning(s.places, repo.places, listing, remap, s.branches, turned, gone, current, errors) &&
    Counted(s, repo.refused, repo.checkouts, repo.failures, turned, gone, errors)
  }

  /** One turn of the deletion loop, in terms of what the whole loop keeps. */
  method TurnOne(
      repo: Repo, b: Branch, pruned: set<Branch>, remap: map<Branch, Branch>, listing: map<Branch, string>,
      current0: Option<Branch>, errors0: bool, ghost s: Start, ghost turned: set<Branch>,
      ghost gone0: set<Branch>)
    returns (current: Option<Branch>, errors: bool, ghost gone: set<Branch>)
    requires Resolved(pruned, remap) && b in pruned && b !in turned && turned <= pruned
    requires s.places.Once() && Lists(s.places, s.listed, listing)
    requires Deleting(s, repo, listing, remap, turned, gone0, current0, errors0)
    modifies repo`branches, repo`config, repo`tree, repo`places, repo`checkouts, repo`failures, repo`refused
    ensures Deleting(s, repo, listing, remap, turned + {b}, gone, current, errors)
  {
    ghost var w, left := repo.places, repo.branches;
    BeforeTurn(s.places, w, s.listed, listing, remap, s.branches, pruned, turned, current0, b);
    DeletedStep(s.branches, s.config, s.tree, gone0, repo.branches, repo.config, repo.tree, b);
    assert remap[b] in left <==> remap[b] in s.branches;
    CountedStep(s, repo.refused, repo.checkouts, repo.failures, turned, gone0, errors0, b);
    var ok;
    ok, current := DeleteOne(repo, b, remap[b], current0, listing);
    errors, gone := errors0 || !ok, if ok then gone0 + {b} else gone0;
    TurningStep(s.places, w, repo.places, s.listed, listing, remap, s.branches, left, pruned, turned, gone0,
                current0, current, errors0, b, ok);
  }

  /** The deletion loop. */
  method DeleteInOrder(
      repo: Repo, order: seq<Branch>, pruned: set<Branch>, remap: map<Branch, Branch>, listing: map<Branch, string>,
      checkedOut: Option<Branch>, ghost s: Start)
    returns (errors: bool, current: Option<Branch>, ghost gone: set<Branch>)
    requires Resolved(pruned, remap) && Distinct(order) && Members(order) == pruned
    requires s.places.Once() && Lists(s.places, s.listed, listing) && checkedOut == s.places.Head()
    requires Deleting(s, repo, listing, remap, {}, {}, checkedOut, false)
    modifies repo`branches, repo`config, repo`tree, repo`places, repo`checkouts, repo`failures, repo`refused
    ensures Deleting(s, repo, listing, remap, pruned, gone, current, errors)
  {
    current, errors, gone := checkedOut, false, {};
    assert Members(order[..0]) == {};
    for i := 0 to |order|
      invariant Deleting(s, repo, listing, remap, Members(order[..i]), gone, current, errors)
    {
      PrefixGrows(order, i);
      current, errors, gone := TurnOne(repo, order[i], pruned, remap, listing, current, errors, s, Members(order[..i]),
                                       gone);
    }
    MembersOfAll(order);
  }

  /**
   * The worktrees when all is done.  Nothing that is gone is checked out; other worktrees are as before, but
   * listed ones of pruned branches may be gone; and HEAD moves only if it stood on a pruned branch.
   */
  ghost predicate Pruned(
      w0: Worktrees, w: Worktrees, listed: bool, remap: map<Branch, Branch>, locals: seq<Branch>,
      pruned: set<Branch>, gone: set<Branch>, errors: bool)
  {
    var h := w0.Head();
    (forall x :: x in gone ==> !w.CheckedOut(x)) &&
    Kept(w0, w, if listed then pruned else {}) &&
    if h.Some? && h.value in pruned && h.value in remap then
      // the worktree that the program runs in goes with its branch, unless it is the main one
      var end := if listed && w0.here.Some? then None else Landing(locals, remap[h.value]);
      if errors then w.Head() in {h, Landing(locals, remap[h.value]), end} else w.Head() == end
    else w.Head() == h
  }

  lemma PlacesAfter(
      w0: Worktrees, w: Worktrees, listed: bool, listing: map<Branch, string>, remap: map<Branch, Branch>,
      locals: seq<Branch>, pruned: set<Branch>, gone: set<Branch>, current: Option<Branch>, errors: bool)
    requires w0.Once() && Lists(w0, listed, listing) && Resolved(pruned, remap)
    requires Turning(w0, w, listing, remap, locals, pruned, gone, current, errors)
    ensures Pruned(w0, w, listed, remap, locals, pruned, gone, errors)
  {
    if w0.Head().Some? && w0.Head().value in listing {
      var p := listing[w0.Head().value];
      assert w0.At(p) == w0.Head();
    }
  }

  /** All deletions, from the listing of worktrees and the branch that was checked out. */
  method DeleteMarked(
      repo: Repo, pruned: set<Branch>, remap: map<Branch, Branch>, listing: map<Branch, string>,
      checkedOut: Option<Branch>, ghost listed: bool)
    returns (errors: bool, ghost gone: set<Branch>)
    requires Resolved(pruned, remap) && repo.places.Once() && Lists(repo.places, listed, listing)
    requires checkedOut == repo.places.Head()
    modifies repo`branches, repo`config, repo`tree, repo`places, repo`checkouts, repo`failures, repo`refused
    ensures gone <= pruned && (errors <==> gone != pruned)
    ensures (errors <==> repo.failures > old(repo.failures)) && repo.failures >= old(repo.failures)
    ensures Deleted(old(repo.branches), old(repo.config), old(repo.tree), gone, repo.branches, repo.config, repo.tree)
    ensures Pruned(old(repo.places), repo.places, listed, remap, old(repo.branches), pruned, gone, errors)
    ensures repo.checkouts ==
            old(repo.checkouts) + if checkedOut.Some? && checkedOut.value in pruned then 1 else 0
    ensures repo.refused == old(repo.refused) + HiddenOf(old(repo.places), listed, pruned)
  {
    var order := SortedList(pruned);
    ghost var s := Start(repo.branches, repo.config, repo.tree, repo.places,
                         repo.refused, repo.checkouts, repo.failures, listed);
    var current;
    errors, current, gone := DeleteInOrder(repo, order, pruned, remap, listing, checkedOut, s);
    PlacesAfter(s.places, repo.places, listed, listing, remap, s.branches, pruned, gone, current, errors);
  }

  /** `sorted(list(s))` */
  method SortedList(S: set<Branch>) returns (r: seq<Branch>)
    ensures Distinct(r) && Ascending(r) && Members(r) == S
  {
    var order := AnyOrder(S);
    SortNamesKeepsMembers(order);
    return SortNames(order);
  }

  // ----- the program

  /** Deletion of `gone` from a moved forest: the rest names no pruned branch, and without errors it is contracted. */
  lemma DeletedAfterMove(
      before: map<Branch, string>, locals: seq<Branch>, tree: map<Branch, Tree>, pruned: set<Branch>,
      remap: map<Branch, Branch>, moved: set<Branch>, gone: set<Branch>,
      locals': seq<Branch>, config': map<Branch, string>, tree': map<Branch, Tree>)
    requires Resolved(pruned, remap) && pruned <= ParentGraph(before, locals).Keys && gone <= pruned
    requires forall b :: b in pruned ==> Nearest(ParentGraph(before, locals), pruned, b, remap[b])
    requires moved == Orphans(before, locals, pruned, pruned)
    requires Deleted(locals, MovedConfig(before, remap, moved), tree, gone, locals', config', tree')
    ensures forall c :: c in locals && c !in pruned ==> !HasParentIn(config', c, pruned)
    ensures gone == pruned ==> Contracts(ParentGraph(before, locals), pruned, ParentGraph(config', locals'))
  {
    var config := MovedConfig(before, remap, moved);
    forall c | c in locals && c !in pruned ensures !HasParentIn(config', c, pruned) {
      NoneNamesPruned(before, locals, pruned, remap, moved, config, c);
    }
    if gone == pruned {
      MovedContracts(before, locals, pruned, remap, moved, config, config', locals');
    }
  }

  lemma NearestIsNamed(config: map<Branch, string>, locals: seq<Branch>, pruned: set<Branch>, b: Branch, r: Branch)
    requires Nearest(ParentGraph(config, locals), pruned, b, r)
    ensures IsName(r)
  {
    var n: nat :| NearestAt(ParentGraph(config, locals), pruned, b, r, n);
    UpStep(ParentGraph(config, locals), b, n - 1);
    ParentIsStripped(config, Up(ParentGraph(config, locals), b, n - 1).value);
  }

  /** The first phase of `main`. */
  method Analyze(repo: Repo, mainline: set<Branch>)
    returns (remap: map<Branch, Branch>, marked: set<Branch>, cyclic: bool)
    ensures cyclic <==> !Acyclic(ParentGraph(repo.config, repo.branches))
    ensures !cyclic ==>
              IsPruneSet(ParentGraph(repo.config, repo.branches), Members(repo.branches) + mainline,
                         repo.tree, marked) &&
              Resolved(marked, remap) && marked <= ParentGraph(repo.config, repo.branches).Keys &&
              forall b :: b in marked ==>
                Nearest(ParentGraph(repo.config, repo.branches), marked, b, remap[b]) &&
                Identical(repo.tree, remap[b], b)
  {
    ghost var g := ParentGraph(repo.config, repo.branches);
    remap, marked := map[], {};
    var sort := TopologicalSort(repo.config, repo.branches);
    if sort.CycleDetected? {
      return remap, marked, true;
    }
    RecordsEdges(repo.config, repo.branches, sort.graph);
    var locals := Members(repo.branches);
    remap, marked := Mark(g, sort.order, sort.graph, locals, mainline, repo.tree);
    forall b | b in marked ensures IsName(remap[b]) {
      NearestIsNamed(repo.config, repo.branches, marked, b, remap[b]);
    }
    cyclic := false;
  }

  /** The second phase of `main`: everything that changes the repository. */
  method Perform(repo: Repo, pruned: set<Branch>, remap: map<Branch, Branch>)
    returns (outcome: PruneOutcome, ghost moved: set<Branch>, ghost gone: set<Branch>, ghost listed: bool)
    requires Resolved(pruned, remap) && pruned <= ParentGraph(repo.config, repo.branches).Keys && repo.places.Once()
    requires forall b :: b in pruned ==> Nearest(ParentGraph(repo.config, repo.branches), pruned, b, remap[b])
    modifies repo
    // which outcome, and what failed
    ensures outcome.Aborted? || outcome.Finished?
    ensures outcome.Aborted? <==> repo.configFailures > old(repo.configFailures)
    ensures outcome.Aborted? ==> gone == {} && repo.failures == old(repo.failures) + 1
    ensures outcome == Finished(false) <==> repo.failures == old(repo.failures)
    ensures repo.unlisted == old(repo.unlisted) + if listed then 0 else 1
    // what is left
    ensures gone <= pruned && (outcome == Finished(false) ==> gone == pruned)
    ensures forall b :: b in repo.branches <==> b in old(repo.branches) && b !in gone
    ensures repo.tree == old(repo.tree) - gone
    ensures outcome.Finished? ==>
              forall c :: c in old(repo.branches) && c !in pruned ==> !HasParentIn(repo.config, c, pruned)
    ensures outcome == Finished(false) ==>
              Contracts(ParentGraph(old(repo.config), old(repo.branches)), pruned,
                        ParentGraph(repo.config, repo.branches))
    ensures repo.config == MovedConfig(old(repo.config), remap, moved) - gone
    ensures moved <= Orphans(old(repo.config), old(repo.branches), pruned, pruned)
    ensures outcome.Finished? ==> moved == Orphans(old(repo.config), old(repo.branches), pruned, pruned)
    ensures repo.writes == old(repo.writes) + |moved|
    // the worktrees
    ensures outcome.Aborted? ==> repo.places == old(repo.places) && repo.checkouts == old(repo.checkouts)
    ensures outcome.Aborted? ==> repo.refused == old(repo.refused)
    ensures outcome.Finished? ==>
              Pruned(old(repo.places), repo.places, listed, remap, old(repo.branches), pruned, gone, outcome.errors)
    ensures outcome.Finished? ==>
              repo.checkouts == old(repo.checkouts) +
                if old(repo.places).Head().Some? && old(repo.places).Head().value in pruned then 1 else 0
    ensures outcome.Finished? ==> repo.refused == old(repo.refused) + HiddenOf(old(repo.places), listed, pruned)
  {
    ghost var before, locals := repo.config, repo.branches;
    gone := {};
    var current := repo.places.Head();
    var listing;
    listing, listed := repo.ListWorktrees();
    var ok, children := MoveChildren(repo, pruned, remap);
    moved := children;
    if !ok {
      assert repo.config - gone == repo.config;
      return Aborted, moved, gone, listed;
    }
    ghost var tree := repo.tree;
    var errors;
    errors, gone := DeleteMarked(repo, pruned, remap, listing, current, listed);
    DeletedAfterMove(before, locals, tree, pruned, remap, moved, gone, repo.branches, repo.config, repo.tree);
    outcome := Finished(errors);
  }

  /**
   * The program.  It finishes without errors exactly when there is something to prune and no command fails; then
   * the forest is contracted.  Whatever fails, only marked branches go, none of them is checked out anywhere
   * afterwards, no tree changes, and git refuses to delete exactly the marked branches that are checked out
   * where the program neither stands nor looks.
   */
  method PruneAll(repo: Repo, mainline: set<Branch>)
    returns (outcome: PruneOutcome, ghost pruned: set<Branch>, ghost remap: map<Branch, Branch>,
             ghost moved: set<Branch>, ghost gone: set<Branch>, ghost listed: bool)
    requires repo.places.Once()
    modifies repo
    // which outcome
    ensures outcome.CycleError? <==> !Acyclic(ParentGraph(old(repo.config), old(repo.branches)))
    ensures outcome.NothingToPrune? <==> !outcome.CycleError? && pruned == {}
    ensures outcome.Aborted? <==> repo.configFailures > old(repo.configFailures)
    ensures outcome == Finished(false) <==>
            !outcome.CycleError? && pruned != {} && repo.failures == old(repo.failures)
    // what is pruned, and what that leaves
    ensures !outcome.CycleError? ==>
              IsPruneSet(ParentGraph(old(repo.config), old(repo.branches)), Members(old(repo.branches)) + mainline,
                         old(repo.tree), pruned) &&
              remap.Keys == pruned &&
              forall b :: b in pruned ==>
                Nearest(ParentGraph(old(repo.config), old(repo.branches)), pruned, b, remap[b])
    ensures outcome.Aborted? || outcome.Finished? ==>
              repo.config == MovedConfig(old(repo.config), remap, moved) - gone &&
              moved <= Orphans(old(repo.config), old(repo.branches), pruned, pruned) &&
              repo.writes == old(repo.writes) + |moved| &&
              repo.unlisted == old(repo.unlisted) + if listed then 0 else 1
    ensures outcome.Finished? ==> moved == Orphans(old(repo.config), old(repo.branches), pruned, pruned)
    ensures gone <= pruned && (outcome == Finished(false) ==> gone == pruned)
    ensures !outcome.Finished? ==> gone == {}
    ensures forall b :: b in repo.branches <==> b in old(repo.branches) && b !in gone
    ensures repo.tree == old(repo.tree) - gone
    ensures outcome == Finished(false) ==>
              Contracts(ParentGraph(old(repo.config), old(repo.branches)), pruned,
                        ParentGraph(repo.config, repo.branches))
    ensures outcome.Finished? ==>
              forall c :: c in old(repo.branches) && c !in pruned ==> !HasParentIn(repo.config, c, pruned)
    // the commands, and the worktrees
    ensures outcome.CycleError? || outcome.NothingToPrune? ==> unchanged(repo)
    ensures outcome.Aborted? ==> repo.places == old(repo.places) && repo.checkouts == old(repo.checkouts)
    ensures outcome.Finished? ==>
              Pruned(old(repo.places), repo.places, listed, remap, old(repo.branches), pruned, gone, outcome.errors)
    ensures outcome.Finished? ==>
              repo.checkouts == old(repo.checkouts) +
                if old(repo.places).Head().Some? && old(repo.places).Head().value in pruned then 1 else 0
    ensures outcome.Finished? ==> repo.refused == old(repo.refused) + HiddenOf(old(repo.places), listed, pruned)
  {
    pruned, remap, moved, gone, listed := {}, map[], {}, {}, true;
    var targets, marked, cyclic := Analyze(repo, mainline);
    if cyclic {
      outcome := CycleError;
      return;
    }
    pruned, remap := marked, targets;
    if marked == {} {
      outcome := NothingToPrune;
      return;
    }
    outcome, moved, gone, listed := Perform(repo, marked, targets);
  }

  /**
   * Run in the main worktree, with the worktrees listed, the program asks git only for branches that are checked
   * out nowhere; in a linked worktree just when it has not marked the branch of the main one.
   */
  lemma AsksOnlyForFreeBranches(w: Worktrees, pruned: set<Branch>)
    ensures HiddenOf(w, true, pruned) == {} <==> w.here.None? || w.main.None? || w.main.value !in pruned
    ensures HiddenOf(w, false, pruned) == {} <==> forall b :: b in pruned ==> !w.Elsewhere(b)
  {
    if w.here.Some? && w.main.Some? && w.main.value in pruned {
      assert w.main.value in HiddenOf(w, true, pruned);
    }
    forall b | b in pruned && w.Elsewhere(b) ensures HiddenOf(w, false, pruned) != {} {
      assert b in HiddenOf(w, false, pruned);
    }
  }
}
