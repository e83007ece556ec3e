/**
 * The git repository the branch tools run on: local branches, the parent settings, the trees that refs
 * resolve to, and the worktrees.  Every command that changes something may fail, and then it changes nothing;
 * ghost fields count what was asked for and what failed.
 */
module Repository {
  import opened Wrappers
  import opened Chains

  function Without(s: seq<Branch>, b: Branch): (r: seq<Branch>)
    ensures forall x :: x in r <==> x in s && x != b
  {
    if s == [] then [] else if s[0] == b then Without(s[1..], b) else [s[0]] + Without(s[1..], b)
  }

  /**
   * What is checked out where: in the main worktree, and by its path in each linked worktree that is not
   * detached.  The program runs in the linked worktree at `here`, or in the main one.
   */
  datatype Worktrees = Worktrees(main: Option<Branch>, linked: map<string, Branch>, here: Option<string>) {
    function At(path: string): Option<Branch> {
      if path in linked then Some(linked[path]) else None
    }

    function Head(): Option<Branch> {
      if here.None? then main else At(here.value)
    }

    predicate CheckedOut(b: Branch) {
      main == Some(b) || exists p :: p in linked && At(p) == Some(b)
    }

    predicate Elsewhere(b: Branch) {
      (here.Some? && main == Some(b)) || exists p :: p in linked && here != Some(p) && At(p) == Some(b)
    }

    /** Git checks out a branch in at most one worktree. */
    ghost predicate Once() {
      (forall p, q :: At(p).Some? && At(p) == At(q) ==> p == q) &&
      forall p :: At(p).Some? ==> At(p) != main
    }

    /** After a checkout where the program runs; None stands for a detached HEAD. */
    function Switched(b: Option<Branch>): Worktrees {
      if here.None? then this.(main := b)
      else this.(linked := if b.Some? then linked[here.value := b.value] else linked - {here.value})
    }

    function Removed(path: string): Worktrees {
      this.(linked := linked - {path})
    }
  }

  /** Away from where the program runs, nothing has changed but that worktrees of `freed` branches may be gone. */
  ghost predicate Kept(w0: Worktrees, w: Worktrees, freed: set<Branch>) {
    w.here == w0.here && (w0.here.Some? ==> w.main == w0.main) &&
    forall p :: w0.here != Some(p) ==> w.At(p) == w0.At(p) || (w.At(p).None? && w0.At(p).value in freed)
  }

  /** What `get_worktree_branches` returns: the linked worktrees by branch, or nothing when git fails. */
  ghost predicate Lists(w: Worktrees, listed: bool, listing: map<Branch, string>) {
    if listed then
      (forall b :: b in listing ==> w.At(listing[b]) == Some(b)) &&
      forall p :: w.At(p).Some? ==> w.At(p).value in listing
    else listing == map[]
  }

  /** `b` is checked out in another worktree, and the listing does not tell. */
  ghost predicate Hidden(w: Worktrees, listed: bool, b: Branch) {
    if listed then w.here.Some? && w.main == Some(b) else w.Elsewhere(b)
  }

  /** The loop over the output of `git worktree list`. */
  method ReadWorktrees(w: Worktrees) returns (listing: map<Branch, string>)
    ensures Lists(w, true, listing)
  {
    listing := map[];
    var todo := w.linked.Keys;
    while todo != {}
      invariant todo <= w.linked.Keys
      invariant forall b :: b in listing ==> w.At(listing[b]) == Some(b)
      invariant forall p :: w.At(p).Some? && p !in todo ==> w.At(p).value in listing
    {
      var p :| p in todo;
      todo := todo - {p};
      listing := listing[w.linked[p] := p];
    }
  }

  lemma HiddenIsUnlisted(w: Worktrees, listed: bool, listing: map<Branch, string>, b: Branch)
    requires w.Once() && Lists(w, listed, listing)
    ensures Hidden(w, listed, b) <==> w.Elsewhere(b) && b !in listing
  {
    if b in listing {
      assert w.At(listing[b]) == Some(b);
    }
  }

  lemma CheckedOutHereOrElsewhere(w: Worktrees, b: Branch)
    ensures w.CheckedOut(b) <==> w.Head() == Some(b) || w.Elsewhere(b)
    ensures w.Once() ==> !(w.Head() == Some(b) && w.Elsewhere(b))
  {
    if w.Elsewhere(b) && !(w.here.Some? && w.main == Some(b)) {
      var p :| p in w.linked && w.here != Some(p) && w.At(p) == Some(b);
      assert w.CheckedOut(b);
    }
  }

  class Repo {
    var branches: seq<Branch>
    var config: map<Branch, string>
    var tree: map<Branch, Tree>
    var places: Worktrees
    /** Parent settings written, checkouts asked for, and commands that failed, among them `git config`. */
    ghost var writes: nat
    ghost var checkouts: nat
    ghost var failures: nat
    ghost var configFailures: nat
    /** How often the worktrees could not be listed, which the program ignores. */
    ghost var unlisted: nat
    /** The branches that git refused to delete because they were checked out. */
    ghost var refused: set<Branch>

    constructor (branches: seq<Branch>, config: map<Branch, string>, tree: map<Branch, Tree>, places: Worktrees)
      ensures this.branches == branches && this.config == config && this.tree == tree && this.places == places
      ensures writes == checkouts == failures == configFailures == unlisted == 0 && refused == {}
    {
      this.branches, this.config, this.tree, this.places := branches, config, tree, places;
      writes, checkouts, failures, configFailures, unlisted, refused := 0, 0, 0, 0, 0, {};
    }

    /** `get_worktree_branches`: an empty listing when `git worktree list` fails. */
    method ListWorktrees() returns (listing: map<Branch, string>, ghost listed: bool)
      modifies this`unlisted
      ensures Lists(places, listed, listing)
      ensures unlisted == old(unlisted) + if listed then 0 else 1
    {
      var fine := *;
      listed := fine;
      if fine {
        listing := ReadWorktrees(places);
      } else {
        listing, unlisted := map[], unlisted + 1;
      }
    }

    /** `git config branch.<b>.parent <parent>` */
    method SetParent(b: Branch, parent: string) returns (ok: bool)
      modifies this`config, this`writes, this`failures, this`configFailures
      ensures config == if ok then old(config)[b := parent] else old(config)
      ensures writes == old(writes) + if ok then 1 else 0
      ensures failures == old(failures) + if ok then 0 else 1
      ensures configFailures == old(configFailures) + if ok then 0 else 1
    {
      ok := *;
      if ok {
        config, writes := config[b := parent], writes + 1;
      } else {
        failures, configFailures := failures + 1, configFailures + 1;
      }
    }

    /**
     * `git checkout <ref>`: a ref that is not a local branch detaches HEAD; a branch that is checked out in
     * another worktree is refused.
     */
    method Checkout(ref: Branch) returns (ok: bool)
      modifies this`places, this`checkouts, this`failures
      ensures checkouts == old(checkouts) + 1
      ensures failures == old(failures) + if ok then 0 else 1
      ensures ok ==> old(places).Head() == Some(ref) || !old(places).CheckedOut(ref)
      ensures places ==
              if ok then old(places).Switched(if ref in branches then Some(ref) else None) else old(places)
    {
      ok := *;
      ok := ok && (places.Head() == Some(ref) || !places.CheckedOut(ref));
      checkouts := checkouts + 1;
      if ok {
        places := places.Switched(if ref in branches then Some(ref) else None);
      } else {
        failures := failures + 1;
      }
    }

    /** `git worktree remove <path>`, which may be where the program runs. */
    method RemoveWorktree(path: string) returns (ok: bool)
      modifies this`places, this`failures
      ensures places == if ok then old(places).Removed(path) else old(places)
      ensures failures == old(failures) + if ok then 0 else 1
    {
      ok := *;
      if ok {
        places := places.Removed(path);
      } else {
        failures := failures + 1;
      }
    }

    /** `git branch -D <b>`: forgets the ref and its settings; a branch that is checked out is refused. */
    method DeleteBranch(b: Branch) returns (ok: bool)
      modifies this`branches, this`config, this`tree, this`failures, this`refused
      ensures ok ==> !places.CheckedOut(b)
      ensures branches == if ok then Without(old(branches), b) else old(branches)
      ensures config == if ok then old(config) - {b} else old(config)
      ensures tree == if ok then old(tree) - {b} else old(tree)
      ensures failures == old(failures) + if ok then 0 else 1
      ensures refused == if places.CheckedOut(b) then old(refused) + {b} else old(refused)
    {
      ok := *;
      ok := ok && !places.CheckedOut(b);
      if ok {
        branches, config, tree := Without(branches, b), config - {b}, tree - {b};
      } else {
        failures, refused := failures + 1, if places.CheckedOut(b) then refused + {b} else refused;
      }
    }
  }
}
