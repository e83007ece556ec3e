/**
 * tools/find_scan_roots.py: a trie of labelled directories, and the roots to scan so that every wanted
 * label is covered.  A node of the trie is named by the path of components that leads to it.
 */
module ScanRoots {
  import opened Wrappers

  type Path = seq<string>
  type Label = string

  /** The path of the directory that holds `p`. */
  function Parent(p: Path): Path
    requires p != []
  {
    p[..|p| - 1]
  }

  /** Every node but the root hangs from a node. */
  ghost predicate IsTree(nodes: set<Path>) {
    [] in nodes && forall p :: p in nodes && p != [] ==> Parent(p) in nodes
  }

  lemma {:induction false} PrefixesInside(nodes: set<Path>, p: Path, k: nat)
    requires IsTree(nodes) && p in nodes && k <= |p|
    ensures p[..k] in nodes
    decreases |p| - k
  {
    if k == |p| {
      assert p[..k] == p;
    } else {
      PrefixesInside(nodes, p, k + 1);
      assert Parent(p[..k + 1]) == p[..k];
    }
  }

  /** `p` is at or above `q`. */
  predicate Above(p: Path, q: Path) {
    |p| <= |q| && q[..|p|] == p
  }

  /** Every node from `p` down to `q` is in `ok`. */
  ghost predicate Linked(ok: set<Path>, p: Path, q: Path) {
    Above(p, q) && forall k :: |p| <= k <= |q| ==> q[..k] in ok
  }

  /** The nodes that hang from `p` through nodes in `ok`. */
  ghost function Region(nodes: set<Path>, ok: set<Path>, p: Path): set<Path> {
    set q | q in nodes && Linked(ok, p, q)
  }

  /** Every directory but those right below `p` comes after the one that holds it. */
  ghost predicate HoldersFirst(p: Path, order: seq<Path>) {
    forall i {:trigger order[..i]} :: 0 <= i < |order| ==>
      order[i] != [] && (Parent(order[i]) == p || Parent(order[i]) in order[..i])
  }

  /** A wanted node whose holder is not wanted. */
  predicate IsTop(wanted: set<Path>, p: Path) {
    p in wanted && p != [] && Parent(p) !in wanted
  }

  /** What hangs from the tops among `seen`. */
  ghost function Covered(nodes: set<Path>, wanted: set<Path>, seen: seq<Path>): set<Path> {
    set q | q in nodes && exists t :: t in seen && IsTop(wanted, t) && Linked(wanted, t, q)
  }

  /** Nothing strictly inside a linked stretch is a top. */
  lemma NoTopInside(wanted: set<Path>, t: Path, u: Path, q: Path)
    requires Linked(wanted, t, q) && Above(u, q) && |t| < |u|
    ensures !IsTop(wanted, u)
  {
    assert q[..|u| - 1] in wanted;
    assert q[..|u| - 1] == Parent(u);
  }

  /** A wanted node hangs from one top at most. */
  lemma OneTop(wanted: set<Path>, t: Path, u: Path, q: Path)
    requires IsTop(wanted, t) && IsTop(wanted, u) && Linked(wanted, t, q) && Linked(wanted, u, q)
    ensures t == u
  {
    if |t| < |u| {
      NoTopInside(wanted, t, u, q);
    } else if |u| < |t| {
      NoTopInside(wanted, u, t, q);
    }
  }

  /** Every wanted node hangs from a top, if the root is not wanted. */
  lemma {:induction false} TopExists(wanted: set<Path>, q: Path) returns (t: Path)
    requires q in wanted && [] !in wanted
    ensures IsTop(wanted, t) && Linked(wanted, t, q)
    decreases |q|
  {
    if Parent(q) in wanted {
      t := TopExists(wanted, Parent(q));
      LinkedMore(wanted, t, q);
    } else {
      t := q;
      assert q[..|q|] == q;
    }
  }

  lemma LinkedMore(ok: set<Path>, t: Path, q: Path)
    requires q != [] && q in ok && Linked(ok, t, Parent(q))
    ensures Linked(ok, t, q)
  {
    forall k | |t| <= k <= |q| ensures q[..k] in ok {
      if k < |q| {
        assert Parent(q)[..k] == q[..k];
      } else {
        assert q[..k] == q;
      }
    }
    assert Parent(q)[..|t|] == q[..|t|];
  }

  lemma NextInOrder(order: seq<Path>, i: nat)
    requires Distinct(order) && HoldersFirst([], order) && i < |order|
    ensures order[i] in order && order[i] !in order[..i] && order[..i + 1] == order[..i] + [order[i]]
    ensures order[i] != [] && (Parent(order[i]) == [] || Parent(order[i]) in order[..i])
  {
    assert order[..i] == order[..i];
  }

  lemma DistinctJoins(a: seq<Path>, x: Path, b: seq<Path>)
    requires Distinct(a) && Distinct(b) && x !in a && x !in b && forall q :: q in b ==> q !in a
    ensures Distinct(a + [x] + b)
  {
    var all := a + [x] + b;
    assert forall i :: 0 <= i < |all| ==>
      all[i] == if i < |a| then a[i] else if i == |a| then x else b[i - |a| - 1];
    forall i, j | 0 <= i < j < |all| ensures all[i] != all[j] {
      if j > |a| {
        assert b[j - |a| - 1] in b;
      }
    }
  }

  lemma HoldersJoin(p: Path, child: Path, order: seq<Path>, inside: seq<Path>)
    requires HoldersFirst(p, order) && HoldersFirst(child, inside)
    requires child != [] && Parent(child) == p
    ensures HoldersFirst(p, order + [child] + inside)
  {
    var all := order + [child] + inside;
    forall i | 0 <= i < |all| ensures all[i] != [] && (Parent(all[i]) == p || Parent(all[i]) in all[..i]) {
      if i < |order| {
        assert all[..i] == order[..i];
      } else if i > |order| {
        var j := i - |order| - 1;
        assert all[i] == inside[j] && all[..i] == order + [child] + inside[..j];
        assert Parent(inside[j]) == child || Parent(inside[j]) in inside[..j];
      }
    }
  }

  /** The directory `child` of `p` and what is in it, behind the part of the preorder made so far. */
  lemma SubtreeJoins(p: Path, child: Path, order: seq<Path>, inside: seq<Path>, nodes: set<Path>)
    requires child in nodes && child != [] && Parent(child) == p
    requires Distinct(order) && HoldersFirst(p, order) && Distinct(inside) && HoldersFirst(child, inside)
    requires forall q :: q in order ==> |q| > |p| && q[..|p| + 1] != child
    requires forall q :: q in inside <==> q in nodes && Above(child, q) && q != child
    ensures Distinct(order + [child] + inside) && HoldersFirst(p, order + [child] + inside)
    ensures forall q :: q in order + [child] + inside <==>
              q in order || (q in nodes && |q| > |p| && q[..|p| + 1] == child)
  {
    assert child[..|p| + 1] == child;
    HoldersJoin(p, child, order, inside);
    DistinctJoins(order, child, inside);
    forall q | q in nodes && |q| > |p| && q[..|p| + 1] == child ensures q == child || q in inside {
    }
  }

  class Tree {
    /** The nodes and their labels; a node made on the way to another has none yet. */
    var labels: map<Path, Option<Label>>
    var marked: set<Path>

    ghost predicate Valid()
      reads this
    {
      IsTree(labels.Keys) && labels[[]] == None && marked <= labels.Keys
    }

    constructor ()
      ensures Valid() && labels == map[[] := None] && marked == {}
    {
      labels, marked := map[[] := None], {};
    }

    /**
     * `Node.Find` from the node `at`.  When a component is missing the new child is returned at once, whatever
     * components are left.
     */
    method Find(at: Path, components: Path) returns (p: Path)
      requires Valid() && at in labels
      modifies this`labels
      ensures Valid() && p in labels
      ensures Above(at, p) && Above(p, at + components)
      ensures at + components in old(labels) ==> p == at + components && labels == old(labels)
      ensures at + components !in old(labels) ==>
                p !in old(labels) && p != at && Parent(p) in old(labels) && labels == old(labels)[p := None]
      decreases |components|
    {
      if components == [] {
        assert at + components == at;
        return at;
      }
      var child := at + [components[0]];
      assert child + components[1..] == at + components;
      if child in labels {
        p := Find(child, components[1..]);
      } else {
        assert (at + components)[..|child|] == child;
        if at + components in labels {
          PrefixesInside(labels.Keys, at + components, |child|);
        }
        assert Parent(child) == at;
        labels := labels[child := None];
        p := child;
      }
    }

    /** One line of the input: its label goes to the node that Find returns. */
    method AddLine(components: Path, value: Label) returns (p: Path)
      requires Valid() && components != []
      modifies this`labels
      ensures Valid() && p in labels && labels[p] == Some(value)
      ensures labels.Keys == old(labels).Keys + {p}
      ensures forall q :: q in old(labels) && q != p ==> labels[q] == old(labels)[q]
      ensures Above(p, components)
      ensures p == components <==> components in old(labels) || Parent(components) in old(labels)
      ensures p != components ==> p != [] && p !in old(labels) && Parent(p) in old(labels)
    {
      assert [] + components == components;
      p := Find([], components);
      ghost var found := labels;
      labels := labels[p := Some(value)];
      assert |p| < |components| ==> Parent(components)[..|p|] == p;
      assert |p| == |components| ==> p == components;
      if components !in old(labels) && Parent(components) in old(labels) && p != components {
        PrefixesInside(old(labels).Keys, Parent(components), |p|);
      }
    }

    ghost function Wanted(wanted: set<Label>): set<Path>
      reads this
    {
      set p | p in labels && labels[p].Some? && labels[p].value in wanted
    }

    /** The directories right below `p`. */
    function Children(p: Path): set<Path>
      reads this
    {
      set q | q in labels && q != [] && Parent(q) == p
    }

    ghost function Below(p: Path): set<Path>
      reads this
    {
      set q | q in labels && Above(p, q) && q != p
    }

    /** `Node.Mark`: marks what hangs from `p` through wanted nodes that are not marked yet. */
    method Mark(p: Path, wanted: set<Label>) returns (r: bool)
      requires Valid() && p in labels
      modifies this`marked
      ensures Valid()
      ensures r <==> p in Wanted(wanted) && p !in old(marked)
      ensures marked == old(marked) + Region(labels.Keys, Wanted(wanted) - old(marked), p)
      decreases Below(p)
    {
      if p in marked || labels[p].None? || labels[p].value !in wanted {
        RegionOutside(labels.Keys, Wanted(wanted) - marked, p);
        return false;
      }
      ghost var ok := Wanted(wanted) - marked;
      ghost var before := marked;
      marked := marked + {p};
      var todo := Children(p);
      while todo != {}
        invariant todo <= Children(p) && Valid()
        invariant marked == before + {p} + RegionsBelow(labels.Keys, ok, p, todo)
        decreases todo
      {
        var child :| child in todo;
        ChildBelow(p, child);
        ghost var now := marked;
        RegionUntouched(labels.Keys, ok, p, todo, child, Wanted(wanted), before, now);
        var m := Mark(child, wanted);
        RegionsBelowStep(labels.Keys, ok, p, todo, child);
        todo := todo - {child};
      }
      RegionIsChildren(labels.Keys, ok, p);
      return true;
    }

    /** `Node.__iter__`: everything below `p`, each directory before what is in it. */
    method Preorder(p: Path) returns (order: seq<Path>)
      requires Valid() && p in labels
      ensures Distinct(order) && forall q :: q in order <==> q in Below(p)
      ensures HoldersFirst(p, order)
      decreases Below(p)
    {
      order := [];
      var todo := Children(p);
      while todo != {}
        invariant todo <= Children(p)
        invariant Distinct(order) && HoldersFirst(p, order)
        invariant forall q :: q in order <==>
                    q in labels && |q| > |p| && q[..|p|] == p && q[..|p| + 1] in Children(p) - todo
        decreases todo
      {
        var child :| child in todo;
        ChildBelow(p, child);
        var inside := Preorder(child);
        SubtreeJoins(p, child, order, inside, labels.Keys);
        todo := todo - {child};
        order := order + [child] + inside;
      }
      forall q | q in Below(p) ensures q[..|p| + 1] in Children(p) {
        PrefixesInside(labels.Keys, q, |p| + 1);
        assert Parent(q[..|p| + 1]) == q[..|p|];
      }
    }

    /** The driver: whatever could be marked is a root to scan. */
    method Scan(wanted: set<Label>) returns (printed: seq<Path>)
      requires Valid() && marked == {}
      modifies this`marked
      ensures Distinct(printed)
      ensures forall p :: p in printed <==> IsTop(Wanted(wanted), p)
      ensures marked == Wanted(wanted)
    {
      printed := [];
      var order := Preorder([]);
      ghost var w := Wanted(wanted);
      ScannedStart(labels.Keys, w, order);
      for i := 0 to |order|
        invariant Valid() && Wanted(wanted) == w
        invariant Scanned(labels.Keys, w, order[..i], marked, printed)
      {
        ghost var before := marked;
        NextInOrder(order, i);
        ScannedStep(labels.Keys, w, order[..i], before, printed, order[i]);
        var m := Mark(order[i], wanted);
        if m {
          printed := printed + [order[i]];
        }
      }
      assert order[..|order|] == order;
      forall p | p in w ensures p in order {
        assert p[..0] == [];
      }
      AllCovered(labels.Keys, w, order);
    }

    lemma ChildBelow(p: Path, child: Path)
      requires child in Children(p)
      ensures Below(child) < Below(p)
    {
      assert child in Below(p) && child !in Below(child);
      forall q | q in Below(child) ensures q in Below(p) {
        assert q[..|child|][..|p|] == q[..|p|];
      }
    }
  }

  /** Each directory is listed after the one that holds it. */
  ghost predicate HoldersListed(lines: seq<(Path, Label)>) {
    forall i :: 0 <= i < |lines| ==>
      lines[i].0 != [] && (Parent(lines[i].0) == [] || exists j :: 0 <= j < i && lines[j].0 == Parent(lines[i].0))
  }

  predicate Lists(lines: seq<(Path, Label)>, n: nat, p: Path)
    requires n <= |lines|
  {
    exists i :: 0 <= i < n && lines[i].0 == p
  }

  /** The tree has the directories of the first `n` lines, and for each the label it was last listed with. */
  ghost predicate Holds(lines: seq<(Path, Label)>, n: nat, labels: map<Path, Option<Label>>)
    requires n <= |lines|
  {
    (forall p :: p in labels <==> p == [] || Lists(lines, n, p)) &&
    forall i :: 0 <= i < n && (forall j :: i < j < n ==> lines[j].0 != lines[i].0) ==>
      lines[i].0 in labels && labels[lines[i].0] == Some(lines[i].1)
  }

  lemma HoldsNext(
      lines: seq<(Path, Label)>, n: nat, labels: map<Path, Option<Label>>, labels': map<Path, Option<Label>>)
    requires n < |lines| && Holds(lines, n, labels)
    requires labels' == labels[lines[n].0 := Some(lines[n].1)]
    ensures Holds(lines, n + 1, labels')
  {
    forall p ensures Lists(lines, n + 1, p) <==> Lists(lines, n, p) || lines[n].0 == p {
    }
  }

  /** `BuildTree`: from a listing in which holders come first, the tree has just these directories and labels. */
  method BuildTree(lines: seq<(Path, Label)>) returns (tree: Tree)
    requires forall i :: 0 <= i < |lines| ==> lines[i].0 != []
    ensures fresh(tree) && tree.Valid() && tree.marked == {}
    ensures HoldersListed(lines) ==> Holds(lines, |lines|, tree.labels)
  {
    tree := new Tree();
    for n := 0 to |lines|
      invariant fresh(tree) && tree.Valid() && tree.marked == {}
      invariant HoldersListed(lines) ==> Holds(lines, n, tree.labels)
    {
      ghost var before := tree.labels;
      var p := tree.AddLine(lines[n].0, lines[n].1);
      if HoldersListed(lines) {
        HolderPresent(lines, n, before);
        assert p == lines[n].0;
        assert tree.labels == before[lines[n].0 := Some(lines[n].1)];
        HoldsNext(lines, n, before, tree.labels);
      }
    }
  }

  lemma HolderPresent(lines: seq<(Path, Label)>, n: nat, labels: map<Path, Option<Label>>)
    requires n < |lines| && HoldersListed(lines) && Holds(lines, n, labels)
    ensures Parent(lines[n].0) in labels
  {
    var h := Parent(lines[n].0);
    if h != [] {
      var j :| 0 <= j < n && lines[j].0 == h;
      assert Lists(lines, n, h);
    }
  }

  /** What hangs from the children of `p` that are not in `todo`. */
  ghost function RegionsBelow(nodes: set<Path>, ok: set<Path>, p: Path, todo: set<Path>): set<Path> {
    set q | q in nodes && |q| > |p| && q[..|p|] == p && q[..|p| + 1] !in todo && Linked(ok, q[..|p| + 1], q)
  }

  lemma RegionOutside(nodes: set<Path>, ok: set<Path>, p: Path)
    requires p !in ok
    ensures Region(nodes, ok, p) == {}
  {
    forall q ensures !Linked(ok, p, q) {
      if Above(p, q) {
        assert q[..|p|] == p;
      }
    }
  }

  /** Marking one child does not get in the way of another: their regions are apart. */
  lemma RegionUntouched(
      nodes: set<Path>, ok: set<Path>, p: Path, todo: set<Path>, child: Path, all: set<Path>, before: set<Path>,
      now: set<Path>)
    requires child in todo && |child| == |p| + 1 && child[..|p|] == p
    requires ok == all - before && now == before + {p} + RegionsBelow(nodes, ok, p, todo)
    ensures Region(nodes, all - now, child) == Region(nodes, ok, child)
  {
    forall q | q in nodes && Above(child, q) ensures Linked(all - now, child, q) <==> Linked(ok, child, q) {
      forall k | |child| <= k <= |q| ensures q[..k] in all - now <==> q[..k] in ok {
        assert q[..k][..|child|] == child;
        assert q[..k][..|p| + 1] == child;
      }
    }
  }

  lemma RegionsBelowStep(nodes: set<Path>, ok: set<Path>, p: Path, todo: set<Path>, child: Path)
    requires child in todo && |child| == |p| + 1 && child[..|p|] == p
    ensures RegionsBelow(nodes, ok, p, todo - {child}) == RegionsBelow(nodes, ok, p, todo) + Region(nodes, ok, child)
  {
    forall q | q in Region(nodes, ok, child) ensures q in RegionsBelow(nodes, ok, p, todo - {child}) {
      assert q[..|p|] == q[..|child|][..|p|];
    }
  }

  lemma RegionIsChildren(nodes: set<Path>, ok: set<Path>, p: Path)
    requires p in nodes && p in ok
    ensures Region(nodes, ok, p) == {p} + RegionsBelow(nodes, ok, p, {})
  {
    assert p[..|p|] == p;
    forall q | q in nodes
      ensures q in Region(nodes, ok, p) <==> q == p || q in RegionsBelow(nodes, ok, p, {})
    {
      if Above(p, q) && |q| == |p| {
        assert q == q[..|p|];
      } else if Above(p, q) {
        assert q[..|p| + 1][..|p|] == p && Above(q[..|p| + 1], q);
      }
    }
  }

  lemma CoveredMore(nodes: set<Path>, wanted: set<Path>, seen: seq<Path>, p: Path)
    ensures Covered(nodes, wanted, seen + [p]) ==
            Covered(nodes, wanted, seen) + if IsTop(wanted, p) then Region(nodes, wanted, p) else {}
  {
    forall q | q in nodes
      ensures q in Covered(nodes, wanted, seen + [p]) <==>
              q in Covered(nodes, wanted, seen) || (IsTop(wanted, p) && Linked(wanted, p, q))
    {
      assert p in seen + [p];
      assert forall t :: t in seen ==> t in seen + [p];
    }
  }

  /** What hangs from a new top has not been covered by an earlier one. */
  lemma TopIsNew(nodes: set<Path>, wanted: set<Path>, seen: seq<Path>, p: Path)
    requires p !in seen && IsTop(wanted, p)
    ensures forall q :: q in nodes && Linked(wanted, p, q) ==> q !in Covered(nodes, wanted, seen)
  {
    forall q | q in nodes && Linked(wanted, p, q) ensures q !in Covered(nodes, wanted, seen) {
      if t :| t in seen && IsTop(wanted, t) && Linked(wanted, t, q) {
        OneTop(wanted, t, p, q);
      }
    }
  }

  /**
   * Marking the next node of a preorder.  A top is unmarked, and so is all that hangs from it; any other wanted
   * node has been marked from its holder.
   */
  lemma ScanStep(nodes: set<Path>, wanted: set<Path>, seen: seq<Path>, p: Path)
    requires IsTree(nodes) && p in nodes && p !in seen && p != [] && [] !in wanted
    requires Parent(p) == [] || Parent(p) in seen
    requires forall q :: q in seen && q in wanted ==> q in Covered(nodes, wanted, seen)
    ensures var done := Covered(nodes, wanted, seen);
            Covered(nodes, wanted, seen + [p]) == done + Region(nodes, wanted - done, p) &&
            (p in wanted - done <==> IsTop(wanted, p)) &&
            (p in wanted ==> p in Covered(nodes, wanted, seen + [p]))
  {
    var done := Covered(nodes, wanted, seen);
    CoveredMore(nodes, wanted, seen, p);
    assert p[..|p|] == p;
    if IsTop(wanted, p) {
      TopIsNew(nodes, wanted, seen, p);
      TopRegion(nodes, wanted, done, p);
      assert Linked(wanted, p, p);
    } else {
      if p in wanted {
        var t :| t in seen && IsTop(wanted, t) && Linked(wanted, t, Parent(p));
        LinkedMore(wanted, t, p);
        assert p in done;
      }
      RegionOutside(nodes, wanted - done, p);
    }
  }

  /** When the directories in `seen` have had their turn. */
  ghost predicate Scanned(
      nodes: set<Path>, wanted: set<Path>, seen: seq<Path>, marked: set<Path>, printed: seq<Path>)
  {
    marked == Covered(nodes, wanted, seen) && Reported(wanted, seen, marked, printed)
  }

  /** The tops among `seen` are printed, each once, and every wanted node among them is marked. */
  ghost predicate Reported(wanted: set<Path>, seen: seq<Path>, marked: set<Path>, printed: seq<Path>) {
    (forall q :: q in seen && q in wanted ==> q in marked) &&
    Distinct(printed) && forall p :: p in printed <==> p in seen && IsTop(wanted, p)
  }

  lemma ReportedStep(
      wanted: set<Path>, seen: seq<Path>, marked: set<Path>, printed: seq<Path>, p: Path, marked': set<Path>)
    requires Reported(wanted, seen, marked, printed) && p !in seen
    requires marked <= marked' && (p in wanted ==> p in marked')
    ensures Reported(wanted, seen + [p], marked', if IsTop(wanted, p) then printed + [p] else printed)
  {
  }

  lemma ScannedStart(nodes: set<Path>, wanted: set<Path>, order: seq<Path>)
    ensures Scanned(nodes, wanted, order[..0], {}, [])
  {
  }

  lemma ScannedStep(
      nodes: set<Path>, wanted: set<Path>, seen: seq<Path>, marked: set<Path>, printed: seq<Path>, p: Path)
    requires Scanned(nodes, wanted, seen, marked, printed)
    requires IsTree(nodes) && p in nodes && p !in seen && p != [] && [] !in wanted
    requires Parent(p) == [] || Parent(p) in seen
    ensures Scanned(nodes, wanted, seen + [p], marked + Region(nodes, wanted - marked, p),
                    if p in wanted - marked then printed + [p] else printed)
  {
    ScanStep(nodes, wanted, seen, p);
    ReportedStep(wanted, seen, marked, printed, p, marked + Region(nodes, wanted - marked, p));
  }

  /** After the whole preorder, what is covered is what is wanted. */
  lemma AllCovered(nodes: set<Path>, wanted: set<Path>, order: seq<Path>)
    requires wanted <= nodes && forall q :: q in order && q in wanted ==> q in Covered(nodes, wanted, order)
    requires forall q :: q in wanted ==> q in order
    ensures Covered(nodes, wanted, order) == wanted
  {
    forall q | q in Covered(nodes, wanted, order) ensures q in wanted {
      var t :| t in order && IsTop(wanted, t) && Linked(wanted, t, q);
      assert q[..|q|] == q;
    }
  }

  lemma TopRegion(nodes: set<Path>, wanted: set<Path>, done: set<Path>, p: Path)
    requires IsTree(nodes)
    requires forall q :: q in nodes && Linked(wanted, p, q) ==> q !in done
    ensures Region(nodes, wanted - done, p) == Region(nodes, wanted, p)
  {
    forall q | q in nodes && Linked(wanted, p, q) ensures Linked(wanted - done, p, q) {
      forall k | |p| <= k <= |q| ensures q[..k] in wanted - done {
        forall j | |p| <= j <= k ensures q[..k][..j] in wanted {
          assert q[..k][..j] == q[..j];
        }
        assert q[..k][..|p|] == q[..|p|];
        assert Linked(wanted, p, q[..k]);
        PrefixesInside(nodes, q, k);
      }
    }
  }
}
