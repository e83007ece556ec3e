/**
 * GnParser.get_target of tools/gn_utils.py.  A target is named by its label; the parser keeps one Target
 * per label in `all_targets`, so sets of labels stand for the sets of Target objects.
 */
module GnTargets {
  import opened Wrappers

  type Label = string

  datatype Kind =
    | StaticLibrary | SharedLibrary | Executable | Group | Action | SourceSet | ProtoLibrary | GeneratedFile

  /** One element of the sets that bubble up: the field it belongs to, and its text. */
  datatype Flag =
    | Cflag(text: string) | Define(text: string) | IncludeDir(text: string) | Ldflag(text: string)
    | Lib(text: string) | Data(text: string) | ProtoPath(text: string)

  /** The description of a target; `proto` says that get_proto_target_type recognises it. */
  datatype Desc = Desc(kind: Kind, proto: bool, deps: seq<Label>, flags: set<Flag>)

  datatype Target = Target(
    kind: Kind, thirdParty: bool, deps: set<Label>, transitiveDeps: set<Label>, flags: set<Flag>)

  type Description = map<Label, Desc>

  predicate ThirdParty(t: Label) {
    "//gn" <= t
  }

  /** The label up to its toolchain. */
  function WithoutToolchain(t: Label): Label {
    if t == [] || t[0] == '(' then [] else [t[0]] + WithoutToolchain(t[1..])
  }

  predicate IsProto(desc: Description, t: Label) {
    t in desc && !ThirdParty(t) && desc[t].proto
  }

  /** The type of the Target object, after protobuf targets have been recognised. */
  function KindOf(desc: Description, t: Label): Kind
    requires t in desc
  {
    if IsProto(desc, t) then ProtoLibrary else desc[t].kind
  }

  predicate IsLinkerUnit(desc: Description, t: Label)
    requires t in desc
  {
    KindOf(desc, t) in {Executable, SharedLibrary, StaticLibrary}
  }

  /** Only groups that are not third-party are dissolved into their users. */
  predicate IsDissolved(desc: Description, t: Label)
    requires t in desc
  {
    KindOf(desc, t) == Group && !ThirdParty(t)
  }

  /** What the description itself gives a target; nothing for third-party placeholders. */
  function OwnFlags(desc: Description, t: Label): set<Flag>
    requires t in desc
  {
    if ThirdParty(t) then {}
    else
      set f | f in desc[t].flags &&
              (f.Data? ==> KindOf(desc, t) == Action) && (f.ProtoPath? ==> IsProto(desc, t))
  }

  /** The dependencies that are followed: third-party targets are not descended into. */
  function Edges(desc: Description, t: Label): seq<Label>
    requires t in desc
  {
    if ThirdParty(t) then [] else desc[t].deps
  }

  /** The edge survives: generated files are dropped, and the private action of a proto library. */
  predicate Kept(desc: Description, t: Label, d: Label)
    requires t in desc && d in desc
  {
    d in Edges(desc, t) && KindOf(desc, d) != GeneratedFile &&
    !(KindOf(desc, d) == Action && IsProto(desc, t))
  }

  /**
   * What the code demands of a description, by lookups and assertions: dependencies are described, no
   * label is below //buildtools, the action of a proto library is its `_gen` rule; and `rank` shows that
   * there is no dependency cycle.
   */
  ghost predicate WellFormed(desc: Description, rank: map<Label, nat>) {
    rank.Keys == desc.Keys &&
    forall t :: t in desc ==>
      !("//buildtools" <= t) &&
      forall d :: d in Edges(desc, t) ==>
        d in desc && rank[d] < rank[t] &&
        (KindOf(desc, d) == Action && IsProto(desc, t) ==> WithoutToolchain(d) == WithoutToolchain(t) + "_gen")
  }

  // ----- the meaning of the result, by paths

  /** The three ways dependencies propagate. */
  datatype Mode = Direct | Transitive | Bubbling(protoPath: bool)

  /** A path may go on through `x`. */
  predicate Carries(desc: Description, mode: Mode, x: Label)
    requires x in desc
  {
    match mode
    case Direct => IsDissolved(desc, x) || KindOf(desc, x) == SourceSet
    case Transitive => !IsLinkerUnit(desc, x)
    case Bubbling(protoPath) =>
      IsDissolved(desc, x) || KindOf(desc, x) == SourceSet || (protoPath && KindOf(desc, x) == ProtoLibrary)
  }

  /** A path may end at `x`. */
  predicate Counts(desc: Description, mode: Mode, x: Label)
    requires x in desc
  {
    match mode
    case Direct => !IsDissolved(desc, x)
    case Transitive => !IsLinkerUnit(desc, x) && !IsDissolved(desc, x)
    case Bubbling(_) => Carries(desc, mode, x)
  }

  /** `path` leads from `t` along kept edges, through carriers, to an end that counts. */
  ghost predicate IsPath(desc: Description, mode: Mode, t: Label, path: seq<Label>)
    decreases |path|
  {
    t in desc && path != [] && path[0] in desc && Kept(desc, t, path[0]) &&
    if |path| == 1 then Counts(desc, mode, path[0])
    else Carries(desc, mode, path[0]) && IsPath(desc, mode, path[0], path[1..])
  }

  ghost predicate Reaches(desc: Description, mode: Mode, t: Label, d: Label) {
    exists path :: IsPath(desc, mode, t, path) && path[|path| - 1] == d
  }

  /** The flag is given by `t` or bubbles up to it. */
  ghost predicate HasFlag(desc: Description, t: Label, f: Flag)
    requires t in desc
  {
    f in OwnFlags(desc, t) ||
    exists x :: x in desc && Reaches(desc, Bubbling(f.ProtoPath?), t, x) && f in OwnFlags(desc, x)
  }

  ghost function AllFlags(desc: Description): set<Flag> {
    set t, f | t in desc && f in desc[t].flags :: f
  }

  /** What get_target should return for `t`, whatever was asked before. */
  ghost function Answer(desc: Description, t: Label): Target
    requires t in desc
  {
    Target(KindOf(desc, t), ThirdParty(t),
           set d | d in desc && Reaches(desc, Direct, t, d),
           set d | d in desc && Reaches(desc, Transitive, t, d),
           set f | f in AllFlags(desc) && HasFlag(desc, t, f))
  }

  lemma {:induction false} PathEndsInside(desc: Description, mode: Mode, t: Label, path: seq<Label>)
    requires IsPath(desc, mode, t, path)
    ensures path[|path| - 1] in desc
    decreases |path|
  {
    if |path| > 1 {
      PathEndsInside(desc, mode, path[0], path[1..]);
    }
  }

  lemma ReachedIsInside(desc: Description, mode: Mode, t: Label, d: Label)
    requires Reaches(desc, mode, t, d)
    ensures d in desc
  {
    var path :| IsPath(desc, mode, t, path) && path[|path| - 1] == d;
    PathEndsInside(desc, mode, t, path);
  }

  /** The finite sets of `Answer` miss nothing: they hold exactly what paths reach. */
  lemma AnswerHoldsAllPaths(desc: Description, t: Label)
    requires t in desc
    ensures forall d :: d in Answer(desc, t).deps <==> Reaches(desc, Direct, t, d)
    ensures forall d :: d in Answer(desc, t).transitiveDeps <==> Reaches(desc, Transitive, t, d)
    ensures forall f :: f in Answer(desc, t).flags <==> HasFlag(desc, t, f)
  {
    forall mode, d | Reaches(desc, mode, t, d) ensures d in desc {
      ReachedIsInside(desc, mode, t, d);
    }
  }

  /** The descriptions differ only in the order and multiplicity of dependencies. */
  ghost predicate SameUpToOrder(desc: Description, other: Description) {
    desc.Keys == other.Keys &&
    forall t :: t in desc ==>
      desc[t].kind == other[t].kind && desc[t].proto == other[t].proto && desc[t].flags == other[t].flags &&
      forall d :: d in desc[t].deps <==> d in other[t].deps
  }

  lemma {:induction false} PathsIgnoreOrder(
      desc: Description, other: Description, mode: Mode, t: Label, path: seq<Label>)
    requires SameUpToOrder(desc, other) && IsPath(desc, mode, t, path)
    ensures IsPath(other, mode, t, path)
    decreases |path|
  {
    if |path| > 1 {
      PathsIgnoreOrder(desc, other, mode, path[0], path[1..]);
    }
  }

  lemma ReachesIgnoresOrder(desc: Description, other: Description, mode: Mode, t: Label, d: Label)
    requires SameUpToOrder(desc, other)
    ensures Reaches(desc, mode, t, d) <==> Reaches(other, mode, t, d)
  {
    if path :| IsPath(desc, mode, t, path) && path[|path| - 1] == d {
      PathsIgnoreOrder(desc, other, mode, t, path);
    }
    if path :| IsPath(other, mode, t, path) && path[|path| - 1] == d {
      PathsIgnoreOrder(other, desc, mode, t, path);
    }
  }

  /** The result does not depend on the order dependencies are listed in. */
  lemma ListingOrderIsIrrelevant(desc: Description, other: Description, t: Label)
    requires t in desc && SameUpToOrder(desc, other)
    ensures Answer(desc, t) == Answer(other, t)
  {
    forall mode, d ensures Reaches(desc, mode, t, d) <==> Reaches(other, mode, t, d) {
      ReachesIgnoresOrder(desc, other, mode, t, d);
    }
    assert AllFlags(desc) == AllFlags(other);
    forall x | x in desc ensures OwnFlags(desc, x) == OwnFlags(other, x) {
    }
    forall f ensures HasFlag(desc, t, f) <==> HasFlag(other, t, f) {
    }
  }

  /** One step of a path: it ends at `x` or goes on behind it. */
  ghost predicate ReachesBy(desc: Description, mode: Mode, t: Label, x: Label, d: Label)
    requires t in desc && x in desc
  {
    Kept(desc, t, x) &&
    ((x == d && Counts(desc, mode, x)) || (Carries(desc, mode, x) && Reaches(desc, mode, x, d)))
  }

  /** A path whose first edge is among `seen`. */
  ghost predicate ReachesAmong(desc: Description, mode: Mode, t: Label, seen: seq<Label>, d: Label)
    requires t in desc
  {
    exists x :: x in seen && x in desc && ReachesBy(desc, mode, t, x, d)
  }

  lemma PathStarts(desc: Description, mode: Mode, t: Label, path: seq<Label>)
    requires IsPath(desc, mode, t, path)
    ensures ReachesAmong(desc, mode, t, Edges(desc, t), path[|path| - 1])
  {
    if |path| > 1 {
      assert path[1..][|path[1..]| - 1] == path[|path| - 1];
    }
    assert ReachesBy(desc, mode, t, path[0], path[|path| - 1]);
  }

  lemma PathExtends(desc: Description, mode: Mode, t: Label, x: Label, d: Label)
    requires t in desc && x in desc && ReachesBy(desc, mode, t, x, d)
    ensures Reaches(desc, mode, t, d)
  {
    if x == d && Counts(desc, mode, x) {
      assert IsPath(desc, mode, t, [x]);
    } else {
      var rest :| IsPath(desc, mode, x, rest) && rest[|rest| - 1] == d;
      PathPrepend(desc, mode, t, x, rest);
    }
  }

  lemma Prepended<T>(x: T, rest: seq<T>)
    requires rest != []
    ensures ([x] + rest)[1..] == rest && ([x] + rest)[|[x] + rest| - 1] == rest[|rest| - 1]
  {
  }

  lemma LongerPath(desc: Description, mode: Mode, t: Label, path: seq<Label>)
    requires t in desc && |path| > 1 && path[0] in desc && Kept(desc, t, path[0]) && Carries(desc, mode, path[0])
    requires IsPath(desc, mode, path[0], path[1..])
    ensures IsPath(desc, mode, t, path)
  {
  }

  lemma PathPrepend(desc: Description, mode: Mode, t: Label, x: Label, rest: seq<Label>)
    requires t in desc && x in desc && Kept(desc, t, x) && Carries(desc, mode, x) && IsPath(desc, mode, x, rest)
    ensures Reaches(desc, mode, t, rest[|rest| - 1])
  {
    Prepended(x, rest);
    LongerPath(desc, mode, t, [x] + rest);
  }

  lemma ReachesUnfold(desc: Description, mode: Mode, t: Label, d: Label)
    requires t in desc
    ensures Reaches(desc, mode, t, d) <==> ReachesAmong(desc, mode, t, Edges(desc, t), d)
  {
    if path :| IsPath(desc, mode, t, path) && path[|path| - 1] == d {
      PathStarts(desc, mode, t, path);
    }
    if x :| x in Edges(desc, t) && x in desc && ReachesBy(desc, mode, t, x, d) {
      PathExtends(desc, mode, t, x, d);
    }
  }

  // ----- the recursion

  ghost predicate FlagAmong(desc: Description, t: Label, seen: seq<Label>, f: Flag)
    requires t in desc
  {
    f in OwnFlags(desc, t) ||
    exists x :: x in desc && ReachesAmong(desc, Bubbling(f.ProtoPath?), t, seen, x) && f in OwnFlags(desc, x)
  }

  /** The Target under construction, when the dependencies in `seen` have been looked at. */
  ghost function Partial(desc: Description, t: Label, seen: seq<Label>): Target
    requires t in desc
  {
    Target(KindOf(desc, t), ThirdParty(t),
           set d | d in desc && ReachesAmong(desc, Direct, t, seen, d),
           set d | d in desc && ReachesAmong(desc, Transitive, t, seen, d),
           set f | f in AllFlags(desc) && FlagAmong(desc, t, seen, f))
  }

  lemma PartialComplete(desc: Description, t: Label)
    requires t in desc
    ensures Partial(desc, t, Edges(desc, t)[..|Edges(desc, t)|]) == Answer(desc, t)
  {
    assert Edges(desc, t)[..|Edges(desc, t)|] == Edges(desc, t);
    forall mode, d ensures Reaches(desc, mode, t, d) <==> ReachesAmong(desc, mode, t, Edges(desc, t), d) {
      ReachesUnfold(desc, mode, t, d);
    }
  }

  /** The first edge of a longer list is new or old. */
  lemma AmongMore(desc: Description, mode: Mode, t: Label, seen: seq<Label>, x: Label, d: Label)
    requires t in desc && x in desc
    ensures ReachesAmong(desc, mode, t, seen + [x], d) <==>
            ReachesAmong(desc, mode, t, seen, d) || ReachesBy(desc, mode, t, x, d)
  {
    if ReachesBy(desc, mode, t, x, d) {
      assert x in seen + [x];
    }
    if y :| y in seen && y in desc && ReachesBy(desc, mode, t, y, d) {
      assert y in seen + [x];
    }
  }

  /** What the new dependency `x`, whose Target is `dep`, adds to each set. */
  ghost predicate Adds(desc: Description, t: Label, x: Label, r: Target, r': Target)
    requires t in desc && x in desc
  {
    r'.kind == r.kind && r'.thirdParty == r.thirdParty &&
    (forall d :: d in r'.deps <==> d in r.deps || ReachesBy(desc, Direct, t, x, d)) &&
    (forall d :: d in r'.transitiveDeps <==> d in r.transitiveDeps || ReachesBy(desc, Transitive, t, x, d)) &&
    forall f :: f in r'.flags <==>
      f in r.flags || (Kept(desc, t, x) && Carries(desc, Bubbling(f.ProtoPath?), x) && HasFlag(desc, x, f))
  }

  lemma FlagsMore(desc: Description, t: Label, seen: seq<Label>, x: Label, f: Flag)
    requires t in desc && x in desc
    ensures FlagAmong(desc, t, seen + [x], f) <==>
            FlagAmong(desc, t, seen, f) ||
            (Kept(desc, t, x) && Carries(desc, Bubbling(f.ProtoPath?), x) && HasFlag(desc, x, f))
  {
    var mode := Bubbling(f.ProtoPath?);
    forall y ensures ReachesAmong(desc, mode, t, seen + [x], y) <==>
                     ReachesAmong(desc, mode, t, seen, y) || ReachesBy(desc, mode, t, x, y)
    {
      AmongMore(desc, mode, t, seen, x, y);
    }
    if Kept(desc, t, x) && Carries(desc, mode, x) && f in OwnFlags(desc, x) {
      assert ReachesBy(desc, mode, t, x, x);
    }
    if Kept(desc, t, x) && Carries(desc, mode, x) && HasFlag(desc, x, f) && f !in OwnFlags(desc, x) {
      var y :| y in desc && Reaches(desc, mode, x, y) && f in OwnFlags(desc, y);
      assert ReachesBy(desc, mode, t, x, y);
    }
  }

  lemma PartialMore(desc: Description, t: Label, seen: seq<Label>, x: Label, r: Target)
    requires t in desc && x in desc && Adds(desc, t, x, Partial(desc, t, seen), r)
    ensures Partial(desc, t, seen + [x]) == r
  {
    forall mode, d ensures ReachesAmong(desc, mode, t, seen + [x], d) <==>
                           ReachesAmong(desc, mode, t, seen, d) || ReachesBy(desc, mode, t, x, d)
    {
      AmongMore(desc, mode, t, seen, x, d);
    }
    forall f ensures FlagAmong(desc, t, seen + [x], f) <==>
                     FlagAmong(desc, t, seen, f) ||
                     (Kept(desc, t, x) && Carries(desc, Bubbling(f.ProtoPath?), x) && HasFlag(desc, x, f))
    {
      FlagsMore(desc, t, seen, x, f);
    }
    var p := Partial(desc, t, seen + [x]);
    forall mode, d | ReachesBy(desc, mode, t, x, d) ensures d in desc {
      PathExtends(desc, mode, t, x, d);
      ReachedIsInside(desc, mode, t, d);
    }
    forall d ensures d in p.deps <==> d in r.deps {
    }
    forall d ensures d in p.transitiveDeps <==> d in r.transitiveDeps {
    }
    forall f ensures f in p.flags <==> f in r.flags {
    }
  }

  /** Before any dependency there is what the description gives. */
  lemma PartialStart(desc: Description, t: Label)
    requires t in desc
    ensures Partial(desc, t, Edges(desc, t)[..0]) ==
            Target(KindOf(desc, t), ThirdParty(t), {}, {}, OwnFlags(desc, t))
  {
  }

  lemma PartialNext(desc: Description, t: Label, i: nat, r: Target)
    requires t in desc && i < |Edges(desc, t)| && Edges(desc, t)[i] in desc
    requires Adds(desc, t, Edges(desc, t)[i], Partial(desc, t, Edges(desc, t)[..i]), r)
    ensures Partial(desc, t, Edges(desc, t)[..i + 1]) == r
  {
    assert Edges(desc, t)[..i + 1] == Edges(desc, t)[..i] + [Edges(desc, t)[i]];
    PartialMore(desc, t, Edges(desc, t)[..i], Edges(desc, t)[i], r);
  }

  /** Nothing that was remembered is forgotten or changed, except perhaps `t`. */
  ghost predicate Extends(before: map<Label, Target>, after: map<Label, Target>, t: set<Label>) {
    forall o :: o in before && o !in t ==> o in after && after[o] == before[o]
  }

  lemma ExtendsFresh(before: map<Label, Target>, started: map<Label, Target>, after: map<Label, Target>, t: Label)
    requires t !in before && Extends(before, started, {}) && Extends(started, after, {t})
    ensures Extends(before, after, {})
  {
  }

  lemma ThirdPartyAnswer(desc: Description, t: Label)
    requires t in desc && ThirdParty(t)
    ensures Answer(desc, t) == Target(desc[t].kind, true, {}, {}, {})
  {
    PartialStart(desc, t);
    PartialComplete(desc, t);
  }

  // ----- the branches of the loop body

  lemma AbsorbNothing(desc: Description, t: Label, x: Label, r: Target)
    requires t in desc && x in desc && !Kept(desc, t, x)
    ensures Adds(desc, t, x, r, r)
  {
  }

  /** A group is dissolved into what it holds. */
  lemma AbsorbGroup(desc: Description, t: Label, x: Label, r: Target)
    requires t in desc && x in desc && Kept(desc, t, x) && IsDissolved(desc, x)
    ensures var dep := Answer(desc, x);
            Adds(desc, t, x, r, r.(deps := r.deps + dep.deps, transitiveDeps := r.transitiveDeps + dep.transitiveDeps,
                                   flags := r.flags + dep.flags))
  {
    AnswerHoldsAllPaths(desc, x);
  }

  /** A linker unit is a dependency and lets nothing through. */
  lemma AbsorbUnit(desc: Description, t: Label, x: Label, r: Target)
    requires t in desc && x in desc && Kept(desc, t, x) && IsLinkerUnit(desc, x)
    ensures Adds(desc, t, x, r, r.(deps := r.deps + {x}))
  {
  }

  lemma OtherReaches(desc: Description, t: Label, x: Label, d: Label)
    requires t in desc && x in desc && Kept(desc, t, x) && !IsDissolved(desc, x) && !IsLinkerUnit(desc, x)
    ensures ReachesBy(desc, Direct, t, x, d) <==>
            d == x || (KindOf(desc, x) == SourceSet && d in Answer(desc, x).deps)
    ensures ReachesBy(desc, Transitive, t, x, d) <==> d == x || d in Answer(desc, x).transitiveDeps
  {
    AnswerHoldsAllPaths(desc, x);
  }

  /** Any other dependency is one, lets its dependencies through, and those flags that its kind carries. */
  lemma AbsorbOther(desc: Description, t: Label, x: Label, r: Target, r': Target)
    requires t in desc && x in desc && Kept(desc, t, x) && !IsDissolved(desc, x) && !IsLinkerUnit(desc, x)
    requires r'.kind == r.kind && r'.thirdParty == r.thirdParty
    requires r'.deps == r.deps + {x} + if KindOf(desc, x) == SourceSet then Answer(desc, x).deps else {}
    requires r'.transitiveDeps == r.transitiveDeps + {x} + Answer(desc, x).transitiveDeps
    requires forall f :: f in r'.flags <==>
      f in r.flags || (f in Answer(desc, x).flags && Carries(desc, Bubbling(f.ProtoPath?), x))
    ensures Adds(desc, t, x, r, r')
  {
    AnswerHoldsAllPaths(desc, x);
    forall d ensures d in r'.deps <==> d in r.deps || ReachesBy(desc, Direct, t, x, d) {
      OtherReaches(desc, t, x, d);
    }
    forall d ensures d in r'.transitiveDeps <==> d in r.transitiveDeps || ReachesBy(desc, Transitive, t, x, d) {
      OtherReaches(desc, t, x, d);
    }
  }

  class GnParser {
    const desc: Description
    var allTargets: map<Label, Target>

    constructor (desc: Description)
      ensures this.desc == desc && allTargets == map[]
    {
      this.desc, allTargets := desc, map[];
    }

    /** Every remembered target is finished and correct, except the ones being built. */
    ghost predicate Valid(open: set<Label>)
      reads this
    {
      open <= allTargets.Keys <= desc.Keys &&
      forall t :: t in allTargets && t !in open ==> allTargets[t] == Answer(desc, t)
    }

    /** `Target.update` and the rest of the loop body: absorb one dependency. */
    method Absorb(t: Label, target: Target, x: Label, dep: Target) returns (r: Target)
      requires t in desc && x in desc && x in Edges(desc, t) && target.kind == KindOf(desc, t)
      requires !ThirdParty(t) && dep == Answer(desc, x)
      ensures Adds(desc, t, x, target, r)
    {
      r := target;
      if dep.kind == GeneratedFile {
        AbsorbNothing(desc, t, x, r);
        return;
      }
      if dep.kind == Action && desc[t].proto {
        AbsorbNothing(desc, t, x, r);
        return;
      }
      if dep.kind == Group && !dep.thirdParty {
        AbsorbGroup(desc, t, x, r);
        r := r.(deps := r.deps + dep.deps, transitiveDeps := r.transitiveDeps + dep.transitiveDeps,
                flags := r.flags + dep.flags);
        return;
      }
      if dep.kind in {Executable, SharedLibrary, StaticLibrary} {
        AbsorbUnit(desc, t, x, r);
        r := r.(deps := r.deps + {x});
        return;
      }
      if dep.kind == SourceSet {
        r := r.(deps := r.deps + dep.deps, transitiveDeps := r.transitiveDeps + dep.transitiveDeps,
                flags := r.flags + dep.flags);
      } else if dep.kind == ProtoLibrary {
        r := r.(flags := r.flags + set f | f in dep.flags && f.ProtoPath?);
      }
      r := r.(deps := r.deps + {x}, transitiveDeps := r.transitiveDeps + {x} + dep.transitiveDeps);
      AbsorbOther(desc, t, x, target, r);
    }

    method GetTarget(t: Label, ghost rank: map<Label, nat>, ghost open: set<Label>) returns (r: Option<Target>)
      requires WellFormed(desc, rank) && Valid(open)
      requires t in desc ==> forall o :: o in open ==> rank[t] < rank[o]
      modifies this
      ensures Valid(open)
      ensures r.None? <==> t !in desc
      ensures r.Some? ==> t in allTargets && allTargets[t] == r.value == Answer(desc, t)
      ensures Extends(old(allTargets), allTargets, {})
      decreases if t in desc then rank[t] + 1 else 0, 3
    {
      if t in allTargets {
        return Some(allTargets[t]);
      }
      if t !in desc {
        return None;
      }
      var target := BuildTarget(t, rank, open);
      return Some(target);
    }

    /** The rest of it, for a label that is described and not remembered. */
    method BuildTarget(t: Label, ghost rank: map<Label, nat>, ghost open: set<Label>) returns (target: Target)
      requires WellFormed(desc, rank) && Valid(open) && t in desc && t !in allTargets
      requires forall o :: o in open ==> rank[t] < rank[o]
      modifies this
      ensures Valid(open) && t in allTargets && allTargets[t] == target == Answer(desc, t)
      ensures Extends(old(allTargets), allTargets, {})
      decreases rank[t] + 1, 2
    {
      var kind := if !ThirdParty(t) && desc[t].proto then ProtoLibrary else desc[t].kind;
      target := Target(kind, ThirdParty(t), {}, {}, {});
      allTargets := allTargets[t := target];
      assert !("//buildtools" <= t);
      if ThirdParty(t) {
        ThirdPartyAnswer(desc, t);
        return;
      }
      target := target.(flags := OwnFlags(desc, t));
      PartialStart(desc, t);
      allTargets := allTargets[t := target];
      ghost var started := allTargets;
      target := AbsorbAll(t, target, rank, open);
      ExtendsFresh(old(allTargets), started, allTargets, t);
    }

    /** The loop over the dependencies of `t`, whose Target is remembered but not finished. */
    method AbsorbAll(t: Label, target0: Target, ghost rank: map<Label, nat>, ghost open: set<Label>)
      returns (target: Target)
      requires WellFormed(desc, rank) && t in desc && Valid(open + {t}) && !ThirdParty(t)
      requires allTargets[t] == target0 == Partial(desc, t, Edges(desc, t)[..0])
      requires forall o :: o in open ==> rank[t] < rank[o]
      modifies this
      ensures Valid(open)
      ensures t in allTargets && allTargets[t] == target == Answer(desc, t)
      ensures Extends(old(allTargets), allTargets, {t})
      decreases rank[t] + 1, 1
    {
      target := target0;
      for i := 0 to |Edges(desc, t)|
        invariant Valid(open + {t})
        invariant allTargets[t] == target == Partial(desc, t, Edges(desc, t)[..i])
        invariant Extends(old(allTargets), allTargets, {t})
      {
        target := AbsorbNext(t, i, rank, open);
      }
      PartialComplete(desc, t);
    }

    /** One turn of the loop: get the dependency, absorb it. */
    method AbsorbNext(t: Label, i: nat, ghost rank: map<Label, nat>, ghost open: set<Label>)
      returns (target: Target)
      requires WellFormed(desc, rank) && t in desc && Valid(open + {t}) && !ThirdParty(t)
      requires i < |Edges(desc, t)| && allTargets[t] == Partial(desc, t, Edges(desc, t)[..i])
      requires forall o :: o in open ==> rank[t] < rank[o]
      modifies this
      ensures Valid(open + {t})
      ensures allTargets[t] == target == Partial(desc, t, Edges(desc, t)[..i + 1])
      ensures Extends(old(allTargets), allTargets, {t})
      decreases rank[t] + 1, 0
    {
      target := allTargets[t];
      var x := desc[t].deps[i];
      assert x in Edges(desc, t);
      var dep := GetTarget(x, rank, open + {t});
      target := Absorb(t, target, x, dep.value);
      PartialNext(desc, t, i, target);
      allTargets := allTargets[t := target];
    }
  }
}
