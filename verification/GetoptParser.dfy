/**
 * A pure parser of a whole argument list, with the option rules of src/base/getopt_compat.cc, and the
 * printer it undoes.
 */
module GetoptParser {
  import opened Wrappers

  const NO_ARGUMENT := 0
  const REQUIRED_ARGUMENT := 1
  const END := -1
  const ERROR := '?' as int

  /** The source's `option`; a short option has the empty name. */
  datatype Opt = Opt(name: string, hasArg: int, val: int)

  /** What one call reports: its result, `optarg` and `optopt`. */
  datatype Event = Event(ret: int, arg: Option<string>, opt: int)

  /** A parsed list: the reports in order, and the arguments left over. */
  datatype Parse = Parse(events: seq<Event>, rest: seq<string>)

  predicate IsAlnum(c: char) {
    'a' <= c <= 'z' || 'A' <= c <= 'Z' || '0' <= c <= '9'
  }

  /** The short options a `shortopts` text declares, if it is well formed. */
  function ShortOpts(s: string): Option<seq<Opt>> {
    if s == [] then Some([])
    else if !IsAlnum(s[0]) then None
    else
      var takes := |s| > 1 && s[1] == ':';
      match ShortOpts(if takes then s[2..] else s[1..])
      case None => None
      case Some(rest) =>
        Some([Opt("", if takes then REQUIRED_ARGUMENT else NO_ARGUMENT, s[0] as int)] + rest)
  }

  /** A letter or digit, or a colon right after one. */
  predicate Declares(s: string, i: nat)
    requires i < |s|
  {
    IsAlnum(s[i]) || (s[i] == ':' && i > 0 && IsAlnum(s[i - 1]))
  }

  /** `shortopts` is accepted exactly when it is letters and digits, each with at most one colon after it. */
  lemma {:induction false} ShortOptsWellFormed(s: string)
    ensures ShortOpts(s).Some? <==> forall i :: 0 <= i < |s| ==> Declares(s, i)
  {
    if s != [] {
      if !IsAlnum(s[0]) {
        assert !Declares(s, 0);
      } else {
        var k := if |s| > 1 && s[1] == ':' then 2 else 1;
        var t := s[k..];
        ShortOptsWellFormed(t);
        forall i | 0 <= i < |t| ensures Declares(t, i) <==> Declares(s, k + i) {
          assert t[i] == s[k + i] && (i > 0 ==> t[i - 1] == s[k + i - 1]);
        }
        assert forall i :: 0 <= i < k ==> Declares(s, i);
        if forall i :: 0 <= i < |t| ==> Declares(t, i) {
          forall i | k <= i < |s| ensures Declares(s, i) {
            assert Declares(t, i - k);
          }
        }
      }
    }
  }

  /** The long option with this name: the first of the table. */
  function FindLong(opts: seq<Opt>, name: string): (r: Option<Opt>)
    ensures r.Some? ==> r.value in opts && r.value.name == name
    ensures r.None? ==> forall o :: o in opts ==> o.name != name
  {
    if opts == [] then None
    else if opts[0].name == name then Some(opts[0])
    else FindLong(opts[1..], name)
  }

  /** The short option with this letter: the first nameless one of the table. */
  function FindShort(opts: seq<Opt>, c: char): (r: Option<Opt>)
    ensures r.Some? ==> r.value in opts && r.value.name == "" && r.value.val == c as int
    ensures r.None? ==> forall o :: o in opts ==> o.name != "" || o.val != c as int
  {
    if opts == [] then None
    else if opts[0].name == "" && opts[0].val == c as int then Some(opts[0])
    else FindShort(opts[1..], c)
  }

  /** Before the option that is found none has the name; if none is found, none has it at all. */
  lemma {:induction false} FindLongFirst(opts: seq<Opt>, name: string) returns (i: nat)
    ensures i <= |opts| && forall j :: 0 <= j < i ==> opts[j].name != name
    ensures if i < |opts| then opts[i].name == name && FindLong(opts, name) == Some(opts[i])
            else FindLong(opts, name) == None
  {
    if opts == [] || opts[0].name == name {
      i := 0;
    } else {
      i := FindLongFirst(opts[1..], name);
      assert forall j :: 0 < j <= i ==> opts[j] == opts[1..][j - 1];
      i := i + 1;
    }
  }

  predicate IsShort(o: Opt, c: char) {
    o.name == "" && o.val == c as int
  }

  lemma {:induction false} FindShortFirst(opts: seq<Opt>, c: char) returns (i: nat)
    ensures i <= |opts| && forall j :: 0 <= j < i ==> !IsShort(opts[j], c)
    ensures if i < |opts| then IsShort(opts[i], c) && FindShort(opts, c) == Some(opts[i])
            else FindShort(opts, c) == None
  {
    if opts == [] || IsShort(opts[0], c) {
      i := 0;
    } else {
      i := FindShortFirst(opts[1..], c);
      assert forall j :: 0 < j <= i ==> opts[j] == opts[1..][j - 1];
      i := i + 1;
    }
  }

  function IndexOf(s: string, c: char): (r: Option<nat>)
    ensures r.Some? ==> r.value < |s| && s[r.value] == c && c !in s[..r.value]
    ensures r.None? ==> c !in s
  {
    if s == [] then None
    else if s[0] == c then Some(0)
    else
      match IndexOf(s[1..], c)
      case None => None
      case Some(i) => Some(i + 1)
  }

  predicate IsLong(a: string) {
    |a| > 2 && a[0] == '-' && a[1] == '-'
  }

  predicate IsCluster(a: string) {
    |a| > 1 && a[0] == '-' && a[1] != '-'
  }

  function Report(e: Event, p: Parse): Parse {
    Parse([e] + p.events, p.rest)
  }

  /** The long argument `--<body>` in front of `args`: its report, and how many of `args` it takes. */
  function ReadLong(opts: seq<Opt>, body: string, args: seq<string>): (r: (Event, nat))
    ensures r.1 <= |args|
  {
    var sep := IndexOf(body, '=');
    var opt := FindLong(opts, if sep.Some? then body[..sep.value] else body);
    if opt.None? then (Event(ERROR, None, 0), 0)
    else
      var val := opt.value.val;
      if opt.value.hasArg == NO_ARGUMENT then
        (if sep.Some? then Event(ERROR, None, val) else Event(val, None, val), 0)
      else if sep.Some? then (Event(val, Some(body[sep.value + 1..]), val), 0)
      else if args == [] then (Event(ERROR, None, val), 0)
      else (Event(val, Some(args[0]), val), 1)
  }

  /** Parse `args` up to the first argument that is not an option. */
  function ParseList(opts: seq<Opt>, args: seq<string>): Parse
    decreases |args|, 0
  {
    if args == [] then Parse([], [])
    else if IsLong(args[0]) then
      var (event, taken) := ReadLong(opts, args[0][2..], args[1..]);
      Report(event, ParseList(opts, args[1 + taken..]))
    else if IsCluster(args[0]) then ParseLetters(opts, args[0][1..], args[1..])
    else Parse([], if args[0] == "--" then args[1..] else args)
  }

  /** Parse a cluster of short options, then `args`. */
  function ParseLetters(opts: seq<Opt>, letters: string, args: seq<string>): Parse
    requires letters != []
    decreases |args|, |letters|
  {
    var c := letters[0];
    var opt := FindShort(opts, c);
    if opt.Some? && opt.value.hasArg == REQUIRED_ARGUMENT then
      if |letters| > 1 then Report(Event(c as int, Some(letters[1..]), c as int), ParseList(opts, args))
      else if args == [] then Report(Event(ERROR, None, c as int), ParseList(opts, args))
      else Report(Event(c as int, Some(args[0]), c as int), ParseList(opts, args[1..]))
    else
      Report(Event(if opt.Some? then c as int else ERROR, None, c as int),
             if |letters| > 1 then ParseLetters(opts, letters[1..], args) else ParseList(opts, args))
  }

  // ----- the printer

  /** One way of writing options on a command line. */
  datatype Use =
    | Flags(flags: string)
    | ShortAttached(flags: string, c: char, arg: string)
    | ShortDetached(flags: string, c: char, arg: string)
    | LongFlag(name: string)
    | LongAttached(name: string, arg: string)
    | LongDetached(name: string, arg: string)

  predicate TakesNone(opts: seq<Opt>, c: char) {
    FindShort(opts, c).Some? && FindShort(opts, c).value.hasArg == NO_ARGUMENT
  }

  predicate TakesOne(opts: seq<Opt>, c: char) {
    FindShort(opts, c).Some? && FindShort(opts, c).value.hasArg == REQUIRED_ARGUMENT
  }

  predicate AllTakeNone(opts: seq<Opt>, flags: string) {
    forall c :: c in flags ==> TakesNone(opts, c)
  }

  predicate Names(opts: seq<Opt>, name: string, hasArg: int) {
    name != "" && '=' !in name && FindLong(opts, name).Some? && FindLong(opts, name).value.hasArg == hasArg
  }

  /** The use fits the table.  A cluster may not begin with a dash, and an attached argument is not empty. */
  predicate Fits(opts: seq<Opt>, u: Use) {
    match u
    case Flags(flags) => flags != "" && flags[0] != '-' && AllTakeNone(opts, flags)
    case ShortAttached(flags, c, arg) =>
      (flags + [c])[0] != '-' && AllTakeNone(opts, flags) && TakesOne(opts, c) && arg != ""
    case ShortDetached(flags, c, _) => (flags + [c])[0] != '-' && AllTakeNone(opts, flags) && TakesOne(opts, c)
    case LongFlag(name) => Names(opts, name, NO_ARGUMENT)
    case LongAttached(name, _) => Names(opts, name, REQUIRED_ARGUMENT)
    case LongDetached(name, _) => Names(opts, name, REQUIRED_ARGUMENT)
  }

  function Print(u: Use): seq<string> {
    match u
    case Flags(flags) => ["-" + flags]
    case ShortAttached(flags, c, arg) => ["-" + flags + [c] + arg]
    case ShortDetached(flags, c, arg) => ["-" + flags + [c], arg]
    case LongFlag(name) => ["--" + name]
    case LongAttached(name, arg) => ["--" + name + "=" + arg]
    case LongDetached(name, arg) => ["--" + name, arg]
  }

  function FlagEvents(flags: string): seq<Event> {
    seq(|flags|, i requires 0 <= i < |flags| => Event(flags[i] as int, None, flags[i] as int))
  }

  function ShortEvent(c: char, arg: string): Event {
    Event(c as int, Some(arg), c as int)
  }

  /** What the use should be reported as. */
  function Meaning(opts: seq<Opt>, u: Use): seq<Event>
    requires Fits(opts, u)
  {
    match u
    case Flags(flags) => FlagEvents(flags)
    case ShortAttached(flags, c, arg) => FlagEvents(flags) + [ShortEvent(c, arg)]
    case ShortDetached(flags, c, arg) => FlagEvents(flags) + [ShortEvent(c, arg)]
    case LongFlag(name) => var v := FindLong(opts, name).value.val; [Event(v, None, v)]
    case LongAttached(name, arg) => var v := FindLong(opts, name).value.val; [Event(v, Some(arg), v)]
    case LongDetached(name, arg) => var v := FindLong(opts, name).value.val; [Event(v, Some(arg), v)]
  }

  function PrintAll(uses: seq<Use>): seq<string> {
    if uses == [] then [] else Print(uses[0]) + PrintAll(uses[1..])
  }

  function MeaningAll(opts: seq<Opt>, uses: seq<Use>): seq<Event>
    requires forall u :: u in uses ==> Fits(opts, u)
  {
    if uses == [] then [] else Meaning(opts, uses[0]) + MeaningAll(opts, uses[1..])
  }

  /** A cluster of flags is reported letter by letter, before whatever the rest of the cluster means. */
  lemma {:induction false} FlagsParse(opts: seq<Opt>, flags: string, more: string, args: seq<string>)
    requires AllTakeNone(opts, flags) && flags + more != []
    ensures more != [] ==>
              var p := ParseLetters(opts, more, args);
              ParseLetters(opts, flags + more, args) == Parse(FlagEvents(flags) + p.events, p.rest)
    ensures more == [] ==>
              var p := ParseList(opts, args);
              ParseLetters(opts, flags + more, args) == Parse(FlagEvents(flags) + p.events, p.rest)
  {
    if flags == [] {
      assert flags + more == more;
    } else {
      assert TakesNone(opts, flags[0]);
      assert (flags + more)[1..] == flags[1..] + more;
      assert FlagEvents(flags) == [Event(flags[0] as int, None, flags[0] as int)] + FlagEvents(flags[1..]);
      if flags[1..] + more != [] {
        FlagsParse(opts, flags[1..], more, args);
      }
    }
  }

  lemma LongParses(opts: seq<Opt>, name: string, args: seq<string>)
    requires name != "" && '=' !in name
    ensures IndexOf(name, '=').None?
    ensures IsLong("--" + name) && ("--" + name)[2..] == name
  {
  }

  lemma {:induction false} FirstSeparator(name: string, arg: string)
    requires '=' !in name
    ensures IndexOf(name + "=" + arg, '=') == Some(|name|)
  {
    if name != [] {
      assert (name + "=" + arg)[1..] == name[1..] + "=" + arg;
      FirstSeparator(name[1..], arg);
    }
  }

  /** A cluster argument: flags, then possibly an option that takes an argument. */
  lemma ClusterParses(opts: seq<Opt>, flags: string, more: string, args: seq<string>)
    requires AllTakeNone(opts, flags) && flags + more != [] && (flags + more)[0] != '-'
    ensures var p := if more == [] then ParseList(opts, args) else ParseLetters(opts, more, args);
            ParseList(opts, ["-" + (flags + more)] + args) == Parse(FlagEvents(flags) + p.events, p.rest)
  {
    var all := ["-" + (flags + more)] + args;
    assert all[0][1..] == flags + more && all[0][1] == (flags + more)[0];
    assert all[1..] == args;
    FlagsParse(opts, flags, more, args);
  }

  lemma ArgumentParses(opts: seq<Opt>, c: char, arg: string, args: seq<string>)
    requires TakesOne(opts, c)
    ensures arg != "" ==>
              ParseLetters(opts, [c] + arg, args) == Report(ShortEvent(c, arg), ParseList(opts, args))
    ensures ParseLetters(opts, [c], [arg] + args) == Report(ShortEvent(c, arg), ParseList(opts, args))
  {
    assert ([c] + arg)[1..] == arg;
    assert ([arg] + args)[1..] == args;
  }

  /** The printed use, in front of any `args`, is read back as what it means. */
  ghost predicate ReadsBack(opts: seq<Opt>, u: Use, args: seq<string>)
    requires Fits(opts, u)
  {
    var p := ParseList(opts, args);
    ParseList(opts, Print(u) + args) == Parse(Meaning(opts, u) + p.events, p.rest)
  }

  lemma FlagsReadBack(opts: seq<Opt>, flags: string, args: seq<string>)
    requires Fits(opts, Flags(flags))
    ensures ReadsBack(opts, Flags(flags), args)
  {
    assert flags + [] == flags;
    ClusterParses(opts, flags, [], args);
  }

  lemma ShortAttachedReadsBack(opts: seq<Opt>, flags: string, c: char, arg: string, args: seq<string>)
    requires Fits(opts, ShortAttached(flags, c, arg))
    ensures ReadsBack(opts, ShortAttached(flags, c, arg), args)
  {
    assert "-" + flags + [c] + arg == "-" + (flags + ([c] + arg));
    assert (flags + ([c] + arg))[0] == (flags + [c])[0];
    ClusterParses(opts, flags, [c] + arg, args);
    ArgumentParses(opts, c, arg, args);
  }

  lemma ShortDetachedReadsBack(opts: seq<Opt>, flags: string, c: char, arg: string, args: seq<string>)
    requires Fits(opts, ShortDetached(flags, c, arg))
    ensures ReadsBack(opts, ShortDetached(flags, c, arg), args)
  {
    assert "-" + flags + [c] == "-" + (flags + [c]);
    assert Print(ShortDetached(flags, c, arg)) + args == ["-" + (flags + [c])] + ([arg] + args);
    ClusterParses(opts, flags, [c], [arg] + args);
    ArgumentParses(opts, c, arg, args);
  }

  lemma LongFlagReadsBack(opts: seq<Opt>, name: string, args: seq<string>)
    requires Fits(opts, LongFlag(name))
    ensures ReadsBack(opts, LongFlag(name), args)
  {
    LongParses(opts, name, args);
    assert (["--" + name] + args)[1..] == args;
  }

  lemma LongAttachedReadsBack(opts: seq<Opt>, name: string, arg: string, args: seq<string>)
    requires Fits(opts, LongAttached(name, arg))
    ensures ReadsBack(opts, LongAttached(name, arg), args)
  {
    var body := name + "=" + arg;
    var all := ["--" + name + "=" + arg] + args;
    assert all[0] == "--" + body && all[0][2..] == body && all[1..] == args;
    FirstSeparator(name, arg);
    assert body[..|name|] == name && body[|name| + 1..] == arg;
  }

  lemma LongDetachedReadsBack(opts: seq<Opt>, name: string, arg: string, args: seq<string>)
    requires Fits(opts, LongDetached(name, arg))
    ensures ReadsBack(opts, LongDetached(name, arg), args)
  {
    LongParses(opts, name, args);
    var all := ["--" + name, arg] + args;
    assert all[1..] == [arg] + args && all[2..] == args;
  }

  /** One printed use is read back as what it means, whatever follows. */
  lemma UseReadsBack(opts: seq<Opt>, u: Use, args: seq<string>)
    requires Fits(opts, u)
    ensures ReadsBack(opts, u, args)
  {
    match u
    case Flags(flags) => FlagsReadBack(opts, flags, args);
    case ShortAttached(flags, c, arg) => ShortAttachedReadsBack(opts, flags, c, arg, args);
    case ShortDetached(flags, c, arg) => ShortDetachedReadsBack(opts, flags, c, arg, args);
    case LongFlag(name) => LongFlagReadsBack(opts, name, args);
    case LongAttached(name, arg) => LongAttachedReadsBack(opts, name, arg, args);
    case LongDetached(name, arg) => LongDetachedReadsBack(opts, name, arg, args);
  }

  /** Where the options end: `--`, or an argument that is no option, or nothing. */
  predicate EndsOptions(tail: seq<string>, rest: seq<string>) {
    tail == ["--"] + rest ||
    (tail == rest && (rest == [] || (!IsLong(rest[0]) && !IsCluster(rest[0]) && rest[0] != "--")))
  }

  /** Parsing undoes printing. */
  lemma {:induction false} ParseUndoesPrint(opts: seq<Opt>, uses: seq<Use>, tail: seq<string>, rest: seq<string>)
    requires forall u :: u in uses ==> Fits(opts, u)
    requires EndsOptions(tail, rest)
    ensures ParseList(opts, PrintAll(uses) + tail) == Parse(MeaningAll(opts, uses), rest)
  {
    if uses == [] {
      assert PrintAll(uses) + tail == tail;
    } else {
      var more := PrintAll(uses[1..]) + tail;
      assert PrintAll(uses) + tail == Print(uses[0]) + more;
      ParseUndoesPrint(opts, uses[1..], tail, rest);
      UseReadsBack(opts, uses[0], more);
    }
  }

  /** A printed command line leaves nothing to choose: options, arguments and the final index come back. */
  lemma CommandLineRoundTrip(
      opts: seq<Opt>, program: string, uses: seq<Use>, tail: seq<string>, rest: seq<string>,
      argv: seq<string>, events: seq<Event>, optind: nat)
    requires forall u :: u in uses ==> Fits(opts, u)
    requires EndsOptions(tail, rest) && argv == [program] + PrintAll(uses) + tail
    requires optind <= |argv| && ParseList(opts, argv[1..]) == Parse(events, argv[optind..])
    ensures events == MeaningAll(opts, uses) && argv[optind..] == rest && optind == |argv| - |rest|
  {
    assert argv[1..] == PrintAll(uses) + tail;
    ParseUndoesPrint(opts, uses, tail, rest);
  }

  /**
   * A quirk of the lookup by name: `--=v` has the empty name, which is the name of every short option, so
   * it is read as the first of them, where it ought to be unknown whatever the short options are.
   */
  lemma EmptyLongNameIsFirstShort(opts: seq<Opt>, v: string, args: seq<string>)
    ensures var first := FindLong(opts, "");
            ParseList(opts, ["--=" + v] + args).events[0] ==
            if first.None? then Event(ERROR, None, 0)
            else if first.value.hasArg == NO_ARGUMENT then Event(ERROR, None, first.value.val)
            else Event(first.value.val, Some(v), first.value.val)
  {
    var all := ["--=" + v] + args;
    assert all[0][2..] == "=" + v;
    assert ("=" + v)[..0] == "" && ("=" + v)[1..] == v;
  }
}
