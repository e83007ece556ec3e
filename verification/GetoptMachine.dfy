/** src/base/getopt_compat.cc: the static state that persists between calls, and one call of getopt_long. */
module GetoptMachine {
  import opened Wrappers
  import opened GetoptParser

  /** A `char*` into an argument: `off` may be its length, where the terminating NUL is. */
  datatype Ptr = Ptr(arg: nat, off: nat)

  /** The text of a C string has no NUL in it. */
  predicate IsText(s: string) {
    '\0' !in s
  }

  /** `*p`, for a pointer up to and including the terminator. */
  function Deref(argv: seq<string>, p: Ptr): char
    requires p.arg < |argv| && p.off <= |argv[p.arg]|
  {
    if p.off < |argv[p.arg]| then argv[p.arg][p.off] else '\0'
  }

  /** The table of one call: the long options, then the short ones; None if `shortopts` is malformed. */
  function Table(shortopts: string, longopts: seq<Opt>): Option<seq<Opt>> {
    match ShortOpts(shortopts)
    case None => None
    case Some(short) => Some(longopts + short)
  }

  /** `ParseOpts`.  Its CHECK makes `has_arg` the caller's duty. */
  method ParseOpts(shortopts: string, longopts: seq<Opt>) returns (res: Option<seq<Opt>>)
    requires IsText(shortopts)
    ensures res == Table(shortopts, longopts)
  {
    var opts := longopts;
    var i := 0;
    while i < |shortopts|
      invariant i <= |shortopts|
      invariant var t := ShortOpts(shortopts[i..]);
                Table(shortopts, longopts) == if t.None? then None else Some(opts + t.value)
    {
      var c := shortopts[i];
      i := i + 1;
      if !IsAlnum(c) {
        return None;
      }
      assert shortopts[i - 1..][1..] == shortopts[i..];
      var hasArg := NO_ARGUMENT;
      if i < |shortopts| && shortopts[i] == ':' {
        hasArg := REQUIRED_ARGUMENT;
        i := i + 1;
        assert shortopts[i - 2..][2..] == shortopts[i..];
      }
      var opt := Opt("", hasArg, c as int);
      ghost var t := ShortOpts(shortopts[i..]);
      assert t.Some? ==> (opts + [opt]) + t.value == opts + ([opt] + t.value);
      opts := opts + [opt];
    }
    assert opts + [] == opts;
    return Some(opts);
  }

  predicate ArgumentsChecked(opts: seq<Opt>) {
    forall o :: o in opts ==> o.hasArg == NO_ARGUMENT || o.hasArg == REQUIRED_ARGUMENT
  }

  lemma {:induction false} ShortOptsChecked(s: string)
    requires ShortOpts(s).Some?
    ensures ArgumentsChecked(ShortOpts(s).value)
  {
    if s != [] {
      ShortOptsChecked(if |s| > 1 && s[1] == ':' then s[2..] else s[1..]);
    }
  }

  lemma {:induction false} ShortValues(s: string)
    requires ShortOpts(s).Some?
    ensures forall o :: o in ShortOpts(s).value ==> o.val != END
  {
    if s != [] {
      ShortValues(if |s| > 1 && s[1] == ':' then s[2..] else s[1..]);
    }
  }

  class Getopt {
    var optind: nat
    var optopt: int
    var optarg: Option<string>
    var nextchar: Option<Ptr>

    /** In every state between calls: `nextchar`, if set, points behind the dash of the current argument. */
    ghost predicate Valid(argv: seq<string>)
      reads this
    {
      optind <= (if argv == [] then 1 else |argv|) &&
      (nextchar.Some? ==>
         1 <= nextchar.value.arg == optind < |argv| &&
         1 <= nextchar.value.off < |argv[optind]| && argv[optind][0] == '-')
    }

    /** The arguments not consumed yet. */
    ghost function Rest(argv: seq<string>): seq<string>
      reads this
    {
      if optind <= |argv| then argv[optind..] else []
    }

    /** What is left to parse in this state, as the pure parser sees it. */
    ghost function Remaining(opts: seq<Opt>, argv: seq<string>): Parse
      requires Valid(argv)
      reads this
    {
      if nextchar.Some? then ParseLetters(opts, argv[optind][nextchar.value.off..], argv[optind + 1..])
      else if optind == 0 && argv != [] then ParseList(opts, argv[1..])
      else ParseList(opts, Rest(argv))
    }

    constructor ()
      ensures optind == 0 && nextchar == None
    {
      optind, optopt, optarg, nextchar := 0, 0, None, None;
    }

    /** The long-option branch. */
    method CallLong(argv: seq<string>, opts: seq<Opt>) returns (ret: int)
      requires Valid(argv) && ArgumentsChecked(opts)
      requires 1 <= optind < |argv| && nextchar == None && optarg == None && IsLong(argv[optind])
      modifies this
      ensures Valid(argv) && nextchar == None
      ensures old(Remaining(opts, argv)) == Report(Event(ret, optarg, optopt), Remaining(opts, argv))
    {
      var arg := argv[optind][2..];
      assert argv[optind..][0] == argv[optind];
      assert argv[optind..][1..] == argv[optind + 1..];
      ghost var read := ReadLong(opts, arg, argv[optind + 1..]);
      assert argv[optind..][1 + read.1..] == argv[optind + 1 + read.1..];
      var sep := IndexOf(arg, '=');
      optind := optind + 1;
      optopt := 0;
      var len := if sep.Some? then sep.value else |arg|;
      assert arg[..|arg|] == arg;
      var opt := FindLong(opts, arg[..len]);
      if opt.None? {
        return ERROR;
      }
      optopt := opt.value.val;
      if opt.value.hasArg == NO_ARGUMENT {
        return if sep.Some? then ERROR else opt.value.val;
      } else if opt.value.hasArg == REQUIRED_ARGUMENT {
        if sep.Some? {
          optarg := Some(arg[sep.value + 1..]);
          return opt.value.val;
        } else if optind >= |argv| {
          return ERROR;
        } else {
          optarg := Some(argv[optind]);
          optind := optind + 1;
          return opt.value.val;
        }
      }
      assert false;
    }

    /** The short-option branch: one letter of a cluster. */
    method CallShort(argv: seq<string>, opts: seq<Opt>) returns (ret: int)
      requires Valid(argv) && ArgumentsChecked(opts) && nextchar.Some? && optarg == None
      requires IsText(argv[optind])
      modifies this
      ensures Valid(argv)
      ensures old(Remaining(opts, argv)) == Report(Event(ret, optarg, optopt), Remaining(opts, argv))
    {
      var curChar := Deref(argv, nextchar.value);
      assert curChar != '\0';
      ghost var letters := argv[optind][nextchar.value.off..];
      assert letters[1..] == argv[optind][nextchar.value.off + 1..];
      ghost var after := argv[optind + 1..];
      assert after != [] ==> after[1..] == argv[optind + 2..];

      var advanced := Ptr(nextchar.value.arg, nextchar.value.off + 1);
      assert advanced.off < |argv[optind]| ==> Deref(argv, advanced) in argv[optind];
      if Deref(argv, advanced) == '\0' {
        nextchar := None;
        optind := optind + 1;
      } else {
        nextchar := Some(advanced);
      }
      var opt := FindShort(opts, curChar);
      optopt := curChar as int;
      if opt.None? {
        return ERROR;
      }
      if opt.value.hasArg == NO_ARGUMENT {
        return curChar as int;
      } else if opt.value.hasArg == REQUIRED_ARGUMENT {
        if nextchar.None? {
          if optind >= |argv| {
            return ERROR;
          } else {
            optarg := Some(argv[optind]);
            optind := optind + 1;
            return curChar as int;
          }
        } else {
          optarg := Some(argv[nextchar.value.arg][nextchar.value.off..]);
          nextchar := None;
          optind := optind + 1;
          return curChar as int;
        }
      }
      assert false;
    }

    /** The call proper, once the option table is built. */
    method Call(argv: seq<string>, opts: seq<Opt>) returns (ret: int, ghost event: Option<Event>)
      requires Valid(argv) && ArgumentsChecked(opts) && 1 <= optind < |argv| && optarg == None
      requires forall a :: a in argv ==> IsText(a)
      modifies this
      ensures Valid(argv)
      ensures match event
              case None =>
                ret == END && nextchar == None && optarg == None &&
                old(Remaining(opts, argv)) == Parse([], Rest(argv))
              case Some(e) =>
                e == Event(ret, optarg, optopt) &&
                old(Remaining(opts, argv)) == Report(e, Remaining(opts, argv))
    {
      var arg := argv[optind];
      assert argv[optind..][0] == arg && argv[optind..][1..] == argv[optind + 1..];
      optopt := 0;
      if nextchar.None? {
        if IsLong(arg) {
          ret := CallLong(argv, opts);
          return ret, Some(Event(ret, optarg, optopt));
        }
        if IsCluster(arg) {
          nextchar := Some(Ptr(optind, 1));
        }
      }
      if nextchar.Some? {
        ret := CallShort(argv, opts);
        return ret, Some(Event(ret, optarg, optopt));
      }
      if arg == "--" {
        optind := optind + 1;
      }
      return END, None;
    }

    /**
     * `getopt_long`.  A call either reports the first event that is left to parse, and leaves the
     * others, or finds nothing left to report, returns -1 and stops in front of the positional arguments.
     */
    method GetoptLong(argv: seq<string>, shortopts: string, longopts: seq<Opt>)
      returns (ret: int, ghost event: Option<Event>)
      requires Valid(argv) && ArgumentsChecked(longopts)
      requires IsText(shortopts) && forall a :: a in argv ==> IsText(a)
      modifies this
      ensures Valid(argv)
      ensures var table := Table(shortopts, longopts);
              table.Some? ==>
                match event
                case None =>
                  ret == END && nextchar == None && optarg == None &&
                  old(Remaining(table.value, argv)) == Parse([], Rest(argv))
                case Some(e) =>
                  e == Event(ret, optarg, optopt) &&
                  old(Remaining(table.value, argv)) == Report(e, Remaining(table.value, argv))
      ensures Table(shortopts, longopts).None? ==>
                optind == (if old(optind) == 0 then 1 else old(optind)) && nextchar == old(nextchar) &&
                ret == if optind >= |argv| then END else ERROR
    {
      optarg := None;
      if optind == 0 {
        optind := 1;
      }
      if optind >= |argv| {
        return END, None;
      }
      var opts := ParseOpts(shortopts, longopts);
      if opts.None? {
        return ERROR, Some(Event(ERROR, None, optopt));
      }
      ShortOptsChecked(shortopts);
      ret, event := Call(argv, opts.value);
    }
  }

  /** No report looks like the end mark, unless an option has that value. */
  lemma {:induction false} ReportsAreNotEnd(opts: seq<Opt>, args: seq<string>)
    requires forall o :: o in opts ==> o.val != END
    ensures forall e :: e in ParseList(opts, args).events ==> e.ret != END
    decreases |args|, 0
  {
    if args != [] {
      if IsLong(args[0]) {
        var read := ReadLong(opts, args[0][2..], args[1..]);
        ReportsAreNotEnd(opts, args[1 + read.1..]);
      } else if IsCluster(args[0]) {
        LetterReportsAreNotEnd(opts, args[0][1..], args[1..]);
      }
    }
  }

  lemma {:induction false} LetterReportsAreNotEnd(opts: seq<Opt>, letters: string, args: seq<string>)
    requires forall o :: o in opts ==> o.val != END
    requires letters != []
    ensures forall e :: e in ParseLetters(opts, letters, args).events ==> e.ret != END
    decreases |args|, |letters|
  {
    ReportsAreNotEnd(opts, args);
    if args != [] {
      ReportsAreNotEnd(opts, args[1..]);
    }
    if |letters| > 1 {
      LetterReportsAreNotEnd(opts, letters[1..], args);
    }
  }

  lemma ReportMoves(events: seq<Event>, e: Event, p: Parse)
    ensures events + Report(e, p).events == (events + [e]) + p.events
    ensures e in Report(e, p).events && forall x :: x in p.events ==> x in Report(e, p).events
  {
  }

  /**
   * The loop of a caller such as src/websocket_bridge/websocket_bridge.cc: call until -1.  It collects what the
   * pure parser finds in the arguments after the program name.
   */
  method ParseCommandLine(argv: seq<string>, shortopts: string, longopts: seq<Opt>)
    returns (events: seq<Event>, optind: nat)
    requires argv != [] && ArgumentsChecked(longopts)
    requires IsText(shortopts) && forall a :: a in argv ==> IsText(a)
    requires Table(shortopts, longopts).Some?
    requires forall o :: o in longopts ==> o.val != END
    ensures optind <= |argv|
    ensures ParseList(Table(shortopts, longopts).value, argv[1..]) == Parse(events, argv[optind..])
  {
    var g := new Getopt();
    ghost var opts := Table(shortopts, longopts).value;
    ghost var whole := ParseList(opts, argv[1..]);
    ShortValues(shortopts);
    ReportsAreNotEnd(opts, argv[1..]);
    events := [];
    while true
      invariant g.Valid(argv)
      invariant fresh(g)
      invariant forall e :: e in g.Remaining(opts, argv).events ==> e.ret != END
      invariant whole == Parse(events + g.Remaining(opts, argv).events, g.Remaining(opts, argv).rest)
      decreases |g.Remaining(opts, argv).events|
    {
      var ret;
      ghost var event;
      ret, event := g.GetoptLong(argv, shortopts, longopts);
      if ret == END {
        assert event == None;
        assert events + [] == events;
        return events, g.optind;
      }
      ReportMoves(events, Event(ret, g.optarg, g.optopt), g.Remaining(opts, argv));
      events := events + [Event(ret, g.optarg, g.optopt)];
    }
  }
}
