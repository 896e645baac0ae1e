/** `parse_args`: the command line, as the program reads it left to right. */
module Cli {
  import opened Wrappers

  /** The settings of one run; `startDir` is the path text as given. */
  datatype Config = Config(
    startDir: string,
    maxDepth: Option<nat>,
    ascii: bool,
    showContent: bool,
    toStdout: bool)

  /** What parsing decides: a configuration, the request for help, or an error message. */
  datatype ParseResult = Parsed(config: Config) | Help | Error(message: string)

  /** The locals of `parse_args` between two arguments. */
  datatype ParseState = ParseState(
    startDir: Option<string>,
    maxDepth: Option<nat>,
    ascii: bool,
    showContent: bool,
    toStdout: bool)

  const INITIAL: ParseState := ParseState(None, None, false, false, false)

  /** Scanning either consumes every argument or stops early with its answer. */
  datatype Scanned = Done(state: ParseState) | Stopped(result: ParseResult)

  /** The largest `usize` on a 64-bit target. */
  const USIZE_MAX: nat := 0xFFFF_FFFF_FFFF_FFFF

  predicate IsDigit(c: char) {
    '0' <= c <= '9'
  }

  predicate AllDigits(s: string) {
    forall i | 0 <= i < |s| :: IsDigit(s[i])
  }

  function DigitValue(c: char): nat
    requires IsDigit(c)
  {
    c as int - '0' as int
  }

  /** The value of a run of decimal digits, most significant first. */
  function DigitsValue(s: string): nat
    requires AllDigits(s)
  {
    if s == [] then 0
    else 10 * DigitsValue(s[..|s| - 1]) + DigitValue(s[|s| - 1])
  }

  /**
   * `v.parse::<usize>()`: an optional `+`, then one or more decimal digits,
   * whose value fits in a `usize`.
   */
  function ParseUsize(v: string): (r: Option<nat>)
    ensures r.Some? ==> r.value <= USIZE_MAX
    ensures r.Some? ==> v != [] && (v[0] == '+' || IsDigit(v[0]))
  {
    var digits := if |v| > 0 && v[0] == '+' then v[1..] else v;
    if digits == [] || !AllDigits(digits) then None
    else if DigitsValue(digits) > USIZE_MAX then None
    else Some(DigitsValue(digits))
  }

  predicate StartsWithDash(a: string) {
    |a| > 0 && a[0] == '-'
  }

  /** The arguments that turn on one of the three switches. */
  predicate IsSwitch(a: string) {
    a in {"--ascii", "--content", "-c", "--stdout", "-o"}
  }

  predicate IsHelp(a: string) {
    a == "--help" || a == "-h"
  }

  /** The switch an argument turns on. */
  function SetSwitch(st: ParseState, a: string): ParseState
    requires IsSwitch(a)
  {
    if a == "--ascii" then st.(ascii := true)
    else if a == "--content" || a == "-c" then st.(showContent := true)
    else st.(toStdout := true)
  }

  /** The message for an argument that looks like a flag but is none: it names that argument. */
  predicate UnknownFlagMessage(m: string) {
    |m| > 14 && m[..14] == "Unknown flag: " && m[14] == '-'
  }

  /**
   * The loop of `parse_args` over the remaining arguments `args`. It stops
   * early only to ask for help or with one of its four errors.
   */
  function Scan(args: seq<string>, st: ParseState): (r: Scanned)
    ensures r.Stopped? ==>
              || r.result == Help
              || r.result == Error("--max-depth requires a value")
              || r.result == Error("Invalid --max-depth value")
              || r.result == Error("Only one path argument is allowed")
              || (r.result.Error? && UnknownFlagMessage(r.result.message))
    decreases |args|
  {
    if args == [] then Done(st)
    else
      var arg := args[0];
      if arg == "--max-depth" then
        if |args| < 2 then Stopped(Error("--max-depth requires a value"))
        else match ParseUsize(args[1])
          case None => Stopped(Error("Invalid --max-depth value"))
          case Some(d) => Scan(args[2..], st.(maxDepth := Some(d)))
      else if IsSwitch(arg) then Scan(args[1..], SetSwitch(st, arg))
      else if IsHelp(arg) then Stopped(Help)
      else if StartsWithDash(arg) then Stopped(Error("Unknown flag: " + arg))
      else if st.startDir.None? then Scan(args[1..], st.(startDir := Some(arg)))
      else Stopped(Error("Only one path argument is allowed"))
  }

  /** The configuration once every argument is consumed: the start directory defaults to the working directory, else `.`. */
  function Finish(st: ParseState, currentDir: Option<string>): Config {
    var start := match st.startDir
      case Some(p) => p
      case None => currentDir.GetOr(".");
    Config(start, st.maxDepth, st.ascii, st.showContent, st.toStdout)
  }

  /** `parse_args` on the arguments after the program name; `currentDir` is `env::current_dir()`. */
  function Parse(args: seq<string>, currentDir: Option<string>): ParseResult {
    match Scan(args, INITIAL)
    case Done(st) => Parsed(Finish(st, currentDir))
    case Stopped(r) => r
  }

  /** `parse_args`, as the loop the program runs. */
  method ParseArgs(args: seq<string>, currentDir: Option<string>) returns (r: ParseResult)
    ensures r == Parse(args, currentDir)
  {
    var startDir: Option<string> := None;
    var maxDepth: Option<nat> := None;
    var ascii := false;
    var showContent := false;
    var toStdout := false;
    var i := 0;
    while i < |args|
      invariant 0 <= i <= |args|
      invariant Scan(args[i..], ParseState(startDir, maxDepth, ascii, showContent, toStdout)) == Scan(args, INITIAL)
      decreases |args| - i
    {
      var arg := args[i];
      i := i + 1;
      if arg == "--max-depth" {
        if i >= |args| {
          return Error("--max-depth requires a value");
        }
        var v := args[i];
        i := i + 1;
        var d := ParseUsize(v);
        if d.None? {
          return Error("Invalid --max-depth value");
        }
        maxDepth := Some(d.value);
      } else if arg == "--ascii" {
        ascii := true;
      } else if arg == "--content" || arg == "-c" {
        showContent := true;
      } else if arg == "--stdout" || arg == "-o" {
        toStdout := true;
      } else if arg == "--help" || arg == "-h" {
        return Help;
      } else if |arg| > 0 && arg[0] == '-' {
        return Error("Unknown flag: " + arg);
      } else if startDir.None? {
        startDir := Some(arg);
      } else {
        return Error("Only one path argument is allowed");
      }
    }
    var start := if startDir.Some? then startDir.value else currentDir.GetOr(".");
    return Parsed(Config(start, maxDepth, ascii, showContent, toStdout));
  }

  /** A value beginning with `-` (a negative number, a flag) is never a valid depth. */
  lemma DashNotNumber(v: string)
    requires StartsWithDash(v)
    ensures ParseUsize(v) == None
  {
    assert !AllDigits(v) by {
      assert !IsDigit(v[0]);
    }
  }

  /** With no arguments the walk starts in the working directory, unlimited, Unicode, names only, into the file. */
  lemma NoArguments(currentDir: Option<string>)
    ensures Parse([], currentDir) == Parsed(Config(currentDir.GetOr("."), None, false, false, false))
  {
  }

  /**
   * Arguments are read left to right: once a prefix `a` is consumed without
   * stopping, what follows is read from the state it left. A prefix that
   * stopped for any reason but a trailing `--max-depth` decides the result
   * whatever follows.
   */
  lemma {:induction false} ScanAppend(a: seq<string>, b: seq<string>, st: ParseState)
    ensures Scan(a, st).Done? ==> Scan(a + b, st) == Scan(b, Scan(a, st).state)
    ensures Scan(a, st).Stopped? && Scan(a, st).result != Error("--max-depth requires a value") ==>
              Scan(a + b, st) == Scan(a, st)
    decreases |a|
  {
    if a != [] {
      var arg := a[0];
      assert (a + b)[0] == arg;
      if arg == "--max-depth" {
        if |a| >= 2 {
          assert (a + b)[1] == a[1];
          assert (a + b)[2..] == a[2..] + b;
          match ParseUsize(a[1])
          case None =>
          case Some(d) => ScanAppend(a[2..], b, st.(maxDepth := Some(d)));
        }
      } else {
        assert (a + b)[1..] == a[1..] + b;
        if IsSwitch(arg) {
          ScanAppend(a[1..], b, SetSwitch(st, arg));
        } else if !IsHelp(arg) && !StartsWithDash(arg) && st.startDir.None? {
          ScanAppend(a[1..], b, st.(startDir := Some(arg)));
        }
      }
    } else {
      assert a + b == b;
    }
  }

  /** A switch, once seen, stays on; the first path is never replaced. */
  lemma {:induction false} ScanKeeps(args: seq<string>, st: ParseState)
    requires Scan(args, st).Done?
    ensures var out := Scan(args, st).state;
            && (st.ascii ==> out.ascii)
            && (st.showContent ==> out.showContent)
            && (st.toStdout ==> out.toStdout)
            && (st.startDir.Some? ==> out.startDir == st.startDir)
            && ("--max-depth" !in args ==> out.maxDepth == st.maxDepth)
    decreases |args|
  {
    if args != [] {
      var arg := args[0];
      assert "--max-depth" !in args ==> "--max-depth" !in args[1..];
      if arg == "--max-depth" {
        ScanKeeps(args[2..], st.(maxDepth := Some(ParseUsize(args[1]).value)));
      } else if IsSwitch(arg) {
        ScanKeeps(args[1..], SetSwitch(st, arg));
      } else {
        ScanKeeps(args[1..], st.(startDir := Some(arg)));
      }
    }
  }

  /**
   * An argument beginning with `-` inside a successfully parsed command line
   * is read as an argument of its own, never as the value of a preceding
   * `--max-depth`: everything before it is consumed without stopping.
   */
  lemma DashReadAsArgument(a: seq<string>, x: string, b: seq<string>, currentDir: Option<string>)
    requires StartsWithDash(x) && Parse(a + [x] + b, currentDir).Parsed?
    ensures Scan(a, INITIAL).Done?
    ensures Scan(a + [x] + b, INITIAL) == Scan([x] + b, Scan(a, INITIAL).state)
  {
    var r := Scan(a, INITIAL);
    ScanAppend(a, [x] + b, INITIAL);
    assert a + [x] + b == a + ([x] + b);
    if r.Stopped? {
      assert r.result == Error("--max-depth requires a value");
      ScanTrailingMaxDepth(a, [x] + b, INITIAL);
      var st' :| Scan(a + ([x] + b), INITIAL) == Scan(["--max-depth"] + ([x] + b), st');
      var rest := ["--max-depth"] + ([x] + b);
      assert rest[0] == "--max-depth" && rest[1] == x;
      DashNotNumber(x);
      assert false;
    }
  }

  /** Switches are monotone: wherever a switch appears, a successful parse has it on. */
  lemma SwitchSticks(a: seq<string>, s: string, b: seq<string>, currentDir: Option<string>)
    requires IsSwitch(s) && Parse(a + [s] + b, currentDir).Parsed?
    ensures var c := Parse(a + [s] + b, currentDir).config;
            && (s == "--ascii" ==> c.ascii)
            && (s == "--content" || s == "-c" ==> c.showContent)
            && (s == "--stdout" || s == "-o" ==> c.toStdout)
  {
    assert s[0] == '-' by {
      assert s == "--ascii" || s == "--content" || s == "-c" || s == "--stdout" || s == "-o";
    }
    DashReadAsArgument(a, s, b, currentDir);
    assert ([s] + b)[1..] == b;
    ScanKeeps(b, SetSwitch(Scan(a, INITIAL).state, s));
  }

  /** Giving a switch twice in a row is the same as giving it once. */
  lemma SwitchIdempotent(a: seq<string>, s: string, b: seq<string>, currentDir: Option<string>)
    requires IsSwitch(s)
    ensures Parse(a + [s, s] + b, currentDir) == Parse(a + [s] + b, currentDir)
  {
    assert a + [s, s] + b == a + ([s, s] + b);
    assert a + [s] + b == a + ([s] + b);
    ScanSwitchTwice(a, s, b);
  }

  lemma ScanSwitchTwice(a: seq<string>, s: string, b: seq<string>)
    requires IsSwitch(s)
    ensures Scan(a + ([s, s] + b), INITIAL) == Scan(a + ([s] + b), INITIAL)
  {
    var r := Scan(a, INITIAL);
    ScanAppend(a, [s, s] + b, INITIAL);
    ScanAppend(a, [s] + b, INITIAL);
    if r.Done? {
      SwitchTwice(s, b, r.state);
    } else if r.result == Error("--max-depth requires a value") {
      // both lines give `s` to a trailing `--max-depth` as its value, and both fail on it
      assert s[0] == '-' by {
        assert s == "--ascii" || s == "--content" || s == "-c" || s == "--stdout" || s == "-o";
      }
      DashAfterTrailingMaxDepth(a, s, [s] + b, INITIAL);
      DashAfterTrailingMaxDepth(a, s, b, INITIAL);
      assert [s] + ([s] + b) == [s, s] + b;
    }
  }

  lemma SwitchTwice(s: string, b: seq<string>, st: ParseState)
    requires IsSwitch(s)
    ensures Scan([s, s] + b, st) == Scan([s] + b, st)
  {
    assert ([s, s] + b)[1..] == [s] + b;
    assert ([s] + b)[1..] == b;
    assert SetSwitch(SetSwitch(st, s), s) == SetSwitch(st, s);
  }

  /** After a dangling `--max-depth`, an argument beginning with `-` is taken as its value and rejected. */
  lemma DashAfterTrailingMaxDepth(a: seq<string>, x: string, b: seq<string>, st: ParseState)
    requires Scan(a, st) == Stopped(Error("--max-depth requires a value")) && StartsWithDash(x)
    ensures Scan(a + ([x] + b), st) == Stopped(Error("Invalid --max-depth value"))
  {
    ScanTrailingMaxDepth(a, [x] + b, st);
    var st' :| Scan(a + ([x] + b), st) == Scan(["--max-depth"] + ([x] + b), st');
    var rest := ["--max-depth"] + ([x] + b);
    assert rest[0] == "--max-depth" && rest[1] == x;
    DashNotNumber(x);
  }

  /** When `--max-depth` is given more than once, the last one counts. */
  lemma LastMaxDepthWins(a: seq<string>, v: string, b: seq<string>, currentDir: Option<string>)
    requires "--max-depth" !in b && Parse(a + ["--max-depth", v] + b, currentDir).Parsed?
    ensures Parse(a + ["--max-depth", v] + b, currentDir).config.maxDepth == ParseUsize(v)
  {
    assert a + ["--max-depth", v] + b == a + ["--max-depth"] + ([v] + b);
    DashReadAsArgument(a, "--max-depth", [v] + b, currentDir);
    var rest := ["--max-depth"] + ([v] + b);
    assert rest[1] == v && rest[2..] == b;
    ScanKeeps(b, Scan(a, INITIAL).state.(maxDepth := ParseUsize(v)));
  }

  /** A flag the program does not know stops parsing with an error naming it. */
  lemma UnknownFlagRejected(a: seq<string>, f: string, b: seq<string>, currentDir: Option<string>)
    requires Scan(a, INITIAL).Done?
    requires StartsWithDash(f) && f != "--max-depth" && !IsSwitch(f) && !IsHelp(f)
    ensures Parse(a + [f] + b, currentDir) == Error("Unknown flag: " + f)
  {
    ScanAppend(a, [f] + b, INITIAL);
    assert a + [f] + b == a + ([f] + b);
  }

  /** `--help` or `-h` ends parsing with the request for help, whatever follows. */
  lemma HelpStops(a: seq<string>, h: string, b: seq<string>, currentDir: Option<string>)
    requires Scan(a, INITIAL).Done? && IsHelp(h)
    ensures Parse(a + [h] + b, currentDir) == Help
  {
    ScanAppend(a, [h] + b, INITIAL);
    assert a + [h] + b == a + ([h] + b);
  }

  /** A second path is an error. */
  lemma SecondPathRejected(a: seq<string>, p: string, b: seq<string>, currentDir: Option<string>)
    requires Scan(a, INITIAL).Done? && Scan(a, INITIAL).state.startDir.Some?
    requires !StartsWithDash(p)
    ensures Parse(a + [p] + b, currentDir) == Error("Only one path argument is allowed")
  {
    ScanAppend(a, [p] + b, INITIAL);
    assert a + [p] + b == a + ([p] + b);
  }

  /** `--max-depth` as the last argument is an error. */
  lemma MissingDepthValue(a: seq<string>, currentDir: Option<string>)
    requires Scan(a, INITIAL).Done?
    ensures Parse(a + ["--max-depth"], currentDir) == Error("--max-depth requires a value")
  {
    ScanAppend(a, ["--max-depth"], INITIAL);
  }

  /** A depth that is not a `usize` is an error. */
  lemma InvalidDepthValue(a: seq<string>, v: string, b: seq<string>, currentDir: Option<string>)
    requires Scan(a, INITIAL).Done? && ParseUsize(v).None?
    ensures Parse(a + ["--max-depth", v] + b, currentDir) == Error("Invalid --max-depth value")
  {
    ScanAppend(a, ["--max-depth", v] + b, INITIAL);
    assert a + ["--max-depth", v] + b == a + (["--max-depth", v] + b);
  }

  /** A prefix that stops for a missing `--max-depth` value ends in that flag, and the next argument is read as its value. */
  lemma {:induction false} ScanTrailingMaxDepth(a: seq<string>, b: seq<string>, st: ParseState)
    requires Scan(a, st) == Stopped(Error("--max-depth requires a value")) && b != []
    ensures exists st': ParseState :: Scan(a + b, st) == Scan(["--max-depth"] + b, st')
    decreases |a|
  {
    var arg := a[0];
    assert (a + b)[0] == arg;
    if arg == "--max-depth" {
      if |a| >= 2 {
        assert (a + b)[1] == a[1];
        assert (a + b)[2..] == a[2..] + b;
        ScanTrailingMaxDepth(a[2..], b, st.(maxDepth := Some(ParseUsize(a[1]).value)));
      } else {
        assert a == ["--max-depth"];
        assert Scan(a + b, st) == Scan(["--max-depth"] + b, st);
      }
    } else {
      assert (a + b)[1..] == a[1..] + b;
      if IsSwitch(arg) {
        ScanTrailingMaxDepth(a[1..], b, SetSwitch(st, arg));
      } else {
        assert "Unknown flag: " + arg != "--max-depth requires a value" by {
          assert ("Unknown flag: " + arg)[0] == 'U';
        }
        if IsHelp(arg) || StartsWithDash(arg) || st.startDir.Some? {
          assert false;
        }
        ScanTrailingMaxDepth(a[1..], b, st.(startDir := Some(arg)));
      }
    }
  }

  function DigitChar(d: nat): (c: char)
    requires d < 10
    ensures IsDigit(c) && DigitValue(c) == d
  {
    ('0' as int + d) as char
  }

  /** The decimal numeral of `n`, without sign or leading zeros. */
  function NatToString(n: nat): (s: string)
    ensures AllDigits(s) && s != []
    decreases n
  {
    if n < 10 then [DigitChar(n)] else NatToString(n / 10) + [DigitChar(n % 10)]
  }

  lemma {:induction false} NatToStringValue(n: nat)
    ensures DigitsValue(NatToString(n)) == n
    decreases n
  {
    var s := NatToString(n);
    if n < 10 {
      assert s[..|s| - 1] == [];
    } else {
      assert s[..|s| - 1] == NatToString(n / 10);
      NatToStringValue(n / 10);
    }
  }

  /** Every depth a `usize` can hold, written in decimal, parses back to itself. */
  lemma ParseUsizeNatToString(n: nat)
    requires n <= USIZE_MAX
    ensures ParseUsize(NatToString(n)) == Some(n)
  {
    var s := NatToString(n);
    assert s[0] != '+' by {
      assert IsDigit(s[0]);
    }
    NatToStringValue(n);
  }

  /** A command line that asks for configuration `c`. */
  function Unparse(c: Config): seq<string> {
    [c.startDir]
    + (match c.maxDepth case Some(d) => ["--max-depth", NatToString(d)] case None => [])
    + (if c.ascii then ["--ascii"] else [])
    + (if c.showContent then ["--content"] else [])
    + (if c.toStdout then ["--stdout"] else [])
  }

  /**
   * Every configuration is reachable from the command line: a path not
   * beginning with `-` and a depth that fits a `usize` parse back to `c`.
   */
  lemma ParseUnparse(c: Config, currentDir: Option<string>)
    requires !StartsWithDash(c.startDir)
    requires c.maxDepth.Some? ==> c.maxDepth.value <= USIZE_MAX
    ensures Parse(Unparse(c), currentDir) == Parsed(c)
  {
    var p0 := [c.startDir];
    var p1 := match c.maxDepth case Some(d) => ["--max-depth", NatToString(d)] case None => [];
    var p2 := if c.ascii then ["--ascii"] else [];
    var p3 := if c.showContent then ["--content"] else [];
    var p4 := if c.toStdout then ["--stdout"] else [];
    var st0 := INITIAL.(startDir := Some(c.startDir));
    var st1 := st0.(maxDepth := c.maxDepth);
    var st2 := st1.(ascii := c.ascii);
    var st3 := st2.(showContent := c.showContent);
    var st4 := st3.(toStdout := c.toStdout);

    assert Scan(p0, INITIAL) == Done(st0) by {
      assert p0[1..] == [];
    }
    assert Scan(p1, st0) == Done(st1) by {
      if c.maxDepth.Some? {
        ParseUsizeNatToString(c.maxDepth.value);
        assert p1[2..] == [];
      }
    }
    assert Scan(p2, st1) == Done(st2) by {
      if c.ascii {
        assert p2[1..] == [];
      }
    }
    assert Scan(p3, st2) == Done(st3) by {
      if c.showContent {
        assert p3[1..] == [];
      }
    }
    assert Scan(p4, st3) == Done(st4) by {
      if c.toStdout {
        assert p4[1..] == [];
      }
    }
    ScanAppend(p0 + p1 + p2 + p3, p4, INITIAL);
    ScanAppend(p0 + p1 + p2, p3, INITIAL);
    ScanAppend(p0 + p1, p2, INITIAL);
    ScanAppend(p0, p1, INITIAL);
    assert Unparse(c) == p0 + p1 + p2 + p3 + p4;
  }
}
