/**
 * The decisions `getInput` takes once a line has been read and parsed:
 * the blank-line test (smallsh.c:419-425), the `exit` built-in's argument
 * checks (smallsh.c:153-186), the choice between `exit`, `cd` and an
 * external command (smallsh.c:432-441) and the directory `cd` goes to
 * (smallsh.c:275-278). Terminating the process is an outcome value.
 */
module Builtins {
  import opened Wrappers
  import opened Text
  import opened Tokenizer
  import opened Parser
  import opened Expansion

  /** Why `exit` refused its arguments. */
  datatype UsageError = TooManyArguments | NotAnInteger

  /** What `exitShell` does: end the shell with a code, report misuse, or fall through. */
  datatype ExitOutcome =
    | ExitWith(code: int)
    | Usage(error: UsageError)
    | Returned(value: int)

  predicate StartsWithDigit(s: string) {
    |s| > 0 && IsDigit(s[0])
  }

  /**
   * `exitShell(argc, argv)` with the saved `status`. A single word exits with
   * `status`; more than two words, or a second word not starting with a digit,
   * is a usage error; otherwise the shell exits with `atoi` of the second word.
   * With no words at all every test fails and `status` is returned.
   */
  function ExitShell(args: seq<string>, status: int): (r: ExitOutcome)
    ensures r.ExitWith? <==> |args| == 1 || (|args| == 2 && StartsWithDigit(args[1]))
    ensures r.Usage? <==> |args| > 2 || (|args| == 2 && !StartsWithDigit(args[1]))
    ensures r.Returned? <==> args == []
    ensures |args| == 1 ==> r == ExitWith(status)
    ensures |args| == 2 && r.ExitWith? ==> 0 <= r.code && r.code == DigitsValue(LeadingDigits(args[1]))
  {
    if |args| == 1 then ExitWith(status)
    else if |args| > 2 then Usage(TooManyArguments)
    else if |args| == 2 && !StartsWithDigit(args[1]) then Usage(NotAnInteger)
    else if |args| == 2 then ExitWith(LeadingDigitsValue(args[1]))
    else Returned(status)
  }

  /** The value `getInput` stores in `status` when `exitShell` returns. */
  function StatusAfterExit(r: ExitOutcome): (s: int)
    requires !r.ExitWith?
    ensures r.Usage? ==> s == 0
    ensures r.Returned? ==> s == r.value
  {
    match r
    case Usage(_) => 0
    case Returned(v) => v
  }

  /** `exit N` exits with `N`, whatever non-digit text follows the digits. */
  lemma ExitWithNumber(n: nat, rest: string, status: int)
    requires rest == [] || !IsDigit(rest[0])
    ensures ExitShell(["exit", NatDecimal(n) + rest], status) == ExitWith(n)
  {
    NatDecimalRoundTrip(n);
    NatDecimalDigits(n);
    LeadingDigitsAppend(NatDecimal(n), rest);
    assert (NatDecimal(n) + rest)[0] == NatDecimal(n)[0];
  }

  /** A usage error leaves the shell running with status 0. */
  lemma UsageKeepsRunning(args: seq<string>, status: int)
    requires |args| > 2 || (|args| == 2 && !StartsWithDigit(args[1]))
    ensures !ExitShell(args, status).ExitWith? && StatusAfterExit(ExitShell(args, status)) == 0
  {
  }

  /**
   * The test `getInput` applies to the buffer `getline` filled: the line is
   * read again when its first byte is NUL or it is at most one byte long.
   */
  predicate IsBlankLine(input: seq<char>)
    requires '\0' in input
  {
    input[0] == '\0' || CLen(input) <= 1
  }

  /** The blank test only looks at the length: any line of one byte, a newline or not, is skipped. */
  lemma BlankIffShort(input: seq<char>)
    requires '\0' in input
    ensures IsBlankLine(input) <==> CLen(input) <= 1
  {
    if input[0] == '\0' {
      assert CLen(input) == 0;
    }
  }

  /** What to do with a command: the `exit` built-in, the `cd` built-in, or fork and exec. */
  datatype Action = RunExit | ChangeDirectory(dir: Option<string>) | RunExternal

  /**
   * The dispatch as written: it compares the first argument with `exit` and
   * `cd` and so needs one to be there. `cd` gets the second argument, or
   * nothing when there is none (the argument array is zero-filled).
   */
  function Dispatch(args: seq<string>): (a: Action)
    requires |args| > 0
    ensures a.RunExit? <==> args[0] == "exit"
    ensures a.ChangeDirectory? <==> args[0] == "cd"
    ensures a.ChangeDirectory? ==> (a.dir.Some? <==> |args| > 1)
    ensures a.ChangeDirectory? && |args| > 1 ==> a.dir.value == args[1]
  {
    if args[0] == "exit" then RunExit
    else if args[0] == "cd" then ChangeDirectory(if |args| > 1 then Some(args[1]) else None)
    else RunExternal
  }

  /** The directory `changeDirectory` goes to: its argument, or `$HOME` without one. */
  function CdTarget(dir: Option<string>, home: string): (d: string)
    ensures dir.Some? ==> d == dir.value
    ensures dir.None? ==> d == home
  {
    if dir.Some? then dir.value else home
  }

  /** Bare `cd` goes home; `cd x` goes to `x`, whatever follows. */
  lemma CdGoesHome(args: seq<string>, home: string)
    requires |args| > 0 && args[0] == "cd"
    ensures CdTarget(Dispatch(args).dir, home) == if |args| == 1 then home else args[1]
  {
  }

  /** The dispatch with an empty argument list treated like a blank line. */
  datatype Decision = NoCommand | Run(action: Action)

  function DispatchChecked(args: seq<string>): (d: Decision)
    ensures d.NoCommand? <==> args == []
    ensures args != [] ==> d == Run(Dispatch(args))
  {
    if args == [] then NoCommand else Run(Dispatch(args))
  }

  /** The arguments `getInput` would dispatch on for the NUL-terminated buffer `input`. */
  function ArgumentsOf(input: seq<char>, delims: string, home: string, pid: int, status: int, bgPid: int): Result<Command, ParseError>
    requires '\0' in input
  {
    var line := input[..CLen(input)];
    Parse(Tokens(Expand(line, home, pid, status, bgPid), delims))
  }

  /**
   * A line of two or more blanks passes the blank test and yields no
   * arguments at all, so the dispatch as written has no first argument to
   * compare: `"  \n"` is one such line.
   */
  lemma BlankTestMissesWhitespace(line: string, home: string, pid: int, status: int, bgPid: int)
    requires |line| >= 2 && forall i :: 0 <= i < |line| ==> line[i] in DefaultDelimiters
    ensures var input := line + "\0";
            '\0' in input && !IsBlankLine(input) &&
            ArgumentsOf(input, DefaultDelimiters, home, pid, status, bgPid) == Ok(Command([], None, None, false))
  {
    var input := line + "\0";
    assert input[|line|] == '\0';
    assert '\0' !in line by {
      forall i | 0 <= i < |line| ensures line[i] != '\0' {
        assert line[i] in DefaultDelimiters;
      }
    }
    assert input[..|line|] == line;
    assert CLen(input) == |line|;
    assert '~' !in line && '$' !in line by {
      forall i | 0 <= i < |line| ensures line[i] != '~' && line[i] != '$' {
        assert line[i] in DefaultDelimiters;
      }
    }
    ExpandWithoutSigils(line, home, pid, status, bgPid);
    TokensOnlyDelims(line, DefaultDelimiters, 0);
  }

  /** The concrete instance: two spaces and a newline. */
  lemma TwoSpacesHaveNoCommand(home: string, pid: int, status: int, bgPid: int)
    ensures !IsBlankLine("  \n\0")
    ensures ArgumentsOf("  \n\0", DefaultDelimiters, home, pid, status, bgPid) == Ok(Command([], None, None, false))
  {
    BlankTestMissesWhitespace("  \n", home, pid, status, bgPid);
    assert "  \n" + "\0" == "  \n\0";
  }

  /** A comment line such as `"#\n"` also passes the blank test and yields no arguments. */
  lemma CommentLineHasNoCommand(home: string, pid: int, status: int, bgPid: int)
    ensures !IsBlankLine("#\n\0")
    ensures ArgumentsOf("#\n\0", DefaultDelimiters, home, pid, status, bgPid) == Ok(Command([], None, None, false))
  {
    var input := "#\n\0";
    assert input[..2] == "#\n";
    assert CLen(input) == 2;
    ExpandWithoutSigils("#\n", home, pid, status, bgPid);
    WordThenRest("#", "\n", DefaultDelimiters);
    assert "#" + "\n" == "#\n";
    TokensOnlyDelims("\n", DefaultDelimiters, 0);
  }

  /**
   * With the check for an empty argument list, every buffer that is not
   * blank and parses gets a decision, and the lines made of blanks alone
   * are set aside like blank ones.
   */
  lemma CheckedDispatchSkipsWhitespace(line: string, home: string, pid: int, status: int, bgPid: int)
    requires |line| >= 2 && forall i :: 0 <= i < |line| ==> line[i] in DefaultDelimiters
    ensures var parsed := ArgumentsOf(line + "\0", DefaultDelimiters, home, pid, status, bgPid);
            parsed.Ok? && DispatchChecked(parsed.value.args) == NoCommand
  {
    BlankTestMissesWhitespace(line, home, pid, status, bgPid);
  }
}
