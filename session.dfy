/**
 * The shell's global state and the steps that change it: the reset at the
 * top of `main`'s loop (smallsh.c:111-123), the parent side of `runInput`
 * (smallsh.c:249-268), the poll of background jobs in
 * `checkBackgroundProcesses` (smallsh.c:130-146), and `getInput` from the
 * blank-line test to the dispatch (smallsh.c:397-442). What the operating
 * system decides (the pid `fork` returns, what `waitpid` reports, whether
 * `chdir` succeeds, `getpid`, `$HOME`, `$IFS`) comes in as parameters.
 */
module Session {
  import opened Wrappers
  import opened Text
  import opened Tokenizer
  import opened Parser
  import opened Expansion
  import opened Builtins

  /** Size of the `bgProcesses` table. */
  const MaxJobs := 10

  /** How a child ended, as `WIFEXITED`/`WEXITSTATUS` and `WIFSIGNALED`/`WTERMSIG` tell it. */
  datatype WaitResult = Exited(code: int) | Signaled(signal: int)

  /** One line `checkBackgroundProcesses` prints for a background job that has ended. */
  datatype Report = JobExited(pid: int, code: int) | JobSignaled(pid: int, signal: int)

  function ReportOf(pid: int, w: WaitResult): (r: Report)
    ensures r.pid == pid
    ensures w.Exited? <==> r.JobExited?
    ensures r.JobExited? ==> r.code == w.code
    ensures r.JobSignaled? ==> r.signal == w.signal
  {
    match w
    case Exited(c) => JobExited(pid, c)
    case Signaled(s) => JobSignaled(pid, s)
  }

  /** The wait status a report was made from. */
  function WaitOf(r: Report): (w: WaitResult)
    ensures ReportOf(r.pid, w) == r
  {
    match r
    case JobExited(_, c) => Exited(c)
    case JobSignaled(_, s) => Signaled(s)
  }

  /** A report keeps the whole wait status: reading it back gives the wait status again. */
  lemma ReportKeepsWait(pid: int, w: WaitResult)
    ensures WaitOf(ReportOf(pid, w)) == w
  {
  }

  /** The text written to standard error for a report (the signal line says "processes"). */
  function Message(r: Report): string {
    match r
    case JobSignaled(pid, s) => "Child processes " + Decimal(pid) + " done. Signaled " + Decimal(s) + ".\n"
    case JobExited(pid, c) => "Child process " + Decimal(pid) + " done. Exit status " + Decimal(c) + ".\n"
  }

  /**
   * The reports for one poll of the job table: `polls[k]` is what a
   * non-blocking `waitpid` on `jobs[k]` found, `None` when it returned 0 or -1.
   * Jobs are reported in table order.
   */
  function Reports(jobs: seq<int>, polls: seq<Option<WaitResult>>): seq<Report>
    requires |jobs| == |polls|
    decreases |jobs|
  {
    if jobs == [] then []
    else
      var n := |jobs| - 1;
      Reports(jobs[..n], polls[..n]) + (if polls[n].Some? then [ReportOf(jobs[n], polls[n].value)] else [])
  }

  /** Every report is about a job in the table whose poll found it ended, and says how. */
  lemma {:induction false} ReportsAreForEndedJobs(jobs: seq<int>, polls: seq<Option<WaitResult>>)
    requires |jobs| == |polls|
    ensures forall r :: r in Reports(jobs, polls) ==>
              exists k :: 0 <= k < |jobs| && polls[k].Some? && r == ReportOf(jobs[k], polls[k].value)
    decreases |jobs|
  {
    if jobs != [] {
      var n := |jobs| - 1;
      ReportsAreForEndedJobs(jobs[..n], polls[..n]);
      forall r | r in Reports(jobs, polls)
        ensures exists k :: 0 <= k < |jobs| && polls[k].Some? && r == ReportOf(jobs[k], polls[k].value)
      {
        if r in Reports(jobs[..n], polls[..n]) {
          var k :| 0 <= k < n && polls[..n][k].Some? && r == ReportOf(jobs[..n][k], polls[..n][k].value);
          assert jobs[..n][k] == jobs[k] && polls[..n][k] == polls[k];
        } else {
          assert polls[n].Some? && r == ReportOf(jobs[n], polls[n].value);
        }
      }
    }
  }

  /** Every job whose poll found it ended is reported. */
  lemma {:induction false} EndedJobsAreReported(jobs: seq<int>, polls: seq<Option<WaitResult>>, k: nat)
    requires |jobs| == |polls| && k < |jobs| && polls[k].Some?
    ensures ReportOf(jobs[k], polls[k].value) in Reports(jobs, polls)
    decreases |jobs|
  {
    var n := |jobs| - 1;
    if k < n {
      EndedJobsAreReported(jobs[..n], polls[..n], k);
      assert jobs[..n][k] == jobs[k] && polls[..n][k] == polls[k];
    }
  }

  /** When no poll finds anything there is nothing to print. */
  lemma {:induction false} QuietPoll(jobs: seq<int>, polls: seq<Option<WaitResult>>)
    requires |jobs| == |polls| && forall k :: 0 <= k < |polls| ==> polls[k].None?
    ensures Reports(jobs, polls) == []
    decreases |jobs|
  {
    if jobs != [] {
      QuietPoll(jobs[..|jobs| - 1], polls[..|polls| - 1]);
    }
  }

  /** What the operating system and the environment supply to one pass through `getInput`. */
  datatype Environment = Environment(
    home: string,              // getenv("HOME")
    ifs: Option<string>,       // getenv("IFS")
    shellPid: int,             // getpid()
    chdirSucceeds: string -> bool,  // whether chdir() on a directory returns 0
    childPid: int,             // what fork() returns to the parent
    childWait: WaitResult)     // what the blocking waitpid() reports for a foreground child

  /** How a pass through `getInput` ends. */
  datatype StepOutcome =
    | ReadAgain                                   // blank line: prompt again
    | Continue                                    // back to main's loop
    | Terminate(code: int)                        // the shell process exits

  /** The arguments and flags a line would produce once expanded and parsed, or the parse error. */
  function LineCommand(input: seq<char>, env: Environment, status: int, bgPid: int): Result<Command, ParseError>
    requires '\0' in input
  {
    ArgumentsOf(input, Delimiters(env.ifs), env.home, env.shellPid, status, bgPid)
  }

  /** Whether a line would start an external command in the background and so take a table slot. */
  predicate LaunchesJob(input: seq<char>, env: Environment, status: int, bgPid: int, background: bool)
    requires '\0' in input
  {
    !IsBlankLine(input) &&
    var parsed := LineCommand(input, env, status, bgPid);
    parsed.Ok? && DispatchChecked(parsed.value.args) == Run(RunExternal) &&
    (background || parsed.value.background)
  }

  /**
   * What the dispatch at smallsh.c:432-441 does with the arguments of a
   * line, as the outcome of the pass and the new `status`. An empty argument
   * list is set aside. `exitShell` stores the code it exits with in `status`
   * first (smallsh.c:177); a usage error stores 0; `cd` stores what `chdir`
   * returns; an external command stores what `runInput` returns: the pid of
   * a background child, or the foreground child's exit code when it exited
   * normally and the old `status` otherwise.
   */
  function RunCommand(args: seq<string>, status: int, background: bool, env: Environment): (StepOutcome, int) {
    match DispatchChecked(args)
    case NoCommand => (Continue, status)
    case Run(RunExit) =>
      var e := ExitShell(args, status);
      if e.ExitWith? then (Terminate(e.code), e.code) else (Continue, StatusAfterExit(e))
    case Run(ChangeDirectory(dir)) =>
      (Continue, if env.chdirSucceeds(CdTarget(dir, env.home)) then 0 else -1)
    case Run(RunExternal) =>
      (Continue, if background then env.childPid
                 else if env.childWait.Exited? then env.childWait.code
                 else status)
  }

  /**
   * The outcome and new `status` of `getInput` for the NUL-terminated buffer
   * `input`: a blank line is read again, a redirection without a file ends
   * the shell with 1, anything else is dispatched by `RunCommand`.
   */
  function LineResult(input: seq<char>, env: Environment, status: int, bgPid: int, background: bool): (StepOutcome, int)
    requires '\0' in input
  {
    if IsBlankLine(input) then (ReadAgain, status)
    else match LineCommand(input, env, status, bgPid)
      case Err(_) => (Terminate(1), status)
      case Ok(c) => RunCommand(c.args, status, background || c.background, env)
  }

  /** A line without arguments runs nothing and leaves `status` alone. */
  lemma NoCommandContinues(status: int, background: bool, env: Environment)
    ensures RunCommand([], status, background, env) == (Continue, status)
  {
  }

  /** A bare `exit` ends the shell with the saved status. */
  lemma BareExitUsesStatus(status: int, background: bool, env: Environment)
    ensures RunCommand(["exit"], status, background, env) == (Terminate(status), status)
  {
  }

  /** `exit N` ends the shell with `N`, whatever non-digits follow. */
  lemma ExitNumberTerminates(n: nat, rest: string, status: int, background: bool, env: Environment)
    requires rest == [] || !IsDigit(rest[0])
    ensures RunCommand(["exit", NatDecimal(n) + rest], status, background, env) == (Terminate(n), n)
  {
    ExitWithNumber(n, rest, status);
  }

  /** Misusing `exit` keeps the shell running with status 0. */
  lemma ExitMisuseContinues(args: seq<string>, status: int, background: bool, env: Environment)
    requires |args| > 0 && args[0] == "exit"
    requires |args| > 2 || (|args| == 2 && !StartsWithDigit(args[1]))
    ensures RunCommand(args, status, background, env) == (Continue, 0)
  {
    UsageKeepsRunning(args, status);
  }

  /** `cd` goes to its argument, or home without one; status is 0 when that works and -1 when not. */
  lemma CdSetsStatus(args: seq<string>, status: int, background: bool, env: Environment)
    requires |args| > 0 && args[0] == "cd"
    ensures var dir := if |args| == 1 then env.home else args[1];
            RunCommand(args, status, background, env) == (Continue, if env.chdirSucceeds(dir) then 0 else -1)
  {
    CdGoesHome(args, env.home);
  }

  /**
   * Any other first word runs an external command: in the background the
   * status becomes the child's pid; in the foreground it becomes the exit
   * code if the child exited and stays as it was if a signal killed it.
   */
  lemma ExternalSetsStatus(args: seq<string>, status: int, background: bool, env: Environment)
    requires |args| > 0 && args[0] != "exit" && args[0] != "cd"
    ensures RunCommand(args, status, background, env).0 == Continue
    ensures background ==> RunCommand(args, status, background, env).1 == env.childPid
    ensures !background && env.childWait.Exited? ==> RunCommand(args, status, background, env).1 == env.childWait.code
    ensures !background && env.childWait.Signaled? ==> RunCommand(args, status, background, env).1 == status
  {
  }

  /** A word the shell passes through unchanged with `IFS` unset: no blank, no operator, no sigil, no NUL. */
  predicate PlainWord(w: string) {
    IsWord(w, DefaultDelimiters) && !IsOperator(w) && '~' !in w && '$' !in w && '\0' !in w
  }

  /** A NUL-free, non-empty text followed by a newline and a NUL is a non-blank line of that text. */
  lemma TextLine(text: string)
    requires |text| > 0 && '\0' !in text
    ensures var input := text + "\n\0";
            '\0' in input && CLen(input) == |text| + 1 && input[..CLen(input)] == text + "\n" &&
            !IsBlankLine(input)
  {
    var input := text + "\n\0";
    assert input[|text| + 1] == '\0';
    assert input[..|text| + 1] == text + "\n";
    assert input[0] == text[0];
  }

  /**
   * Plain words joined by single spaces make a non-empty text without NUL
   * or sigils, which with a newline after it splits back into the words.
   */
  lemma PlainWordsText(ws: seq<string>)
    requires ws != [] && forall k :: 0 <= k < |ws| ==> PlainWord(ws[k])
    ensures var text := Join(ws, ' ');
            |text| > 0 && '\0' !in text && '~' !in text && '$' !in text &&
            Tokens(text + "\n", DefaultDelimiters) == ws
  {
    JoinAvoids(ws, ' ', '\0');
    JoinAvoids(ws, ' ', '~');
    JoinAvoids(ws, ' ', '$');
    JoinStartsWithFirst(ws, ' ');
    assert forall k :: 0 <= k < |ws| ==> IsWord(ws[k], DefaultDelimiters);
    JoinedLineTokens(ws, ' ', "\n", DefaultDelimiters);
  }

  /**
   * A non-empty line without NUL, `~` or `$`, followed by a newline and a
   * NUL, is not blank and is parsed as it stands, newline included.
   */
  lemma LineWithoutSigils(text: string, env: Environment, status: int, bgPid: int)
    requires |text| > 0 && '\0' !in text && '~' !in text && '$' !in text
    ensures var input := text + "\n\0";
            '\0' in input && !IsBlankLine(input) &&
            LineCommand(input, env, status, bgPid) == Parse(Tokens(text + "\n", Delimiters(env.ifs)))
  {
    TextLine(text);
    ExpandWithoutSigils(text + "\n", env.home, env.shellPid, status, bgPid);
  }

  /**
   * A line of plain words separated by single spaces, with `IFS` unset, is
   * not blank, expands to itself, splits back into those words and parses
   * into a foreground command with no redirection.
   */
  lemma PlainLineCommand(ws: seq<string>, env: Environment, status: int, bgPid: int)
    requires env.ifs.None? && ws != [] && forall k :: 0 <= k < |ws| ==> PlainWord(ws[k])
    ensures var input := Join(ws, ' ') + "\n\0";
            '\0' in input && !IsBlankLine(input) &&
            LineCommand(input, env, status, bgPid) == Ok(Command(ws, None, None, false))
  {
    PlainWordsText(ws);
    LineWithoutSigils(Join(ws, ' '), env, status, bgPid);
    PlainWords(ws);
  }

  /** So the result of such a line is what the dispatch does with its words. */
  lemma LinePlainWords(ws: seq<string>, env: Environment, status: int, bgPid: int, background: bool)
    requires env.ifs.None? && ws != [] && forall k :: 0 <= k < |ws| ==> PlainWord(ws[k])
    ensures var input := Join(ws, ' ') + "\n\0";
            '\0' in input &&
            LineResult(input, env, status, bgPid, background) == RunCommand(ws, status, background, env)
  {
    PlainLineCommand(ws, env, status, bgPid);
    assert background || false == background;
  }

  /** `exit 2` ends the shell with 2. */
  lemma ExitTwoLine(env: Environment, status: int, bgPid: int, background: bool)
    requires env.ifs.None?
    ensures LineResult("exit 2\n\0", env, status, bgPid, background) == (Terminate(2), 2)
  {
    var ws := ["exit", "2"];
    assert PlainWord(ws[0]) && PlainWord(ws[1]);
    assert Join(ws, ' ') + "\n\0" == "exit 2\n\0";
    LinePlainWords(ws, env, status, bgPid, background);
    assert NatDecimal(2) + "" == "2";
    ExitNumberTerminates(2, "", status, background, env);
  }

  /** `exit abc` is a usage error: the shell goes on with status 0. */
  lemma ExitWordLine(env: Environment, status: int, bgPid: int, background: bool)
    requires env.ifs.None?
    ensures LineResult("exit abc\n\0", env, status, bgPid, background) == (Continue, 0)
  {
    var ws := ["exit", "abc"];
    assert PlainWord(ws[0]) && PlainWord(ws[1]);
    assert Join(ws, ' ') + "\n\0" == "exit abc\n\0";
    LinePlainWords(ws, env, status, bgPid, background);
    ExitMisuseContinues(ws, status, background, env);
  }

  /** A bare `cd` goes to `$HOME`; the status says whether that worked. */
  lemma CdHomeLine(env: Environment, status: int, bgPid: int, background: bool)
    requires env.ifs.None?
    ensures LineResult("cd\n\0", env, status, bgPid, background)
            == (Continue, if env.chdirSucceeds(env.home) then 0 else -1)
  {
    var ws := ["cd"];
    assert PlainWord(ws[0]);
    assert Join(ws, ' ') + "\n\0" == "cd\n\0";
    LinePlainWords(ws, env, status, bgPid, background);
    CdSetsStatus(ws, status, background, env);
  }

  /** A foreground `ls -l` leaves the child's exit code in `status`, or the old status if a signal ended it. */
  lemma ForegroundLine(env: Environment, status: int, bgPid: int)
    requires env.ifs.None?
    ensures LineResult("ls -l\n\0", env, status, bgPid, false)
            == (Continue, if env.childWait.Exited? then env.childWait.code else status)
  {
    var ws := ["ls", "-l"];
    assert PlainWord(ws[0]) && PlainWord(ws[1]);
    assert Join(ws, ' ') + "\n\0" == "ls -l\n\0";
    LinePlainWords(ws, env, status, bgPid, false);
    ExternalSetsStatus(ws, status, false, env);
  }

  class Shell {
    var status: int                 // `$?`
    var bgPid: int                  // `$!`
    var background: bool
    var bgProcesses: array<int>
    var bgCounter: nat
    var inputRedirect: bool
    var outputRedirect: bool
    var inputFile: Option<string>   // None while the pointer is NULL
    var outputFile: Option<string>
    var args: seq<string>           // parsedArguments[0 .. argc]

    predicate Valid()
      reads this
    {
      bgProcesses.Length == MaxJobs && bgCounter <= MaxJobs
    }

    /** The background pids recorded so far, oldest first. */
    function Jobs(): seq<int>
      reads this, bgProcesses
      requires Valid()
    {
      bgProcesses[..bgCounter]
    }

    /** The globals as the program starts. */
    constructor ()
      ensures Valid() && fresh(bgProcesses)
      ensures status == 0 && bgPid == 0 && !background
      ensures bgCounter == 0 && Jobs() == [] && bgProcesses[..] == seq(MaxJobs, _ => 0)
      ensures !inputRedirect && !outputRedirect && inputFile.None? && outputFile.None? && args == []
    {
      status, bgPid, background := 0, 0, false;
      bgProcesses := new int[MaxJobs](_ => 0);
      bgCounter := 0;
      inputRedirect, outputRedirect := false, false;
      inputFile, outputFile := None, None;
      args := [];
    }

    /**
     * The assignments at the top of `main`'s loop. `status` is cleared too,
     * so every line sees `$?` as 0; the job table, `$!` and the file names stay.
     */
    method ResetIteration()
      requires Valid()
      modifies this
      ensures Valid() && bgProcesses == old(bgProcesses) && Jobs() == old(Jobs())
      ensures status == 0 && !background && !inputRedirect && !outputRedirect && args == []
      ensures bgPid == old(bgPid) && bgCounter == old(bgCounter)
      ensures inputFile == old(inputFile) && outputFile == old(outputFile)
    {
      args := [];
      status := 0;
      background := false;
      inputRedirect := false;
      outputRedirect := false;
    }

    /**
     * The writes `parseArguments` makes to the globals: the arguments, and
     * the flags and file names of the operators it met. A flag is only ever
     * set, never cleared, so an earlier value survives a line without the operator.
     */
    method StoreParse(c: Command)
      requires Valid()
      modifies this
      ensures Valid() && bgProcesses == old(bgProcesses) && Jobs() == old(Jobs())
      ensures args == c.args
      ensures background == (old(background) || c.background)
      ensures inputRedirect == (old(inputRedirect) || c.inFile.Some?)
      ensures outputRedirect == (old(outputRedirect) || c.outFile.Some?)
      ensures inputFile == (if c.inFile.Some? then c.inFile else old(inputFile))
      ensures outputFile == (if c.outFile.Some? then c.outFile else old(outputFile))
      ensures status == old(status) && bgPid == old(bgPid) && bgCounter == old(bgCounter)
    {
      args := c.args;
      if c.outFile.Some? {
        outputRedirect := true;
        outputFile := c.outFile;
      }
      if c.inFile.Some? {
        inputRedirect := true;
        inputFile := c.inFile;
      }
      if c.background {
        background := true;
      }
    }

    /**
     * The parent's side of `runInput` once `fork` returned `pid`. A background
     * child goes into the next table slot and becomes `$!`; the call returns
     * its pid. A foreground child is waited for, and `status` takes its exit
     * code only when it exited normally; the call returns `status`.
     */
    method RunInputParent(pid: int, wait: WaitResult) returns (ret: int)
      requires Valid() && pid > 0
      requires background ==> bgCounter < MaxJobs
      modifies this, bgProcesses
      ensures Valid() && bgProcesses == old(bgProcesses)
      ensures old(background) ==> Jobs() == old(Jobs()) + [pid] && bgPid == pid && ret == pid && status == old(status)
      ensures old(background) ==> bgProcesses[..] == old(bgProcesses[..])[old(bgCounter) := pid]
      ensures !old(background) ==> Jobs() == old(Jobs()) && bgPid == old(bgPid) && unchanged(bgProcesses)
      ensures !old(background) ==> status == (if wait.Exited? then wait.code else old(status)) && ret == status
      ensures !background
      ensures args == old(args) && inputFile == old(inputFile) && outputFile == old(outputFile)
      ensures inputRedirect == old(inputRedirect) && outputRedirect == old(outputRedirect)
    {
      if background {
        bgProcesses[bgCounter] := pid;
        bgCounter := bgCounter + 1;
        background := false;
        bgPid := pid;
        ret := pid;
      } else {
        if wait.Exited? {
          status := wait.code;
        }
        ret := status;
      }
    }

    /**
     * `checkBackgroundProcesses`: polls every recorded job, in table order,
     * and reports those that ended. Nothing is ever removed from the table.
     */
    method CheckBackgroundProcesses(polls: seq<Option<WaitResult>>) returns (reports: seq<Report>)
      requires Valid() && |polls| == bgCounter
      ensures reports == Reports(Jobs(), polls)
    {
      reports := [];
      var i := 0;
      while i < bgCounter
        invariant 0 <= i <= bgCounter
        invariant reports == Reports(bgProcesses[..i], polls[..i])
      {
        assert bgProcesses[..i + 1][..i] == bgProcesses[..i];
        assert polls[..i + 1][..i] == polls[..i];
        if polls[i].Some? {
          reports := reports + [ReportOf(bgProcesses[i], polls[i].value)];
        }
        i := i + 1;
      }
      assert polls[..i] == polls;
    }

    /**
     * `getInput` for one line read into the NUL-terminated buffer `input`.
     * A blank line changes nothing and asks for another. Otherwise the line
     * is expanded with the current `$?` and `$!`, parsed (a redirection
     * without a file ends the shell with status 1), and dispatched; a line
     * without any argument is passed over instead of being dispatched.
     */
    method GetInput(input: seq<char>, env: Environment) returns (outcome: StepOutcome)
      requires Valid() && '\0' in input && env.childPid > 0
      requires LaunchesJob(input, env, status, bgPid, background) ==> bgCounter < MaxJobs
      modifies this, bgProcesses
      ensures Valid() && bgProcesses == old(bgProcesses)
      ensures (outcome, status) == LineResult(input, env, old(status), old(bgPid), old(background))
      ensures IsBlankLine(input) ==> unchanged(this) && unchanged(bgProcesses)
      ensures !IsBlankLine(input) && LineCommand(input, env, old(status), old(bgPid)).Ok? ==>
                var c := LineCommand(input, env, old(status), old(bgPid)).value;
                args == c.args &&
                inputRedirect == (old(inputRedirect) || c.inFile.Some?) &&
                inputFile == (if c.inFile.Some? then c.inFile else old(inputFile)) &&
                outputRedirect == (old(outputRedirect) || c.outFile.Some?) &&
                outputFile == (if c.outFile.Some? then c.outFile else old(outputFile)) &&
                background == ((old(background) || c.background) && DispatchChecked(c.args) != Run(RunExternal))
      ensures LaunchesJob(input, env, old(status), old(bgPid), old(background))
              ==> Jobs() == old(Jobs()) + [env.childPid] && bgPid == env.childPid
      ensures !LaunchesJob(input, env, old(status), old(bgPid), old(background)) ==> Jobs() == old(Jobs()) && bgPid == old(bgPid)
    {
      if IsBlankLine(input) {
        return ReadAgain;
      }
      var line := input[..CLen(input)];
      var expanded := Expand(line, env.home, env.shellPid, status, bgPid);
      var parsed := ParseArguments(expanded, Delimiters(env.ifs));
      assert parsed == LineCommand(input, env, status, bgPid);
      if parsed.Err? {
        return Terminate(1);
      }
      StoreParse(parsed.value);
      var decision := DispatchChecked(args);
      if decision.NoCommand? {
        return Continue;
      }
      match decision.action
      case RunExit =>
        var r := ExitShell(args, status);
        if r.ExitWith? {
          status := r.code;
          return Terminate(r.code);
        }
        status := StatusAfterExit(r);
        outcome := Continue;
      case ChangeDirectory(dir) =>
        status := if env.chdirSucceeds(CdTarget(dir, env.home)) then 0 else -1;
        outcome := Continue;
      case RunExternal =>
        var ret := RunInputParent(env.childPid, env.childWait);
        status := ret;
        outcome := Continue;
    }

    /**
     * One turn of `main`'s loop: reset, poll the background jobs, handle one line.
     * The line is expanded with `$?` equal to 0, whatever the last command did.
     */
    method Iteration(polls: seq<Option<WaitResult>>, input: seq<char>, env: Environment)
      returns (reports: seq<Report>, outcome: StepOutcome)
      requires Valid() && |polls| == bgCounter && '\0' in input && env.childPid > 0
      requires LaunchesJob(input, env, 0, bgPid, false) ==> bgCounter < MaxJobs
      modifies this, bgProcesses
      ensures Valid() && bgProcesses == old(bgProcesses)
      ensures reports == Reports(old(Jobs()), polls)
      ensures (outcome, status) == LineResult(input, env, 0, old(bgPid), false)
      ensures IsBlankLine(input) ==>
                args == [] && !background && !inputRedirect && !outputRedirect &&
                inputFile == old(inputFile) && outputFile == old(outputFile)
      ensures !IsBlankLine(input) && LineCommand(input, env, 0, old(bgPid)).Ok? ==>
                var c := LineCommand(input, env, 0, old(bgPid)).value;
                args == c.args &&
                inputRedirect == c.inFile.Some? &&
                inputFile == (if c.inFile.Some? then c.inFile else old(inputFile)) &&
                outputRedirect == c.outFile.Some? &&
                outputFile == (if c.outFile.Some? then c.outFile else old(outputFile)) &&
                background == (c.background && DispatchChecked(c.args) != Run(RunExternal))
      ensures LaunchesJob(input, env, 0, old(bgPid), false) ==> Jobs() == old(Jobs()) + [env.childPid] && bgPid == env.childPid
      ensures !LaunchesJob(input, env, 0, old(bgPid), false) ==> Jobs() == old(Jobs()) && bgPid == old(bgPid)
    {
      ResetIteration();
      reports := CheckBackgroundProcesses(polls);
      outcome := GetInput(input, env);
    }
  }
}
