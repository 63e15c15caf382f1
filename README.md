# smallsh in Dafny

A model of the text-processing and bookkeeping core of `smallsh`, a small
interactive shell written in C (`smallsh.c`). Each turn of its main loop
does four things:

1. It clears its per-line state.
2. It polls its background jobs.
3. It reads a line and expands `~/`, `$$`, `$?` and `$!` in it with five
   calls of an in-place search-and-replace routine, `str_gsub`.
4. It splits the line into words with `strtok`, picking out the operators
   `<`, `>`, `&` and `#`, and then runs the `exit` built-in, the `cd`
   built-in or an external command.

The model follows the code's own split between computation and state:

- `wrappers.dfy`: `Option` and `Result`.
- `text.dfy` (module `Text`): C string helpers.
  - `strstr`, `strlen`, `sprintf("%d")` and `atoi` on a leading digit, as
    functions on `seq<char>`.
  - Lemmas: `atoi` reads back what `%d` printed.
- `gsub.dfy` (module `Gsub`): `str_gsub` as a pure function `GSub`, specified
  against the positions it replaces (`Replaced`). Its properties are proved
  there.
- `gsub_buffer.dfy` (module `GsubBuffer`): `str_gsub` as the C code does it,
  on a `char` array holding a NUL-terminated string.
  - `realloc`, `memmove` and `memcpy` are methods on arrays.
  - The loop is proved to leave exactly `GSub` of the original text in the
    buffer it returns.
- `expansion.dfy` (module `Expansion`): `expansion` as a composition of five
  `GSub` passes. `$HOME`, the process id, the status and the last background
  pid are parameters.
- `tokenizer.dfy` (module `Tokenizer`): `strtok` on a delimiter set, and a
  reference definition of the token list.
- `parser.dfy` (module `Parser`): the meaning of a token list
  (`Parse`, compositional).
  - The `strtok` loop of `parseArguments` is a method proved to compute it.
- `builtins.dfy` (module `Builtins`): `exitShell`, the blank-line test, the
  dispatch between `exit`, `cd` and external commands, and the `cd` target.
- `session.dfy` (module `Session`): the shell's globals as a class `Shell`,
  with `bgProcesses` kept as an array of ten slots.
  - Methods for the per-iteration reset in `main`, the writes
    `parseArguments` makes, the parent side of `runInput`,
    `checkBackgroundProcesses` and `getInput`.
  - What `fork`, `waitpid`, `chdir`, `getpid` and `getenv` return comes in
    as parameters.

Consequences of the code that the model keeps:

- `main` sets `status` to 0 at the top of every iteration
  (smallsh.c:114). As a result:
  - `$?` always expands to `0`;
  - a bare `exit` always exits with code 0;
  - a foreground child killed by a signal leaves `status` at 0.
- A usage error from `exit` stores 0 in `status`: `exitShell` returns 0 and
  `getInput` stores that (smallsh.c:163-174, 434).
- `exit N` stores `N` in `status` and then exits with it (smallsh.c:177).
- A background launch stores the child's pid in `status`: `runInput` returns
  the pid and `getInput` stores it (smallsh.c:258, 440).
- After a foreground child is killed by a signal, `status` keeps the value
  it had before the command (smallsh.c:262-267).
- `cd` stores what `chdir` returns in `status`: 0 on success, -1 on failure
  (smallsh.c:280).
- A `<` or `>` with no file after it ends the whole shell with
  `EXIT_FAILURE` (smallsh.c:360-363). The model returns `Terminate(1)`.
- The blank-line test skips only lines of at most one byte (smallsh.c:420).
  See "Findings".

## Model

| member | source | states |
|---|---|---|
| Text.StrStr | smallsh.c:453 | `strstr` from a position: the first index at or after it where the needle occurs, or `None` when there is no occurrence from there on |
| Text.CLen | smallsh.c:450 | `strlen`: the index of the first NUL, with no NUL before it |
| Text.LeadingDigits | smallsh.c:177 | the digit run `atoi` reads: a prefix made of digits, ended by the end of the text or a non-digit |
| Text.Decimal | smallsh.c:300 | definition of `sprintf("%d")`: a minus sign before the digits of the magnitude when the number is negative, otherwise its digits, most significant first |
| Text.NatDecimalRoundTrip | smallsh.c:177 | reading back the digits `sprintf("%d")` printed for a natural number gives that number |
| Text.DecimalChars | smallsh.c:300 | `sprintf("%d")` prints at least one character, each a digit or `-` |
| Text.LeadingDigitsAppend | smallsh.c:177 | `atoi` stops at the first non-digit: the digits followed by other text read as the digits alone |
| Gsub.GSub | smallsh.c:447-479 | definition of `str_gsub` on values: scanning left to right, an occurrence of the needle is replaced by `sub` and scanning resumes just past it, so the inserted text is never rescanned; any other character is kept |
| Gsub.ReplacedAreLeftmostOccurrences | smallsh.c:453-468 | every replaced position is an occurrence of the needle; consecutive replaced occurrences do not overlap; every occurrence of the needle starts inside some replaced one (scanning left to right, resuming after each match) |
| Gsub.ReplacedAreOccurrences | smallsh.c:453 | each replaced position is an occurrence of the needle |
| Gsub.ReplacedDoNotOverlap | smallsh.c:464-467 | each replacement starts at or after the end of the previous one: scanning resumes after the inserted text |
| Gsub.ReplacedCoverAll | smallsh.c:453 | every occurrence of the needle starts inside a replaced occurrence: only occurrences overlapping a replaced one are skipped |
| Gsub.GSubLength | smallsh.c:466 | the result is `len + k*(sub_len - needle_len)` long for `k` replacements |
| Gsub.GSubNoOccurrence | smallsh.c:453 | without any occurrence the text comes back unchanged and nothing is replaced |
| Gsub.NoReplacementIffNoOccurrence | smallsh.c:453 | nothing is replaced if and only if the needle does not occur |
| Gsub.GSubSkip | smallsh.c:453-455 | text before the first occurrence is copied through unchanged |
| Gsub.GSubFirstOccurrence | smallsh.c:453-467 | the first occurrence `strstr` finds is the first replaced, and the rest is the replace-all of what follows it |
| Gsub.GSubKeepsTail | smallsh.c:464-468 | the text after the end of the last replaced occurrence is a suffix of the result |
| Gsub.NoOccurrenceAfterTail | smallsh.c:453 | no occurrence starts at or after the end of the last replaced one |
| Gsub.GSubLeading | smallsh.c:464-467 | text starting with the needle becomes `sub` followed by the replace-all of the rest, with no rescan of `sub` |
| Gsub.GSubCons | smallsh.c:453 | a leading character that cannot start the needle is kept |
| GsubBuffer.StrGsub | smallsh.c:447-479 | the buffer returned is the original or a fresh block and holds a C string equal to `GSub` of the original C string |
| GsubBuffer.ReplaceAll | smallsh.c:453-468 | the loop leaves exactly `GSub` of the text in the buffer, NUL-terminated, in the original block or a fresh one |
| GsubBuffer.ReplaceRound | smallsh.c:453-467 | one round: the text after the splice, scanned from just after `sub`, still completes the replace-all, and less text is left to scan |
| GsubBuffer.ReplaceAt | smallsh.c:455-466 | the occurrence at `off` is replaced by `sub`, the text is NUL-terminated, and the block is grown when `sub` is longer |
| GsubBuffer.SpliceInPlace | smallsh.c:464-465 | `memmove` then `memcpy` turn the text into the part before `off`, then `sub`, then the part after the needle, with the NUL moved along |
| GsubBuffer.Memmove | smallsh.c:464 | the array afterwards is the overlapping move of `count` characters from `src` to `dst` |
| GsubBuffer.Memcpy | smallsh.c:465 | `sub` is written at `dst` and nothing else changes |
| GsubBuffer.Realloc | smallsh.c:458 | a fresh block of the requested size that keeps the old contents up to that size |
| GsubBuffer.Resize | smallsh.c:470-476 | the shrinking `realloc` keeps the C string and its NUL |
| GsubBuffer.ScanRound | smallsh.c:464-467 | the replace-all invariant survives one splice, with scanning resuming after `sub` |
| GsubBuffer.ScanDone | smallsh.c:453 | once `strstr` finds nothing more, the text is final |
| Expansion.Expand | smallsh.c:295-333 | definition of `expansion`: the two tilde passes, then `$$` to the pid, `$?` to the status and `$!` to the background pid text, each pass scanning the previous pass's output |
| Expansion.TildePasses | smallsh.c:302-307 | definition of the tilde passes: every `~/` becomes `~//`, then every `~/` becomes `$HOME` |
| Expansion.BgPidText | smallsh.c:319-327 | definition of the `$!` text: the pid in decimal, or the empty string while it is 0 |
| Expansion.TildeTwoStep | smallsh.c:302-307 | the two tilde passes equal one pass that turns every `~/` into `home` followed by `/` |
| Expansion.TildeSlash | smallsh.c:302-307 | `~/` at the start of a line expands to `home` followed by `/` |
| Expansion.LoneTilde | smallsh.c:302-307 | a `~` not followed by `/` is kept |
| Expansion.HomeIsRescanned | smallsh.c:302-330 | later passes scan what earlier ones produced: `$$`, `$?` and `$!` inside `home` are expanded too |
| Expansion.ExpandWithoutTokens | smallsh.c:295-333 | a line with no `~/`, `$$`, `$?` or `$!` comes through unchanged |
| Expansion.ExpandWithoutSigils | smallsh.c:295-333 | a line with no `~` and no `$` comes through unchanged |
| Expansion.ExpandPid | smallsh.c:297-311 | `$$` expands to the process id in decimal |
| Expansion.ExpandStatus | smallsh.c:313-317 | `$?` expands to the status in decimal |
| Expansion.ExpandBgPid | smallsh.c:319-330 | `$!` expands to the last background pid, or to nothing while it is 0 |
| Expansion.BgPidTextEmpty | smallsh.c:320-327 | the `$!` text is empty exactly when the background pid is 0 |
| Expansion.DecimalHasNoSigil | smallsh.c:300 | a printed number holds no `$` or `~`, so a later pass never finds one in it |
| Expansion.PassWithoutFirstChar | smallsh.c:453 | a pass over text without the needle's first character changes nothing |
| Expansion.PassLeadingAlone | smallsh.c:453-467 | a pass over exactly its needle yields exactly the replacement |
| Tokenizer.TokensFrom | smallsh.c:351-387 | definition of the token list from a position: a delimiter is skipped, otherwise the maximal run of non-delimiters is the next token |
| Tokenizer.Tokens | smallsh.c:351-387 | definition of the tokens of the whole line: those read from position 0 |
| Tokenizer.Delimiters | smallsh.c:343-347 | the delimiter set is `$IFS` when it is set and space, tab and newline otherwise; what each choice splits on is stated by the two lemmas below |
| Tokenizer.UnsetIfsSplitsOnWhitespace | smallsh.c:343-351 | with `IFS` unset no token holds a space, a tab or a newline |
| Tokenizer.SetIfsReplacesDefault | smallsh.c:343-351 | with `IFS` set only its characters split: a run free of them is a single token even if it holds spaces |
| Tokenizer.JoinedLineTokens | smallsh.c:351-387 | words joined by a delimiter and followed by delimiters tokenize back to those words |
| Tokenizer.StrTok | smallsh.c:351 | one `strtok` call: only delimiters come before the token, the token is the text at that position up to the end or the next delimiter, non-empty and free of delimiters, and scanning resumes just past that delimiter; `None` only when nothing but delimiters is left |
| Tokenizer.StrTokNext | smallsh.c:351-387 | each `strtok` call returns the next token of the reference token list and leaves the rest of the list for the following calls |
| Tokenizer.TokensAreWords | smallsh.c:351 | every token is non-empty and holds no delimiter |
| Tokenizer.TokensCoverText | smallsh.c:351-387 | the tokens concatenated are the text with the delimiters removed, in input order |
| Tokenizer.TokensOfJoin | smallsh.c:351-387 | words joined by a delimiter tokenize back to those words |
| Tokenizer.TokensOnlyDelims | smallsh.c:351 | text made of delimiters has no tokens |
| Tokenizer.TokensAppendDelims | smallsh.c:351 | trailing delimiters add no token |
| Tokenizer.ExampleRedirectLine | smallsh.c:351 | `ls -l > out.txt` followed by a newline tokenizes to four words |
| Parser.Parse | smallsh.c:353-388 | definition of what `parseArguments` makes of the tokens: `<` or `>` takes the next token as its file, or is an error when none follows; `&` sets background; `#` ends the command; any other token is the next argument |
| Parser.ParseArguments | smallsh.c:341-390 | the `strtok` loop returns the meaning `Parse` gives the tokens of the line |
| Parser.ArgsHoldNoOperator | smallsh.c:355-386 | the argument list never holds `<`, `>`, `&` or `#` |
| Parser.ArgsKeepOrder | smallsh.c:385-387 | the arguments are tokens of the line, in the order they appear |
| Parser.PlainWords | smallsh.c:385-387 | tokens with no operator are all arguments, with no redirection, in the foreground |
| Parser.ParseConcat | smallsh.c:353-388 | a prefix without `#` contributes its meaning and what follows is parsed as if on its own |
| Parser.BackgroundAnywhere | smallsh.c:376-380 | `&` anywhere sets background; the words before and after it are all arguments |
| Parser.LastRedirectWins | smallsh.c:355-375 | the token after `<` or `>` is the file, never an argument; a later redirection of the same kind wins |
| Parser.CommentEndsCommand | smallsh.c:381-384 | `#` ends parsing; the arguments before it are kept |
| Parser.DanglingRedirect | smallsh.c:359-363 | `<` or `>` as the last token is an error naming the operator |
| Parser.ExampleRedirect | smallsh.c:341-390 | `ls -l > out.txt` gives arguments `ls -l`, output file `out.txt`, in the foreground |
| Parser.ThenAssoc | smallsh.c:353-388 | combining the effects of successive tokens is associative |
| Parser.WordStep | smallsh.c:385-387 | a word token appends itself to the arguments |
| Parser.BackgroundStep | smallsh.c:376-380 | an `&` token sets background |
| Parser.RedirectStep | smallsh.c:355-375 | a redirection token and its file set that redirection |
| Parser.CommentStep | smallsh.c:381-384 | a `#` token ends parsing with what has been gathered |
| Builtins.ExitShell | smallsh.c:153-186 | `exit` exits with `status` when it is alone, or with `atoi` of a second word that starts with a digit; more than two words or a non-digit second word is a usage error; with no words `status` is returned |
| Builtins.StatusAfterExit | smallsh.c:163-174 | the status a returning `exitShell` call leaves: 0 after a usage error; the whole line is covered by `Session.ExitMisuseContinues` and `Session.ExitWordLine` |
| Builtins.ExitWithNumber | smallsh.c:175-182 | `exit N` exits with `N`, whatever non-digits follow the digits |
| Builtins.UsageKeepsRunning | smallsh.c:163-174 | a usage error does not end the shell and leaves status 0 |
| Builtins.IsBlankLine | smallsh.c:419-420 | definition of the blank test: the line is empty or `strlen` is at most 1 |
| Builtins.BlankIffShort | smallsh.c:419-425 | a line is skipped exactly when it is at most one byte long |
| Builtins.Dispatch | smallsh.c:432-441 | `exit` runs the exit built-in, `cd` changes directory with the second word if any, anything else is external; the status each choice leaves is in `Session.RunCommand`'s lemmas below |
| Builtins.CdTarget | smallsh.c:275-278 | `cd` goes to its argument, or to `$HOME` without one; `Session.CdSetsStatus` and `Session.CdHomeLine` give the status that follows |
| Builtins.CdGoesHome | smallsh.c:275-278 | bare `cd` goes home and `cd x` goes to `x` |
| Builtins.DispatchChecked | smallsh.c:432-441 | an empty argument list is set aside; any other list is dispatched as `Dispatch` does; `Session.NoCommandContinues` gives the result of the first case |
| Builtins.BlankTestMissesWhitespace | smallsh.c:419-432 | a line of two or more blanks passes the blank test and yields no arguments |
| Builtins.TwoSpacesHaveNoCommand | smallsh.c:419-432 | the line of two spaces and a newline passes the blank test and yields no arguments |
| Builtins.CommentLineHasNoCommand | smallsh.c:419-432 | the line `#` passes the blank test and yields no arguments |
| Builtins.CheckedDispatchSkipsWhitespace | smallsh.c:419-441 | with the corrected dispatch such a line is set aside |
| Session.ReportOf | smallsh.c:136-143 | a job that exited is reported with its exit code, one killed by a signal with the signal |
| Session.WaitOf | smallsh.c:136-143 | every report is the report of the wait status read back from it |
| Session.ReportKeepsWait | smallsh.c:136-143 | a report loses nothing of the wait status: reading it back gives that wait status |
| Session.Reports | smallsh.c:130-146 | definition of one poll's reports: in table order, one report for each job whose poll found it ended, and none for the others |
| Session.Message | smallsh.c:136-143 | definition of the printed line: `Child processes <pid> done. Signaled <sig>.` for a killed job, `Child process <pid> done. Exit status <code>.` for one that exited |
| Session.ReportsAreForEndedJobs | smallsh.c:132-145 | every report is about a recorded job whose poll found it ended |
| Session.EndedJobsAreReported | smallsh.c:132-145 | every recorded job whose poll found it ended is reported |
| Session.QuietPoll | smallsh.c:132-145 | when no poll finds an ended job, nothing is printed |
| Session.RunCommand | smallsh.c:432-441 | definition of the dispatch's effect: no arguments changes nothing; `exit` ends the shell with its code, stored as the status, or continues with status 0 after a usage error; `cd` leaves 0 or -1 as `chdir` on the target works; a command leaves the child's pid in the background, and in the foreground its exit code, or the old status after a signal |
| Session.LineResult | smallsh.c:397-442 | definition of one pass of `getInput`: a blank line is read again with the status unchanged; a redirection without a file ends the shell with 1; any other line is expanded, parsed and dispatched as `RunCommand` says, with background set by the line or already set |
| Session.NoCommandContinues | smallsh.c:432-441 | a line with no arguments runs nothing and leaves status as it was |
| Session.BareExitUsesStatus | smallsh.c:155-162 | a bare `exit` ends the shell with the current status |
| Session.ExitNumberTerminates | smallsh.c:175-182 | `exit N` ends the shell with `N` and stores `N` in status, whatever non-digits follow the digits |
| Session.ExitMisuseContinues | smallsh.c:163-174 | more than two words after `exit`, or a second word not starting with a digit, keeps the shell running with status 0 |
| Session.CdSetsStatus | smallsh.c:275-286 | `cd` changes to its argument, or to `$HOME` without one, and status becomes 0 when that works and -1 when it does not |
| Session.ExternalSetsStatus | smallsh.c:249-268 | any other first word runs a command: in the background status becomes the child's pid; in the foreground the child's exit code, or the old status when a signal ended it |
| Session.TextLine | smallsh.c:419-420 | a non-empty text without NUL, with a newline and NUL after it, is not blank and `strlen` stops just after the newline |
| Session.PlainWordsText | smallsh.c:295-387 | plain words joined by spaces hold no NUL, `~` or `$`, and with a newline after them split back into the words |
| Session.LineWithoutSigils | smallsh.c:419-430 | a non-empty line with no NUL, `~` or `$` is not blank and is parsed as it was typed, expansion changing nothing |
| Session.PlainLineCommand | smallsh.c:419-430 | a line of plain words with `IFS` unset is not blank and parses into those words, in the foreground, with no redirection |
| Session.LinePlainWords | smallsh.c:419-441 | the result of such a line is what the dispatch does with its words |
| Session.ExitTwoLine | smallsh.c:432-434 | the line `exit 2` ends the shell with 2 |
| Session.ExitWordLine | smallsh.c:432-434 | the line `exit abc` keeps the shell running with status 0 |
| Session.CdHomeLine | smallsh.c:435-437 | the line `cd` goes to `$HOME`, and status is 0 or -1 as that works or not |
| Session.ForegroundLine | smallsh.c:438-441 | the line `ls -l` in the foreground leaves the child's exit code in status, or the old status when a signal ended it |
| Session.Shell.constructor | smallsh.c:25-36 | all globals start at zero, the job table is empty, and no file is set |
| Session.Shell.ResetIteration | smallsh.c:113-117 | status, background and both redirection flags are cleared and the argument list is emptied; the job table, `$!` and the file names stay |
| Session.Shell.StoreParse | smallsh.c:365-386 | the arguments are stored; each operator seen sets its flag and file, and a flag is never cleared |
| Session.Shell.RunInputParent | smallsh.c:249-268 | a background child is appended to the job table, earlier entries kept, and becomes `$!`, with the background flag cleared and its pid returned; a foreground child sets status only when it exited normally, and status is returned |
| Session.Shell.CheckBackgroundProcesses | smallsh.c:130-146 | the reports are those of `Reports` on the job table in table order; nothing is removed |
| Session.Shell.GetInput | smallsh.c:397-442 | the outcome and new status are `LineResult` of the line: a blank line is read again and changes nothing; a redirection without a file ends the shell with 1; otherwise the dispatch decides (`exit N` ends with `N`, a usage error leaves 0, `cd` leaves 0 or -1, a command leaves its pid or exit code); the arguments, flags and files are those `parseArguments` stores; a background launch appends the child and sets `$!`; otherwise the job table and `$!` are unchanged |
| Session.Shell.Iteration | smallsh.c:111-123 | one loop turn reports on the jobs recorded before it; the line is handled from the reset state, so its outcome and status are `LineResult` with status 0 and background off, the flags hold only this line's redirections; after a blank line the state is the reset one (no arguments, no flags, the file names kept); at most the launched child is added |

## Left out

- Process creation and execution: `fork`, `execvp`, `open`, `dup2` and the
  redirections in the child (smallsh.c:195-247). The pid the parent sees and
  what `waitpid` reports are parameters.
- Signal handlers and dispositions (smallsh.c:56-101, 207, 412-416, 427) and
  `kill(0, SIGINT)` in `exitShell`. They are asynchronous operating-system
  effects.
- `getline`, the prompt and `PS1`. The line read is a parameter (a buffer
  holding a NUL). End of input is not modelled.
- `getenv("HOME")` and `getenv("IFS")` are parameters. A missing `HOME`,
  which would pass a null pointer to `str_gsub`, is not modelled.
- The `chdir` call itself. Whether it succeeds on a given directory is a
  parameter, giving status 0 or -1.
- `realloc` failure and the `exit(1)` after a failed `str_gsub`. Allocation
  always succeeds, and a grown or shrunk block is always a fresh array.
- The non-blocking `waitpid` right after a background launch
  (smallsh.c:254). Its result is discarded by the source.
- The 10-byte `pidStr`, `statusStr` and `bgPidStr` buffers. A number longer
  than nine characters would overflow them; the model prints it whole.
- The 513-slot capacity of `parsedArguments` (smallsh.c:349, 385). The
  argument list is a sequence without bound.
- NUL bytes inside a line. The model reads the line up to its first NUL,
  as the C string functions do.
- `strtok` writing NULs into the line, and the `strdup` copies. Tokens are
  values.
- Builtins.ExitShell: the code is the `int` passed to `exit`. The 8-bit
  truncation of the process exit status is not modelled, and neither is the
  overflow of `atoi` beyond `int`.
- Builtins.ExitShell: the `*argc = 0` write of a usage error is not
  modelled. The argument count is not used again before `main` resets it.
- Session.Shell.RunInputParent: the table overflow after ten background
  launches is a precondition. Entries are never removed (smallsh.c:252), so
  an eleventh launch would write past `bgProcesses[10]`.
- Session.Shell.CheckBackgroundProcesses: the poll results are a parameter,
  one per recorded job. A job already reaped reads as `None`, as `waitpid`
  returning -1 does. The message text is in `Session.Message`, which has
  no contract.
- Session.Shell.GetInput: a blank line returns `ReadAgain` to the caller
  instead of jumping back to the prompt inside the call.
- Session.Shell.GetInput: it uses the corrected dispatch `DispatchChecked`.
  For a line with no arguments the code calls `strcmp` on a NULL
  `parsedArguments[0]` (smallsh.c:432), which is undefined behaviour; the
  model passes over such a line instead (see "Findings").
- A C `char` is one byte, but the model's text is a sequence of Dafny
  `char`s. A non-ASCII character in `$IFS` is one delimiter here, while
  `strtok` splits on each of its bytes. `Gsub.GSubLength` and the buffer
  sizes in `GsubBuffer` count characters, not bytes.
- The output of `fflush` and the diagnostic lines themselves are not
  modelled.

## Findings

| source | as written | input that shows it | evidently intended | confidence | as-written member | corrected member |
|---|---|---|---|---|---|---|
| smallsh.c:419-432 | The blank-line test skips only lines of at most one byte. The dispatch then compares `parsedArguments[0]` with `"exit"`, and for a line that yields no arguments that pointer is NULL. | `"  \n"` (two blanks and a newline) or `"#\n"`. Each passes the test and parses to an empty argument list. | A line without a command word is passed over like an empty one. | not executed | Builtins.BlankTestMissesWhitespace | Builtins.DispatchChecked |
