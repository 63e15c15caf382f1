/**
 * `parseArguments` (smallsh.c:341-390): the tokens of the expanded line
 * become the argument list, except for the operators `<` and `>` (which take
 * the next token as the file to redirect from or to), `&` (run in the
 * background) and `#` (the rest of the line is a comment).
 */
module Parser {
  import opened Wrappers
  import opened Tokenizer

  /** What one line asks for. */
  datatype Command = Command(args: seq<string>, inFile: Option<string>, outFile: Option<string>, background: bool)

  /** A `<` or `>` with no token after it: the shell prints a message and exits with `EXIT_FAILURE`. */
  datatype ParseError = MissingRedirectTarget(op: char)

  const Nothing: Command := Command([], None, None, false)

  predicate IsOperator(t: string) {
    t == "<" || t == ">" || t == "&" || t == "#"
  }

  predicate IsRedirect(t: string) {
    t == "<" || t == ">"
  }

  /** `a` followed by `b`: arguments in order, the later redirection wins, background sticks. */
  function Then(a: Command, b: Command): Command {
    Command(a.args + b.args,
            if b.inFile.Some? then b.inFile else a.inFile,
            if b.outFile.Some? then b.outFile else a.outFile,
            a.background || b.background)
  }

  /** `a` followed by the result of parsing what comes after it. */
  function Extend(a: Command, r: Result<Command, ParseError>): Result<Command, ParseError> {
    match r
    case Ok(c) => Ok(Then(a, c))
    case Err(e) => Err(e)
  }

  /** What the redirection `op file` contributes. */
  function Redirect(op: string, file: string): Command
    requires IsRedirect(op)
  {
    if op == ">" then Command([], None, Some(file), false) else Command([], Some(file), None, false)
  }

  /** The meaning of a token list, one token (or operator and target) at a time. */
  function Parse(toks: seq<string>): Result<Command, ParseError>
    decreases |toks|
  {
    if toks == [] then Ok(Nothing)
    else if IsRedirect(toks[0]) then
      if |toks| == 1 then Err(MissingRedirectTarget(toks[0][0]))
      else Extend(Redirect(toks[0], toks[1]), Parse(toks[2..]))
    else if toks[0] == "&" then Extend(Command([], None, None, true), Parse(toks[1..]))
    else if toks[0] == "#" then Ok(Nothing)
    else Extend(Command([toks[0]], None, None, false), Parse(toks[1..]))
  }

  lemma ThenAssoc(a: Command, b: Command, c: Command)
    ensures Then(Then(a, b), c) == Then(a, Then(b, c))
  {
    assert (a.args + b.args) + c.args == a.args + (b.args + c.args);
  }

  lemma ThenNothing(a: Command)
    ensures Then(a, Nothing) == a && Then(Nothing, a) == a
  {
    assert a.args + [] == a.args;
    assert [] + a.args == a.args;
  }

  lemma ExtendAssoc(a: Command, b: Command, r: Result<Command, ParseError>)
    ensures Extend(a, Extend(b, r)) == Extend(Then(a, b), r)
  {
    if r.Ok? {
      ThenAssoc(a, b, r.value);
    }
  }

  /** The token list `ts` with the not-yet-handled token `tok` in front of it. */
  function Pending(tok: Option<string>, ts: seq<string>): seq<string> {
    if tok.Some? then [tok.value] + ts else ts
  }

  /** A word is appended to the arguments. */
  lemma WordStep(acc: Command, t: string, rest: seq<string>)
    requires !IsOperator(t)
    ensures Extend(acc, Parse([t] + rest)) == Extend(acc.(args := acc.args + [t]), Parse(rest))
  {
    assert ([t] + rest)[1..] == rest;
    ExtendAssoc(acc, Command([t], None, None, false), Parse(rest));
    assert Then(acc, Command([t], None, None, false)) == acc.(args := acc.args + [t]);
  }

  /** `&` sets background. */
  lemma BackgroundStep(acc: Command, rest: seq<string>)
    ensures Extend(acc, Parse(["&"] + rest)) == Extend(acc.(background := true), Parse(rest))
  {
    assert (["&"] + rest)[1..] == rest;
    ExtendAssoc(acc, Command([], None, None, true), Parse(rest));
    assert acc.args + [] == acc.args;
  }

  /** `<` or `>` with a target sets the file. */
  lemma RedirectStep(acc: Command, t: string, file: string, rest: seq<string>)
    requires IsRedirect(t)
    ensures Extend(acc, Parse([t] + ([file] + rest)))
            == Extend(if t == ">" then acc.(outFile := Some(file)) else acc.(inFile := Some(file)), Parse(rest))
  {
    var ts := [t] + ([file] + rest);
    assert ts[1] == file && ts[2..] == rest;
    ExtendAssoc(acc, Redirect(t, file), Parse(rest));
    assert acc.args + [] == acc.args;
  }

  /** `<` or `>` as the last token is an error. */
  lemma RedirectMissing(acc: Command, t: string)
    requires IsRedirect(t)
    ensures Extend(acc, Parse([t])) == Err(MissingRedirectTarget(t[0]))
  {
  }

  /** `#` ends the command. */
  lemma CommentStep(acc: Command, rest: seq<string>)
    ensures Extend(acc, Parse(["#"] + rest)) == Ok(acc)
  {
    ThenNothing(acc);
  }

  /**
   * The `strtok` loop of `parseArguments`: words are appended to the
   * argument list, `<`/`>` take the next token as the file, `&` sets
   * background, `#` ends the loop; a redirection with no token after it is
   * an error. The result is the meaning of the line's tokens.
   */
  method ParseArguments(line: string, delims: string) returns (r: Result<Command, ParseError>)
    ensures r == Parse(Tokens(line, delims))
  {
    var args: seq<string> := [];
    var inFile: Option<string> := None;
    var outFile: Option<string> := None;
    var background := false;
    StrTokNext(line, delims, 0);
    var first := StrTok(line, delims, 0);
    var token, pos := first.0, first.1;
    ghost var whole := Parse(Tokens(line, delims));
    assert whole == Extend(Nothing, whole) by {
      if whole.Ok? {
        ThenNothing(whole.value);
      }
    }
    while token.Some?
      invariant pos <= |line|
      invariant token.None? ==> TokensFrom(line, delims, pos) == []
      invariant whole == Extend(Command(args, inFile, outFile, background), Parse(Pending(token, TokensFrom(line, delims, pos))))
      decreases |line| - pos + (if token.Some? then 1 else 0)
    {
      var t := token.value;
      ghost var acc := Command(args, inFile, outFile, background);
      ghost var rest := TokensFrom(line, delims, pos);
      assert Pending(token, rest) == [t] + rest;
      if t == ">" || t == "<" {
        var op := t[0];
        StrTokNext(line, delims, pos);
        var next := StrTok(line, delims, pos);
        var target, afterTarget := next.0, next.1;
        if target.None? {
          RedirectMissing(acc, t);
          assert [t] + rest == [t];
          return Err(MissingRedirectTarget(op));
        }
        RedirectStep(acc, t, target.value, TokensFrom(line, delims, afterTarget));
        if op == '>' {
          outFile := Some(target.value);
        } else {
          inFile := Some(target.value);
        }
        StrTokNext(line, delims, afterTarget);
        next := StrTok(line, delims, afterTarget);
        token, pos := next.0, next.1;
        continue;
      } else if t == "&" {
        BackgroundStep(acc, rest);
        background := true;
        StrTokNext(line, delims, pos);
        var next := StrTok(line, delims, pos);
        token, pos := next.0, next.1;
        continue;
      } else if t == "#" {
        CommentStep(acc, rest);
        break;
      }
      WordStep(acc, t, rest);
      args := args + [t];
      StrTokNext(line, delims, pos);
      var next := StrTok(line, delims, pos);
      token, pos := next.0, next.1;
    }
    r := Ok(Command(args, inFile, outFile, background));
    if token.None? {
      ThenNothing(Command(args, inFile, outFile, background));
    }
  }

  /** `a` is `b` with some elements left out, the rest kept in order. */
  predicate IsSubsequence(a: seq<string>, b: seq<string>)
    decreases |b|
  {
    if a == [] then true
    else if b == [] then false
    else (a[0] == b[0] && IsSubsequence(a[1..], b[1..])) || IsSubsequence(a, b[1..])
  }

  /** The argument list never holds an operator token. */
  lemma {:induction false} ArgsHoldNoOperator(toks: seq<string>)
    requires Parse(toks).Ok?
    ensures forall k :: 0 <= k < |Parse(toks).value.args| ==> !IsOperator(Parse(toks).value.args[k])
    decreases |toks|
  {
    if toks == [] || toks[0] == "#" {
    } else if IsRedirect(toks[0]) {
      ArgsHoldNoOperator(toks[2..]);
    } else {
      ArgsHoldNoOperator(toks[1..]);
    }
  }

  /** The arguments are tokens of the line, in the order they appear there. */
  lemma {:induction false} ArgsKeepOrder(toks: seq<string>)
    requires Parse(toks).Ok?
    ensures IsSubsequence(Parse(toks).value.args, toks)
    decreases |toks|
  {
    var args := Parse(toks).value.args;
    if toks == [] || toks[0] == "#" {
    } else if IsRedirect(toks[0]) {
      ArgsKeepOrder(toks[2..]);
      assert toks[1..][1..] == toks[2..];
      assert args == Parse(toks[2..]).value.args;
      SubsequenceOfTail(args, toks[1..]);
      SubsequenceOfTail(args, toks);
    } else if toks[0] == "&" {
      ArgsKeepOrder(toks[1..]);
      assert args == Parse(toks[1..]).value.args;
      SubsequenceOfTail(args, toks);
    } else {
      ArgsKeepOrder(toks[1..]);
      assert args == [toks[0]] + Parse(toks[1..]).value.args;
      assert args[1..] == Parse(toks[1..]).value.args;
    }
  }

  lemma SubsequenceOfTail(a: seq<string>, b: seq<string>)
    requires b != [] && IsSubsequence(a, b[1..])
    ensures IsSubsequence(a, b)
  {
  }

  /** Tokens without operators are all arguments, in order, with no redirection and in the foreground. */
  lemma {:induction false} PlainWords(toks: seq<string>)
    requires forall k :: 0 <= k < |toks| ==> !IsOperator(toks[k])
    ensures Parse(toks) == Ok(Command(toks, None, None, false))
    decreases |toks|
  {
    if toks != [] {
      PlainWords(toks[1..]);
      assert [toks[0]] + toks[1..] == toks;
    }
  }

  /**
   * A prefix that parses on its own and holds no `#` contributes its
   * meaning, and what follows is parsed as if on its own.
   */
  lemma {:induction false} ParseConcat(pre: seq<string>, post: seq<string>)
    requires "#" !in pre && Parse(pre).Ok?
    ensures Parse(pre + post) == Extend(Parse(pre).value, Parse(post))
    decreases |pre|
  {
    var whole := pre + post;
    if pre == [] {
      assert whole == post;
      if Parse(post).Ok? {
        ThenNothing(Parse(post).value);
      }
    } else if IsRedirect(pre[0]) {
      assert whole[0] == pre[0] && whole[1] == pre[1];
      assert whole[2..] == pre[2..] + post;
      assert "#" !in pre[2..] by {
        forall k | 0 <= k < |pre[2..]| ensures pre[2..][k] != "#" {
          assert pre[2..][k] == pre[k + 2];
        }
      }
      ParseConcat(pre[2..], post);
      ExtendAssoc(Redirect(pre[0], pre[1]), Parse(pre[2..]).value, Parse(post));
    } else {
      assert whole[0] == pre[0];
      assert whole[1..] == pre[1..] + post;
      assert "#" !in pre[1..] by {
        forall k | 0 <= k < |pre[1..]| ensures pre[1..][k] != "#" {
          assert pre[1..][k] == pre[k + 1];
        }
      }
      ParseConcat(pre[1..], post);
      var head := if pre[0] == "&" then Command([], None, None, true) else Command([pre[0]], None, None, false);
      ExtendAssoc(head, Parse(pre[1..]).value, Parse(post));
    }
  }

  /** `&` anywhere outside a comment sets background and parsing goes on past it. */
  lemma BackgroundAnywhere(pre: seq<string>, post: seq<string>)
    requires "#" !in pre && Parse(pre).Ok? && Parse(post).Ok?
    ensures Parse(pre + ["&"] + post).Ok?
    ensures Parse(pre + ["&"] + post).value.background
    ensures Parse(pre + ["&"] + post).value.args == Parse(pre).value.args + Parse(post).value.args
  {
    ParseConcat(pre, ["&"] + post);
    BackgroundStep(Parse(pre).value, post);
    assert pre + ["&"] + post == pre + (["&"] + post);
  }

  /** Of several redirections the last one wins; the target never becomes an argument. */
  lemma LastRedirectWins(pre: seq<string>, op: string, file: string, post: seq<string>)
    requires IsRedirect(op)
    requires "#" !in pre && Parse(pre).Ok? && Parse(post).Ok?
    ensures var r := Parse(pre + [op, file] + post);
            var later := if op == ">" then Parse(post).value.outFile else Parse(post).value.inFile;
            r.Ok? &&
            r.value.args == Parse(pre).value.args + Parse(post).value.args &&
            (op == ">" ==> r.value.outFile == (if later.Some? then later else Some(file))) &&
            (op == "<" ==> r.value.inFile == (if later.Some? then later else Some(file)))
  {
    ParseConcat(pre, [op] + ([file] + post));
    RedirectStep(Parse(pre).value, op, file, post);
    assert pre + [op, file] + post == pre + ([op] + ([file] + post));
  }

  /** `#` outside a redirection target ends the command: nothing after it counts. */
  lemma CommentEndsCommand(pre: seq<string>, post: seq<string>)
    requires "#" !in pre && Parse(pre).Ok?
    ensures Parse(pre + ["#"] + post) == Parse(pre)
  {
    ParseConcat(pre, ["#"] + post);
    CommentStep(Parse(pre).value, post);
    assert pre + ["#"] + post == pre + (["#"] + post);
  }

  /** `<` or `>` as the last token is an error. */
  lemma DanglingRedirect(pre: seq<string>, op: string)
    requires IsRedirect(op) && "#" !in pre && Parse(pre).Ok?
    ensures Parse(pre + [op]) == Err(MissingRedirectTarget(op[0]))
  {
    ParseConcat(pre, [op]);
  }

  /** `ls -l > out.txt`: two arguments and an output file, in the foreground. */
  lemma ExampleRedirect()
    ensures Parse(Tokens("ls -l > out.txt\n", DefaultDelimiters))
            == Ok(Command(["ls", "-l"], None, Some("out.txt"), false))
  {
    ExampleRedirectLine();
    ExampleRedirectTokens();
  }

  lemma ExampleRedirectTokens()
    ensures Parse(["ls", "-l", ">", "out.txt"]) == Ok(Command(["ls", "-l"], None, Some("out.txt"), false))
  {
    var words := ["ls", "-l"];
    PlainWords(words);
    assert Parse([]) == Ok(Nothing);
    LastRedirectWins(words, ">", "out.txt", []);
    assert words + [">", "out.txt"] + [] == ["ls", "-l", ">", "out.txt"];
  }
}
