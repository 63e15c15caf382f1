/**
 * Word splitting with `strtok` (smallsh.c:343-351, 359, 374, 379, 387): a
 * token is a maximal non-empty run of characters outside the delimiter set,
 * which is `$IFS` or, when that is unset, space, tab and newline.
 */
module Tokenizer {
  import opened Wrappers

  /** The delimiters used when `IFS` is not set. */
  const DefaultDelimiters: string := " \t\n"

  /** The delimiter set `parseArguments` uses, given the value of `IFS` if it is set. */
  function Delimiters(ifs: Option<string>): (d: string)
    ensures ifs.None? ==> d == DefaultDelimiters
    ensures ifs.Some? ==> d == ifs.value
  {
    if ifs.None? then DefaultDelimiters else ifs.value
  }

  /** A token: non-empty and free of delimiters. */
  predicate IsWord(t: string, delims: string) {
    |t| > 0 && forall i :: 0 <= i < |t| ==> t[i] !in delims
  }

  /** The first position at or after `pos` that is not a delimiter (or the end). */
  function DelimsEnd(s: string, delims: string, pos: nat): (k: nat)
    requires pos <= |s|
    ensures pos <= k <= |s| && (k == |s| || s[k] !in delims)
    ensures forall i :: pos <= i < k ==> s[i] in delims
    decreases |s| - pos
  {
    if pos == |s| || s[pos] !in delims then pos else DelimsEnd(s, delims, pos + 1)
  }

  /** The first position at or after `pos` that is a delimiter (or the end). */
  function WordEnd(s: string, delims: string, pos: nat): (k: nat)
    requires pos <= |s|
    ensures pos <= k <= |s| && (k == |s| || s[k] in delims)
    ensures forall i :: pos <= i < k ==> s[i] !in delims
    decreases |s| - pos
  {
    if pos == |s| || s[pos] in delims then pos else WordEnd(s, delims, pos + 1)
  }

  /**
   * The tokens of `s` from `pos` on, in order: a reference definition that
   * reads the text one delimiter or one whole word at a time.
   */
  function TokensFrom(s: string, delims: string, pos: nat): seq<string>
    requires pos <= |s|
    decreases |s| - pos
  {
    if pos == |s| then []
    else if s[pos] in delims then TokensFrom(s, delims, pos + 1)
    else
      var e := WordEnd(s, delims, pos);
      [s[pos..e]] + TokensFrom(s, delims, e)
  }

  /** The tokens of `s`. */
  function Tokens(s: string, delims: string): seq<string> {
    TokensFrom(s, delims, 0)
  }

  /**
   * Scanning from `pos`, only delimiters come before `start`, `word` is the
   * text at `start` up to the end of the text or a delimiter, and `resume`
   * is just past that delimiter.
   */
  predicate TokenAt(s: string, delims: string, pos: nat, start: nat, word: string, resume: nat) {
    pos <= start && start + |word| <= |s| &&
    (forall i :: pos <= i < start ==> s[i] in delims) &&
    s[start..start + |word|] == word &&
    (start + |word| == |s| || s[start + |word|] in delims) &&
    resume == (if start + |word| < |s| then start + |word| + 1 else |s|)
  }

  /**
   * One call of `strtok` that resumes at `pos`: skip delimiters, take the
   * word there, and resume after the delimiter that ended it (which
   * `strtok` overwrites with a NUL). No word left gives None.
   */
  function StrTok(s: string, delims: string, pos: nat): (r: (Option<string>, nat))
    requires pos <= |s|
    ensures pos <= r.1 <= |s|
    ensures r.0.Some? ==> pos < r.1 && IsWord(r.0.value, delims)
    ensures r.0.None? ==> r.1 == |s| && forall i :: pos <= i < |s| ==> s[i] in delims
    ensures r.0.Some? ==> exists start: nat :: TokenAt(s, delims, pos, start, r.0.value, r.1)
  {
    var start := DelimsEnd(s, delims, pos);
    if start == |s| then (None, |s|)
    else
      var end := WordEnd(s, delims, start);
      var word := s[start..end];
      var resume := if end < |s| then end + 1 else end;
      assert TokenAt(s, delims, pos, start, word, resume);
      (Some(word), resume)
  }

  /** Every token is a non-empty run of non-delimiters. */
  lemma {:induction false} TokensAreWords(s: string, delims: string, pos: nat)
    requires pos <= |s|
    ensures forall k :: 0 <= k < |TokensFrom(s, delims, pos)| ==> IsWord(TokensFrom(s, delims, pos)[k], delims)
    decreases |s| - pos
  {
    if pos == |s| {
    } else if s[pos] in delims {
      TokensAreWords(s, delims, pos + 1);
    } else {
      TokensAreWords(s, delims, WordEnd(s, delims, pos));
    }
  }

  /** Delimiters yield no token. */
  lemma {:induction false} TokensSkipDelims(s: string, delims: string, pos: nat)
    requires pos <= |s|
    ensures TokensFrom(s, delims, pos) == TokensFrom(s, delims, DelimsEnd(s, delims, pos))
    decreases |s| - pos
  {
    if pos < |s| && s[pos] in delims {
      TokensSkipDelims(s, delims, pos + 1);
    }
  }

  /**
   * Each `strtok` call yields the next token of the reference definition,
   * and the calls after it yield the ones after that.
   */
  lemma StrTokNext(s: string, delims: string, pos: nat)
    requires pos <= |s|
    ensures var r := StrTok(s, delims, pos);
            (r.0.None? ==> TokensFrom(s, delims, pos) == []) &&
            (r.0.Some? ==> TokensFrom(s, delims, pos) == [r.0.value] + TokensFrom(s, delims, r.1))
  {
    var start := DelimsEnd(s, delims, pos);
    TokensSkipDelims(s, delims, pos);
    if start < |s| {
      var end := WordEnd(s, delims, start);
      if end < |s| {
        assert TokensFrom(s, delims, end) == TokensFrom(s, delims, end + 1);
      }
    }
  }

  /** The characters of `s` outside the delimiter set, in order. */
  function Strip(s: string, delims: string): (r: string)
    ensures |r| <= |s|
  {
    if s == [] then []
    else if s[0] in delims then Strip(s[1..], delims)
    else [s[0]] + Strip(s[1..], delims)
  }

  function Concat(ts: seq<string>): string {
    if ts == [] then [] else ts[0] + Concat(ts[1..])
  }

  /** A delimiter-free prefix is kept whole by `Strip`. */
  lemma {:induction false} StripWordPrefix(s: string, delims: string, w: nat)
    requires w <= |s| && forall i :: 0 <= i < w ==> s[i] !in delims
    ensures Strip(s, delims) == s[..w] + Strip(s[w..], delims)
    decreases w
  {
    if w > 0 {
      StripWordPrefix(s[1..], delims, w - 1);
      assert s[1..][w - 1..] == s[w..];
      assert s[..w] == [s[0]] + s[1..][..w - 1];
    }
  }

  /**
   * Tokenising loses nothing but delimiters: the tokens, put back together,
   * are the text with its delimiters removed.
   */
  lemma {:induction false} TokensCoverText(s: string, delims: string, pos: nat)
    requires pos <= |s|
    ensures Concat(TokensFrom(s, delims, pos)) == Strip(s[pos..], delims)
    decreases |s| - pos
  {
    if pos == |s| {
    } else if s[pos] in delims {
      TokensCoverText(s, delims, pos + 1);
      assert s[pos..][1..] == s[pos + 1..];
    } else {
      var e := WordEnd(s, delims, pos);
      TokensCoverText(s, delims, e);
      StripWordPrefix(s[pos..], delims, e - pos);
      assert s[pos..][..e - pos] == s[pos..e];
      assert s[pos..][e - pos..] == s[e..];
      var ts := TokensFrom(s, delims, pos);
      assert ts[1..] == TokensFrom(s, delims, e);
    }
  }

  /** The words `ts` joined by the delimiter `d`. */
  function Join(ts: seq<string>, d: char): string {
    if ts == [] then []
    else if |ts| == 1 then ts[0]
    else ts[0] + [d] + Join(ts[1..], d)
  }

  /** A character that is neither the separator nor in any word is not in the joined text. */
  lemma {:induction false} JoinAvoids(ts: seq<string>, d: char, c: char)
    requires c != d && forall k :: 0 <= k < |ts| ==> c !in ts[k]
    ensures c !in Join(ts, d)
    decreases |ts|
  {
    if |ts| > 1 {
      JoinAvoids(ts[1..], d, c);
    }
  }

  /** The joined text starts with the first word. */
  lemma JoinStartsWithFirst(ts: seq<string>, d: char)
    requires ts != []
    ensures |Join(ts, d)| >= |ts[0]| && Join(ts, d)[..|ts[0]|] == ts[0]
  {
  }

  /** Scanning a word inside `a + b` past `|a|` is scanning it in `b`. */
  lemma {:induction false} WordEndShift(a: string, b: string, delims: string, i: nat)
    requires i <= |b|
    ensures WordEnd(a + b, delims, |a| + i) == |a| + WordEnd(b, delims, i)
    decreases |b| - i
  {
    if i < |b| && b[i] !in delims {
      assert (a + b)[|a| + i] == b[i];
      WordEndShift(a, b, delims, i + 1);
    } else if i < |b| {
      assert (a + b)[|a| + i] == b[i];
    }
  }

  /** The tokens of `a + b` from inside `b` are the tokens of `b`. */
  lemma {:induction false} TokensShift(a: string, b: string, delims: string, i: nat)
    requires i <= |b|
    ensures TokensFrom(a + b, delims, |a| + i) == TokensFrom(b, delims, i)
    decreases |b| - i
  {
    var s := a + b;
    if i < |b| {
      assert s[|a| + i] == b[i];
      if b[i] in delims {
        TokensShift(a, b, delims, i + 1);
      } else {
        var e := WordEnd(b, delims, i);
        assert i < e;
        WordEndShift(a, b, delims, i);
        assert TokensFrom(s, delims, |a| + i) == [s[|a| + i..|a| + e]] + TokensFrom(s, delims, |a| + e);
        assert TokensFrom(b, delims, i) == [b[i..e]] + TokensFrom(b, delims, e);
        assert s[|a| + i..|a| + e] == b[i..e];
        TokensShift(a, b, delims, e);
      }
    }
  }

  /** A word followed by the end of the text or by a delimiter is one token. */
  lemma WordThenRest(w: string, rest: string, delims: string)
    requires IsWord(w, delims) && (rest == [] || rest[0] in delims)
    ensures Tokens(w + rest, delims) == [w] + Tokens(rest, delims)
  {
    var s := w + rest;
    WordEndOf(w, rest, delims, 0);
    assert s[..|w|] == w;
    TokensShift(w, rest, delims, 0);
  }

  lemma {:induction false} WordEndOf(w: string, rest: string, delims: string, i: nat)
    requires i <= |w| && forall j :: 0 <= j < |w| ==> w[j] !in delims
    requires rest == [] || rest[0] in delims
    ensures WordEnd(w + rest, delims, i) == |w|
    decreases |w| - i
  {
    var s := w + rest;
    if i < |w| {
      assert s[i] == w[i];
      WordEndOf(w, rest, delims, i + 1);
    } else if rest != [] {
      assert s[i] == rest[0];
    }
  }

  /** Joining words with a delimiter and splitting again gives back the words. */
  lemma {:induction false} TokensOfJoin(ts: seq<string>, d: char, delims: string)
    requires d in delims && forall k :: 0 <= k < |ts| ==> IsWord(ts[k], delims)
    ensures Tokens(Join(ts, d), delims) == ts
    decreases |ts|
  {
    if |ts| == 1 {
      WordThenRest(ts[0], [], delims);
      assert ts[0] + [] == ts[0];
    } else if |ts| > 1 {
      var rest := [d] + Join(ts[1..], d);
      assert Join(ts, d) == ts[0] + rest;
      WordThenRest(ts[0], rest, delims);
      TokensShift([d], Join(ts[1..], d), delims, 0);
      TokensOfJoin(ts[1..], d, delims);
    }
  }

  /** Words joined by a delimiter and followed by delimiters split back into the words. */
  lemma JoinedLineTokens(ts: seq<string>, d: char, tail: string, delims: string)
    requires d in delims && forall k :: 0 <= k < |ts| ==> IsWord(ts[k], delims)
    requires forall j :: 0 <= j < |tail| ==> tail[j] in delims
    ensures Tokens(Join(ts, d) + tail, delims) == ts
  {
    TokensAppendDelims(Join(ts, d), tail, delims, 0);
    TokensOfJoin(ts, d, delims);
  }

  /** Trailing delimiters add no token. */
  lemma {:induction false} TokensAppendDelims(s: string, tail: string, delims: string, i: nat)
    requires i <= |s| && forall j :: 0 <= j < |tail| ==> tail[j] in delims
    ensures TokensFrom(s + tail, delims, i) == TokensFrom(s, delims, i)
    decreases |s| - i
  {
    var t := s + tail;
    if i == |s| {
      TokensOnlyDelims(t, delims, i);
    } else {
      assert t[i] == s[i];
      if s[i] in delims {
        TokensAppendDelims(s, tail, delims, i + 1);
      } else {
        WordEndAppend(s, tail, delims, i);
        assert t[i..WordEnd(s, delims, i)] == s[i..WordEnd(s, delims, i)];
        TokensAppendDelims(s, tail, delims, WordEnd(s, delims, i));
      }
    }
  }

  lemma {:induction false} TokensOnlyDelims(s: string, delims: string, i: nat)
    requires i <= |s| && forall j :: i <= j < |s| ==> s[j] in delims
    ensures TokensFrom(s, delims, i) == []
    decreases |s| - i
  {
    if i < |s| {
      TokensOnlyDelims(s, delims, i + 1);
    }
  }

  lemma {:induction false} WordEndAppend(s: string, tail: string, delims: string, i: nat)
    requires i <= |s| && forall j :: 0 <= j < |tail| ==> tail[j] in delims
    ensures WordEnd(s + tail, delims, i) == WordEnd(s, delims, i)
    decreases |s| - i
  {
    var t := s + tail;
    if i < |s| {
      assert t[i] == s[i];
      if s[i] !in delims {
        WordEndAppend(s, tail, delims, i + 1);
      }
    } else if tail != [] {
      assert t[i] == tail[0];
    }
  }

  /** With `IFS` unset, no token holds a space, a tab or a newline. */
  lemma UnsetIfsSplitsOnWhitespace(s: string)
    ensures forall k :: 0 <= k < |Tokens(s, Delimiters(None))| ==>
              var t := Tokens(s, Delimiters(None))[k];
              ' ' !in t && '\t' !in t && '\n' !in t
  {
    TokensAreWords(s, DefaultDelimiters, 0);
  }

  /** With `IFS` set, only its characters split: a run free of them is one token, spaces included. */
  lemma SetIfsReplacesDefault(w: string, ifs: string)
    requires IsWord(w, ifs)
    ensures Tokens(w, Delimiters(Some(ifs))) == [w]
  {
    WordThenRest(w, [], ifs);
    assert w + [] == w;
    TokensOnlyDelims([], ifs, 0);
  }

  /** The word-splitting of the line the usual example uses. */
  lemma ExampleRedirectLine()
    ensures Tokens("ls -l > out.txt\n", DefaultDelimiters) == ["ls", "-l", ">", "out.txt"]
  {
    var ts := ["ls", "-l", ">", "out.txt"];
    TokensOfJoin(ts, ' ', DefaultDelimiters);
    assert Join(ts, ' ') == "ls -l > out.txt";
    assert "ls -l > out.txt\n" == Join(ts, ' ') + "\n";
    TokensAppendDelims(Join(ts, ' '), "\n", DefaultDelimiters, 0);
  }
}
