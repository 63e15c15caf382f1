/**
 * Parameter expansion of one input line (smallsh.c:295-333): five `str_gsub`
 * passes, each scanning the output of the one before. The process id, the
 * saved status, the last background pid and `$HOME` are parameters.
 */
module Expansion {
  import opened Text
  import opened Gsub

  /** What `$!` turns into: the pid in decimal, or nothing while `bgPid` is 0. */
  function BgPidText(bgPid: int): string {
    if bgPid != 0 then Decimal(bgPid) else ""
  }

  /** The two tilde passes: `~/` becomes `~//`, then every `~/` becomes `home`. */
  function TildePasses(line: string, home: string): string {
    GSub(GSub(line, "~/", "~//"), "~/", home)
  }

  /** `expansion`: tilde, then `$$`, then `$?`, then `$!`. */
  function Expand(line: string, home: string, pid: int, status: int, bgPid: int): string {
    var afterTilde := TildePasses(line, home);
    var afterPid := GSub(afterTilde, "$$", Decimal(pid));
    var afterStatus := GSub(afterPid, "$?", Decimal(status));
    GSub(afterStatus, "$!", BgPidText(bgPid))
  }

  /** A string without the needle's first character is not changed by a pass. */
  lemma PassWithoutFirstChar(s: string, needle: string, sub: string)
    requires |needle| > 0 && needle[0] !in s
    ensures GSub(s, needle, sub) == s
  {
    forall i ensures !MatchAt(s, i, needle) {
      NoFirstCharNoMatch(s, needle, i);
    }
    GSubNoOccurrence(s, needle, sub);
  }

  /** A string with no occurrence of the needle is not changed by a pass. */
  lemma PassWithoutOccurrence(s: string, needle: string, sub: string)
    requires |needle| > 0 && forall i :: !MatchAt(s, i, needle)
    ensures GSub(s, needle, sub) == s
  {
    GSubNoOccurrence(s, needle, sub);
  }

  /** `sprintf("%d")` never prints a `$` or a `~`. */
  lemma DecimalHasNoSigil(x: int)
    ensures '$' !in Decimal(x) && '~' !in Decimal(x)
  {
    DecimalChars(x);
  }

  /** The `$!` text is empty exactly when no background job has been started. */
  lemma BgPidTextEmpty(bgPid: int)
    ensures BgPidText(bgPid) == [] <==> bgPid == 0
    ensures '$' !in BgPidText(bgPid)
  {
    DecimalChars(bgPid);
    DecimalHasNoSigil(bgPid);
  }

  /**
   * The two tilde passes equal one pass that turns every `~/` into `home`
   * followed by `/`.
   */
  lemma {:induction false} TildeTwoStep(s: string, home: string)
    ensures TildePasses(s, home) == GSub(s, "~/", home + "/")
    decreases |s|
  {
    var first := GSub(s, "~/", "~//");
    if s == [] {
    } else if StartsWith(s, "~/") {
      var t := s[2..];
      assert s == "~/" + t;
      GSubLeading(t, "~/", "~//");
      assert first == "~/" + ("/" + GSub(t, "~/", "~//"));
      GSubLeading("/" + GSub(t, "~/", "~//"), "~/", home);
      GSubCons('/', GSub(t, "~/", "~//"), "~/", home);
      TildeTwoStep(t, home);
      GSubLeading(t, "~/", home + "/");
    } else {
      var t := s[1..];
      assert s == [s[0]] + t;
      var rest := GSub(t, "~/", "~//");
      assert first == [s[0]] + rest;
      TildeTwoStep(t, home);
      if s[0] != '~' {
        GSubCons(s[0], rest, "~/", home);
        GSubCons(s[0], t, "~/", home + "/");
      } else {
        assert t == [] || t[0] != '/';
        FirstPassKeepsHead(t);
        assert !StartsWith(first, "~/");
        assert first[1..] == rest;
        assert !StartsWith(s, "~/");
      }
    }
  }

  /** The first tilde pass starts its output with the same character as its input. */
  lemma FirstPassKeepsHead(t: string)
    ensures |GSub(t, "~/", "~//")| > 0 <==> |t| > 0
    ensures |t| > 0 ==> GSub(t, "~/", "~//")[0] == t[0]
  {
  }

  /** `~/` at the start of the line becomes `home` followed by `/`. */
  lemma TildeSlash(s: string, home: string)
    ensures TildePasses("~/" + s, home) == home + "/" + TildePasses(s, home)
  {
    TildeTwoStep("~/" + s, home);
    TildeTwoStep(s, home);
    GSubLeading(s, "~/", home + "/");
  }

  /** A `~` not followed by `/` is kept as it is. */
  lemma LoneTilde(s: string, home: string)
    requires s == [] || s[0] != '/'
    ensures TildePasses("~" + s, home) == "~" + TildePasses(s, home)
  {
    TildeTwoStep("~" + s, home);
    TildeTwoStep(s, home);
    assert !StartsWith("~" + s, "~/");
    assert ("~" + s)[1..] == s;
  }

  /** A line with none of `~/`, `$$`, `$?` and `$!` comes through unchanged. */
  lemma ExpandWithoutTokens(line: string, home: string, pid: int, status: int, bgPid: int)
    requires forall i :: !MatchAt(line, i, "~/") && !MatchAt(line, i, "$$")
    requires forall i :: !MatchAt(line, i, "$?") && !MatchAt(line, i, "$!")
    ensures Expand(line, home, pid, status, bgPid) == line
  {
    PassWithoutOccurrence(line, "~/", "~//");
    PassWithoutOccurrence(line, "~/", home);
    PassWithoutOccurrence(line, "$$", Decimal(pid));
    PassWithoutOccurrence(line, "$?", Decimal(status));
    PassWithoutOccurrence(line, "$!", BgPidText(bgPid));
  }

  /** `$$` alone expands to the process id. */
  lemma ExpandPid(home: string, pid: int, status: int, bgPid: int)
    ensures Expand("$$", home, pid, status, bgPid) == Decimal(pid)
  {
    PassWithoutFirstChar("$$", "~/", "~//");
    PassWithoutFirstChar("$$", "~/", home);
    assert TildePasses("$$", home) == "$$";
    PassLeadingAlone("$$", Decimal(pid));
    DecimalHasNoSigil(pid);
    PassWithoutFirstChar(Decimal(pid), "$?", Decimal(status));
    PassWithoutFirstChar(Decimal(pid), "$!", BgPidText(bgPid));
  }

  /** A pass over exactly its needle yields exactly the replacement. */
  lemma PassLeadingAlone(needle: string, sub: string)
    requires |needle| > 0
    ensures GSub(needle, needle, sub) == sub
  {
    GSubLeading([], needle, sub);
    assert needle + [] == needle;
    assert sub + [] == sub;
  }

  /** `$?` alone expands to the saved status. */
  lemma ExpandStatus(home: string, pid: int, status: int, bgPid: int)
    ensures Expand("$?", home, pid, status, bgPid) == Decimal(status)
  {
    PassWithoutFirstChar("$?", "~/", "~//");
    PassWithoutFirstChar("$?", "~/", home);
    assert TildePasses("$?", home) == "$?";
    PassWithoutOccurrence("$?", "$$", Decimal(pid));
    PassLeadingAlone("$?", Decimal(status));
    DecimalHasNoSigil(status);
    PassWithoutFirstChar(Decimal(status), "$!", BgPidText(bgPid));
  }

  /** `$!` alone expands to the last background pid, or to nothing when there is none. */
  lemma ExpandBgPid(home: string, pid: int, status: int, bgPid: int)
    ensures Expand("$!", home, pid, status, bgPid) == (if bgPid == 0 then "" else Decimal(bgPid))
  {
    PassWithoutFirstChar("$!", "~/", "~//");
    PassWithoutFirstChar("$!", "~/", home);
    PassWithoutOccurrence("$!", "$$", Decimal(pid));
    PassWithoutOccurrence("$!", "$?", Decimal(status));
    PassLeadingAlone("$!", BgPidText(bgPid));
  }

  /**
   * The later passes scan what the tilde passes produced: `~/` expands to
   * `home` and `/`, and any `$$`, `$?` or `$!` inside `home` is then expanded too.
   */
  lemma HomeIsRescanned(home: string, pid: int, status: int, bgPid: int)
    ensures Expand("~/", home, pid, status, bgPid)
            == GSub(GSub(GSub(home + "/", "$$", Decimal(pid)), "$?", Decimal(status)), "$!", BgPidText(bgPid))
  {
    TildeSlash([], home);
    assert "~/" + [] == "~/";
    assert TildePasses([], home) == [];
    assert home + "/" + [] == home + "/";
  }

  /** A line with neither `~` nor `$` in it comes through unchanged. */
  lemma ExpandWithoutSigils(line: string, home: string, pid: int, status: int, bgPid: int)
    requires '~' !in line && '$' !in line
    ensures Expand(line, home, pid, status, bgPid) == line
  {
    PassWithoutFirstChar(line, "~/", "~//");
    PassWithoutFirstChar(line, "~/", home);
    PassWithoutFirstChar(line, "$$", Decimal(pid));
    PassWithoutFirstChar(line, "$?", Decimal(status));
    PassWithoutFirstChar(line, "$!", BgPidText(bgPid));
  }
}
