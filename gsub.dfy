/**
 * The substitution engine `str_gsub` (smallsh.c:447-479) as a function on
 * strings, with the facts that say what it computes.
 */
module Gsub {
  import opened Wrappers
  import opened Text

  /**
   * `s` with every occurrence of `needle` found scanning left to right
   * replaced by `sub`; after a replacement, scanning resumes just past the
   * replaced occurrence, so the inserted text is never scanned again.
   */
  function GSub(s: string, needle: string, sub: string): string
    requires |needle| > 0
    decreases |s|
  {
    if s == [] then []
    else if StartsWith(s, needle) then sub + GSub(s[|needle|..], needle, sub)
    else [s[0]] + GSub(s[1..], needle, sub)
  }

  function Shift(ms: seq<nat>, d: nat): (r: seq<nat>)
    ensures |r| == |ms| && forall k :: 0 <= k < |ms| ==> r[k] == ms[k] + d
  {
    seq(|ms|, k requires 0 <= k < |ms| => ms[k] + d)
  }

  /** Start indices, in `s`, of the occurrences GSub replaces, in scanning order. */
  function Replaced(s: string, needle: string): seq<nat>
    requires |needle| > 0
    decreases |s|
  {
    if s == [] then []
    else if StartsWith(s, needle) then [0] + Shift(Replaced(s[|needle|..], needle), |needle|)
    else Shift(Replaced(s[1..], needle), 1)
  }

  /** Position `i` lies inside one of the occurrences listed in `ms`. */
  predicate Covered(ms: seq<nat>, i: nat, n: nat) {
    exists k :: 0 <= k < |ms| && ms[k] <= i < ms[k] + n
  }

  /**
   * The replaced occurrences are occurrences, they do not overlap and come
   * in left-to-right order, and every occurrence of the needle in `s` is
   * either replaced or starts inside a replaced one: exactly the
   * non-overlapping occurrences a left-to-right scan finds.
   */
  lemma ReplacedAreLeftmostOccurrences(s: string, needle: string)
    requires |needle| > 0
    ensures forall k :: 0 <= k < |Replaced(s, needle)| ==> MatchAt(s, Replaced(s, needle)[k], needle)
    ensures forall k :: 0 < k < |Replaced(s, needle)| ==>
              Replaced(s, needle)[k - 1] + |needle| <= Replaced(s, needle)[k]
    ensures forall i :: MatchAt(s, i, needle) ==> Covered(Replaced(s, needle), i, |needle|)
  {
    ReplacedAreOccurrences(s, needle);
    ReplacedDoNotOverlap(s, needle);
    ReplacedCoverAll(s, needle);
  }

  lemma {:induction false} ReplacedAreOccurrences(s: string, needle: string)
    requires |needle| > 0
    ensures forall k :: 0 <= k < |Replaced(s, needle)| ==> MatchAt(s, Replaced(s, needle)[k], needle)
    decreases |s|
  {
    var n := |needle|;
    var ms := Replaced(s, needle);
    if s == [] {
    } else if StartsWith(s, needle) {
      var rest := Replaced(s[n..], needle);
      ReplacedAreOccurrences(s[n..], needle);
      assert ms == [0] + Shift(rest, n);
      forall k | 0 <= k < |ms| ensures MatchAt(s, ms[k], needle) {
        if k == 0 {
          MatchAtStart(s, needle);
        } else {
          MatchAtDrop(s, n, rest[k - 1], needle);
        }
      }
    } else {
      var rest := Replaced(s[1..], needle);
      ReplacedAreOccurrences(s[1..], needle);
      assert ms == Shift(rest, 1);
      forall k | 0 <= k < |ms| ensures MatchAt(s, ms[k], needle) {
        MatchAtDrop(s, 1, rest[k], needle);
      }
    }
  }

  lemma {:induction false} ReplacedDoNotOverlap(s: string, needle: string)
    requires |needle| > 0
    ensures forall k :: 0 < k < |Replaced(s, needle)| ==>
              Replaced(s, needle)[k - 1] + |needle| <= Replaced(s, needle)[k]
    decreases |s|
  {
    var n := |needle|;
    var ms := Replaced(s, needle);
    if s == [] {
    } else if StartsWith(s, needle) {
      var rest := Replaced(s[n..], needle);
      ReplacedDoNotOverlap(s[n..], needle);
      assert ms == [0] + Shift(rest, n);
      forall k | 0 < k < |ms| ensures ms[k - 1] + n <= ms[k] {
        if k > 1 {
          assert rest[k - 2] + n <= rest[k - 1];
        }
      }
    } else {
      var rest := Replaced(s[1..], needle);
      ReplacedDoNotOverlap(s[1..], needle);
      assert ms == Shift(rest, 1);
      forall k | 0 < k < |ms| ensures ms[k - 1] + n <= ms[k] {
        assert rest[k - 1] + n <= rest[k];
      }
    }
  }

  lemma {:induction false} ReplacedCoverAll(s: string, needle: string)
    requires |needle| > 0
    ensures forall i :: MatchAt(s, i, needle) ==> Covered(Replaced(s, needle), i, |needle|)
    decreases |s|
  {
    var n := |needle|;
    var ms := Replaced(s, needle);
    if s == [] {
    } else if StartsWith(s, needle) {
      var rest := Replaced(s[n..], needle);
      ReplacedCoverAll(s[n..], needle);
      assert ms == [0] + Shift(rest, n);
      forall i: nat | MatchAt(s, i, needle) ensures Covered(ms, i, n) {
        if i < n {
          assert ms[0] <= i < ms[0] + n;
        } else {
          MatchAtDrop(s, n, i - n, needle);
          assert Covered(rest, i - n, n);
          var k :| 0 <= k < |rest| && rest[k] <= i - n < rest[k] + n;
          assert ms[k + 1] <= i < ms[k + 1] + n;
        }
      }
    } else {
      var rest := Replaced(s[1..], needle);
      ReplacedCoverAll(s[1..], needle);
      assert ms == Shift(rest, 1);
      forall i: nat | MatchAt(s, i, needle) ensures Covered(ms, i, n) {
        MatchAtStart(s, needle);
        assert i >= 1;
        MatchAtDrop(s, 1, i - 1, needle);
        assert Covered(rest, i - 1, n);
        var k :| 0 <= k < |rest| && rest[k] <= i - 1 < rest[k] + n;
        assert ms[k] <= i < ms[k] + n;
      }
    }
  }

  /** The result is the input, grown or shrunk by the length difference once per replaced occurrence. */
  lemma {:induction false} GSubLength(s: string, needle: string, sub: string)
    requires |needle| > 0
    ensures |GSub(s, needle, sub)| == |s| + |Replaced(s, needle)| * (|sub| - |needle|)
    decreases |s|
  {
    var d := |sub| - |needle|;
    if s == [] {
    } else if StartsWith(s, needle) {
      var t := s[|needle|..];
      GSubLength(t, needle, sub);
      var c := |Replaced(t, needle)|;
      assert |GSub(s, needle, sub)| == |sub| + |GSub(t, needle, sub)|;
      assert |Replaced(s, needle)| == c + 1;
      MulSucc(c, d);
    } else {
      GSubLength(s[1..], needle, sub);
      assert |GSub(s, needle, sub)| == 1 + |GSub(s[1..], needle, sub)|;
    }
  }

  lemma MulSucc(c: int, d: int)
    ensures (c + 1) * d == c * d + d
  {
  }

  /** Text with no occurrence of the needle comes through unchanged, and nothing is replaced. */
  lemma {:induction false} GSubNoOccurrence(s: string, needle: string, sub: string)
    requires |needle| > 0
    requires forall i :: !MatchAt(s, i, needle)
    ensures GSub(s, needle, sub) == s && Replaced(s, needle) == []
    decreases |s|
  {
    if s != [] {
      MatchAtStart(s, needle);
      forall i ensures !MatchAt(s[1..], i, needle) {
        MatchAtDrop(s, 1, i, needle);
      }
      GSubNoOccurrence(s[1..], needle, sub);
    }
  }

  /** Nothing is replaced exactly when the needle does not occur at all. */
  lemma NoReplacementIffNoOccurrence(s: string, needle: string)
    requires |needle| > 0
    ensures Replaced(s, needle) == [] <==> forall i :: !MatchAt(s, i, needle)
  {
    ReplacedAreLeftmostOccurrences(s, needle);
    if forall i :: !MatchAt(s, i, needle) {
      GSubNoOccurrence(s, needle, needle);
    } else {
      var i :| MatchAt(s, i, needle);
      assert Covered(Replaced(s, needle), i, |needle|);
    }
  }

  /** The text before the first occurrence is copied unchanged. */
  lemma {:induction false} GSubSkip(s: string, needle: string, sub: string, k: nat)
    requires |needle| > 0 && k <= |s|
    requires forall i :: 0 <= i < k ==> !MatchAt(s, i, needle)
    ensures GSub(s, needle, sub) == s[..k] + GSub(s[k..], needle, sub)
    decreases k
  {
    if k > 0 {
      MatchAtStart(s, needle);
      forall i | 0 <= i < k - 1 ensures !MatchAt(s[1..], i, needle) {
        MatchAtDrop(s, 1, i, needle);
      }
      GSubSkip(s[1..], needle, sub, k - 1);
      assert s[1..][k - 1..] == s[k..];
      assert s[..k] == [s[0]] + s[1..][..k - 1];
    }
  }

  /**
   * The first occurrence `strstr` finds is replaced, the text before it is
   * kept, and scanning resumes just past it: the inserted text is not
   * scanned again (smallsh.c:453-468).
   */
  lemma GSubFirstOccurrence(s: string, needle: string, sub: string, i: nat)
    requires |needle| > 0
    requires StrStr(s, needle, 0) == Some(i)
    ensures GSub(s, needle, sub) == s[..i] + sub + GSub(s[i + |needle|..], needle, sub)
    ensures |Replaced(s, needle)| > 0 && Replaced(s, needle)[0] == i
  {
    GSubSkip(s, needle, sub, i);
    var t := s[i..];
    MatchAtDrop(s, i, 0, needle);
    MatchAtStart(t, needle);
    assert t[|needle|..] == s[i + |needle|..];
    FirstReplaced(s, needle, i);
  }

  /** The first replaced occurrence is the first occurrence. */
  lemma FirstReplaced(s: string, needle: string, i: nat)
    requires |needle| > 0
    requires StrStr(s, needle, 0) == Some(i)
    ensures |Replaced(s, needle)| > 0 && Replaced(s, needle)[0] == i
  {
    var ms := Replaced(s, needle);
    var n := |needle|;
    assert Covered(ms, i, n) by { ReplacedAreLeftmostOccurrences(s, needle); }
    var k :| 0 <= k < |ms| && ms[k] <= i < ms[k] + n;
    assert ms[0] <= ms[k] by {
      ReplacedAreLeftmostOccurrences(s, needle);
      ReplacedIncreasing(ms, n, k);
    }
    assert MatchAt(s, ms[0], needle) by { ReplacedAreLeftmostOccurrences(s, needle); }
  }

  lemma ReplacedIncreasing(ms: seq<nat>, n: nat, k: nat)
    requires k < |ms|
    requires forall j :: 0 < j < |ms| ==> ms[j - 1] + n <= ms[j]
    ensures ms[0] <= ms[k]
  {
    var j := 0;
    while j < k
      invariant j <= k && ms[0] <= ms[j]
    {
      assert ms[j] + n <= ms[j + 1];
      j := j + 1;
    }
  }

  /** Where the text after the last replaced occurrence starts (0 when nothing is replaced). */
  function TailStart(s: string, needle: string): nat
    requires |needle| > 0
  {
    var ms := Replaced(s, needle);
    if ms == [] then 0 else ms[|ms| - 1] + |needle|
  }

  /** The text after the last replaced occurrence is copied unchanged. */
  lemma {:induction false} GSubKeepsTail(s: string, needle: string, sub: string)
    requires |needle| > 0
    ensures TailStart(s, needle) <= |s|
    ensures IsSuffix(s[TailStart(s, needle)..], GSub(s, needle, sub))
    decreases |s|
  {
    if s == [] {
    } else if StartsWith(s, needle) {
      GSubKeepsTail(s[|needle|..], needle, sub);
      KeepsTailStep(s, needle, sub, |needle|);
    } else if Replaced(s[1..], needle) == [] {
      assert Replaced(s, needle) == [];
      NoReplacementIffNoOccurrence(s, needle);
      GSubNoOccurrence(s, needle, sub);
    } else {
      GSubKeepsTail(s[1..], needle, sub);
      KeepsTailStep(s, needle, sub, 1);
    }
  }

  /** The inductive step of `GSubKeepsTail`: the tail kept for `s[d..]` is the tail kept for `s`. */
  lemma KeepsTailStep(s: string, needle: string, sub: string, d: nat)
    requires |needle| > 0 && s != []
    requires d == (if StartsWith(s, needle) then |needle| else 1)
    requires !StartsWith(s, needle) ==> Replaced(s[1..], needle) != []
    requires d <= |s| && TailStart(s[d..], needle) <= |s| - d
    requires IsSuffix(s[d..][TailStart(s[d..], needle)..], GSub(s[d..], needle, sub))
    ensures TailStart(s, needle) <= |s|
    ensures IsSuffix(s[TailStart(s, needle)..], GSub(s, needle, sub))
  {
    var t := s[d..];
    TailStartShift(s, needle, d);
    assert t[TailStart(t, needle)..] == s[TailStart(s, needle)..];
    var head := if StartsWith(s, needle) then sub else [s[0]];
    assert GSub(s, needle, sub) == head + GSub(t, needle, sub);
    SuffixPrepend(t[TailStart(t, needle)..], GSub(t, needle, sub), head);
  }

  /** Past the first step of the scan, the tail starts `d` characters further into `s`. */
  lemma TailStartShift(s: string, needle: string, d: nat)
    requires |needle| > 0 && s != []
    requires d == (if StartsWith(s, needle) then |needle| else 1)
    requires !StartsWith(s, needle) ==> Replaced(s[1..], needle) != []
    ensures d <= |s| && TailStart(s, needle) == TailStart(s[d..], needle) + d
  {
    var rest := Replaced(s[d..], needle);
    if StartsWith(s, needle) {
      assert Replaced(s, needle) == [0] + Shift(rest, d);
    } else {
      assert Replaced(s, needle) == Shift(rest, d);
    }
  }

  /** No occurrence of the needle starts after the last replaced one. */
  lemma NoOccurrenceAfterTail(s: string, needle: string, i: nat)
    requires |needle| > 0 && TailStart(s, needle) <= i
    ensures !MatchAt(s, i, needle)
  {
    var ms := Replaced(s, needle);
    var n := |needle|;
    forall k | 0 <= k < |ms| ensures !(ms[k] <= i < ms[k] + n) {
      ReplacedDoNotOverlap(s, needle);
      ReplacedBelowLast(ms, n, k);
    }
    assert !Covered(ms, i, n);
    ReplacedCoverAll(s, needle);
  }

  lemma ReplacedBelowLast(ms: seq<nat>, n: nat, k: nat)
    requires k < |ms|
    requires forall j :: 0 < j < |ms| ==> ms[j - 1] + n <= ms[j]
    ensures ms[k] + n <= ms[|ms| - 1] || k == |ms| - 1
  {
    var j := k;
    while j < |ms| - 1
      invariant k <= j < |ms|
      invariant j == k || ms[k] + n <= ms[j]
    {
      assert ms[j] + n <= ms[j + 1];
      j := j + 1;
    }
  }

  lemma SuffixPrepend(x: string, y: string, p: string)
    requires IsSuffix(x, y)
    ensures IsSuffix(x, p + y)
  {
    assert (p + y)[|p + y| - |x|..] == y[|y| - |x|..];
  }

  /** A needle-free first character is copied, whatever follows. */
  lemma GSubCons(c: char, s: string, needle: string, sub: string)
    requires |needle| > 0 && c != needle[0]
    ensures GSub([c] + s, needle, sub) == [c] + GSub(s, needle, sub)
  {
    assert ([c] + s)[1..] == s;
  }

  /** A leading occurrence is replaced and scanning resumes after it. */
  lemma GSubLeading(s: string, needle: string, sub: string)
    requires |needle| > 0
    ensures GSub(needle + s, needle, sub) == sub + GSub(s, needle, sub)
  {
    assert (needle + s)[..|needle|] == needle;
    assert (needle + s)[|needle|..] == s;
  }
}
