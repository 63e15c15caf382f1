/**
 * `str_gsub` as the C code runs it (smallsh.c:447-479): the text lives in a
 * NUL-terminated character buffer that is searched with `strstr`, grown with
 * `realloc`, shifted with `memmove` and patched with `memcpy` in place. The
 * method is proved to compute `Gsub.GSub`.
 */
module GsubBuffer {
  import opened Wrappers
  import opened Text
  import opened Gsub

  /** A buffer holding a C string: some NUL ends the text. */
  predicate HoldsCString(a: seq<char>) {
    '\0' in a
  }

  /** The C string a buffer holds. */
  function CStr(a: seq<char>): string
    requires HoldsCString(a)
  {
    a[..CLen(a)]
  }

  predicate NoNul(s: string) {
    forall i :: 0 <= i < |s| ==> s[i] != '\0'
  }

  /** A NUL at `n` with none before it is where `strlen` stops. */
  lemma {:induction false} CLenAt(a: seq<char>, n: nat)
    requires n < |a| && a[n] == '\0' && NoNul(a[..n])
    ensures HoldsCString(a) && CLen(a) == n
    decreases n
  {
    assert a[n] in a;
    if n > 0 {
      assert a[..n][0] == a[0];
      assert a[1..][..n - 1] == a[..n][1..];
      CLenAt(a[1..], n - 1);
    }
  }

  /** `realloc(a, size)`, modelled as a move to a new block that keeps the first `size` characters. */
  method Realloc(a: array<char>, size: nat) returns (b: array<char>)
    ensures fresh(b) && b.Length == size
    ensures forall k :: 0 <= k <= size && k <= a.Length ==> b[..k] == a[..k]
  {
    b := new char[size];
    forall i | 0 <= i < size && i < a.Length {
      b[i] := a[i];
    }
  }

  /** `realloc` of a block holding a C string of length `len` to a size that still fits it and its NUL. */
  method Resize(a: array<char>, len: nat, size: nat) returns (b: array<char>)
    requires len < a.Length && a[len] == '\0' && len < size
    ensures fresh(b) && b.Length == size
    ensures b[..len] == a[..len] && b[len] == '\0'
  {
    b := Realloc(a, size);
    assert b[..len + 1] == a[..len + 1];
    assert b[..len] == a[..len] by {
      assert b[..len + 1][..len] == a[..len + 1][..len];
    }
    assert b[len] == '\0' by {
      assert b[..len + 1][len] == a[..len + 1][len];
    }
  }

  /** The contents after `memmove(s + dst, s + src, count)`. */
  function Moved(s: seq<char>, dst: nat, src: nat, count: nat): seq<char>
    requires dst + count <= |s| && src + count <= |s|
  {
    s[..dst] + s[src..src + count] + s[dst + count..]
  }

  /** `memmove(a + dst, a + src, count)`: overlapping ranges behave as if copied through a temporary. */
  method Memmove(a: array<char>, dst: nat, src: nat, count: nat)
    requires dst + count <= a.Length && src + count <= a.Length
    modifies a
    ensures a[..] == Moved(old(a[..]), dst, src, count)
  {
    forall i | dst <= i < dst + count {
      a[i] := a[i - dst + src];
    }
  }

  /** `memcpy(a + dst, sub, |sub|)`. */
  method Memcpy(a: array<char>, dst: nat, sub: string)
    requires dst + |sub| <= a.Length
    modifies a
    ensures a[..] == old(a[..])[..dst] + sub + old(a[..])[dst + |sub|..]
  {
    forall i | dst <= i < dst + |sub| {
      a[i] := sub[i - dst];
    }
  }

  /** The text after one round, split where scanning resumes. */
  lemma SplicedText(text: string, off: nat, sub: string, n: nat)
    requires off + n <= |text|
    ensures var newText := text[..off] + sub + text[off + n..];
            |newText| == |text| + |sub| - n &&
            newText[..off + |sub|] == text[..off] + sub &&
            newText[off + |sub|..] == text[off + n..] &&
            (NoNul(text) && NoNul(sub) ==> NoNul(newText))
  {
    var newText := text[..off] + sub + text[off + n..];
    if NoNul(text) && NoNul(sub) {
      forall i | 0 <= i < |newText| ensures newText[i] != '\0' {
        if i < off {
          assert newText[i] == text[i];
        } else if i < off + |sub| {
          assert newText[i] == sub[i - off];
        } else {
          assert newText[i] == text[i - |sub| + n];
        }
      }
    }
  }

  /**
   * The buffer after one round: the text before the occurrence, then `sub`,
   * then the text after the occurrence, then the NUL that `memmove` carried along.
   */
  lemma SpliceStep(before: seq<char>, moved: seq<char>, after: seq<char>,
                   text: string, off: nat, sub: string, n: nat)
    requires |text| < |before| && before[..|text|] == text && before[|text|] == '\0'
    requires off + n <= |text| && |text| + |sub| - n + 1 <= |before|
    requires moved == Moved(before, off + |sub|, off + n, |text| + 1 - off - n)
    requires after == moved[..off] + sub + moved[off + |sub|..]
    ensures |text| + |sub| - n < |after|
    ensures after[..|text| + |sub| - n] == text[..off] + sub + text[off + n..]
    ensures after[|text| + |sub| - n] == '\0'
  {
    var len := |text|;
    var tail := before[off + n..len + 1];
    assert tail == text[off + n..] + ['\0'];
    assert moved == before[..off + |sub|] + tail + before[len + |sub| - n + 1..];
    assert moved[..off] == text[..off];
    assert moved[off + |sub|..] == tail + before[len + |sub| - n + 1..];
    assert after == text[..off] + sub + tail + before[len + |sub| - n + 1..];
  }

  /** One round of the loop: replacing the occurrence `strstr` found keeps the overall result. */
  lemma ScanStep(text: string, needle: string, sub: string, pos: nat, off: nat)
    requires |needle| > 0 && pos <= |text|
    requires StrStr(text, needle, pos) == Some(off)
    ensures off + |needle| <= |text|
    ensures text[..pos] + GSub(text[pos..], needle, sub)
            == text[..off] + sub + GSub(text[off + |needle|..], needle, sub)
  {
    var n := |needle|;
    var rest := GSub(text[off + n..], needle, sub);
    calc {
      text[..pos] + GSub(text[pos..], needle, sub);
      { SkipToOccurrence(text, needle, sub, pos, off); }
      text[..pos] + (text[pos..off] + GSub(text[off..], needle, sub));
      { ReplaceAtOccurrence(text, needle, sub, off); }
      text[..pos] + (text[pos..off] + (sub + rest));
      { assert text[..pos] + text[pos..off] == text[..off]; }
      text[..off] + sub + rest;
    }
  }

  /**
   * One round of the loop stated on the text alone: after the splice, the
   * text scanned so far followed by `GSub` of the rest is still the target.
   */
  lemma ScanRound(text: string, newText: string, needle: string, sub: string, pos: nat, off: nat,
                  target: string)
    requires |needle| > 0 && pos <= |text| && NoNul(text) && NoNul(sub)
    requires StrStr(text, needle, pos) == Some(off)
    requires off + |needle| <= |text| && newText == text[..off] + sub + text[off + |needle|..]
    requires text[..pos] + GSub(text[pos..], needle, sub) == target
    ensures off + |sub| <= |newText| && NoNul(newText)
    ensures newText[..off + |sub|] + GSub(newText[off + |sub|..], needle, sub) == target
  {
    ScanStep(text, needle, sub, pos, off);
    SplicedText(text, off, sub, |needle|);
  }

  lemma SkipToOccurrence(text: string, needle: string, sub: string, pos: nat, off: nat)
    requires |needle| > 0 && pos <= |text|
    requires StrStr(text, needle, pos) == Some(off)
    ensures GSub(text[pos..], needle, sub) == text[pos..off] + GSub(text[off..], needle, sub)
  {
    var t := text[pos..];
    var k := off - pos;
    forall i | 0 <= i < k ensures !MatchAt(t, i, needle) {
      MatchAtDrop(text, pos, i, needle);
    }
    GSubSkip(t, needle, sub, k);
    assert t[k..] == text[off..];
    assert t[..k] == text[pos..off];
  }

  lemma ReplaceAtOccurrence(text: string, needle: string, sub: string, off: nat)
    requires |needle| > 0 && MatchAt(text, off, needle)
    ensures GSub(text[off..], needle, sub) == sub + GSub(text[off + |needle|..], needle, sub)
  {
    MatchAtDrop(text, off, 0, needle);
    MatchAtStart(text[off..], needle);
    assert text[off..][|needle|..] == text[off + |needle|..];
  }

  /** Once `strstr` finds nothing more, the rest of the text is final. */
  lemma ScanDone(text: string, needle: string, sub: string, pos: nat)
    requires |needle| > 0 && pos <= |text|
    requires StrStr(text, needle, pos) == None
    ensures text[..pos] + GSub(text[pos..], needle, sub) == text
  {
    forall i ensures !MatchAt(text[pos..], i, needle) {
      MatchAtDrop(text, pos, i, needle);
    }
    GSubNoOccurrence(text[pos..], needle, sub);
    assert text[..pos] + text[pos..] == text;
  }

  /**
   * Replaces, in place, every occurrence of `needle` in the C string held by
   * `haystack` by `sub`, and returns the buffer that now holds the result:
   * `haystack` itself, or the block `realloc` moved it to. The text it holds
   * is exactly `GSub` of the original text.
   */
  method StrGsub(haystack: array<char>, needle: string, sub: string) returns (result: array<char>)
    requires HoldsCString(haystack[..])
    requires |needle| > 0 && NoNul(needle) && NoNul(sub)
    modifies haystack
    ensures result == haystack || fresh(result)
    ensures HoldsCString(result[..])
    ensures CStr(result[..]) == GSub(CStr(old(haystack[..])), needle, sub)
  {
    var haystackLen := CLen(haystack[..]);
    assert haystack[..haystackLen] == CStr(haystack[..]);
    var buf;
    buf, haystackLen := ReplaceAll(haystack, haystackLen, needle, sub);
    if |sub| < |needle| {
      buf := Resize(buf, haystackLen, haystackLen + 1);
    }
    CLenAt(buf[..], haystackLen);
    result := buf;
  }

  /**
   * The loop at smallsh.c:453-468: find the next occurrence from just after
   * the last inserted text, splice `sub` in, and go on until `strstr` finds
   * none. The text the buffer ends up holding is `GSub` of the text it held.
   */
  method ReplaceAll(haystack: array<char>, len: nat, needle: string, sub: string)
    returns (buf: array<char>, haystackLen: nat)
    requires len < haystack.Length && haystack[len] == '\0' && NoNul(haystack[..len])
    requires |needle| > 0 && NoNul(sub)
    modifies haystack
    ensures buf == haystack || fresh(buf)
    ensures haystackLen < buf.Length && buf[haystackLen] == '\0' && NoNul(buf[..haystackLen])
    ensures buf[..haystackLen] == GSub(old(haystack[..len]), needle, sub)
  {
    ghost var target := GSub(haystack[..len], needle, sub);
    buf := haystack;
    haystackLen := len;
    ghost var text := buf[..haystackLen];
    var pos: nat := 0;
    var found := StrStr(buf[..haystackLen], needle, pos);
    while found.Some?
      invariant buf == haystack || fresh(buf)
      invariant haystackLen < buf.Length && buf[haystackLen] == '\0'
      invariant text == buf[..haystackLen] && NoNul(text)
      invariant pos <= haystackLen
      invariant found == StrStr(text, needle, pos)
      invariant text[..pos] + GSub(text[pos..], needle, sub) == target
      decreases haystackLen - pos
    {
      buf, haystackLen, text, pos, found := ReplaceRound(buf, haystackLen, found.value, needle, sub, text, pos, target);
    }
    ScanDone(text, needle, sub, pos);
  }

  /**
   * One round of the loop: replace the occurrence `strstr` found at `off`,
   * resume just after the inserted text and look for the next one. What is
   * left to scan still completes the replace-all, and it is shorter.
   */
  method ReplaceRound(buf: array<char>, len: nat, off: nat, needle: string, sub: string,
                      ghost text: string, ghost pos: nat, ghost target: string)
    returns (newBuf: array<char>, newLen: nat, ghost newText: string, newPos: nat, found: Option<nat>)
    requires len < buf.Length && buf[len] == '\0' && text == buf[..len]
    requires |needle| > 0 && pos <= len && NoNul(text) && NoNul(sub)
    requires StrStr(text, needle, pos) == Some(off)
    requires text[..pos] + GSub(text[pos..], needle, sub) == target
    modifies buf
    ensures newBuf == buf || fresh(newBuf)
    ensures newLen < newBuf.Length && newBuf[newLen] == '\0'
    ensures newText == newBuf[..newLen] && NoNul(newText)
    ensures newPos <= newLen && newLen - newPos < len - pos
    ensures found == StrStr(newText, needle, newPos)
    ensures newText[..newPos] + GSub(newText[newPos..], needle, sub) == target
  {
    newText := text[..off] + sub + text[off + |needle|..];
    newLen := len + |sub| - |needle|;
    newBuf := ReplaceAt(buf, len, off, needle, sub);
    assert newBuf[..newLen] == newText;
    ScanRound(text, newText, needle, sub, pos, off, target);
    newPos := off + |sub|;
    found := StrStr(newBuf[..newLen], needle, newPos);
  }

  /**
   * The body of the loop at smallsh.c:455-466: make room (growing the block
   * when `sub` is longer than `needle`), then splice `sub` over the
   * occurrence at `off`.
   */
  method ReplaceAt(buf: array<char>, len: nat, off: nat, needle: string, sub: string)
    returns (newBuf: array<char>)
    requires len < buf.Length && buf[len] == '\0'
    requires off + |needle| <= len
    modifies buf
    ensures newBuf == buf || fresh(newBuf)
    ensures len + |sub| - |needle| < newBuf.Length
    ensures newBuf[..len + |sub| - |needle|] == old(buf[..len])[..off] + sub + old(buf[..len])[off + |needle|..]
    ensures newBuf[len + |sub| - |needle|] == '\0'
  {
    newBuf := buf;
    if |sub| > |needle| {
      newBuf := Resize(buf, len, len + |sub| - |needle| + 1);
    }
    SpliceInPlace(newBuf, len, off, |needle|, sub);
  }

  /**
   * `memmove` the rest of the text, with its NUL, to just after where `sub`
   * will go, then `memcpy` `sub` over the `n` characters at `off`; the block
   * is already large enough.
   */
  method SpliceInPlace(a: array<char>, len: nat, off: nat, n: nat, sub: string)
    requires len < a.Length && a[len] == '\0'
    requires off + n <= len && len + |sub| - n < a.Length
    modifies a
    ensures a[..len + |sub| - n] == old(a[..len])[..off] + sub + old(a[..len])[off + n..]
    ensures a[len + |sub| - n] == '\0'
  {
    ghost var text := a[..len];
    ghost var before := a[..];
    Memmove(a, off + |sub|, off + n, len + 1 - off - n);
    ghost var moved := a[..];
    Memcpy(a, off, sub);
    ghost var after := a[..];
    SpliceStep(before, moved, after, text, off, sub, n);
    assert a[..len + |sub| - n] == after[..len + |sub| - n];
  }
}
