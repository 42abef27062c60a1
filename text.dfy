/**
 * The few string operations the outcome layer relies on, as Python defines
 * them on `str`: `strip()` with no argument, `upper()` and the substring
 * test `needle in haystack`.
 */
module Text {

  /** Python's `str.isspace()` for one character: the characters `strip()` removes. */
  predicate IsSpace(c: char)
  {
    ('\t' <= c <= '\r') || ('\U{1c}' <= c <= ' ')
    || c == '\U{85}' || c == '\U{a0}' || c == '\U{1680}'
    || ('\U{2000}' <= c <= '\U{200a}') || c == '\U{2028}' || c == '\U{2029}'
    || c == '\U{202f}' || c == '\U{205f}' || c == '\U{3000}'
  }

  predicate AllSpace(s: string)
  {
    forall k :: 0 <= k < |s| ==> IsSpace(s[k])
  }

  /** `s` neither starts nor ends with whitespace. */
  predicate Trimmed(s: string)
  {
    s == [] || (!IsSpace(s[0]) && !IsSpace(s[|s| - 1]))
  }

  /** The first index at or after `i` that is not whitespace, or `|s|`. */
  function SkipSpaceForward(s: string, i: nat): (r: nat)
    requires i <= |s|
    ensures i <= r <= |s|
    ensures forall k :: i <= k < r ==> IsSpace(s[k])
    ensures r == |s| || !IsSpace(s[r])
    decreases |s| - i
  {
    if i < |s| && IsSpace(s[i]) then SkipSpaceForward(s, i + 1) else i
  }

  /** The end of `s[lo..j]` once its trailing whitespace is dropped. */
  function SkipSpaceBackward(s: string, lo: nat, j: nat): (r: nat)
    requires lo <= j <= |s|
    ensures lo <= r <= j
    ensures forall k :: r <= k < j ==> IsSpace(s[k])
    ensures r == lo || !IsSpace(s[r - 1])
    decreases j - lo
  {
    if lo < j && IsSpace(s[j - 1]) then SkipSpaceBackward(s, lo, j - 1) else j
  }

  /**
   * Python's `s.strip()`: the text between the leading and the trailing
   * whitespace, found by walking in from both ends.
   */
  function Strip(s: string): (r: string)
    ensures Trimmed(r)
    ensures |r| <= |s|
  {
    var i := SkipSpaceForward(s, 0);
    s[i..SkipSpaceBackward(s, i, |s|)]
  }

  /** The forward scan stops at the first non-whitespace index and nowhere else. */
  lemma SkipSpaceForwardStopsAt(s: string, i: nat, n: nat)
    requires i <= n <= |s|
    requires forall k :: i <= k < n ==> IsSpace(s[k])
    requires n == |s| || !IsSpace(s[n])
    ensures SkipSpaceForward(s, i) == n
  {
  }

  /** The backward scan stops just after the last non-whitespace index and nowhere else. */
  lemma SkipSpaceBackwardStopsAt(s: string, lo: nat, j: nat, n: nat)
    requires lo <= n <= j <= |s|
    requires forall k :: n <= k < j ==> IsSpace(s[k])
    requires n == lo || !IsSpace(s[n - 1])
    ensures SkipSpaceBackward(s, lo, j) == n
  {
  }

  /**
   * `Strip` is the one decomposition of its argument into whitespace, a
   * trimmed core and whitespace: whatever surrounds a trimmed core, only the
   * core is left.
   */
  lemma StripPadded(a: string, m: string, b: string)
    requires AllSpace(a) && AllSpace(b) && Trimmed(m)
    ensures Strip(a + m + b) == m
  {
    var s := a + m + b;
    if m == [] {
      assert forall k :: 0 <= k < |s| ==> IsSpace(s[k]) by {
        assert forall k :: 0 <= k < |s| ==> s[k] == if k < |a| then a[k] else b[k - |a|];
      }
      SkipSpaceForwardStopsAt(s, 0, |s|);
      assert Strip(s) == s[|s|..|s|];
    } else {
      assert forall k :: 0 <= k < |a| ==> s[k] == a[k];
      assert forall k :: 0 <= k < |m| ==> s[|a| + k] == m[k];
      assert forall k :: 0 <= k < |b| ==> s[|a| + |m| + k] == b[k];
      SkipSpaceForwardStopsAt(s, 0, |a|);
      SkipSpaceBackwardStopsAt(s, |a|, |s|, |a| + |m|);
      assert s[|a|..|a| + |m|] == m;
    }
  }

  /** Every string is whitespace, its stripped core, and whitespace. */
  lemma StripSplits(s: string) returns (lead: string, tail: string)
    ensures AllSpace(lead) && AllSpace(tail)
    ensures s == lead + Strip(s) + tail
  {
    var i := SkipSpaceForward(s, 0);
    var j := SkipSpaceBackward(s, i, |s|);
    lead, tail := s[..i], s[j..];
    assert s == s[..i] + s[i..j] + s[j..];
  }

  /** Whitespace added around a string never changes what `strip()` returns. */
  lemma StripIgnoresPadding(a: string, s: string, b: string)
    requires AllSpace(a) && AllSpace(b)
    ensures Strip(a + s + b) == Strip(s)
  {
    var core := Strip(s);
    var lead, tail := StripSplits(s);
    SpaceConcat(a, lead);
    SpaceConcat(tail, b);
    assert a + s + b == (a + lead) + core + (tail + b) by {
      assert s == lead + core + tail;
      Regroup(a, lead, core, tail, b);
    }
    StripPadded(a + lead, core, tail + b);
  }

  lemma Regroup(p: string, q: string, r: string, s: string, t: string)
    ensures p + (q + r + s) + t == (p + q) + r + (s + t)
  {
  }

  lemma SpaceConcat(a: string, b: string)
    requires AllSpace(a) && AllSpace(b)
    ensures AllSpace(a + b)
  {
  }

  /** `strip()` is idempotent. */
  lemma StripIdempotent(s: string)
    ensures Strip(Strip(s)) == Strip(s)
  {
  }

  /** Python's `str.upper()` on one character, for ASCII letters. */
  function UpperChar(c: char): char
  {
    if 'a' <= c <= 'z' then (c as int - 32) as char else c
  }

  /** Python's `str.lower()` on one character, for ASCII letters. */
  function LowerChar(c: char): char
  {
    if 'A' <= c <= 'Z' then (c as int + 32) as char else c
  }

  /** Python's `s.upper()`, folding ASCII letters only. */
  function Upper(s: string): (r: string)
    ensures |r| == |s|
    ensures forall k :: 0 <= k < |s| ==> r[k] == UpperChar(s[k])
  {
    seq(|s|, k requires 0 <= k < |s| => UpperChar(s[k]))
  }

  /** Python's `s.lower()`, folding ASCII letters only. */
  function Lower(s: string): (r: string)
    ensures |r| == |s|
    ensures forall k :: 0 <= k < |s| ==> r[k] == LowerChar(s[k])
  {
    seq(|s|, k requires 0 <= k < |s| => LowerChar(s[k]))
  }

  /** `needle` occurs in `haystack` starting at index `i`. */
  predicate OccursAt(haystack: string, needle: string, i: int)
  {
    0 <= i && i + |needle| <= |haystack| && haystack[i..i + |needle|] == needle
  }

  /** Python's `needle in haystack` on strings. */
  function Contains(haystack: string, needle: string): (r: bool)
    ensures r <==> exists i :: OccursAt(haystack, needle, i)
  {
    if |haystack| < |needle| then false
    else if haystack[..|needle|] == needle then
      assert OccursAt(haystack, needle, 0);
      true
    else
      var rest := haystack[1..];
      assert forall i :: OccursAt(haystack, needle, i) ==> i >= 1 && OccursAt(rest, needle, i - 1);
      assert forall i :: OccursAt(rest, needle, i) ==> OccursAt(haystack, needle, i + 1);
      Contains(rest, needle)
  }

  /** Upper-casing a lower-cased string gives the upper-cased original. */
  lemma UpperOfLower(s: string)
    ensures Upper(Lower(s)) == Upper(s)
  {
  }

  /** No non-empty string occurs in the empty string. */
  lemma NothingInEmpty(needle: string)
    requires needle != []
    ensures !Contains([], needle)
  {
  }

  /** An occurrence inside an occurrence is an occurrence. */
  lemma OccursWithin(s: string, t: string, p: string, i: int, j: int)
    requires OccursAt(s, t, i) && OccursAt(t, p, j)
    ensures OccursAt(s, p, i + j)
  {
    forall k | 0 <= k < |p|
      ensures s[i + j + k] == p[k]
    {
      assert s[i..i + |t|][j + k] == t[j + k];
      assert t[j..j + |p|][k] == p[k];
    }
    assert s[i + j..i + j + |p|] == p;
  }

  /** An upper-case needle found in `s` is still found once `s` is upper-cased. */
  lemma UpperKeepsUpperNeedle(s: string, needle: string)
    requires Upper(needle) == needle
    requires Contains(s, needle)
    ensures Contains(Upper(s), needle)
  {
    var i :| OccursAt(s, needle, i);
    assert Upper(s)[i..i + |needle|] == Upper(needle);
    assert OccursAt(Upper(s), needle, i);
  }
}
