/**
 * The handful of Python `str` operations that fetch_questions.py uses on the
 * model reply: `isspace` (as used by `strip()`), `strip()`, `find`,
 * `startswith` and `endswith`. Strings are sequences of Unicode code points.
 */
module Text {

  /** Python's `str.isspace` on one code point: the characters `strip()` removes. */
  predicate IsSpace(c: char) {
    var n := c as int;
    (0x09 <= n <= 0x0D) || (0x1C <= n <= 0x20) || n == 0x85 || n == 0xA0
    || n == 0x1680 || (0x2000 <= n <= 0x200A) || n == 0x2028 || n == 0x2029
    || n == 0x202F || n == 0x205F || n == 0x3000
  }

  /** Every character of `s` from index `lo` up to `hi` is whitespace. */
  predicate SpaceBetween(s: string, lo: int, hi: int) {
    forall i :: lo <= i < hi && 0 <= i < |s| ==> IsSpace(s[i])
  }

  /** Neither the first nor the last character is whitespace. */
  predicate IsTrimmed(s: string) {
    s == [] || (!IsSpace(s[0]) && !IsSpace(s[|s| - 1]))
  }

  /** `s.startswith(p)` */
  predicate StartsWith(s: string, p: string) {
    |p| <= |s| && s[..|p|] == p
  }

  /** `s.endswith(p)` */
  predicate EndsWith(s: string, p: string) {
    |p| <= |s| && s[|s| - |p|..] == p
  }

  /** `r` occurs in `s` as one contiguous run of characters. */
  ghost predicate IsSliceOf(r: string, s: string) {
    exists lo, hi :: 0 <= lo <= hi <= |s| && r == s[lo..hi]
  }

  /** `s.find(c)`: the index of the first occurrence of `c`, or -1. */
  function Find(s: string, c: char): (i: int)
    ensures -1 <= i < |s|
    ensures i == -1 <==> c !in s
    ensures 0 <= i ==> s[i] == c && c !in s[..i]
  {
    if |s| == 0 then -1
    else if s[0] == c then 0
    else
      var j := Find(s[1..], c);
      assert s[1..][..if j < 0 then 0 else j] == s[1..if j < 0 then 1 else j + 1];
      if j == -1 then -1 else j + 1
  }

  /** Number of whitespace characters at the front of `s`. */
  function LeadingSpaces(s: string): (k: nat)
    ensures k <= |s|
    ensures SpaceBetween(s, 0, k)
    ensures k == |s| || !IsSpace(s[k])
  {
    if |s| > 0 && IsSpace(s[0]) then 1 + LeadingSpaces(s[1..]) else 0
  }

  /** Number of whitespace characters at the back of `s`. */
  function TrailingSpaces(s: string): (k: nat)
    ensures k <= |s|
    ensures SpaceBetween(s, |s| - k, |s|)
    ensures k == |s| || !IsSpace(s[|s| - 1 - k])
  {
    if |s| > 0 && IsSpace(s[|s| - 1]) then 1 + TrailingSpaces(s[..|s| - 1]) else 0
  }

  /**
   * Python's `s.strip()`: `s` is split into a whitespace prefix, the result
   * and a whitespace suffix, and the result begins and ends with non-whitespace,
   * so the prefix and the suffix are the longest such.
   */
  function Strip(s: string): (r: string)
    ensures var lo := LeadingSpaces(s);
      && lo + |r| <= |s| && r == s[lo..lo + |r|]
      && SpaceBetween(s, 0, lo) && SpaceBetween(s, lo + |r|, |s|)
    ensures IsTrimmed(r)
  {
    var lo := LeadingSpaces(s);
    var t := s[lo..];
    var r := t[..|t| - TrailingSpaces(t)];
    assert r != [] ==> r[0] == s[lo];
    r
  }

  /** `strip()` returns a contiguous piece of its argument. */
  lemma StripIsSlice(s: string)
    ensures IsSliceOf(Strip(s), s)
  {
    var lo := LeadingSpaces(s);
    assert Strip(s) == s[lo..lo + |Strip(s)|];
  }

  /**
   * `strip()` is determined by its contract: any split of `s` into whitespace,
   * a trimmed middle part and whitespace has `Strip(s)` as its middle part.
   */
  lemma StripUnique(s: string, lo: nat, hi: nat)
    requires lo <= hi <= |s|
    requires SpaceBetween(s, 0, lo) && SpaceBetween(s, hi, |s|) && IsTrimmed(s[lo..hi])
    ensures Strip(s) == s[lo..hi]
  {
    var a := LeadingSpaces(s);
    var e := a + |Strip(s)|;
    if lo < hi {
      assert !IsSpace(s[lo]) by { assert s[lo..hi][0] == s[lo]; }
      assert !IsSpace(s[hi - 1]) by { assert s[lo..hi][hi - lo - 1] == s[hi - 1]; }
    }
  }

  /** Stripping a string that is already trimmed changes nothing, and only then. */
  lemma StripFixesExactlyTrimmed(s: string)
    ensures Strip(s) == s <==> IsTrimmed(s)
  {
    if IsTrimmed(s) {
      StripUnique(s, 0, |s|);
      assert s[0..|s|] == s;
    }
  }

  /** `strip()` is idempotent. */
  lemma StripIdempotent(s: string)
    ensures Strip(Strip(s)) == Strip(s)
  {
    StripFixesExactlyTrimmed(Strip(s));
  }

  /** A leading whitespace character makes no difference to `strip()`. */
  lemma StripSkipsLeadingSpace(s: string)
    requires |s| > 0 && IsSpace(s[0])
    ensures Strip(s) == Strip(s[1..])
  {
    var t := s[1..];
    var lo := LeadingSpaces(s);
    var hi := lo + |Strip(s)|;
    assert lo >= 1;
    assert t[lo - 1..hi - 1] == s[lo..hi];
    StripUnique(t, lo - 1, hi - 1);
  }

  /** A trailing whitespace character makes no difference to `strip()`. */
  lemma StripSkipsTrailingSpace(s: string)
    requires |s| > 0 && IsSpace(s[|s| - 1])
    ensures Strip(s) == Strip(s[..|s| - 1])
  {
    var t := s[..|s| - 1];
    var lo := LeadingSpaces(s);
    var hi := lo + |Strip(s)|;
    if hi == |s| {
      StripUnique(t, |t|, |t|);
    } else {
      assert t[lo..hi] == s[lo..hi];
      StripUnique(t, lo, hi);
    }
  }

  /** A slice of a slice of `s` is a slice of `s`. */
  lemma SliceOfSlice(r: string, t: string, s: string)
    requires IsSliceOf(r, t) && IsSliceOf(t, s)
    ensures IsSliceOf(r, s)
  {
    var lo1, hi1 :| 0 <= lo1 <= hi1 <= |s| && t == s[lo1..hi1];
    var lo2, hi2 :| 0 <= lo2 <= hi2 <= |t| && r == t[lo2..hi2];
    forall i | 0 <= i < |r| ensures r[i] == s[lo1 + lo2..lo1 + hi2][i] {
      assert r[i] == t[lo2 + i] == s[lo1 + lo2 + i];
    }
    assert r == s[lo1 + lo2..lo1 + hi2];
  }

  /** Every suffix and every prefix of `s` is a slice of it. */
  lemma SuffixAndPrefixAreSlices(s: string, k: nat)
    requires k <= |s|
    ensures IsSliceOf(s[k..], s) && IsSliceOf(s[..k], s)
  {
    assert s[k..] == s[k..|s|];
    assert s[..k] == s[0..k];
  }
}
