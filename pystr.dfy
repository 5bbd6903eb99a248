/** The few Python `str` operations the backend relies on, with Python's
    semantics: `str.isspace`, `str.strip()` (no argument), `str.startswith`
    and slicing `s[start:stop]` with step 1 and possibly negative bounds. */
module PyStr {

  /** Python's `str.isspace` for one character: the characters that
      `str.strip()` removes when called without an argument. */
  predicate IsSpace(c: char)
  {
    || ('\t' <= c <= '\r')            // tab, line feed, vertical tab, form feed, carriage return
    || ('\U{1C}' <= c <= ' ')         // the four information separators and the space
    || c == '\U{85}' || c == '\U{A0}' || c == '\U{1680}'
    || ('\U{2000}' <= c <= '\U{200A}')
    || c == '\U{2028}' || c == '\U{2029}' || c == '\U{202F}' || c == '\U{205F}' || c == '\U{3000}'
  }

  /** The fence character, letters, digits and the brackets and quotes of
      JSON are never whitespace, so `strip` never eats into a fence or into
      the JSON it encloses. */
  lemma FenceAndJsonCharsNotSpace(c: char)
    ensures c == '`' || c == '{' || c == '}' || c == '[' || c == ']' || c == '"' ==> !IsSpace(c)
    ensures ('a' <= c <= 'z') || ('A' <= c <= 'Z') || ('0' <= c <= '9') ==> !IsSpace(c)
  {
  }

  predicate AllSpace(s: string)
  {
    forall i :: 0 <= i < |s| ==> IsSpace(s[i])
  }

  /** Neither the first nor the last character is whitespace. */
  predicate IsStripped(s: string)
  {
    s == [] || (!IsSpace(s[0]) && !IsSpace(s[|s| - 1]))
  }

  /** `s.lstrip()`: what is left after the leading whitespace. */
  function LStrip(s: string): (r: string)
    ensures |r| <= |s| && r == s[|s| - |r|..]
    ensures forall i :: 0 <= i < |s| - |r| ==> IsSpace(s[i])
    ensures r == [] || !IsSpace(r[0])
    decreases |s|
  {
    if |s| > 0 && IsSpace(s[0]) then LStrip(s[1..]) else s
  }

  /** `s.rstrip()`: what is left after the trailing whitespace. */
  function RStrip(s: string): (r: string)
    ensures |r| <= |s| && r == s[..|r|]
    ensures forall i :: |r| <= i < |s| ==> IsSpace(s[i])
    ensures r == [] || !IsSpace(r[|r| - 1])
    decreases |s|
  {
    if |s| > 0 && IsSpace(s[|s| - 1]) then RStrip(s[..|s| - 1]) else s
  }

  /** `s.strip()`. */
  function Strip(s: string): (r: string)
    ensures IsStripped(r)
    ensures |r| <= |s|
  {
    RStrip(LStrip(s))
  }

  /** Every character of `s` before `lo` and from `hi` on is whitespace. */
  ghost predicate SpaceOutside(s: string, lo: int, hi: int)
  {
    && (forall i :: 0 <= i < lo && i < |s| ==> IsSpace(s[i]))
    && (forall i :: hi <= i < |s| && 0 <= i ==> IsSpace(s[i]))
  }

  /** Reference definition of stripping: `r` is the part of `s` between a
      whitespace-only prefix and a whitespace-only suffix, and `r` itself
      neither begins nor ends with whitespace. */
  ghost predicate IsStripOf(s: string, r: string)
  {
    exists lo, hi :: 0 <= lo <= hi <= |s| && r == s[lo..hi] && SpaceOutside(s, lo, hi) && IsStripped(r)
  }

  /** Cutting a whitespace prefix off `s`, leaving `l`, and then a whitespace
      suffix off `l`, leaving `r`, keeps the slice of `s` from `|s| - |l|`. */
  lemma CutTwice(s: string, l: string, r: string, lo: int, hi: int)
    requires |l| <= |s| && l == s[|s| - |l|..] && |r| <= |l| && r == l[..|r|]
    requires lo == |s| - |l| && hi == lo + |r|
    requires forall i :: 0 <= i < lo ==> IsSpace(s[i])
    requires forall i :: |r| <= i < |l| ==> IsSpace(l[i])
    requires (l == [] || !IsSpace(l[0])) && (r == [] || !IsSpace(r[|r| - 1]))
    ensures r == s[lo..hi] && SpaceOutside(s, lo, hi)
    ensures lo < |s| ==> lo < hi && !IsSpace(s[lo]) && !IsSpace(s[hi - 1])
  {
    forall i | hi <= i < |s| ensures IsSpace(s[i]) { assert l[i - lo] == s[i]; }
    if lo < |s| {
      assert l[0] == s[lo] && r != [];
      assert r[|r| - 1] == s[hi - 1];
    }
  }

  /** Where `Strip(s)` sits inside `s`: from `lo`, the end of the leading
      whitespace, to `hi`, the start of the trailing whitespace. */
  lemma StripBounds(s: string) returns (lo: nat, hi: nat)
    ensures lo <= hi <= |s| && Strip(s) == s[lo..hi]
    ensures SpaceOutside(s, lo, hi)
    ensures lo < |s| ==> lo < hi && !IsSpace(s[lo]) && !IsSpace(s[hi - 1])
  {
    var l := LStrip(s);
    var r := RStrip(l);
    assert Strip(s) == r;
    lo := |s| - |l|;
    hi := lo + |r|;
    CutTwice(s, l, r, lo, hi);
  }

  /** Two ways of cutting whitespace off the ends of `s` that both leave a
      non-whitespace character at each end cut at the same places. */
  lemma CutsAgree(s: string, lo: int, hi: int, lo': int, hi': int)
    requires 0 <= lo <= hi <= |s| && SpaceOutside(s, lo, hi)
    requires lo < |s| ==> lo < hi && !IsSpace(s[lo]) && !IsSpace(s[hi - 1])
    requires 0 <= lo' < hi' <= |s| && SpaceOutside(s, lo', hi')
    requires !IsSpace(s[lo']) && !IsSpace(s[hi' - 1])
    ensures lo == lo' && hi == hi'
  {
  }

  /** `Strip(s)` is stripped out of `s` in the sense of `IsStripOf`. */
  lemma StripIsStripOf(s: string)
    ensures IsStripOf(s, Strip(s))
  {
    var lo, hi := StripBounds(s);
  }

  /** A stripped, non-empty slice has non-whitespace characters at both ends. */
  lemma StrippedSliceEnds(s: string, lo: int, hi: int)
    requires 0 <= lo < hi <= |s| && IsStripped(s[lo..hi])
    ensures !IsSpace(s[lo]) && !IsSpace(s[hi - 1])
  {
    assert s[lo..hi][0] == s[lo];
    assert s[lo..hi][hi - lo - 1] == s[hi - 1];
  }

  /** A string made of whitespace only strips to the empty string. */
  lemma StripAllSpace(s: string, k: int)
    requires SpaceOutside(s, k, k)
    ensures Strip(s) == []
  {
    var lo, hi := StripBounds(s);
  }

  /** Nothing but `Strip(s)` is stripped out of `s`. */
  lemma StripOfUnique(s: string, r: string)
    requires IsStripOf(s, r)
    ensures r == Strip(s)
  {
    var lo', hi' :| 0 <= lo' <= hi' <= |s| && r == s[lo'..hi'] && SpaceOutside(s, lo', hi') && IsStripped(r);
    if lo' == hi' {
      StripAllSpace(s, lo');
    } else {
      StrippedSliceEnds(s, lo', hi');
      var lo, hi := StripBounds(s);
      CutsAgree(s, lo, hi, lo', hi');
    }
  }

  /** `Strip(s)` is the one and only string that `IsStripOf` relates to `s`. */
  lemma StripCharacterization(s: string, r: string)
    ensures IsStripOf(s, r) <==> r == Strip(s)
  {
    StripIsStripOf(s);
    if IsStripOf(s, r) { StripOfUnique(s, r); }
  }

  /** A string without surrounding whitespace is its own strip, and only such a string. */
  lemma StripFixpoint(s: string)
    ensures Strip(s) == s <==> IsStripped(s)
  {
    if IsStripped(s) {
      assert IsStripOf(s, s) by { assert s == s[0..|s|]; }
      StripCharacterization(s, s);
    }
  }

  /** Stripping twice is stripping once. */
  lemma StripIdempotent(s: string)
    ensures Strip(Strip(s)) == Strip(s)
  {
    StripFixpoint(Strip(s));
  }

  /** Whitespace added around a stripped string is exactly what strip removes. */
  lemma StripPadded(w1: string, x: string, w2: string)
    requires AllSpace(w1) && AllSpace(w2) && IsStripped(x)
    ensures Strip(w1 + x + w2) == x
  {
    var s := w1 + x + w2;
    var lo, hi := |w1|, |w1| + |x|;
    assert s[lo..hi] == x;
    forall i | 0 <= i < lo ensures IsSpace(s[i]) { assert s[i] == w1[i]; }
    forall i | hi <= i < |s| ensures IsSpace(s[i]) { assert s[i] == w2[i - hi]; }
    assert IsStripOf(s, x);
    StripCharacterization(s, x);
  }

  /** `x` occurs in `s` as one contiguous piece. */
  ghost predicate IsInfix(x: string, s: string)
  {
    exists lo, hi :: 0 <= lo <= hi <= |s| && x == s[lo..hi]
  }

  lemma InfixTransitive(x: string, y: string, z: string)
    requires IsInfix(x, y) && IsInfix(y, z)
    ensures IsInfix(x, z)
  {
    var a, b :| 0 <= a <= b <= |y| && x == y[a..b];
    var c, d :| 0 <= c <= d <= |z| && y == z[c..d];
    SliceOfSlice(z, c, d, a, b);
  }

  /** A slice of a slice is a slice of the original. */
  lemma SliceOfSlice(z: string, c: int, d: int, a: int, b: int)
    requires 0 <= c <= d <= |z| && 0 <= a <= b <= d - c
    ensures z[c..d][a..b] == z[c + a..c + b]
  {
    forall i | 0 <= i < b - a ensures z[c..d][a..b][i] == z[c + a + i] {
      assert z[c..d][a + i] == z[c + a + i];
    }
  }

  /** Stripping only removes characters; it never adds or reorders any. */
  lemma StripIsInfix(s: string)
    ensures IsInfix(Strip(s), s)
  {
    var lo, hi := StripBounds(s);
  }

  /** Concatenation regrouped around its middle pieces. */
  lemma ConcatRegroup(a: string, b: string, c: string, d: string, e: string)
    ensures a + b + c + d + e == a + (b + c + d) + e
  {
  }

  /** `s.startswith(p)`. */
  predicate StartsWith(s: string, p: string)
  {
    |p| <= |s| && s[..|p|] == p
  }

  /** `startswith` compares the text with the prefix character by character. */
  lemma StartsWithCharwise(s: string, p: string)
    ensures StartsWith(s, p) <==> |p| <= |s| && forall i :: 0 <= i < |p| ==> s[i] == p[i]
  {
    if |p| <= |s| && forall i :: 0 <= i < |p| ==> s[i] == p[i] {
      assert s[..|p|] == p;
    }
  }

  /** A Python slice bound resolved against a length `n`: a negative bound
      counts from the end, and the result is clamped to `0..n`. */
  function PyIndex(n: nat, i: int): (k: nat)
    ensures k <= n
    ensures 0 <= i <= n ==> k == i
    ensures i < 0 <= n + i ==> k == n + i
    ensures n + i < 0 ==> k == 0
    ensures n < i ==> k == n
  {
    if i < 0 then (if n + i < 0 then 0 else n + i)
    else if i > n then n
    else i
  }

  /** `s[start:stop]`: empty when the resolved bounds cross. */
  function PySlice(s: string, start: int, stop: int): (r: string)
    ensures |r| <= |s|
    ensures var lo, hi := PyIndex(|s|, start), PyIndex(|s|, stop);
      && |r| == (if lo < hi then hi - lo else 0)
      && forall i :: 0 <= i < |r| ==> r[i] == s[lo + i]
  {
    var lo := PyIndex(|s|, start);
    var hi := PyIndex(|s|, stop);
    if lo < hi then s[lo..hi] else []
  }

  /** A slice is a contiguous piece of the sliced string. */
  lemma PySliceIsInfix(s: string, start: int, stop: int)
    ensures IsInfix(PySlice(s, start, stop), s)
  {
    var lo := PyIndex(|s|, start);
    if lo >= PyIndex(|s|, stop) { assert PySlice(s, start, stop) == s[lo..lo]; }
  }

  /** `s[a:-b]` for a non-negative `a` and a positive `b` drops `a` characters
      at the front and `b` at the back, and is empty when fewer than
      `a + b + 1` characters are there. */
  lemma PySliceDropEnds(s: string, a: int, b: int)
    requires 0 <= a && 0 < b
    ensures PySlice(s, a, -b) == if a + b < |s| then s[a..|s| - b] else []
  {
  }
}
