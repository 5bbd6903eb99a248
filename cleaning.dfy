/** Cleaning of the model's raw reply before it is handed to the JSON parser
    (backend/main.py, the "Response Cleaning" step of the `/debug` handler):
    strip the surrounding whitespace, then remove one Markdown code fence,
    "```json ... ```" or "``` ... ```", by slicing and strip again. */
module Cleaning {
  import opened PyStr

  const JsonFence: string := "```json"
  const Fence: string := "```"

  /** The cleaned reply text. Whatever branch is taken, it carries no
      surrounding whitespace. */
  function Clean(text: string): (r: string)
    ensures IsStripped(r)
  {
    var t := Strip(text);
    if StartsWith(t, JsonFence) then Strip(PySlice(t, 7, -3))
    else if StartsWith(t, Fence) then Strip(PySlice(t, 3, -3))
    else t
  }

  /** Every text opening with "```json" also opens with "```". */
  lemma JsonFenceOpensFence(t: string)
    ensures StartsWith(t, JsonFence) ==> StartsWith(t, Fence)
  {
    if StartsWith(t, JsonFence) { assert t[..3] == t[..7][..3]; }
  }

  /** A reply that does not open with a fence is only stripped. */
  lemma CleanUnfenced(text: string)
    requires !StartsWith(Strip(text), Fence)
    ensures Clean(text) == Strip(text)
  {
    JsonFenceOpensFence(Strip(text));
  }

  /** A reply opening with "```json" loses its first 7 and last 3 characters,
      which leaves nothing when it is 10 characters long or shorter. This
      branch is taken although such a reply also opens with "```". */
  lemma CleanJsonFenced(text: string)
    requires StartsWith(Strip(text), JsonFence)
    ensures StartsWith(Strip(text), Fence)
    ensures var t := Strip(text);
      Clean(text) == if |t| > 10 then Strip(t[7..|t| - 3]) else []
  {
    JsonFenceOpensFence(Strip(text));
    PySliceDropEnds(Strip(text), 7, 3);
  }

  /** A reply opening with "```" but not "```json" loses 3 characters at each
      end, which leaves nothing when it is 6 characters long or shorter. */
  lemma CleanPlainFenced(text: string)
    requires StartsWith(Strip(text), Fence) && !StartsWith(Strip(text), JsonFence)
    ensures var t := Strip(text);
      Clean(text) == if |t| > 6 then Strip(t[3..|t| - 3]) else []
  {
    PySliceDropEnds(Strip(text), 3, 3);
  }

  /** "```json" + s + "```" has no whitespace at its ends, opens with
      "```json", and has `s` between its fences. */
  lemma JsonFencedBlock(s: string)
    ensures var x := JsonFence + s + Fence;
      IsStripped(x) && StartsWith(x, JsonFence) && |x| == |s| + 10 && x[7..|x| - 3] == s
  {
    var x := JsonFence + s + Fence;
    assert x[0] == '`' && x[|x| - 1] == '`';
    assert x[..7] == JsonFence;
    assert x[7..|x| - 3] == s;
  }

  /** "```" + s + "```" has no whitespace at its ends, opens with "```" but,
      unless `s` starts with "json", not with "```json", and has `s` between
      its fences. */
  lemma FencedBlock(s: string)
    ensures var x := Fence + s + Fence;
      && IsStripped(x) && StartsWith(x, Fence) && |x| == |s| + 6 && x[3..|x| - 3] == s
      && (!StartsWith(s, "json") ==> !StartsWith(x, JsonFence))
  {
    var x := Fence + s + Fence;
    assert x[0] == '`' && x[|x| - 1] == '`';
    assert x[..3] == Fence;
    assert x[3..|x| - 3] == s;
    if |s| >= 4 {
      assert x[..7][3..] == s[..4];
    } else {
      assert x[3 + |s|] == '`' && JsonFence[3 + |s|] != '`';
    }
  }

  /** A fenced block, with any whitespace around it, cleans to its stripped
      content. */
  lemma CleanJsonRoundTrip(w1: string, s: string, w2: string)
    requires AllSpace(w1) && AllSpace(w2)
    ensures Clean(w1 + JsonFence + s + Fence + w2) == Strip(s)
  {
    var x := JsonFence + s + Fence;
    JsonFencedBlock(s);
    ConcatRegroup(w1, JsonFence, s, Fence, w2);
    StripPadded(w1, x, w2);
    CleanJsonFenced(w1 + x + w2);
  }

  /** The same for a bare "```" fence, provided the content does not itself
      begin with "json" (it would then read as a "```json" fence). */
  lemma CleanFenceRoundTrip(w1: string, s: string, w2: string)
    requires AllSpace(w1) && AllSpace(w2) && !StartsWith(s, "json")
    ensures Clean(w1 + Fence + s + Fence + w2) == Strip(s)
  {
    var x := Fence + s + Fence;
    FencedBlock(s);
    ConcatRegroup(w1, Fence, s, Fence, w2);
    StripPadded(w1, x, w2);
    CleanPlainFenced(w1 + x + w2);
  }

  /** "```json" + s opens with "```json", and what lies between its first 7
      and last 3 characters is `s` without its last 3. */
  lemma UnclosedJsonBlock(s: string)
    ensures var x := JsonFence + s;
      && StartsWith(x, JsonFence) && |x| == |s| + 7
      && (|x| > 10 ==> x[7..|x| - 3] == s[..|s| - 3])
      && (s != [] && !IsSpace(s[|s| - 1]) ==> IsStripped(x))
  {
    var x := JsonFence + s;
    assert x[..7] == JsonFence;
    assert x[0] == '`';
    if s != [] { assert x[|x| - 1] == s[|s| - 1]; }
    if |x| > 10 { assert x[7..|x| - 3] == s[..|s| - 3]; }
  }

  /** A "```json" fence that is never closed still loses its last three
      characters: the slice does not check that they are a fence. */
  lemma UnclosedJsonFence(s: string)
    requires s != [] && !IsSpace(s[|s| - 1])
    ensures Clean(JsonFence + s) == if |s| > 3 then Strip(s[..|s| - 3]) else []
  {
    var x := JsonFence + s;
    UnclosedJsonBlock(s);
    assert Strip(x) == x by { StripFixpoint(x); }
    CleanJsonFenced(x);
  }

  /** Cleaning only cuts: the cleaned text is one contiguous piece of the reply. */
  lemma CleanIsInfix(text: string)
    ensures IsInfix(Clean(text), text)
  {
    var t := Strip(text);
    StripIsInfix(text);
    if StartsWith(t, JsonFence) || StartsWith(t, Fence) {
      var a := if StartsWith(t, JsonFence) then 7 else 3;
      var inner := PySlice(t, a, -3);
      assert Clean(text) == Strip(inner);
      StripIsInfix(inner);
      PySliceIsInfix(t, a, -3);
      InfixTransitive(Clean(text), inner, t);
      InfixTransitive(Clean(text), t, text);
    }
  }
}
