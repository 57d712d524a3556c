/** The few Python `str` operations the two services rely on, over `string`
    (= `seq<char>`): `strip()`, `startswith`, `find`, `in`, `replace(p, "")`,
    and the single-character `find`/`rfind` used to describe a regex match. */
module Text {
  import opened Wrappers

  /** `c.isspace()` in Python: the characters `str.strip()` with no argument
      removes and that the regex class `\s` matches. */
  predicate IsSpace(c: char) {
    c == ' ' || ('\t' <= c <= '\r') || ('\U{1C}' <= c <= '\U{1F}')
    || c == '\U{85}' || c == '\U{A0}' || c == '\U{1680}'
    || ('\U{2000}' <= c <= '\U{200A}') || c == '\U{2028}' || c == '\U{2029}'
    || c == '\U{202F}' || c == '\U{205F}' || c == '\U{3000}'
  }

  predicate AllSpace(s: string) {
    forall k | 0 <= k < |s| :: IsSpace(s[k])
  }

  /** Neither starts nor ends with whitespace. */
  predicate Trimmed(t: string) {
    t == [] || (!IsSpace(t[0]) && !IsSpace(t[|t| - 1]))
  }

  /** `os.getenv(name)` tested for truth: set and not empty. */
  predicate IsSet(v: Option<string>) {
    v.Some? && v.value != ""
  }

  /** `s.lstrip()`: the suffix left after dropping the leading whitespace. */
  function LStrip(s: string): (r: string)
    ensures |r| <= |s| && r == s[|s| - |r|..]
    ensures forall k | 0 <= k < |s| - |r| :: IsSpace(s[k])
    ensures r == [] || !IsSpace(r[0])
    decreases |s|
  {
    if |s| > 0 && IsSpace(s[0]) then
      var r := LStrip(s[1..]);
      assert s[1..][|s| - 1 - |r|..] == s[|s| - |r|..];
      forall k | 1 <= k < |s| - |r| ensures IsSpace(s[k]) { assert s[k] == s[1..][k - 1]; }
      r
    else
      s
  }

  /** `s.rstrip()`: the prefix left after dropping the trailing whitespace. */
  function RStrip(s: string): (r: string)
    ensures |r| <= |s| && r == s[..|r|]
    ensures forall k | |r| <= k < |s| :: IsSpace(s[k])
    ensures r == [] || !IsSpace(r[|r| - 1])
    decreases |s|
  {
    if |s| > 0 && IsSpace(s[|s| - 1]) then
      var r := RStrip(s[..|s| - 1]);
      assert s[..|s| - 1][..|r|] == s[..|r|];
      forall k | |r| <= k < |s| - 1 ensures IsSpace(s[k]) { assert s[k] == s[..|s| - 1][k]; }
      r
    else
      s
  }

  /** `s.strip()`: `s` with its leading and trailing whitespace cut off. */
  function Strip(s: string): (r: string)
    ensures Trimmed(r)
  {
    var l := LStrip(s);
    RStripKeepsFirst(l);
    RStrip(l)
  }

  /** `rstrip()` keeps the first character of whatever it does not empty. */
  lemma RStripKeepsFirst(l: string)
    ensures RStrip(l) != [] ==> RStrip(l)[0] == l[0]
  {
    var r := RStrip(l);
    if r != [] { assert r[0] == l[..|r|][0]; }
  }

  /** What `strip()` cut off on either side is whitespace, and what it kept
      lies between. */
  lemma StripParts(s: string) returns (u1: string, u2: string)
    ensures AllSpace(u1) && AllSpace(u2) && s == u1 + Strip(s) + u2
  {
    u1 := LeadingSpace(s);
    u2 := TrailingSpace(LStrip(s));
    Regroup3(u1, RStrip(LStrip(s)), u2);
  }

  lemma LeadingSpace(s: string) returns (u: string)
    ensures AllSpace(u) && s == u + LStrip(s)
  {
    var l := LStrip(s);
    u := s[..|s| - |l|];
    forall k | 0 <= k < |u| ensures IsSpace(u[k]) { assert u[k] == s[k]; }
    assert s == u + s[|s| - |l|..];
  }

  lemma TrailingSpace(l: string) returns (u: string)
    ensures AllSpace(u) && l == RStrip(l) + u
  {
    var r := RStrip(l);
    u := l[|r|..];
    forall k | 0 <= k < |u| ensures IsSpace(u[k]) { assert u[k] == l[|r| + k]; }
    assert l == l[..|r|] + u;
  }

  lemma Regroup3(a: string, b: string, c: string)
    ensures a + (b + c) == a + b + c
  {
  }

  /** Dropping whitespace in front of text that does not start with whitespace. */
  lemma LStripPast(w: string, x: string)
    requires AllSpace(w)
    requires x == [] || !IsSpace(x[0])
    ensures LStrip(w + x) == x
  {
    var s := w + x;
    var l := LStrip(s);
    var n := |s| - |l|;
    forall m | 0 <= m < |w| ensures IsSpace(s[m]) { assert s[m] == w[m]; }
    if x != [] { assert s[|w|] == x[0]; }
    if l != [] { assert l[0] == s[n]; }
    assert n == |w|;
    assert l == s[|w|..];
  }

  /** Dropping whitespace behind text that does not end with whitespace. */
  lemma RStripPast(x: string, w: string)
    requires AllSpace(w)
    requires x == [] || !IsSpace(x[|x| - 1])
    ensures RStrip(x + w) == x
  {
    var s := x + w;
    var r := RStrip(s);
    forall m | |x| <= m < |s| ensures IsSpace(s[m]) { assert s[m] == w[m - |x|]; }
    if x != [] { assert s[|x| - 1] == x[|x| - 1]; }
    if r != [] { assert r[|r| - 1] == s[|r| - 1]; }
    assert |r| == |x|;
    assert r == s[..|x|];
  }

  /** `strip()` is the ONLY way to read `s` as whitespace, trimmed text,
      whitespace: the decomposition determines the result. */
  lemma StripUnique(w1: string, t: string, w2: string)
    requires AllSpace(w1) && AllSpace(w2) && Trimmed(t)
    ensures Strip(w1 + t + w2) == t
  {
    if t == [] {
      assert w1 + t + w2 == (w1 + w2) + [];
      LStripPast(w1 + w2, []);
    } else {
      assert w1 + t + w2 == w1 + (t + w2);
      LStripPast(w1, t + w2);
      RStripPast(t, w2);
    }
  }

  /** Trimmed text is left as it is by `strip()`. */
  lemma TrimmedIsFixed(t: string)
    requires Trimmed(t)
    ensures Strip(t) == t
  {
    assert LStrip(t) == t;
    assert RStrip(t) == t;
  }

  lemma StripIdempotent(s: string)
    ensures Strip(Strip(s)) == Strip(s)
  {
    TrimmedIsFixed(Strip(s));
  }

  lemma AllSpaceConcat(a: string, b: string)
    requires AllSpace(a) && AllSpace(b)
    ensures AllSpace(a + b)
  {
    forall k | 0 <= k < |a + b| ensures IsSpace((a + b)[k]) {
      if k >= |a| { assert (a + b)[k] == b[k - |a|]; }
    }
  }

  lemma Regroup(w1: string, u1: string, t: string, u2: string, w2: string)
    ensures w1 + (u1 + t + u2) + w2 == (w1 + u1) + t + (u2 + w2)
  {
  }

  /** Whitespace added around `b` does not change `b.strip()`. */
  lemma StripIgnoresSurroundingSpace(w1: string, b: string, w2: string)
    requires AllSpace(w1) && AllSpace(w2)
    ensures Strip(w1 + b + w2) == Strip(b)
  {
    var t := Strip(b);
    var u1, u2 := StripParts(b);
    Regroup(w1, u1, t, u2, w2);
    AllSpaceConcat(w1, u1);
    AllSpaceConcat(u2, w2);
    StripUnique(w1 + u1, t, u2 + w2);
  }

  /** `s.startswith(p)`. */
  predicate StartsWith(s: string, p: string) {
    |p| <= |s| && s[..|p|] == p
  }

  /** `p` occurs in `s` at index `k`. */
  predicate At(s: string, p: string, k: int) {
    0 <= k && k + |p| <= |s| && s[k..k + |p|] == p
  }

  /** `s.find(p, i)`: the first index at or after `i` where `p` occurs. */
  function FindFrom(s: string, p: string, i: nat): (r: Option<nat>)
    ensures r.Some? ==> i <= r.value && At(s, p, r.value)
    ensures r.Some? ==> forall k :: i <= k < r.value ==> !At(s, p, k)
    ensures r.None? ==> forall k :: i <= k ==> !At(s, p, k)
    decreases |s| - i
  {
    if i + |p| > |s| then None
    else if s[i..i + |p|] == p then Some(i)
    else FindFrom(s, p, i + 1)
  }

  /** `s.find(p)`, with `None` for Python's -1. */
  function Find(s: string, p: string): (r: Option<nat>)
    ensures r.Some? ==> At(s, p, r.value) && forall k :: 0 <= k < r.value ==> !At(s, p, k)
    ensures r.None? <==> forall k :: !At(s, p, k)
  {
    FindFrom(s, p, 0)
  }

  /** `p in s`. */
  predicate Contains(s: string, p: string) {
    Find(s, p).Some?
  }

  /** `s.replace(p, "")`: every occurrence of `p`, scanning left to right
      without overlaps, is deleted. */
  function RemoveAll(s: string, p: string): (r: string)
    requires |p| > 0
    ensures |r| <= |s|
    ensures !Contains(s, p) ==> r == s
    decreases |s|
  {
    match Find(s, p)
    case None => s
    case Some(i) => s[..i] + RemoveAll(s[i + |p|..], p)
  }

  /** A leading occurrence is the first one deleted. */
  lemma RemoveAllLeading(p: string, s: string)
    requires |p| > 0
    ensures RemoveAll(p + s, p) == RemoveAll(s, p)
  {
    var t := p + s;
    assert At(t, p, 0);
    assert Find(t, p) == Some(0);
    assert t[..0] == [] && t[|p|..] == s;
  }

  /** Text without a given character contains no pattern starting with it. */
  lemma AbsentLead(s: string, p: string)
    requires |p| > 0 && p[0] !in s
    ensures !Contains(s, p)
  {
    forall k ensures !At(s, p, k) {
      if 0 <= k && k + |p| <= |s| { assert s[k..k + |p|][0] == s[k]; }
    }
  }

  /** A slice of text free of `p` is free of `p`. */
  lemma SliceKeepsAbsence(s: string, p: string, i: nat, j: nat)
    requires i <= j <= |s| && !Contains(s, p)
    ensures !Contains(s[i..j], p)
  {
    assert forall k :: !At(s, p, k);
    forall k ensures !At(s[i..j], p, k) {
      if 0 <= k && k + |p| <= j - i {
        var q := s[i..j];
        var a, b := q[k..k + |p|], s[i + k..i + k + |p|];
        assert forall m | 0 <= m < |p| :: a[m] == b[m];
        assert a == b;
        assert !At(s, p, i + k);
      }
    }
  }

  /** `strip()` cannot create an occurrence. */
  lemma StripKeepsAbsence(s: string, p: string)
    requires !Contains(s, p)
    ensures !Contains(Strip(s), p)
  {
    var u1, u2 := StripParts(s);
    assert Strip(s) == s[|u1|..|u1| + |Strip(s)|];
    SliceKeepsAbsence(s, p, |u1|, |u1| + |Strip(s)|);
  }

  /** `s.find(c)` for one character. */
  function FirstIndexOf(s: string, c: char): (r: Option<nat>)
    ensures r.Some? ==> r.value < |s| && s[r.value] == c
    ensures r.Some? ==> forall k | 0 <= k < r.value :: s[k] != c
    ensures r.None? <==> forall k | 0 <= k < |s| :: s[k] != c
    decreases |s|
  {
    if |s| == 0 then None
    else if s[0] == c then Some(0)
    else
      var r := FirstIndexOf(s[1..], c);
      assert forall k | 1 <= k < |s| :: s[k] == s[1..][k - 1];
      if r.Some? then Some(r.value + 1) else None
  }

  /** `s.rfind(c)` for one character. */
  function LastIndexOf(s: string, c: char): (r: Option<nat>)
    ensures r.Some? ==> r.value < |s| && s[r.value] == c
    ensures r.Some? ==> forall k | r.value < k < |s| :: s[k] != c
    ensures r.None? <==> forall k | 0 <= k < |s| :: s[k] != c
    decreases |s|
  {
    if |s| == 0 then None
    else if s[|s| - 1] == c then Some(|s| - 1)
    else
      var r := LastIndexOf(s[..|s| - 1], c);
      assert forall k | 0 <= k < |s| - 1 :: s[k] == s[..|s| - 1][k];
      r
  }
}
