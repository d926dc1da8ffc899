/** `String.prototype.trim`: strip leading and trailing white space. */
module Whitespace {

  /** The characters `trim` strips: ECMAScript's WhiteSpace (tab, vertical tab,
      form feed, the byte order mark and every space separator of the Unicode
      category Zs) and LineTerminator (line feed, carriage return, line and
      paragraph separators). The Zs members are listed explicitly. */
  const SpaceChars: set<char> := {
    '\t', '\U{B}', '\U{C}', '\U{FEFF}',
    ' ', '\U{A0}', '\U{1680}',
    '\U{2000}', '\U{2001}', '\U{2002}', '\U{2003}', '\U{2004}', '\U{2005}',
    '\U{2006}', '\U{2007}', '\U{2008}', '\U{2009}', '\U{200A}',
    '\U{202F}', '\U{205F}', '\U{3000}',
    '\n', '\r', '\U{2028}', '\U{2029}'
  }

  predicate IsSpace(c: char) {
    c in SpaceChars
  }

  predicate AllSpace(s: string) {
    forall i :: 0 <= i < |s| ==> IsSpace(s[i])
  }

  /** `s` consists of `r` with white space before it and white space after it,
      `r` starting at index `i`. */
  ghost predicate PaddedAt(s: string, r: string, i: nat) {
    && i + |r| <= |s|
    && s[i..i + |r|] == r
    && AllSpace(s[..i])
    && AllSpace(s[i + |r|..])
  }

  ghost predicate Padded(s: string, r: string) {
    exists i: nat :: PaddedAt(s, r, i)
  }

  /** `r` has no white space at either end. */
  predicate Stripped(r: string) {
    r == [] || (!IsSpace(r[0]) && !IsSpace(r[|r| - 1]))
  }

  /** The first index at or after `k` that does not hold white space, or the
      end of `s`. */
  function SpanSpace(s: string, k: nat): (n: nat)
    requires k <= |s|
    ensures k <= n <= |s|
    ensures forall j :: k <= j < n ==> IsSpace(s[j])
    ensures n < |s| ==> !IsSpace(s[n])
    decreases |s| - k
  {
    if k < |s| && IsSpace(s[k]) then SpanSpace(s, k + 1) else k
  }

  /** The index just past the last character before `k` that is not white
      space, or 0. */
  function BackSpace(s: string, k: nat): (n: nat)
    requires k <= |s|
    ensures n <= k
    ensures forall j :: n <= j < k ==> IsSpace(s[j])
    ensures 0 < n ==> !IsSpace(s[n - 1])
    decreases k
  {
    if 0 < k && IsSpace(s[k - 1]) then BackSpace(s, k - 1) else k
  }

  /** `s.trimStart()`: the suffix of `s` left after dropping leading white space. */
  function TrimStart(s: string): (r: string)
    ensures |r| <= |s| && r == s[|s| - |r|..]
    ensures AllSpace(s[..|s| - |r|])
    ensures r == [] || !IsSpace(r[0])
  {
    s[SpanSpace(s, 0)..]
  }

  /** `s.trimEnd()`: the prefix of `s` left after dropping trailing white space. */
  function TrimEnd(s: string): (r: string)
    ensures |r| <= |s| && r == s[..|r|]
    ensures AllSpace(s[|r|..])
    ensures r == [] || !IsSpace(r[|r| - 1])
  {
    s[..BackSpace(s, |s|)]
  }

  /** `s.trim()`: `s` without its leading and trailing white space; the result is
      empty exactly when `s` is all white space. */
  function Trim(s: string): (r: string)
    ensures Padded(s, r)
    ensures Stripped(r)
    ensures r == [] <==> AllSpace(s)
  {
    var t := TrimStart(s);
    var r := TrimEnd(t);
    var i := |s| - |t|;
    assert s[i..i + |r|] == t[..|r|];
    assert s[i + |r|..] == t[|r|..];
    assert PaddedAt(s, r, i);
    assert |r| > 0 ==> r[0] == s[i];
    r
  }

  /** A text that is all white space before `n` and not at `n` spans `n`. */
  lemma SpanSpaceIs(s: string, n: nat)
    requires n <= |s|
    requires forall j :: 0 <= j < n ==> IsSpace(s[j])
    requires n < |s| ==> !IsSpace(s[n])
    ensures SpanSpace(s, 0) == n
  {
  }

  /** A text that is all white space from `n` on and not just before `n` ends
      its non-blank part at `n`. */
  lemma BackSpaceIs(s: string, n: nat)
    requires n <= |s|
    requires forall j :: n <= j < |s| ==> IsSpace(s[j])
    requires 0 < n ==> !IsSpace(s[n - 1])
    ensures BackSpace(s, |s|) == n
  {
  }

  /** White space on both sides of an index makes the whole text white space. */
  lemma AllSpaceAround(s: string, i: nat)
    requires i <= |s| && AllSpace(s[..i]) && AllSpace(s[i..])
    ensures AllSpace(s)
  {
    forall k | 0 <= k < |s|
      ensures IsSpace(s[k])
    {
      if k < i {
        assert s[..i][k] == s[k];
      } else {
        assert s[i..][k - i] == s[k];
      }
    }
  }

  /** Trimming is determined by its contract: whenever `s` is a stripped text `r`
      with only white space around it, `s` trims to `r`. */
  lemma TrimAt(s: string, r: string, i: nat)
    requires PaddedAt(s, r, i)
    requires Stripped(r)
    ensures Trim(s) == r
  {
    if r == [] {
      AllSpaceAround(s, i);
    } else {
      assert s[i] == r[0];
      assert forall j :: 0 <= j < i ==> s[..i][j] == s[j];
      SpanSpaceIs(s, i);
      var t := TrimStart(s);
      assert t == s[i..];
      assert forall j :: |r| <= j < |t| ==> t[j] == s[i + |r|..][j - |r|];
      assert t[|r| - 1] == r[|r| - 1];
      BackSpaceIs(t, |r|);
      assert t[..|r|] == r;
    }
  }

  /** A stripped text padded with white space trims to exactly that text. */
  lemma TrimPadded(w1: string, m: string, w2: string)
    requires AllSpace(w1) && AllSpace(w2)
    requires Stripped(m)
    ensures Trim(w1 + m + w2) == m
  {
    var s := w1 + m + w2;
    assert s[..|w1|] == w1;
    assert s[|w1|..|w1| + |m|] == m;
    assert s[|w1| + |m|..] == w2;
    TrimAt(s, m, |w1|);
  }

  /** Trimming twice is trimming once. */
  lemma TrimIdempotent(s: string)
    ensures Trim(Trim(s)) == Trim(s)
  {
    var r := Trim(s);
    assert r[0..|r|] == r;
    TrimAt(r, r, 0);
  }

  /** White space appended to a padded text only lengthens the padding. */
  lemma PaddedAppend(s: string, r: string, i: nat, w: string)
    requires PaddedAt(s, r, i) && AllSpace(w)
    ensures PaddedAt(s + w, r, i)
  {
    var u, e := s + w, i + |r|;
    assert u[..i] == s[..i];
    assert u[i..e] == s[i..e];
    forall k | 0 <= k < |u| - e
      ensures IsSpace(u[e..][k])
    {
      if e + k < |s| {
        assert u[e..][k] == s[e..][k];
      } else {
        assert u[e..][k] == w[e + k - |s|];
      }
    }
  }

  /** White space appended to a text does not change its trimmed form. */
  lemma TrimIgnoresTrailingSpace(s: string, w: string)
    requires AllSpace(w)
    ensures Trim(s + w) == Trim(s)
  {
    var r := Trim(s);
    var i: nat :| PaddedAt(s, r, i);
    PaddedAppend(s, r, i, w);
    TrimAt(s + w, r, i);
  }
}
