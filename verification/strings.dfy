/** The string primitives the handlers rely on, with JavaScript's meaning:
    searching for a literal, `Array.prototype.join` and `String.prototype.split`
    with a non-empty string separator. Strings are sequences of characters. */
module Strings {
  import opened Wrappers

  /** `pat` occurs in `s` starting at index `j`. */
  predicate OccursAt(s: string, pat: string, j: nat) {
    j + |pat| <= |s| && s[j..j + |pat|] == pat
  }

  /** `pat` occurs somewhere in `s` (JavaScript's `s.includes(pat)`). */
  ghost predicate Contains(s: string, pat: string) {
    exists j: nat :: OccursAt(s, pat, j)
  }

  /** Occurrences in a suffix `s[m..]` are the occurrences in `s` from `m` on,
      shifted left by `m`. */
  lemma OccursAtSuffix(s: string, pat: string, m: nat)
    requires m <= |s|
    ensures forall j: nat :: m <= j ==> (OccursAt(s, pat, j) <==> OccursAt(s[m..], pat, j - m))
  {
    forall j: nat | m <= j
      ensures OccursAt(s, pat, j) <==> OccursAt(s[m..], pat, j - m)
    {
      if j + |pat| <= |s| {
        assert s[m..][j - m..j - m + |pat|] == s[j..j + |pat|];
      }
    }
  }

  /** The first occurrence of `pat` in `s` at or after index `k` (JavaScript's
      `s.indexOf(pat, k)`, with `None` for -1). */
  function FindFrom(s: string, pat: string, k: nat): (r: Option<nat>)
    ensures r.Some? ==> k <= r.value && OccursAt(s, pat, r.value)
    decreases |s| + 1 - k
  {
    if k + |pat| > |s| then
      None
    else if OccursAt(s, pat, k) then
      Some(k)
    else
      FindFrom(s, pat, k + 1)
  }

  /** The search from `k` skips no occurrence: none lies between `k` and what it
      reports, and none lies at or after `k` when it reports nothing. */
  lemma {:induction false} FindFromSpec(s: string, pat: string, k: nat)
    ensures FindFrom(s, pat, k).Some? ==>
              forall j: nat :: k <= j < FindFrom(s, pat, k).value ==> !OccursAt(s, pat, j)
    ensures FindFrom(s, pat, k).None? ==> forall j: nat :: k <= j ==> !OccursAt(s, pat, j)
    decreases |s| + 1 - k
  {
    if k + |pat| <= |s| && !OccursAt(s, pat, k) {
      FindFromSpec(s, pat, k + 1);
    }
  }

  /** The index of the first occurrence of `pat` in `s` (JavaScript's `s.indexOf(pat)`,
      with `None` for -1). */
  function FindFirst(s: string, pat: string): (r: Option<nat>)
    ensures r.Some? ==> OccursAt(s, pat, r.value)
    ensures r.Some? ==> forall j: nat :: j < r.value ==> !OccursAt(s, pat, j)
    ensures r.None? <==> !Contains(s, pat)
  {
    FindFromSpec(s, pat, 0);
    FindFrom(s, pat, 0)
  }

  /** An occurrence at `i` with none in `[k, i)` is what the search from `k` reports. */
  lemma FindFromIs(s: string, pat: string, k: nat, i: nat)
    requires k <= i && OccursAt(s, pat, i)
    requires forall j: nat :: k <= j < i ==> !OccursAt(s, pat, j)
    ensures k <= |s| && FindFrom(s, pat, k) == Some(i)
  {
    FindFromSpec(s, pat, k);
  }

  /** A first occurrence is what `FindFirst` reports. */
  lemma FindFirstIsFirstOccurrence(s: string, pat: string, i: nat)
    requires OccursAt(s, pat, i)
    requires forall j: nat :: j < i ==> !OccursAt(s, pat, j)
    ensures FindFirst(s, pat) == Some(i)
  {
    FindFromIs(s, pat, 0, i);
  }

  /** The last occurrence of `pat` in `s` starting before index `n`. */
  function FindLastBelow(s: string, pat: string, n: nat): (r: Option<nat>)
    ensures r.Some? ==> r.value < n && OccursAt(s, pat, r.value)
    ensures r.Some? ==> forall j: nat :: r.value < j < n ==> !OccursAt(s, pat, j)
    ensures r.None? ==> forall j: nat :: j < n ==> !OccursAt(s, pat, j)
  {
    if n == 0 then
      None
    else if OccursAt(s, pat, n - 1) then
      Some(n - 1)
    else
      FindLastBelow(s, pat, n - 1)
  }

  /** The index of the last occurrence of `pat` in `s` (JavaScript's
      `s.lastIndexOf(pat)`, with `None` for -1). */
  function FindLast(s: string, pat: string): (r: Option<nat>)
    ensures r.Some? ==> OccursAt(s, pat, r.value)
    ensures r.Some? ==> forall j: nat :: r.value < j ==> !OccursAt(s, pat, j)
    ensures r.None? <==> !Contains(s, pat)
  {
    assert forall j: nat :: |s| < j ==> !OccursAt(s, pat, j);
    FindLastBelow(s, pat, |s| + 1)
  }

  /** `xs.join(sep)`: the elements in order with `sep` between neighbours. */
  function Join(xs: seq<string>, sep: string): string
  {
    if |xs| == 0 then ""
    else if |xs| == 1 then xs[0]
    else xs[0] + sep + Join(xs[1..], sep)
  }

  /** Where element `i` starts inside `Join(xs, sep)`: everything before it, each
      element followed by one separator. */
  ghost function Offset(xs: seq<string>, sep: string, i: nat): nat
    requires i <= |xs|
  {
    if i == 0 then 0 else |xs[0]| + |sep| + Offset(xs[1..], sep, i - 1)
  }

  /** A join of two or more elements is the first, a separator, and the join of
      the rest. */
  lemma JoinCons(xs: seq<string>, sep: string)
    requires |xs| > 1
    ensures var whole, k := Join(xs, sep), |xs[0]| + |sep|;
            && whole == xs[0] + sep + Join(xs[1..], sep)
            && k <= |whole|
            && whole[..|xs[0]|] == xs[0]
            && whole[|xs[0]|..k] == sep
            && whole[k..] == Join(xs[1..], sep)
  {
  }

  /** A slice of a suffix is the slice of the whole shifted by the suffix's start. */
  lemma SliceShift(whole: string, k: nat, a: nat, b: nat)
    requires k <= |whole| && a <= b <= |whole| - k
    ensures whole[k + a..k + b] == whole[k..][a..b]
  {
  }

  /** Each element adds its length and one separator to the offset. */
  lemma {:induction false} OffsetStep(xs: seq<string>, sep: string, i: nat)
    requires i < |xs|
    ensures Offset(xs, sep, i + 1) == Offset(xs, sep, i) + |xs[i]| + |sep|
  {
    if i > 0 {
      OffsetStep(xs[1..], sep, i - 1);
      assert xs[1..][i - 1] == xs[i];
    }
  }

  /** Element `i` sits verbatim at its offset in the join. */
  lemma {:induction false} JoinElement(xs: seq<string>, sep: string, i: nat)
    requires i < |xs|
    ensures Offset(xs, sep, i) + |xs[i]| <= |Join(xs, sep)|
    ensures Join(xs, sep)[Offset(xs, sep, i)..Offset(xs, sep, i) + |xs[i]|] == xs[i]
  {
    if |xs| > 1 && i > 0 {
      JoinCons(xs, sep);
      JoinElement(xs[1..], sep, i - 1);
      assert xs[1..][i - 1] == xs[i];
      var o := Offset(xs[1..], sep, i - 1);
      SliceShift(Join(xs, sep), |xs[0]| + |sep|, o, o + |xs[i]|);
    } else if |xs| > 1 {
      JoinCons(xs, sep);
    }
  }

  /** A separator follows every element but the last. */
  lemma {:induction false} JoinSeparator(xs: seq<string>, sep: string, i: nat)
    requires i + 1 < |xs|
    ensures Offset(xs, sep, i) + |xs[i]| + |sep| == Offset(xs, sep, i + 1) <= |Join(xs, sep)|
    ensures Join(xs, sep)[Offset(xs, sep, i) + |xs[i]|..Offset(xs, sep, i + 1)] == sep
  {
    OffsetStep(xs, sep, i);
    JoinCons(xs, sep);
    if i > 0 {
      JoinSeparator(xs[1..], sep, i - 1);
      assert xs[1..][i - 1] == xs[i];
      var o := Offset(xs[1..], sep, i - 1) + |xs[i]|;
      SliceShift(Join(xs, sep), |xs[0]| + |sep|, o, o + |sep|);
    }
  }

  /** The last element ends the join. */
  lemma {:induction false} JoinEnd(xs: seq<string>, sep: string)
    requires |xs| > 0
    ensures Offset(xs, sep, |xs| - 1) + |xs[|xs| - 1]| == |Join(xs, sep)|
  {
    if |xs| > 1 {
      JoinCons(xs, sep);
      JoinEnd(xs[1..], sep);
    }
  }

  /** The layout of a join: element `i` sits verbatim at `Offset(xs, sep, i)`, a
      separator follows it unless it is the last one, and nothing else is added. */
  lemma JoinLayout(xs: seq<string>, sep: string, i: nat)
    requires i < |xs|
    ensures Offset(xs, sep, i) + |xs[i]| <= |Join(xs, sep)|
    ensures Join(xs, sep)[Offset(xs, sep, i)..Offset(xs, sep, i) + |xs[i]|] == xs[i]
    ensures i + 1 < |xs| ==>
              && Offset(xs, sep, i + 1) == Offset(xs, sep, i) + |xs[i]| + |sep|
              && Offset(xs, sep, i + 1) <= |Join(xs, sep)|
              && Join(xs, sep)[Offset(xs, sep, i) + |xs[i]|..Offset(xs, sep, i + 1)] == sep
    ensures i + 1 == |xs| ==> Offset(xs, sep, i) + |xs[i]| == |Join(xs, sep)|
  {
    JoinElement(xs, sep, i);
    if i + 1 < |xs| {
      JoinSeparator(xs, sep, i);
    } else {
      JoinEnd(xs, sep);
    }
  }

  /** Appending one element to a non-empty list appends a separator and that element. */
  lemma {:induction false} JoinSnoc(xs: seq<string>, x: string, sep: string)
    requires |xs| > 0
    ensures Join(xs + [x], sep) == Join(xs, sep) + sep + x
  {
    if |xs| == 1 {
      assert (xs + [x])[1..] == [x];
    } else {
      assert (xs + [x])[1..] == xs[1..] + [x];
      JoinSnoc(xs[1..], x, sep);
    }
  }

  /** The pieces of `s[a..]` split at `sep`, scanning for the next occurrence
      from `k` (no occurrence lies between `a` and `k`): an occurrence at `k`
      closes the current piece and the scan restarts after it. */
  function SplitScan(s: string, sep: string, a: nat, k: nat): (parts: seq<string>)
    requires |sep| > 0 && a <= k <= |s|
    ensures |parts| >= 1
    decreases |s| - k
  {
    if k + |sep| > |s| then
      [s[a..]]
    else if OccursAt(s, sep, k) then
      [s[a..k]] + SplitScan(s, sep, k + |sep|, k + |sep|)
    else
      SplitScan(s, sep, a, k + 1)
  }

  /** The pieces of `s[k..]` split at `sep`. */
  function SplitFrom(s: string, sep: string, k: nat): (parts: seq<string>)
    requires |sep| > 0 && k <= |s|
    ensures |parts| >= 1
  {
    SplitScan(s, sep, k, k)
  }

  /** `s.split(sep)` for a non-empty separator: the pieces between successive
      non-overlapping occurrences, searched from the left. */
  function Split(s: string, sep: string): (parts: seq<string>)
    requires |sep| > 0
    ensures |parts| >= 1
  {
    SplitFrom(s, sep, 0)
  }

  /** Scanning past positions that hold no occurrence leaves the pieces alone. */
  lemma {:induction false} SplitScanSkip(s: string, sep: string, a: nat, k: nat, i: nat)
    requires |sep| > 0 && a <= k <= i <= |s|
    requires forall j: nat :: k <= j < i ==> !OccursAt(s, sep, j)
    ensures SplitScan(s, sep, a, k) == SplitScan(s, sep, a, i)
    decreases i - k
  {
    if k < i && k + |sep| <= |s| {
      assert !OccursAt(s, sep, k);
      SplitScanSkip(s, sep, a, k + 1, i);
    }
  }

  /** One step of a split: the text up to the next occurrence, then the pieces
      after it; or the rest of the text when there is no next occurrence. */
  lemma SplitFromStep(s: string, sep: string, k: nat)
    requires |sep| > 0 && k <= |s|
    ensures FindFrom(s, sep, k).None? ==> SplitFrom(s, sep, k) == [s[k..]]
    ensures FindFrom(s, sep, k).Some? ==>
              var i := FindFrom(s, sep, k).value;
              i + |sep| <= |s| && SplitFrom(s, sep, k) == [s[k..i]] + SplitFrom(s, sep, i + |sep|)
  {
    FindFromSpec(s, sep, k);
    match FindFrom(s, sep, k)
    case None =>
      SplitScanSkip(s, sep, k, k, |s|);
    case Some(i) =>
      SplitScanSkip(s, sep, k, k, i);
  }

  /** A slice with no occurrence of `pat` that fits inside it is free of `pat`. */
  lemma NoOccurrenceInSlice(s: string, pat: string, k: nat, n: nat)
    requires |pat| > 0 && k <= n <= |s|
    requires forall j: nat :: k <= j && j + |pat| <= n ==> !OccursAt(s, pat, j)
    ensures !Contains(s[k..n], pat)
  {
    forall j: nat
      ensures !OccursAt(s[k..n], pat, j)
    {
      if j + |pat| <= n - k {
        SliceOfSlice(s, k, n, j, j + |pat|);
        assert !OccursAt(s, pat, k + j);
      }
    }
  }

  /** No piece of a split from `k` contains the separator. */
  lemma {:induction false} SplitFromPieces(s: string, sep: string, k: nat)
    requires |sep| > 0 && k <= |s|
    ensures forall n :: 0 <= n < |SplitFrom(s, sep, k)| ==> !Contains(SplitFrom(s, sep, k)[n], sep)
    decreases |s| - k
  {
    FindFromSpec(s, sep, k);
    SplitFromStep(s, sep, k);
    match FindFrom(s, sep, k)
    case None =>
      NoOccurrenceInSlice(s, sep, k, |s|);
      assert s[k..|s|] == s[k..];
    case Some(i) =>
      NoOccurrenceInSlice(s, sep, k, i);
      SplitFromPieces(s, sep, i + |sep|);
  }

  /** The separator occurs exactly when the split has more than one piece, and
      no piece contains it. */
  lemma SplitPieces(s: string, sep: string)
    requires |sep| > 0
    ensures |Split(s, sep)| == 1 <==> !Contains(s, sep)
    ensures forall k :: 0 <= k < |Split(s, sep)| ==> !Contains(Split(s, sep)[k], sep)
  {
    assert FindFirst(s, sep) == FindFrom(s, sep, 0);
    SplitFromStep(s, sep, 0);
    SplitFromPieces(s, sep, 0);
  }

  /** Splitting from `k` and re-joining with the separator gives back `s[k..]`. */
  lemma {:induction false} JoinSplitFrom(s: string, sep: string, k: nat)
    requires |sep| > 0 && k <= |s|
    ensures Join(SplitFrom(s, sep, k), sep) == s[k..]
    decreases |s| - k
  {
    SplitFromStep(s, sep, k);
    match FindFrom(s, sep, k)
    case None =>
    case Some(i) =>
      var m := i + |sep|;
      JoinSplitFrom(s, sep, m);
      var parts := SplitFrom(s, sep, k);
      assert parts[0] == s[k..i] && parts[1..] == SplitFrom(s, sep, m);
      JoinCons(parts, sep);
      assert s[i..m] == sep;
      assert s[k..] == s[k..i] + s[i..m] + s[m..];
  }

  /** Splitting and re-joining with the same separator gives back the text. */
  lemma JoinSplit(s: string, sep: string)
    requires |sep| > 0
    ensures Join(Split(s, sep), sep) == s
  {
    JoinSplitFrom(s, sep, 0);
  }

  /** The second piece of a split (`s.split(sep)[1]`), present when `sep` occurs:
      the text from just after the first occurrence up to the next occurrence,
      or to the end when there is no next one. */
  lemma SplitSecondPiece(s: string, sep: string, i: nat)
    requires |sep| > 0 && FindFirst(s, sep) == Some(i)
    ensures i + |sep| <= |s| && |Split(s, sep)| > 1
    ensures Split(s, sep)[1] == (match FindFrom(s, sep, i + |sep|)
                                 case None => s[i + |sep|..]
                                 case Some(k) => s[i + |sep|..k])
  {
    var m := i + |sep|;
    assert FindFrom(s, sep, 0) == Some(i);
    SplitFromStep(s, sep, 0);
    var rest := SplitFrom(s, sep, m);
    assert Split(s, sep)[1] == rest[0];
    SplitFromStep(s, sep, m);
  }

  // Facts about where a pattern cannot occur. They let a caller show that a text
  // assembled from pieces has no occurrence of a pattern that none of the pieces has.

  /** A pattern one of whose characters is missing from `s` does not occur in `s`. */
  lemma NoOccurrenceWithoutChar(s: string, pat: string, c: char)
    requires c in pat && c !in s
    ensures !Contains(s, pat)
  {
    var k :| 0 <= k < |pat| && pat[k] == c;
    forall j: nat
      ensures !OccursAt(s, pat, j)
    {
      if j + |pat| <= |s| {
        assert s[j + k] == s[j..j + |pat|][k];
      }
    }
  }

  /** Joining two texts free of `pat` at a character that `pat` does not contain
      (the last of `x` or the first of `y`) creates no occurrence. */
  lemma NoOccurrenceAcrossBarrier(x: string, y: string, pat: string, c: char)
    requires !Contains(x, pat) && !Contains(y, pat)
    requires c !in pat
    requires (|x| > 0 && x[|x| - 1] == c) || (|y| > 0 && y[0] == c)
    ensures !Contains(x + y, pat)
  {
    var s := x + y;
    assert s[|x|..] == y;
    forall j: nat
      ensures !OccursAt(s, pat, j)
    {
      if j + |pat| <= |s| {
        if j + |pat| <= |x| {
          assert s[j..j + |pat|] == x[j..j + |pat|];
          assert !OccursAt(x, pat, j);
        } else if j >= |x| {
          SliceShift(s, |x|, j - |x|, j - |x| + |pat|);
          assert !OccursAt(y, pat, j - |x|);
        } else if |x| > 0 && x[|x| - 1] == c {
          assert s[j..j + |pat|][|x| - 1 - j] == c;
        } else {
          assert s[j..j + |pat|][|x| - j] == c;
        }
      }
    }
  }

  /** If the first character of `pat` is missing from `x`, an occurrence in `x + y`
      can only lie inside `y`. */
  lemma NoOccurrenceWithoutHead(x: string, y: string, pat: string)
    requires |pat| > 0 && pat[0] !in x
    requires !Contains(y, pat)
    ensures !Contains(x + y, pat)
  {
    var s := x + y;
    forall j: nat
      ensures !OccursAt(s, pat, j)
    {
      if j + |pat| <= |s| {
        if j < |x| {
          assert s[j..j + |pat|][0] == x[j];
        } else {
          assert s[j..j + |pat|] == y[j - |x|..j - |x| + |pat|];
          assert !OccursAt(y, pat, j - |x|);
        }
      }
    }
  }

  /** A join of pattern-free elements with a pattern-free separator whose first and
      last characters are not in the pattern is pattern-free. */
  lemma {:induction false} JoinNoOccurrence(xs: seq<string>, sep: string, pat: string)
    requires |pat| > 0
    requires forall k :: 0 <= k < |xs| ==> !Contains(xs[k], pat)
    requires |sep| > 0 && sep[0] !in pat && sep[|sep| - 1] !in pat
    requires !Contains(sep, pat)
    ensures !Contains(Join(xs, sep), pat)
  {
    if |xs| > 1 {
      JoinNoOccurrence(xs[1..], sep, pat);
      NoOccurrenceAcrossBarrier(xs[0], sep, pat, sep[0]);
      NoOccurrenceAcrossBarrier(xs[0] + sep, Join(xs[1..], sep), pat, sep[|sep| - 1]);
    }
  }

  /** When `h` is free of `pat` and ends in a character `pat` lacks, the first
      occurrence of `pat` in `h + pat + tail` is the one right after `h`. */
  lemma FirstOccurrenceAfterPrefix(h: string, pat: string, tail: string)
    requires !Contains(h, pat)
    requires |h| > 0 && h[|h| - 1] !in pat
    ensures FindFirst(h + pat + tail, pat) == Some(|h|)
  {
    var s := h + pat + tail;
    assert s[|h|..|h| + |pat|] == pat;
    forall j: nat | j < |h|
      ensures !OccursAt(s, pat, j)
    {
      if j + |pat| <= |h| {
        assert s[j..j + |pat|] == h[j..j + |pat|];
        assert !OccursAt(h, pat, j);
      } else {
        assert s[j..j + |pat|][|h| - 1 - j] == h[|h| - 1];
      }
    }
    FindFirstIsFirstOccurrence(s, pat, |h|);
  }

  /** A slice of a slice is a slice of the whole. */
  lemma SliceOfSlice(s: string, a: nat, b: nat, c: nat, d: nat)
    requires a <= b <= |s| && c <= d <= b - a
    ensures s[a..b][c..d] == s[a + c..a + d]
  {
    forall t | 0 <= t < d - c
      ensures s[a..b][c..d][t] == s[a + c..a + d][t]
    {
    }
  }

  /** Where the parts of `h + pat + mid + pat + tail` lie. */
  lemma FiveParts(h: string, pat: string, mid: string, tail: string)
    ensures var s, m := h + pat + mid + pat + tail, |h| + |pat|;
            && m + |mid| + |pat| <= |s|
            && s[0..|h|] == h
            && OccursAt(s, pat, |h|)
            && s[m..m + |mid|] == mid
            && OccursAt(s, pat, m + |mid|)
  {
    var s, m := h + pat + mid + pat + tail, |h| + |pat|;
    assert s[|h|..m] == pat;
    assert s[m + |mid|..m + |mid| + |pat|] == pat;
  }

  /** When the first character of `pat` occurs nowhere else in it, searching from
      `m` finds an occurrence at `k` as soon as the text from `m` to `k` is free of
      `pat`: an occurrence starting before `k` and reaching past it would put the
      first character of `pat` at a later position of `pat`. */
  lemma NextOccurrenceOfHeadUnique(s: string, pat: string, m: nat, k: nat)
    requires |pat| > 0 && forall t :: 0 < t < |pat| ==> pat[t] != pat[0]
    requires m <= k && OccursAt(s, pat, k) && !Contains(s[m..k], pat)
    ensures FindFrom(s, pat, m) == Some(k)
  {
    forall j: nat | m <= j < k
      ensures !OccursAt(s, pat, j)
    {
      if j + |pat| <= k {
        SliceOfSlice(s, m, k, j - m, j - m + |pat|);
        assert !OccursAt(s[m..k], pat, j - m);
      } else if j + |pat| <= |s| {
        assert s[j..j + |pat|][k - j] == s[k] == s[k..k + |pat|][0];
      }
    }
    FindFromIs(s, pat, m, k);
  }

  /** When the first character of `pat` occurs nowhere else in it, `pat` occurs at
      `n` and at `k`, and neither the text before `n` nor the text between the two
      holds it, the second piece of the split is the text between them. */
  lemma {:induction false} SecondPieceBetweenHeadUnique(s: string, pat: string, n: nat, k: nat)
    requires |pat| > 0 && forall t :: 0 < t < |pat| ==> pat[t] != pat[0]
    requires n + |pat| <= k
    requires OccursAt(s, pat, n) && !Contains(s[0..n], pat)
    requires OccursAt(s, pat, k) && !Contains(s[n + |pat|..k], pat)
    ensures |Split(s, pat)| > 1 && Split(s, pat)[1] == s[n + |pat|..k]
  {
    NextOccurrenceOfHeadUnique(s, pat, 0, n);
    NextOccurrenceOfHeadUnique(s, pat, n + |pat|, k);
    SplitSecondPiece(s, pat, n);
  }

  /** In `h + pat + mid + pat + tail`, with neither `h` nor `mid` holding `pat`, and
      the first character of `pat` occurring nowhere else in it, the second piece of
      the split is `mid` (either of `h` and `mid` may be empty). */
  lemma {:induction false} SecondPieceOfHeadUnique(h: string, pat: string, mid: string, tail: string)
    requires |pat| > 0 && forall t :: 0 < t < |pat| ==> pat[t] != pat[0]
    requires !Contains(h, pat) && !Contains(mid, pat)
    ensures |Split(h + pat + mid + pat + tail, pat)| > 1
    ensures Split(h + pat + mid + pat + tail, pat)[1] == mid
  {
    FiveParts(h, pat, mid, tail);
    SecondPieceBetweenHeadUnique(h + pat + mid + pat + tail, pat, |h|, |h| + |pat| + |mid|);
  }

  /** When the first character of `pat` occurs nowhere else in it, and `tail` is
      free of `pat`, the last occurrence in `h + pat + tail` is the one after `h`. */
  lemma LastOccurrenceBeforeTail(h: string, pat: string, tail: string)
    requires |pat| > 0 && forall k :: 0 < k < |pat| ==> pat[k] != pat[0]
    requires !Contains(tail, pat)
    ensures FindLast(h + pat + tail, pat) == Some(|h|)
  {
    var s := h + pat + tail;
    var i := |h|;
    assert s[i..i + |pat|] == pat;
    assert OccursAt(s, pat, i);
    assert s[i + |pat|..] == tail;
    OccursAtSuffix(s, pat, i + |pat|);
    forall j: nat | i < j
      ensures !OccursAt(s, pat, j)
    {
      if j >= i + |pat| {
        assert OccursAt(s, pat, j) <==> OccursAt(tail, pat, j - i - |pat|);
      } else if j + |pat| <= |s| {
        assert s[j..j + |pat|][0] == s[j] == pat[j - i];
      }
    }
    assert Contains(s, pat);
  }
}
