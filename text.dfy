/**
  * The string primitives the docstring code relies on: Python's notion of
  * whitespace, `str.strip()`, `str.split(sep)` and `str.split(sep, 1)`.
  * Indices are used instead of slices wherever a property is stated, which
  * keeps the quantifiers simple.
  */
module Text {
  import opened Wrappers

  /** `str.isspace()` for one character: the characters Python treats as
      whitespace in `strip()` and in the `\s` regex class. */
  predicate IsSpace(c: char) {
    || c == ' '
    || ('\t' <= c <= '\r')
    || ('\U{1C}' <= c <= '\U{1F}')
    || c == '\U{85}' || c == '\U{A0}' || c == '\U{1680}'
    || ('\U{2000}' <= c <= '\U{200A}')
    || c == '\U{2028}' || c == '\U{2029}' || c == '\U{202F}'
    || c == '\U{205F}' || c == '\U{3000}'
  }

  /** Every character of `s[i..j]` is whitespace. */
  predicate SpaceBetween(s: string, i: nat, j: nat)
    requires i <= j <= |s|
  {
    forall k | i <= k < j :: IsSpace(s[k])
  }

  predicate AllSpace(s: string) {
    SpaceBetween(s, 0, |s|)
  }

  /** The first index at or after `i` that is not whitespace (or `|s|`). */
  function SkipSpace(s: string, i: nat): (j: nat)
    requires i <= |s|
    ensures i <= j <= |s|
    ensures SpaceBetween(s, i, j)
    ensures j < |s| ==> !IsSpace(s[j])
    decreases |s| - i
  {
    if i < |s| && IsSpace(s[i]) then SkipSpace(s, i + 1) else i
  }

  /** The smallest index `i >= lo` such that `s[i..j]` is all whitespace. */
  function SkipSpaceBack(s: string, lo: nat, j: nat): (i: nat)
    requires lo <= j <= |s|
    ensures lo <= i <= j
    ensures SpaceBetween(s, i, j)
    ensures lo < i ==> !IsSpace(s[i - 1])
    decreases j
  {
    if lo < j && IsSpace(s[j - 1]) then SkipSpaceBack(s, lo, j - 1) else j
  }

  /** Where the stripped text of `s` begins: after its leading whitespace. */
  function StripStart(s: string): (i: nat)
    ensures i <= |s| && SpaceBetween(s, 0, i)
    ensures i < |s| ==> !IsSpace(s[i])
  {
    SkipSpace(s, 0)
  }

  /** Where the stripped text of `s` ends: before its trailing whitespace. */
  function StripEnd(s: string): (j: nat)
    ensures StripStart(s) <= j <= |s| && SpaceBetween(s, j, |s|)
    ensures StripStart(s) < j ==> !IsSpace(s[j - 1])
  {
    SkipSpaceBack(s, StripStart(s), |s|)
  }

  /** `str.strip()`: the infix of `s` left after removing the leading and the
      trailing whitespace. */
  function Strip(s: string): (r: string)
    ensures |r| <= |s|
    ensures r == [] || (!IsSpace(r[0]) && !IsSpace(r[|r| - 1]))
    ensures r == [] <==> AllSpace(s)
    ensures r == s[StripStart(s)..StripEnd(s)]
  {
    var i, j := StripStart(s), StripEnd(s);
    assert AllSpace(s) ==> i == |s|;
    s[i..j]
  }

  /** `Strip` is determined by its ensures: any infix with whitespace around it
      and non-whitespace at both of its ends is the stripped string. */
  lemma StripIsUnique(s: string, i: nat, j: nat)
    requires i < j <= |s|
    requires SpaceBetween(s, 0, i) && SpaceBetween(s, j, |s|)
    requires !IsSpace(s[i]) && !IsSpace(s[j - 1])
    ensures Strip(s) == s[i..j]
  {
    assert StripStart(s) == i;
    assert StripEnd(s) == j;
  }

  /** Stripping is idempotent. */
  lemma StripIdempotent(s: string)
    ensures Strip(Strip(s)) == Strip(s)
  {
    var r := Strip(s);
    if r != [] {
      StripIsUnique(r, 0, |r|);
    }
  }

  /** Whitespace placed around `x` keeps its whitespace runs whitespace. */
  lemma SpaceShift(w1: string, x: string, w2: string, i: nat, j: nat)
    requires i <= j <= |x|
    requires SpaceBetween(x, i, j)
    ensures SpaceBetween(w1 + x + w2, |w1| + i, |w1| + j)
  {
    var s := w1 + x + w2;
    forall k | |w1| + i <= k < |w1| + j ensures IsSpace(s[k]) {
      assert s[k] == x[k - |w1|];
    }
  }

  /** The padding itself is whitespace. */
  lemma PaddingIsSpace(w1: string, x: string, w2: string)
    requires AllSpace(w1) && AllSpace(w2)
    ensures SpaceBetween(w1 + x + w2, 0, |w1|)
    ensures SpaceBetween(w1 + x + w2, |w1| + |x|, |w1| + |x| + |w2|)
  {
    var s := w1 + x + w2;
    forall k | 0 <= k < |w1| ensures IsSpace(s[k]) { assert s[k] == w1[k]; }
    forall k | |w1| + |x| <= k < |s| ensures IsSpace(s[k]) {
      assert s[k] == w2[k - |w1| - |x|];
    }
  }

  /** Whitespace around a string does not change its stripped form. */
  lemma StripPadded(w1: string, x: string, w2: string)
    requires AllSpace(w1) && AllSpace(w2)
    ensures Strip(w1 + x + w2) == Strip(x)
  {
    var s := w1 + x + w2;
    var r := Strip(x);
    PaddingIsSpace(w1, x, w2);
    if r == [] {
      SpaceShift(w1, x, w2, 0, |x|);
      assert SpaceBetween(s, 0, |s|);
    } else {
      var i, j := StripStart(x), StripEnd(x);
      var a, b := |w1| + i, |w1| + j;
      SpaceShift(w1, x, w2, 0, i);
      SpaceShift(w1, x, w2, j, |x|);
      assert s[a..b] == r;
      assert s[a] == r[0] && s[b - 1] == r[|r| - 1];
      StripIsUnique(s, a, b);
    }
  }

  /** `w` occurs in `s` at position `i`. */
  predicate StartsAt(s: string, i: nat, w: string) {
    i + |w| <= |s| && s[i..i + |w|] == w
  }

  /** An occurrence of `a + b` is an occurrence of `a` followed by one of `b`. */
  lemma StartsAtConcat(s: string, i: nat, a: string, b: string)
    ensures StartsAt(s, i, a + b) <==> StartsAt(s, i, a) && StartsAt(s, i + |a|, b)
  {
    if StartsAt(s, i, a) && StartsAt(s, i + |a|, b) {
      assert s[i..i + |a + b|] == s[i..i + |a|] + s[i + |a|..i + |a| + |b|];
    }
    if StartsAt(s, i, a + b) {
      assert s[i..i + |a|] == (a + b)[..|a|];
      assert s[i + |a|..i + |a| + |b|] == (a + b)[|a|..];
    }
  }

  /** The first index at or after `from` holding `c`, or `|s|` if there is none. */
  function IndexOf(s: string, c: char, from: nat): (k: nat)
    requires from <= |s|
    ensures from <= k <= |s|
    ensures k < |s| ==> s[k] == c
    ensures forall j | from <= j < k :: s[j] != c
    decreases |s| - from
  {
    if from == |s| || s[from] == c then from else IndexOf(s, c, from + 1)
  }

  /** `IndexOf` finds the first occurrence, and `|s|` when there is none. */
  lemma IndexOfIs(s: string, c: char, from: nat, k: nat)
    requires from <= k <= |s|
    requires k < |s| ==> s[k] == c
    requires forall j | from <= j < k :: s[j] != c
    ensures IndexOf(s, c, from) == k
  {
  }

  /** The pieces `str.split(sep)` glues back together. */
  function Join(parts: seq<string>, sep: char): string
    requires |parts| >= 1
  {
    if |parts| == 1 then parts[0] else parts[0] + [sep] + Join(parts[1..], sep)
  }

  /** `str.split(sep)`: every maximal run between separators, so that `k`
      separators give `k + 1` pieces (an empty string gives `[""]`). */
  function Split(s: string, sep: char): (parts: seq<string>)
    ensures |parts| >= 1
    ensures forall p <- parts :: sep !in p
    ensures Join(parts, sep) == s
    decreases |s|
  {
    var k := IndexOf(s, sep, 0);
    if k == |s| then
      [s]
    else
      var rest := Split(s[k + 1..], sep);
      assert s == s[..k] + [sep] + s[k + 1..];
      [s[..k]] + rest
  }

  /** `Split` inverts `Join` when no piece holds the separator. */
  lemma {:induction false} SplitJoin(parts: seq<string>, sep: char)
    requires |parts| >= 1
    requires forall p <- parts :: sep !in p
    ensures Split(Join(parts, sep), sep) == parts
  {
    var s := Join(parts, sep);
    var p := parts[0];
    assert sep !in p;
    if |parts| == 1 {
      IndexOfIs(s, sep, 0, |s|);
    } else {
      var tail := Join(parts[1..], sep);
      assert s == p + [sep] + tail;
      assert s[|p|] == sep;
      assert forall j | 0 <= j < |p| :: s[j] == p[j];
      IndexOfIs(s, sep, 0, |p|);
      assert s[|p| + 1..] == tail;
      assert s[..|p|] == p;
      SplitJoin(parts[1..], sep);
    }
  }

  /** `str.split(sep, 1)`: the text before the first `sep` and the text after
      it, or `None` when `sep` does not occur. */
  function SplitOnce(s: string, sep: char): (r: Option<(string, string)>)
    ensures r.None? <==> sep !in s
    ensures r.Some? ==> r.value.0 + [sep] + r.value.1 == s && sep !in r.value.0
  {
    var k := IndexOf(s, sep, 0);
    if k == |s| then
      None
    else
      assert s == s[..k] + [sep] + s[k + 1..];
      Some((s[..k], s[k + 1..]))
  }

  /** The split point of `SplitOnce` is unique: the part before it is the
      longest prefix free of `sep`. */
  lemma SplitOnceUnique(a: string, sep: char, b: string)
    requires sep !in a
    ensures SplitOnce(a + [sep] + b, sep) == Some((a, b))
  {
    var s := a + [sep] + b;
    assert forall j | 0 <= j < |a| :: s[j] == a[j];
    assert s[|a|] == sep;
    IndexOfIs(s, sep, 0, |a|);
    assert s[..|a|] == a && s[|a| + 1..] == b;
  }
}
