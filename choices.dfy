/**
  * The `(choices: ...)` annotation at the end of an argument description:
  * the search with the pattern `\(choices:\s*([^)]+)\)\s*$` under
  * `re.IGNORECASE`, the decoding of its group with `json.loads`, the
  * stripping of each choice, and the shortened description.
  */
module Choices {
  import opened Wrappers
  import opened Errors
  import opened Text
  import opened Json

  const Keyword: string := "choices:"

  /** The character `c` of the text matches the pattern character `p` under
      `re.IGNORECASE`: either case of an ASCII letter, and also the dotted
      capital and dotless small I for `i` and the long s for `s`. */
  predicate FoldsTo(p: char, c: char) {
    if 'a' <= p <= 'z' then
      || c == p
      || c as int == p as int - 32
      || (p == 'i' && (c == '\U{130}' || c == '\U{131}'))
      || (p == 's' && c == '\U{17F}')
    else
      c == p
  }

  /** `\(choices:` matches at `m`. */
  predicate HeadAt(s: string, m: nat) {
    m + 9 <= |s| && s[m] == '(' && forall k | 0 <= k < 8 :: FoldsTo(Keyword[k], s[m + 1 + k])
  }

  /** The whole pattern matches at `m`: after the head, the first `)` is
      not the very next character and only whitespace follows it. */
  predicate MatchAt(s: string, m: nat) {
    && HeadAt(s, m)
    && var c := IndexOf(s, ')', m + 9);
       m + 9 < c < |s| && SpaceBetween(s, c + 1, |s|)
  }

  /** The first `m >= from` at which the pattern matches. */
  function FindMatch(s: string, from: nat): (r: Option<nat>)
    requires from <= |s|
    ensures r.Some? ==> from <= r.value < |s| && MatchAt(s, r.value)
    ensures r.Some? ==> forall m | from <= m < r.value :: !MatchAt(s, m)
    ensures r.None? ==> forall m | from <= m < |s| :: !MatchAt(s, m)
    decreases |s| - from
  {
    if from == |s| then None
    else if MatchAt(s, from) then Some(from)
    else FindMatch(s, from + 1)
  }

  /** Where group 1 starts: after the whitespace that follows the head, but
      leaving at least one character for `[^)]+`. */
  function GroupStart(s: string, m: nat): (g: nat)
    requires MatchAt(s, m)
    ensures m + 9 <= g < IndexOf(s, ')', m + 9)
  {
    var c := IndexOf(s, ')', m + 9);
    var g := SkipSpace(s, m + 9);
    if g == c then c - 1 else g
  }

  /** An argument description after the choices are taken out of it. */
  datatype Annotated = Annotated(choices: Option<seq<string>>, description: string)

  /** `[c.strip() for c in items]` */
  function StripAll(items: seq<string>): (r: seq<string>)
    ensures |r| == |items| && forall i | 0 <= i < |items| :: r[i] == Strip(items[i])
  {
    seq(|items|, i requires 0 <= i < |items| => Strip(items[i]))
  }

  /** The choices step of `get_json_schema` for one description. */
  function TakeChoices(desc: string): Result<Annotated, Error> {
    match FindMatch(desc, 0)
    case None => Ok(Annotated(None, desc))
    case Some(m) =>
      var group := desc[GroupStart(desc, m)..IndexOf(desc, ')', m + 9)];
      match DecodeStrings(group)
      case None => Err(BadChoices(group))
      case Some(items) => Ok(Annotated(Some(StripAll(items)), Strip(desc[..m])))
  }

  // ----- The pattern's own matching rules -----

  /** Python's `\s*$`: a whitespace run from `i` that ends at the end of the
      text or just before a final newline. */
  ghost predicate DollarAt(s: string, i: nat) {
    exists e | i <= e <= |s| :: SpaceBetween(s, i, e) && (e == |s| || (e + 1 == |s| && s[e] == '\n'))
  }

  /** `\(choices:\s*([^)]+)\)\s*$` can match at `m` with group `s[g..c]`. */
  ghost predicate PatternAt(s: string, m: nat, g: nat, c: nat) {
    && HeadAt(s, m)
    && m + 9 <= g < c < |s|
    && SpaceBetween(s, m + 9, g)
    && (forall k | g <= k < c :: s[k] != ')')
    && s[c] == ')'
    && DollarAt(s, c + 1)
  }

  /** `$` after a whitespace run is the same as whitespace to the end. */
  lemma DollarIsTrailingSpace(s: string, i: nat)
    requires i <= |s|
    ensures DollarAt(s, i) <==> SpaceBetween(s, i, |s|)
  {
    if SpaceBetween(s, i, |s|) {
      assert SpaceBetween(s, i, |s|) && |s| == |s|;
    }
  }

  /** A way to match at `m` ends at the first `)` after the head. */
  lemma PatternCloses(s: string, m: nat, g: nat, c: nat)
    requires PatternAt(s, m, g, c)
    ensures c == IndexOf(s, ')', m + 9)
  {
    assert forall k | m + 9 <= k < g :: s[k] != ')' by {
      forall k | m + 9 <= k < g ensures s[k] != ')' {
        assert IsSpace(s[k]);
      }
    }
    IndexOfIs(s, ')', m + 9, c);
  }

  /** `MatchAt` holds exactly where the pattern can match, and the greedy
      `\s*` then leaves the group at `GroupStart`. */
  lemma MatchAtIsPattern(s: string, m: nat)
    ensures MatchAt(s, m) <==> exists g: nat, c: nat :: PatternAt(s, m, g, c)
    ensures MatchAt(s, m) ==>
              var c := IndexOf(s, ')', m + 9);
              && PatternAt(s, m, GroupStart(s, m), c)
              && forall g: nat, c': nat | PatternAt(s, m, g, c') :: g <= GroupStart(s, m)
  {
    if MatchAt(s, m) {
      var c := IndexOf(s, ')', m + 9);
      var g := GroupStart(s, m);
      DollarIsTrailingSpace(s, c + 1);
      assert PatternAt(s, m, g, c);
      forall g': nat, c': nat | PatternAt(s, m, g', c') ensures g' <= g {
        PatternCloses(s, m, g', c');
      }
    }
    if exists g: nat, c: nat :: PatternAt(s, m, g, c) {
      var g: nat, c: nat :| PatternAt(s, m, g, c);
      PatternCloses(s, m, g, c);
      DollarIsTrailingSpace(s, c + 1);
    }
  }

  /** `TakeChoices` follows `re.search`: no annotation when the pattern
      matches nowhere; otherwise the leftmost match, with its group at
      `GroupStart`. */
  lemma TakeChoicesIsSearch(desc: string)
    ensures FindMatch(desc, 0).None? <==> forall m: nat, g: nat, c: nat :: !PatternAt(desc, m, g, c)
    ensures FindMatch(desc, 0).Some? ==>
              forall m': nat, g: nat, c: nat | PatternAt(desc, m', g, c) :: FindMatch(desc, 0).value <= m'
    ensures FindMatch(desc, 0).None? ==> TakeChoices(desc) == Ok(Annotated(None, desc))
  {
    forall m: nat, g: nat, c: nat | PatternAt(desc, m, g, c) ensures MatchAt(desc, m) {
      MatchAtIsPattern(desc, m);
    }
    if FindMatch(desc, 0).Some? {
      MatchAtIsPattern(desc, FindMatch(desc, 0).value);
    }
  }

  // ----- Annotations written by `json.dumps` -----

  const Head: string := "(choices: "

  /** `desc` holds `Head + e + ")"` at `m` and only whitespace after it. */
  predicate Laid(desc: string, m: nat, e: string) {
    && m + 11 + |e| <= |desc|
    && desc[m..m + 10] == Head
    && desc[m + 10..m + 10 + |e|] == e
    && desc[m + 10 + |e|] == ')'
    && SpaceBetween(desc, m + 11 + |e|, |desc|)
  }

  /** The first `)` after the head closes the annotation. */
  lemma CloseIsAfterGroup(desc: string, m: nat, e: string)
    requires Laid(desc, m, e) && ')' !in e
    ensures IndexOf(desc, ')', m + 9) == m + 10 + |e|
  {
    var c := m + 10 + |e|;
    forall j | m + 9 <= j < c ensures desc[j] != ')' {
      if j == m + 9 {
        assert desc[j] == desc[m..m + 10][9];
      } else {
        assert desc[j] == desc[m + 10..c][j - m - 10];
      }
    }
    IndexOfIs(desc, ')', m + 9, c);
  }

  /** The head of the annotation matches at `m`. */
  lemma HeadMatches(desc: string, m: nat, e: string)
    requires Laid(desc, m, e)
    ensures HeadAt(desc, m)
  {
    forall k | 0 <= k < 8 ensures FoldsTo(Keyword[k], desc[m + 1 + k]) {
      assert desc[m + 1 + k] == desc[m..m + 10][1 + k];
    }
    assert desc[m] == desc[m..m + 10][0];
  }

  /** The annotation matches at `m`, with `e` as its group. */
  lemma AnnotationGroup(desc: string, m: nat, e: string)
    requires Laid(desc, m, e) && ')' !in e
    requires e != [] && !IsSpace(e[0])
    ensures MatchAt(desc, m) && desc[GroupStart(desc, m)..IndexOf(desc, ')', m + 9)] == e
  {
    var c := m + 10 + |e|;
    HeadMatches(desc, m, e);
    CloseIsAfterGroup(desc, m, e);
    assert MatchAt(desc, m);
    assert desc[m + 9] == desc[m..m + 10][9];
    assert desc[m + 10] == desc[m + 10..c][0];
    assert SkipSpace(desc, m + 9) == m + 10;
  }

  /** `FindMatch` returns the leftmost match. */
  lemma {:induction false} FindMatchIs(s: string, from: nat, m: nat)
    requires from <= m < |s| && MatchAt(s, m)
    requires forall k | from <= k < m :: !MatchAt(s, k)
    ensures FindMatch(s, from) == Some(m)
    decreases m - from
  {
    if from < m {
      FindMatchIs(s, from + 1, m);
    }
  }

  /** Without an opening parenthesis before `m` there is no match there. */
  lemma NoMatchBefore(desc: string, m: nat)
    requires m <= |desc| && '(' !in desc[..m]
    ensures forall k | 0 <= k < m :: !MatchAt(desc, k)
  {
    forall k | 0 <= k < m ensures !HeadAt(desc, k) {
      assert desc[k] == desc[..m][k];
    }
  }

  /** The pieces of `pre + Head + e + ")" + w` sit where `Laid` says. */
  lemma Layout(pre: string, e: string, w: string)
    requires AllSpace(w)
    ensures var desc := pre + Head + e + ")" + w;
            Laid(desc, |pre|, e) && desc[..|pre|] == pre
  {
    var desc := pre + Head + e + ")" + w;
    var c := |pre| + 10 + |e|;
    assert desc[|pre|..|pre| + 10] == Head;
    assert desc[|pre| + 10..c] == e;
    forall k | c + 1 <= k < |desc| ensures IsSpace(desc[k]) {
      assert desc[k] == w[k - c - 1];
    }
  }

  /** `TakeChoices` once the match and its decoded group are known. */
  lemma TakeChoicesFound(desc: string, m: nat, e: string, items: seq<string>)
    requires FindMatch(desc, 0) == Some(m)
    requires desc[GroupStart(desc, m)..IndexOf(desc, ')', m + 9)] == e
    requires DecodeStrings(e) == Some(items)
    ensures TakeChoices(desc) == Ok(Annotated(Some(StripAll(items)), Strip(desc[..m])))
  {
  }

  /** With no `(` before it, the annotation is the leftmost match. */
  lemma AnnotationFound(desc: string, m: nat, e: string)
    requires Laid(desc, m, e) && '(' !in desc[..m] && ')' !in e
    requires e != [] && !IsSpace(e[0])
    ensures FindMatch(desc, 0) == Some(m)
    ensures desc[GroupStart(desc, m)..IndexOf(desc, ')', m + 9)] == e
  {
    AnnotationGroup(desc, m, e);
    NoMatchBefore(desc, m);
    FindMatchIs(desc, 0, m);
  }

  /** A description `pre + "(choices: " + json.dumps(xs) + ")" + w`, with no
      `(` in `pre`, no `)` in any choice and only whitespace in `w`, gives
      back the stripped choices; the description keeps the stripped `pre`.
      An earlier `(` or a `)` inside a choice can move or break the match;
      `TakeChoicesIsSearch` covers those layouts. */
  lemma AnnotationRoundTrip(pre: string, xs: seq<string>, w: string)
    requires '(' !in pre
    requires forall x <- xs :: ')' !in x
    requires AllSpace(w)
    ensures TakeChoices(pre + Head + EncodeStrings(xs) + ")" + w)
            == Ok(Annotated(Some(StripAll(xs)), Strip(pre)))
  {
    var e := EncodeStrings(xs);
    var desc := pre + Head + e + ")" + w;
    EncodeStringsParenFree(xs);
    assert e[0] == '[';
    Layout(pre, e, w);
    AnnotationFound(desc, |pre|, e);
    DecodeEncodeStrings(xs);
    TakeChoicesFound(desc, |pre|, e, xs);
  }
}
