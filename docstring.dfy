/**
  * `parse_google_format_docstring`. Its three regular expressions are
  * scanning functions here; the lemmas after them state the regular
  * expressions' own matching rules (leftmost match, greedy `\s*`, lazy
  * group) and prove that the scanners pick out the same text.
  */
module Docstring {
  import opened Wrappers
  import opened Errors
  import opened Text

  /** The outcome of parsing: the main description, the Args entries and the
      Returns text. */
  datatype Sections = Sections(description: string, args: map<string, string>, returnDoc: Option<string>)

  /** One of the words `ws` starts at `i`. */
  predicate AnyAt(s: string, i: nat, ws: seq<string>) {
    exists w <- ws :: StartsAt(s, i, w)
  }

  const SectionWords: seq<string> := ["Args:", "Returns:", "Raises:"]
  const ArgsEnd: seq<string> := ["Returns:", "Raises:"]
  const ReturnsEnd: seq<string> := ["Raises:"]
  const ArgsHeader: string := "Args:\n"
  const ReturnsHeader: string := "Returns:\n"

  /** The first position at or after `from` where one of `ws` starts, or
      `|s|` when there is none. */
  function FirstOf(s: string, from: nat, ws: seq<string>): (k: nat)
    requires from <= |s|
    ensures from <= k <= |s|
    ensures k < |s| ==> AnyAt(s, k, ws)
    ensures forall j | from <= j < k :: !AnyAt(s, j, ws)
    decreases |s| - from
  {
    if from == |s| || AnyAt(s, from, ws) then from else FirstOf(s, from + 1, ws)
  }

  /** A newline at `p` whose following whitespace run ends where `header`
      starts. */
  predicate HeaderAt(s: string, p: nat, header: string) {
    p < |s| && s[p] == '\n' && StartsAt(s, SkipSpace(s, p + 1), header)
  }

  /** The first `p >= from` with `HeaderAt(s, p, header)`. */
  function FindHeader(s: string, from: nat, header: string): (r: Option<nat>)
    requires from <= |s|
    ensures r.Some? ==> from <= r.value < |s| && HeaderAt(s, r.value, header)
    ensures r.Some? ==> forall j | from <= j < r.value :: !HeaderAt(s, j, header)
    ensures r.None? ==> forall j | from <= j < |s| :: !HeaderAt(s, j, header)
    decreases |s| - from
  {
    if from == |s| then None
    else if HeaderAt(s, from, header) then Some(from)
    else FindHeader(s, from + 1, header)
  }

  /** Group 1 of `description_re`, stripped: the text before the first
      section word. */
  function MainDescription(doc: string): string {
    Strip(doc[..FirstOf(doc, 0, SectionWords)])
  }

  /** Group 1 of `args_re` or `returns_re`, stripped: the text after the
      first header, its leading whitespace skipped, up to the whitespace
      before the first of `ends` (or before the end). */
  function Block(doc: string, header: string, ends: seq<string>): Option<string> {
    match FindHeader(doc, 0, header)
    case None => None
    case Some(p) =>
      var a := SkipSpace(doc, p + 1) + |header|;
      var g := SkipSpace(doc, a);
      var e := SkipSpaceBack(doc, g, FirstOf(doc, g, ends));
      Some(Strip(doc[g..e]))
  }

  function ArgsBlock(doc: string): Option<string> {
    Block(doc, ArgsHeader, ArgsEnd)
  }

  function ReturnsBlock(doc: string): Option<string> {
    Block(doc, ReturnsHeader, ReturnsEnd)
  }

  /** One line of the Args block: `line.split(":", 1)` unpacked into a name
      and a description, both stripped. */
  function ParseArgLine(line: string): (r: Result<(string, string), Error>)
    ensures r.Err? <==> ':' !in line
    ensures r.Err? ==> r.error == MalformedArgLine(line)
  {
    match SplitOnce(line, ':')
    case None => Err(MalformedArgLine(line))
    case Some((name, desc)) => Ok((Strip(name), Strip(desc)))
  }

  /** The map built by running `parse` over `lines` in order and writing
      each entry into it; the first line `parse` rejects ends it with its
      error. */
  function WriteAll(parse: string -> Result<(string, string), Error>, lines: seq<string>): Result<map<string, string>, Error>
    decreases |lines|
  {
    if lines == [] then
      Ok(map[])
    else
      var d :- WriteAll(parse, lines[..|lines| - 1]);
      var entry :- parse(lines[|lines| - 1]);
      Ok(d[entry.0 := entry.1])
  }

  /** `args_dict` once the loop has run over `lines`. */
  function ArgsDict(lines: seq<string>): Result<map<string, string>, Error> {
    WriteAll(ParseArgLine, lines)
  }

  /** The whole of `parse_google_format_docstring` as a function: what the
      method below computes. */
  function ParseDocstring(doc: string): Result<Sections, Error> {
    var args :- match ArgsBlock(doc)
                case None => Ok(map[])
                case Some(block) => ArgsDict(Split(block, '\n'));
    Ok(Sections(MainDescription(doc), args, ReturnsBlock(doc)))
  }

  /** A rejected line in a prefix decides the outcome of the whole loop. */
  lemma {:induction false} WriteAllPrefixError(parse: string -> Result<(string, string), Error>, lines: seq<string>, k: nat)
    requires k <= |lines|
    requires WriteAll(parse, lines[..k]).Err?
    ensures WriteAll(parse, lines) == WriteAll(parse, lines[..k])
    decreases |lines| - k
  {
    if k < |lines| {
      assert lines[..k + 1][..k] == lines[..k];
      WriteAllPrefixError(parse, lines, k + 1);
    } else {
      assert lines[..k] == lines;
    }
  }

  /** One more line of the loop. */
  lemma WriteAllStep(parse: string -> Result<(string, string), Error>, lines: seq<string>, i: nat,
                     d: map<string, string>, e: Result<(string, string), Error>)
    requires i < |lines| && WriteAll(parse, lines[..i]) == Ok(d)
    requires e == parse(lines[i])
    ensures WriteAll(parse, lines[..i + 1]) == if e.Err? then Err(e.error) else Ok(d[e.value.0 := e.value.1])
  {
    assert lines[..i + 1][..i] == lines[..i];
  }

  /** The loop over the lines of the Args block: each line is split by
      `parse` and written into the map. */
  method WriteEach(parse: string -> Result<(string, string), Error>, lines: seq<string>)
    returns (r: Result<map<string, string>, Error>)
    ensures r == WriteAll(parse, lines)
  {
    var argsDict: map<string, string> := map[];
    var i := 0;
    while i < |lines|
      invariant 0 <= i <= |lines|
      invariant WriteAll(parse, lines[..i]) == Ok(argsDict)
    {
      var entry := parse(lines[i]);
      WriteAllStep(parse, lines, i, argsDict, entry);
      if entry.Err? {
        WriteAllPrefixError(parse, lines, i + 1);
        return Err(entry.error);
      }
      argsDict := argsDict[entry.value.0 := entry.value.1];
      i := i + 1;
    }
    assert lines[..i] == lines;
    r := Ok(argsDict);
  }

  /** `parse_google_format_docstring`: the three regular expressions are
      the functions above, and the loop over the Args lines is `WriteEach`. */
  method ParseGoogleFormatDocstring(doc: string) returns (r: Result<Sections, Error>)
    ensures r == ParseDocstring(doc)
  {
    var description := MainDescription(doc);
    var args := ArgsBlock(doc);
    var returnDoc := ReturnsBlock(doc);
    var argsDict: map<string, string> := map[];
    if args.Some? {
      var parsed := WriteEach(ParseArgLine, Split(args.value, '\n'));
      if parsed.Err? {
        return Err(parsed.error);
      }
      argsDict := parsed.value;
    }
    return Ok(Sections(description, argsDict, returnDoc));
  }

  // ----- The regular expressions' own matching rules -----

  /** `[\n\s]*(w1|w2|...|\Z)` matches at `e`: a whitespace run from `e`
      ends at one of the words or at the end of the text. */
  ghost predicate TailAt(s: string, e: nat, ws: seq<string>) {
    exists j | e <= j <= |s| :: SpaceBetween(s, e, j) && (j == |s| || AnyAt(s, j, ws))
  }

  /** A lazy group `(.*?)` starting at `g` stops at `e`: the first place
      where the rest of the pattern matches. */
  ghost predicate LazyEnd(s: string, g: nat, e: nat, ws: seq<string>) {
    g <= e <= |s| && TailAt(s, e, ws) && forall e' | g <= e' < e :: !TailAt(s, e', ws)
  }

  /** A greedy `\s*` from `a` stops at `g`. */
  predicate GreedySpace(s: string, a: nat, g: nat) {
    a <= g <= |s| && SpaceBetween(s, a, g) && (g < |s| ==> !IsSpace(s[g]))
  }

  /** `\n\s*` followed by `header` matches from `p`, with the header at `q`. */
  predicate HeaderMatch(s: string, p: nat, q: nat, header: string) {
    p + 1 <= q <= |s| && s[p] == '\n' && SpaceBetween(s, p + 1, q) && StartsAt(s, q, header)
  }

  /** The leftmost match of `\n\s*HEADER\s*(.*?)[\n\s]*(END|\Z)` starts at
      `p`, has its header at `q`, and its group is `s[g..e]`. */
  ghost predicate SectionMatch(s: string, header: string, ends: seq<string>, p: nat, q: nat, g: nat, e: nat) {
    && HeaderMatch(s, p, q, header)
    && (forall p', q' | HeaderMatch(s, p', q', header) :: p <= p')
    && GreedySpace(s, q + |header|, g)
    && LazyEnd(s, g, e, ends)
  }

  /** The scanner's end point is the lazy group's end. */
  lemma LazyEndIs(s: string, g: nat, ws: seq<string>)
    requires g <= |s|
    ensures LazyEnd(s, g, SkipSpaceBack(s, g, FirstOf(s, g, ws)), ws)
  {
    var t := FirstOf(s, g, ws);
    var e := SkipSpaceBack(s, g, t);
    assert TailAt(s, e, ws) by {
      assert SpaceBetween(s, e, t) && (t == |s| || AnyAt(s, t, ws));
    }
    assert forall e' | g <= e' < e :: !TailAt(s, e', ws);
  }

  /** Trailing whitespace does not change the stripped text. */
  lemma StripDropsTrailing(s: string, g: nat, e: nat, t: nat)
    requires g <= e <= t <= |s| && SpaceBetween(s, e, t)
    ensures Strip(s[g..t]) == Strip(s[g..e])
  {
    var w := s[e..t];
    assert AllSpace(w) by {
      forall k | 0 <= k < |w| ensures IsSpace(w[k]) {
        assert w[k] == s[e + k];
      }
    }
    assert AllSpace([]);
    assert s[g..t] == [] + s[g..e] + w;
    StripPadded([], s[g..e], w);
  }

  /** A header that starts with a non-space character is found after the
      whitespace run, and only there. */
  lemma HeaderAtIff(s: string, p: nat, q: nat, header: string)
    requires |header| > 0 && !IsSpace(header[0])
    requires HeaderMatch(s, p, q, header)
    ensures HeaderAt(s, p, header) && SkipSpace(s, p + 1) == q
  {
    assert s[q] == header[0];
  }

  /** `description_re` always matches (its tail may be `\Z`); the main
      description is its lazy group, stripped. */
  lemma MainDescriptionIsRegexGroup(doc: string)
    ensures exists e: nat :: LazyEnd(doc, 0, e, SectionWords) && MainDescription(doc) == Strip(doc[..e])
  {
    var t := FirstOf(doc, 0, SectionWords);
    var e := SkipSpaceBack(doc, 0, t);
    LazyEndIs(doc, 0, SectionWords);
    StripDropsTrailing(doc, 0, e, t);
    assert doc[..t] == doc[0..t] && doc[..e] == doc[0..e];
  }

  /** `FindHeader` finds the leftmost start of `\n\s*HEADER`, and none
      when there is no match. */
  lemma FindHeaderIsLeftmost(s: string, header: string)
    requires |header| > 0 && !IsSpace(header[0])
    ensures FindHeader(s, 0, header).None? <==> forall p, q :: !HeaderMatch(s, p, q, header)
    ensures FindHeader(s, 0, header).Some? ==>
              var p := FindHeader(s, 0, header).value;
              && HeaderMatch(s, p, SkipSpace(s, p + 1), header)
              && forall p', q' | HeaderMatch(s, p', q', header) :: p <= p'
  {
    forall p, q | HeaderMatch(s, p, q, header) ensures HeaderAt(s, p, header) {
      HeaderAtIff(s, p, q, header);
    }
    if FindHeader(s, 0, header).Some? {
      var p := FindHeader(s, 0, header).value;
      assert HeaderMatch(s, p, SkipSpace(s, p + 1), header);
    }
  }

  /** `Block` once the header has been found at `p`. */
  lemma BlockAtHeader(s: string, header: string, ends: seq<string>)
    requires FindHeader(s, 0, header).Some?
    ensures var p := FindHeader(s, 0, header).value;
            var g := SkipSpace(s, SkipSpace(s, p + 1) + |header|);
            var e := SkipSpaceBack(s, g, FirstOf(s, g, ends));
            Block(s, header, ends) == Some(Strip(s[g..e]))
  {
  }

  /** The leftmost match starts at the header `FindHeader` finds, and its
      group spans what `Block` strips. */
  lemma LeftmostSection(s: string, header: string, ends: seq<string>)
    requires |header| > 0 && !IsSpace(header[0])
    requires FindHeader(s, 0, header).Some?
    ensures var p := FindHeader(s, 0, header).value;
            var q := SkipSpace(s, p + 1);
            var g := SkipSpace(s, q + |header|);
            var e := SkipSpaceBack(s, g, FirstOf(s, g, ends));
            SectionMatch(s, header, ends, p, q, g, e)
  {
    var p := FindHeader(s, 0, header).value;
    var g := SkipSpace(s, SkipSpace(s, p + 1) + |header|);
    LazyEndIs(s, g, ends);
    FindHeaderIsLeftmost(s, header);
  }

  /** The match found by `FindHeader` has `Block`'s text as its group. */
  lemma BlockIsMatchedGroup(s: string, header: string, ends: seq<string>)
    requires |header| > 0 && !IsSpace(header[0])
    requires FindHeader(s, 0, header).Some?
    ensures exists p: nat, q: nat, g: nat, e: nat {:trigger SectionMatch(s, header, ends, p, q, g, e)} :: SectionMatch(s, header, ends, p, q, g, e)
                                   && Block(s, header, ends).value == Strip(s[g..e])
  {
    LeftmostSection(s, header, ends);
    BlockAtHeader(s, header, ends);
  }

  /** `Block` is the stripped group of the leftmost match of the section
      pattern, and `None` exactly when the pattern does not match. */
  lemma BlockIsRegexGroup(s: string, header: string, ends: seq<string>)
    requires |header| > 0 && !IsSpace(header[0])
    ensures Block(s, header, ends).None? <==> forall p, q :: !HeaderMatch(s, p, q, header)
    ensures Block(s, header, ends).Some? ==>
              exists p: nat, q: nat, g: nat, e: nat {:trigger SectionMatch(s, header, ends, p, q, g, e)} :: SectionMatch(s, header, ends, p, q, g, e)
                                   && Block(s, header, ends).value == Strip(s[g..e])
  {
    FindHeaderIsLeftmost(s, header);
    if FindHeader(s, 0, header).Some? {
      BlockIsMatchedGroup(s, header, ends);
    }
  }

  lemma ArgsBlockIsRegexGroup(doc: string)
    ensures ArgsBlock(doc).None? <==> forall p, q :: !HeaderMatch(doc, p, q, ArgsHeader)
    ensures ArgsBlock(doc).Some? ==>
              exists p: nat, q: nat, g: nat, e: nat {:trigger SectionMatch(doc, ArgsHeader, ArgsEnd, p, q, g, e)} :: SectionMatch(doc, ArgsHeader, ArgsEnd, p, q, g, e)
                                   && ArgsBlock(doc).value == Strip(doc[g..e])
  {
    BlockIsRegexGroup(doc, ArgsHeader, ArgsEnd);
  }

  lemma ReturnsBlockIsRegexGroup(doc: string)
    ensures ReturnsBlock(doc).None? <==> forall p, q :: !HeaderMatch(doc, p, q, ReturnsHeader)
    ensures ReturnsBlock(doc).Some? ==>
              exists p: nat, q: nat, g: nat, e: nat {:trigger SectionMatch(doc, ReturnsHeader, ReturnsEnd, p, q, g, e)} :: SectionMatch(doc, ReturnsHeader, ReturnsEnd, p, q, g, e)
                                   && ReturnsBlock(doc).value == Strip(doc[g..e])
  {
    BlockIsRegexGroup(doc, ReturnsHeader, ReturnsEnd);
  }

  // ----- The Args lines -----

  /** The loop succeeds exactly when `parse` accepts every line. */
  lemma {:induction false} WriteAllOk(parse: string -> Result<(string, string), Error>, lines: seq<string>)
    ensures WriteAll(parse, lines).Ok? <==> forall i | 0 <= i < |lines| :: parse(lines[i]).Ok?
    decreases |lines|
  {
    if lines != [] {
      var n := |lines| - 1;
      WriteAllOk(parse, lines[..n]);
      assert forall i | 0 <= i < n :: lines[..n][i] == lines[i];
    }
  }

  /** The loop succeeds exactly when every line has a colon. */
  lemma ArgsDictOk(lines: seq<string>)
    ensures ArgsDict(lines).Ok? <==> forall i | 0 <= i < |lines| :: ':' in lines[i]
  {
    WriteAllOk(ParseArgLine, lines);
  }

  /** When the loop fails, the error is the one `parse` gives for the first
      line it rejects. */
  lemma {:induction false} WriteAllFirstError(parse: string -> Result<(string, string), Error>, lines: seq<string>)
    requires WriteAll(parse, lines).Err?
    ensures exists i | 0 <= i < |lines| :: && parse(lines[i]).Err?
                                          && (forall j | 0 <= j < i :: parse(lines[j]).Ok?)
                                          && WriteAll(parse, lines).error == parse(lines[i]).error
    decreases |lines|
  {
    var n := |lines| - 1;
    var init := lines[..n];
    assert forall j | 0 <= j < n :: lines[j] == init[j];
    if WriteAll(parse, init).Err? {
      WriteAllFirstError(parse, init);
      var i :| 0 <= i < n && parse(init[i]).Err? && (forall j | 0 <= j < i :: parse(init[j]).Ok?)
               && WriteAll(parse, init).error == parse(init[i]).error;
      assert parse(lines[i]).Err? && (forall j | 0 <= j < i :: parse(lines[j]).Ok?);
    } else {
      WriteAllOk(parse, init);
      assert forall j | 0 <= j < n :: parse(lines[j]).Ok?;
    }
  }

  /** When it fails, it reports the first line without a colon. */
  lemma ArgsDictFirstError(lines: seq<string>)
    requires ArgsDict(lines).Err?
    ensures exists i | 0 <= i < |lines| :: ':' !in lines[i]
                                          && (forall j | 0 <= j < i :: ':' in lines[j])
                                          && ArgsDict(lines).error == MalformedArgLine(lines[i])
  {
    WriteAllFirstError(ParseArgLine, lines);
    var i :| 0 <= i < |lines| && ParseArgLine(lines[i]).Err?
             && (forall j | 0 <= j < i :: ParseArgLine(lines[j]).Ok?)
             && ArgsDict(lines).error == ParseArgLine(lines[i]).error;
    assert ':' !in lines[i] && (forall j | 0 <= j < i :: ':' in lines[j]);
  }

  /** A map built by writing `entries` in order. */
  function Collect(entries: seq<(string, string)>): map<string, string>
    decreases |entries|
  {
    if entries == [] then map[]
    else
      var e := entries[|entries| - 1];
      Collect(entries[..|entries| - 1])[e.0 := e.1]
  }

  /** In `Collect`, the last entry for a key wins. */
  lemma CollectLastWins(entries: seq<(string, string)>, k: string)
    ensures k in Collect(entries) <==> exists i | 0 <= i < |entries| :: entries[i].0 == k
    ensures k in Collect(entries) ==>
              exists i | 0 <= i < |entries| ::
                && entries[i] == (k, Collect(entries)[k])
                && forall j | i < j < |entries| :: entries[j].0 != k
  {
    CollectKeys(entries, k);
    if k in Collect(entries) {
      var i := CollectLast(entries, k);
    }
  }

  /** A key is in `Collect(entries)` exactly when some entry has it. */
  lemma {:induction false} CollectKeys(entries: seq<(string, string)>, k: string)
    ensures k in Collect(entries) <==> exists i | 0 <= i < |entries| :: entries[i].0 == k
    decreases |entries|
  {
    if entries != [] {
      var n := |entries|;
      var init := entries[..n - 1];
      CollectKeys(init, k);
      assert forall i | 0 <= i < n - 1 :: init[i] == entries[i];
      if entries[n - 1].0 == k {
        assert entries[n - 1].0 == k;
      }
    }
  }

  /** The value `Collect` keeps for `k` is that of the last entry `i` with
      key `k`. */
  lemma {:induction false} CollectLast(entries: seq<(string, string)>, k: string) returns (i: nat)
    requires k in Collect(entries)
    ensures i < |entries| && entries[i] == (k, Collect(entries)[k])
    ensures forall j | i < j < |entries| :: entries[j].0 != k
    decreases |entries|
  {
    var n := |entries|;
    var init := entries[..n - 1];
    if entries[n - 1].0 == k {
      i := n - 1;
    } else {
      i := CollectLast(init, k);
      assert init[i] == entries[i];
      assert forall j | i < j < n - 1 :: init[j] == entries[j];
    }
  }

  /** When `parse` turns line `i` into `entries[i]`, the loop's map is
      `Collect(entries)` over the first `n` lines. */
  lemma {:induction false} WriteAllCollects(parse: string -> Result<(string, string), Error>,
                                            lines: seq<string>, entries: seq<(string, string)>, n: nat)
    requires n <= |lines| == |entries|
    requires forall i | 0 <= i < |lines| :: parse(lines[i]) == Ok(entries[i])
    ensures WriteAll(parse, lines[..n]) == Ok(Collect(entries[..n]))
  {
    if n > 0 {
      WriteAllCollects(parse, lines, entries, n - 1);
      WriteAllStep(parse, lines, n - 1, Collect(entries[..n - 1]), parse(lines[n - 1]));
      assert entries[..n][..n - 1] == entries[..n - 1];
    }
  }

  /** Later lines overwrite earlier ones: when line `i` parses to
      `entries[i]`, an argument is in the map exactly when some line names
      it, and its description is the one on the last such line. */
  lemma ArgsDictLastWins(lines: seq<string>, entries: seq<(string, string)>, k: string)
    requires |lines| == |entries|
    requires forall i | 0 <= i < |lines| :: ParseArgLine(lines[i]) == Ok(entries[i])
    ensures ArgsDict(lines).Ok?
    ensures k in ArgsDict(lines).value <==> exists i | 0 <= i < |entries| :: entries[i].0 == k
    ensures k in ArgsDict(lines).value ==>
              exists i | 0 <= i < |entries| ::
                && entries[i] == (k, ArgsDict(lines).value[k])
                && forall j | i < j < |entries| :: entries[j].0 != k
  {
    WriteAllCollects(ParseArgLine, lines, entries, |lines|);
    assert lines[..|lines|] == lines && entries[..|entries|] == entries;
    CollectLastWins(entries, k);
  }

  /** A line is split at its first colon, so a description may itself
      contain colons; both halves are stripped. */
  lemma ArgLineSplitsAtFirstColon(name: string, desc: string)
    requires ':' !in name
    ensures ParseArgLine(name + [':'] + desc) == Ok((Strip(name), Strip(desc)))
  {
    SplitOnceUnique(name, ':', desc);
  }

  /** Parsing a docstring fails exactly when it has an Args section one of
      whose lines (blank lines included) has no colon. */
  lemma ParseDocstringFails(doc: string)
    ensures ParseDocstring(doc).Err? <==>
              ArgsBlock(doc).Some? && exists l <- Split(ArgsBlock(doc).value, '\n') :: ':' !in l
  {
    if ArgsBlock(doc).Some? {
      var lines := Split(ArgsBlock(doc).value, '\n');
      ArgsDictOk(lines);
      if exists l <- lines :: ':' !in l {
        var l :| l in lines && ':' !in l;
        var i :| 0 <= i < |lines| && lines[i] == l;
      }
    }
  }

  /** An Args header with nothing under it is an error: its block is the
      empty string, which splits into one empty line without a colon. */
  lemma EmptyArgsSectionFails(doc: string)
    requires ArgsBlock(doc) == Some("")
    ensures ParseDocstring(doc) == Err(MalformedArgLine(""))
  {
    assert Split("", '\n') == [""];
    assert [""][..0] == [];
  }
}
