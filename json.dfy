/**
  * The part of `json.loads` that a `(choices: ...)` annotation exercises,
  * followed by iteration over the decoded value: a JSON array whose
  * elements are all strings yields those strings, and a JSON string yields
  * its characters one by one. `EncodeStrings` writes a list the way
  * `json.dumps` does, and the round-trip lemmas connect the two.
  */
module Json {
  import opened Wrappers
  import opened Text

  /** The whitespace JSON allows between tokens. */
  predicate IsJsonSpace(c: char) {
    c == ' ' || c == '\t' || c == '\n' || c == '\r'
  }

  /** The value of one hexadecimal digit, either case. */
  function HexDigit(c: char): (r: Option<nat>)
    ensures r.Some? ==> r.value < 16
  {
    if '0' <= c <= '9' then Some(c as nat - '0' as nat)
    else if 'a' <= c <= 'f' then Some(c as nat - 'a' as nat + 10)
    else if 'A' <= c <= 'F' then Some(c as nat - 'A' as nat + 10)
    else None
  }

  /** The value of the four hexadecimal digits that start `s`. */
  function Hex4(s: string): (r: Option<nat>)
    requires |s| >= 4
    ensures r.Some? ==> r.value < 0x1_0000
  {
    var a :- HexDigit(s[0]);
    var b :- HexDigit(s[1]);
    var c :- HexDigit(s[2]);
    var d :- HexDigit(s[3]);
    Some(((a * 16 + b) * 16 + c) * 16 + d)
  }

  predicate IsHighSurrogate(v: nat) { 0xD800 <= v <= 0xDBFF }
  predicate IsLowSurrogate(v: nat) { 0xDC00 <= v <= 0xDFFF }

  /** The escape sequence that starts `s` (at its backslash): the character
      it stands for and the text after it. A surrogate pair written as two
      `\u` escapes gives one character; a lone surrogate is rejected. */
  function Escape(s: string): (r: Option<(char, string)>)
    requires |s| >= 1 && s[0] == '\\'
    ensures r.Some? ==> |r.value.1| <= |s| - 2
  {
    if |s| == 1 then None
    else
      match s[1]
      case '"' => Some(('"', s[2..]))
      case '\\' => Some(('\\', s[2..]))
      case '/' => Some(('/', s[2..]))
      case 'b' => Some(('\U{8}', s[2..]))
      case 'f' => Some(('\U{C}', s[2..]))
      case 'n' => Some(('\n', s[2..]))
      case 'r' => Some(('\r', s[2..]))
      case 't' => Some(('\t', s[2..]))
      case 'u' =>
        if |s| < 6 then None
        else
          var v :- Hex4(s[2..]);
          if IsHighSurrogate(v) then
            if |s| >= 12 && s[6] == '\\' && s[7] == 'u' then
              var w :- Hex4(s[8..]);
              if IsLowSurrogate(w) then
                Some(((0x1_0000 + (v - 0xD800) * 0x400 + (w - 0xDC00)) as char, s[12..]))
              else None
            else None
          else if IsLowSurrogate(v) then None
          else Some((v as char, s[6..]))
      case _ => None
  }

  /** The body of a JSON string (the text after its opening quote): the
      characters it denotes and the text after its closing quote. Unescaped
      control characters are rejected. */
  function ScanString(s: string): (r: Option<(string, string)>)
    ensures r.Some? ==> |r.value.1| < |s|
    decreases |s|
  {
    if s == [] then None
    else if s[0] == '"' then Some(([], s[1..]))
    else if s[0] == '\\' then
      var (c, t) :- Escape(s);
      var (rest, u) :- ScanString(t);
      Some(([c] + rest, u))
    else if s[0] < ' ' then None
    else
      var (rest, u) :- ScanString(s[1..]);
      Some(([s[0]] + rest, u))
  }

  /** `s` with its leading JSON whitespace removed. */
  function TrimJsonSpace(s: string): (r: string)
    ensures |r| <= |s| && r == s[|s| - |r|..]
    ensures r != [] ==> !IsJsonSpace(r[0])
    ensures forall j | 0 <= j < |s| - |r| :: IsJsonSpace(s[j])
    decreases |s|
  {
    if s != [] && IsJsonSpace(s[0]) then
      var r := TrimJsonSpace(s[1..]);
      assert s[1..][|s| - 1 - |r|..] == s[|s| - |r|..];
      r
    else s
  }

  /** Text that starts with a non-space is left alone. */
  lemma TrimNothing(s: string)
    requires s != [] && !IsJsonSpace(s[0])
    ensures TrimJsonSpace(s) == s
  {
  }

  /** One leading space is removed. */
  lemma TrimOneSpace(s: string)
    requires s != [] && !IsJsonSpace(s[0])
    ensures TrimJsonSpace(" " + s) == s
  {
    assert (" " + s)[1..] == s;
  }

  /** The elements of a JSON array from its first element up to and
      including the closing bracket, when every element is a string; with
      the text after the bracket. */
  function ScanItems(s: string): (r: Option<(seq<string>, string)>)
    ensures r.Some? ==> |r.value.1| < |s| && |r.value.0| >= 1
    decreases |s|
  {
    if s == [] || s[0] != '"' then None
    else
      var (x, t) :- ScanString(s[1..]);
      var u := TrimJsonSpace(t);
      if u != [] && u[0] == ']' then Some(([x], u[1..]))
      else if u != [] && u[0] == ',' then
        var (xs, v) :- ScanItems(TrimJsonSpace(u[1..]));
        Some(([x] + xs, v))
      else None
  }

  /** Iterating over a string yields its characters, as strings of length one. */
  function Chars(x: string): seq<string> {
    seq(|x|, i requires 0 <= i < |x| => [x[i]])
  }

  /** A JSON string value from just after its opening quote, with nothing
      but whitespace after it: its characters. */
  function DecodeStringValue(s: string): Option<seq<string>> {
    var (x, t) :- ScanString(s);
    if TrimJsonSpace(t) == [] then Some(Chars(x)) else None
  }

  /** A JSON array value from just after its opening bracket, with nothing
      but whitespace after it: its elements, when all are strings. */
  function DecodeArray(s: string): Option<seq<string>> {
    var u := TrimJsonSpace(s);
    var (xs, t) :- if u != [] && u[0] == ']' then Some(([], u[1..])) else ScanItems(u);
    if TrimJsonSpace(t) == [] then Some(xs) else None
  }

  /** What iterating over `json.loads(text)` yields, when every item is a
      string; `None` when `text` is not JSON or its items are not strings. */
  function DecodeStrings(text: string): Option<seq<string>> {
    var s := TrimJsonSpace(text);
    if s == [] then None
    else if s[0] == '"' then DecodeStringValue(s[1..])
    else if s[0] == '[' then DecodeArray(s[1..])
    else None
  }

  // ----- Encoding, as `json.dumps(..., ensure_ascii=False)` writes it -----

  function HexChar(d: nat): char
    requires d < 16
  {
    if d < 10 then ('0' as nat + d) as char else ('a' as nat + d - 10) as char
  }

  /** One character inside a JSON string literal. */
  function EscapeChar(c: char): (r: string)
    ensures |r| >= 1
  {
    if c == '"' then "\\\""
    else if c == '\\' then "\\\\"
    else if c == '\n' then "\\n"
    else if c == '\r' then "\\r"
    else if c == '\t' then "\\t"
    else if c == '\U{8}' then "\\b"
    else if c == '\U{C}' then "\\f"
    else if c < ' ' then "\\u00" + [HexChar(c as nat / 16), HexChar(c as nat % 16)]
    else [c]
  }

  function EncodeChars(x: string): string {
    if x == [] then [] else EscapeChar(x[0]) + EncodeChars(x[1..])
  }

  /** A JSON string literal for `x`. */
  function Quote(x: string): string {
    "\"" + EncodeChars(x) + "\""
  }

  /** The items of a JSON array, separated as `json.dumps` separates them. */
  function JoinQuoted(xs: seq<string>): string {
    if xs == [] then ""
    else if |xs| == 1 then Quote(xs[0])
    else Quote(xs[0]) + ", " + JoinQuoted(xs[1..])
  }

  /** A JSON array of the strings `xs`. */
  function EncodeStrings(xs: seq<string>): string {
    "[" + JoinQuoted(xs) + "]"
  }

  // ----- Round trips -----

  lemma HexRoundTrip(d: nat)
    requires d < 16
    ensures HexDigit(HexChar(d)) == Some(d)
  {
  }

  /** An escape written by `EscapeChar` is read back by `Escape`. */
  lemma EscapeOf(c: char, t: string)
    requires EscapeChar(c)[0] == '\\'
    ensures Escape(EscapeChar(c) + t) == Some((c, t))
  {
    var e := EscapeChar(c);
    var s := e + t;
    if c == '"' || c == '\\' || c == '\n' || c == '\r' || c == '\t' || c == '\U{8}' || c == '\U{C}' {
      assert s[2..] == t;
    } else {
      var hi := c as nat / 16;
      var lo := c as nat % 16;
      HexRoundTrip(hi);
      HexRoundTrip(lo);
      assert s[2..][..4] == ['0', '0', HexChar(hi), HexChar(lo)];
      assert Hex4(s[2..]) == Some(c as nat);
      assert s[6..] == t;
    }
  }

  /** Scanning over one escaped character. */
  lemma ScanEscapedChar(c: char, t: string)
    ensures ScanString(EscapeChar(c) + t) == match ScanString(t)
                                             case None => None
                                             case Some((rest, u)) => Some(([c] + rest, u))
  {
    var e := EscapeChar(c);
    if e[0] == '\\' {
      EscapeOf(c, t);
    } else {
      assert e == [c];
      assert (e + t)[1..] == t;
    }
  }

  /** Scanning an encoded string stops at its closing quote and gives the
      string back with the text after the quote. */
  lemma {:induction false} ScanEncoded(x: string, t: string)
    ensures ScanString(EncodeChars(x) + "\"" + t) == Some((x, t))
    decreases |x|
  {
    if x == [] {
      assert (EncodeChars(x) + "\"" + t)[1..] == t;
    } else {
      var u := EncodeChars(x[1..]) + "\"" + t;
      assert EncodeChars(x) + "\"" + t == EscapeChar(x[0]) + u;
      ScanEncoded(x[1..], t);
      ScanEscapedChar(x[0], u);
      assert [x[0]] + x[1..] == x;
    }
  }

  /** What follows the first item of an encoded list. */
  function AfterFirst(xs: seq<string>, t: string): string
    requires xs != []
  {
    if |xs| == 1 then "]" + t else ", " + (JoinQuoted(xs[1..]) + "]" + t)
  }

  lemma ItemsShape(xs: seq<string>, t: string)
    requires xs != []
    ensures JoinQuoted(xs) + "]" + t == "\"" + (EncodeChars(xs[0]) + "\"" + AfterFirst(xs, t))
  {
  }

  /** The first item of a list is scanned, then a closing bracket ends it. */
  lemma ScanLastItem(x: string, t: string)
    ensures ScanItems("\"" + (EncodeChars(x) + "\"" + ("]" + t))) == Some(([x], t))
  {
    var s := "\"" + (EncodeChars(x) + "\"" + ("]" + t));
    assert s[1..] == EncodeChars(x) + "\"" + ("]" + t);
    ScanEncoded(x, "]" + t);
    TrimNothing("]" + t);
    assert ("]" + t)[1..] == t;
  }

  /** The first item of a list is scanned, then a comma and a space lead to
      the next one. */
  lemma ScanNextItem(x: string, more: string)
    requires more != [] && more[0] == '"'
    ensures ScanItems("\"" + (EncodeChars(x) + "\"" + (", " + more)))
            == match ScanItems(more)
               case None => None
               case Some((xs, v)) => Some(([x] + xs, v))
  {
    var s := "\"" + (EncodeChars(x) + "\"" + (", " + more));
    assert s[1..] == EncodeChars(x) + "\"" + (", " + more);
    ScanEncoded(x, ", " + more);
    TrimNothing(", " + more);
    assert (", " + more)[1..] == " " + more;
    TrimOneSpace(more);
  }

  /** Scanning the items of an encoded non-empty list. */
  lemma {:induction false} ScanItemsEncoded(xs: seq<string>, t: string)
    requires xs != []
    ensures ScanItems(JoinQuoted(xs) + "]" + t) == Some((xs, t))
    decreases |xs|
  {
    ItemsShape(xs, t);
    if |xs| == 1 {
      assert AfterFirst(xs, t) == "]" + t;
      ScanLastItem(xs[0], t);
      assert [xs[0]] == xs;
    } else {
      var more := JoinQuoted(xs[1..]) + "]" + t;
      ItemsShape(xs[1..], t);
      ScanNextItem(xs[0], more);
      ScanItemsEncoded(xs[1..], t);
      assert [xs[0]] + xs[1..] == xs;
    }
  }

  /** The array body of an encoded list decodes to the list. */
  lemma DecodeArrayEncoded(xs: seq<string>)
    ensures DecodeArray(JoinQuoted(xs) + "]") == Some(xs)
  {
    var body := JoinQuoted(xs) + "]";
    if xs == [] {
      assert body == "]";
      TrimNothing(body);
      assert body[1..] == "";
    } else {
      ItemsShape(xs, "");
      assert body == JoinQuoted(xs) + "]" + "";
      TrimNothing(body);
      ScanItemsEncoded(xs, "");
    }
  }

  /** `json.loads(json.dumps(xs))` gives `xs` back. */
  lemma DecodeEncodeStrings(xs: seq<string>)
    ensures DecodeStrings(EncodeStrings(xs)) == Some(xs)
  {
    var text := EncodeStrings(xs);
    TrimNothing(text);
    assert text[1..] == JoinQuoted(xs) + "]";
    DecodeArrayEncoded(xs);
  }

  /** A JSON string decodes to its characters. */
  lemma DecodeQuote(x: string)
    ensures DecodeStrings(Quote(x)) == Some(Chars(x))
  {
    var text := Quote(x);
    TrimNothing(text);
    assert text[1..] == EncodeChars(x) + "\"" + "";
    ScanEncoded(x, "");
    assert DecodeStringValue(text[1..]) == Some(Chars(x));
  }

  /** No escape writes a closing parenthesis unless the character is one. */
  lemma {:induction false} EncodeCharsParenFree(x: string)
    requires ')' !in x
    ensures ')' !in EncodeChars(x)
    decreases |x|
  {
    if x != [] {
      EncodeCharsParenFree(x[1..]);
      var c := x[0];
      var e := EscapeChar(c);
      if c < ' ' && c != '\n' && c != '\r' && c != '\t' && c != '\U{8}' && c != '\U{C}' {
        assert e == "\\u00" + [HexChar(c as nat / 16), HexChar(c as nat % 16)];
      }
      assert ')' !in e;
    }
  }

  /** A list of strings without closing parentheses encodes without one,
      so the whole encoding fits the `[^)]+` group of a choices annotation. */
  lemma {:induction false} EncodeStringsParenFree(xs: seq<string>)
    requires forall x <- xs :: ')' !in x
    ensures ')' !in EncodeStrings(xs)
  {
    JoinQuotedParenFree(xs);
  }

  lemma {:induction false} JoinQuotedParenFree(xs: seq<string>)
    requires forall x <- xs :: ')' !in x
    ensures ')' !in JoinQuoted(xs)
    decreases |xs|
  {
    if xs != [] {
      EncodeCharsParenFree(xs[0]);
      assert ')' !in Quote(xs[0]);
      if |xs| > 1 {
        JoinQuotedParenFree(xs[1..]);
      }
    }
  }
}
