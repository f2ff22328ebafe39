/** `parse_directory_value` of scripts/ci/check-dependabot-directories.py. */
module YamlScalar {
  import opened Text
  import opened Braces

  // ---------------------------------------------------------------- the code

  /** Offset of the quote that ends the scalar, or -1. */
  function CloseQuote(s: string, quote: char, escaped: bool): (r: int)
    ensures -1 <= r < |s|
  {
    if s == "" then -1
    else if quote == '"' && s[0] == '\\' && !escaped then Shift(1, CloseQuote(s[1..], quote, true))
    else if s[0] == quote && !escaped then 0
    else Shift(1, CloseQuote(s[1..], quote, false))
  }

  /** Python's `s.replace(ab, c)` for a two-character pattern. */
  function ReplacePair(s: string, a: char, b: char, c: char): string {
    if |s| < 2 then s
    else if s[0] == a && s[1] == b then [c] + ReplacePair(s[2..], a, b, c)
    else [s[0]] + ReplacePair(s[1..], a, b, c)
  }

  /** The script's two successive global replacements. */
  function TwoPasses(s: string): string {
    ReplacePair(ReplacePair(s, '\\', '\\', '\\'), '\\', '"', '"')
  }

  function ParseQuoted(value: string): string
    requires value != ""
  {
    var quote := value[0];
    var k := CloseQuote(value[1..], quote, false);
    if k < 0 then ""
    else
      var trailing := Trim(Python, value[k + 2..]);
      if trailing != "" && trailing[0] != '#' then ""
      else
        var body := value[1..k + 1];
        if quote == '"' then TwoPasses(body) else body
  }

  function Parse(raw: string): string {
    var value := Trim(Python, raw);
    if value == "" then ""
    else if value[0] != '"' && value[0] != '\'' then Trim(Python, value[..IndexOf(value, '#')])
    else ParseQuoted(value)
  }

  method ParseDirectoryValue(raw: string) returns (parsed: string)
    ensures parsed == Parse(raw)
  {
    var value := Trim(Python, raw);
    if value == "" { return ""; }
    if value[0] != '"' && value[0] != '\'' {
      return Trim(Python, value[..IndexOf(value, '#')]);
    }
    var quote := value[0];
    if |value| < 2 { return ""; }
    var closing := ScanForQuote(value, quote);
    if closing == -1 { return ""; }
    var trailing := Trim(Python, value[closing + 1..]);
    if trailing != "" && trailing[0] != '#' { return ""; }
    parsed := value[1..closing];
    if quote == '"' {
      parsed := ReplacePair(ReplacePair(parsed, '\\', '\\', '\\'), '\\', '"', '"');
    }
  }

  method ScanForQuote(value: string, quote: char) returns (closing: int)
    requires value != ""
    ensures var k := CloseQuote(value[1..], quote, false); closing == if k < 0 then -1 else k + 1
  {
    closing := -1;
    var escaped := false;
    var index := 1;
    while index < |value|
      invariant 1 <= index <= |value|
      invariant CloseQuote(value[1..], quote, false)
             == Shift(index - 1, CloseQuote(value[index..], quote, escaped))
    {
      var ch := value[index];
      assert value[index..][1..] == value[index + 1..];
      if quote == '"' && ch == '\\' && !escaped {
        escaped := true;
      } else {
        if ch == quote && !escaped {
          return index;
        }
        escaped := false;
      }
      index := index + 1;
    }
  }

  // ------------------------------------------ one-pass unescaping, for reference

  /** Left to right, `\\` stands for a backslash and `\"` for a quote. */
  function Unescape(s: string): string {
    if s == "" then ""
    else if |s| >= 2 && s[0] == '\\' && (s[1] == '\\' || s[1] == '"') then [s[1]] + Unescape(s[2..])
    else [s[0]] + Unescape(s[1..])
  }

  /** Every quote in the text is escaped. */
  predicate QuotesEscaped(s: string) {
    CloseQuote(s, '"', false) == -1
  }

  lemma ReplacePairFirst(s: string, a: char, b: char, c: char)
    requires s != ""
    ensures var r := ReplacePair(s, a, b, c);
            r != "" && (r[0] == s[0] || (s[0] == a && r[0] == c))
  {
  }

  lemma ReplacePairKeeps(s: string, a: char, b: char, c: char)
    requires s != "" && (s[0] != a || |s| == 1 || s[1] != b)
    ensures ReplacePair(s, a, b, c) == [s[0]] + ReplacePair(s[1..], a, b, c)
  {
    if |s| == 1 { assert s == [s[0]] + s[1..]; }
  }

  /** On text whose quotes are all escaped, the two passes equal one left-to-right pass. */
  lemma {:induction false} TwoPassesIsUnescape(s: string)
    requires QuotesEscaped(s)
    ensures TwoPasses(s) == Unescape(s)
    decreases |s|
  {
    if |s| < 2 {
      if |s| == 1 { assert s == [s[0]] + ""; }
    } else if s[0] != '\\' {
      TwoPassesIsUnescape(s[1..]);
      PlainStep(s);
    } else {
      assert CloseQuote(s[1..], '"', true) == Shift(1, CloseQuote(s[2..], '"', false)) by {
        assert s[1..][1..] == s[2..];
      }
      TwoPassesIsUnescape(s[2..]);
      EscapeStep(s);
    }
  }

  lemma PlainStep(s: string)
    requires |s| >= 2 && s[0] != '\\'
    ensures TwoPasses(s) == [s[0]] + TwoPasses(s[1..])
  {
    var p := ReplacePair(s[1..], '\\', '\\', '\\');
    assert ([s[0]] + p)[1..] == p;
    ReplacePairKeeps([s[0]] + p, '\\', '"', '"');
  }

  lemma EscapeStep(s: string)
    requires |s| >= 2 && s[0] == '\\' && QuotesEscaped(s[2..])
    ensures TwoPasses(s) == (if s[1] == '\\' || s[1] == '"' then [s[1]] else s[..2]) + TwoPasses(s[2..])
  {
    var p := ReplacePair(s[2..], '\\', '\\', '\\');
    if s[1] == '\\' {
      var q := ['\\'] + p;
      assert ReplacePair(s, '\\', '\\', '\\') == q;
      assert q[1..] == p;
      if s[2..] != "" {
        ReplacePairFirst(s[2..], '\\', '\\', '\\');
      }
      ReplacePairKeeps(q, '\\', '"', '"');
    } else {
      FirstPassOther(s);
      var q := [s[0], s[1]] + p;
      assert q[2..] == p && q[1..] == [s[1]] + p && ([s[1]] + p)[1..] == p;
      if s[1] != '"' {
        ReplacePairKeeps(q, '\\', '"', '"');
        ReplacePairKeeps([s[1]] + p, '\\', '"', '"');
      }
    }
  }

  lemma FirstPassOther(s: string)
    requires |s| >= 2 && s[0] == '\\' && s[1] != '\\'
    ensures ReplacePair(s, '\\', '\\', '\\') == [s[0], s[1]] + ReplacePair(s[2..], '\\', '\\', '\\')
  {
    ReplacePairKeeps(s, '\\', '\\', '\\');
    ReplacePairKeeps(s[1..], '\\', '\\', '\\');
    assert s[1..][1..] == s[2..];
  }

  /** The text before the first closing quote has all its quotes escaped. */
  lemma {:induction false} BodyQuotesEscaped(s: string, escaped: bool)
    requires CloseQuote(s, '"', escaped) >= 0
    ensures CloseQuote(s[..CloseQuote(s, '"', escaped)], '"', escaped) == -1
    decreases |s|
  {
    var k := CloseQuote(s, '"', escaped);
    if k > 0 {
      var next := s[0] == '\\' && !escaped;
      BodyQuotesEscaped(s[1..], next);
      assert s[..k][1..] == s[1..][..k - 1];
    }
  }

  /** Whenever a double-quoted scalar is accepted, its value is the one-pass unescaping
      of the text between the quotes. */
  lemma QuotedMeaning(value: string)
    requires value != "" && value[0] == '"'
    ensures var k := CloseQuote(value[1..], '"', false);
            && (k < 0 ==> ParseQuoted(value) == "")
            && (k >= 0 ==>
                  var tr := Trim(Python, value[k + 2..]);
                  ParseQuoted(value) ==
                  if tr != "" && tr[0] != '#' then "" else Unescape(value[1..k + 1]))
  {
    var k := CloseQuote(value[1..], '"', false);
    if k >= 0 {
      BodyQuotesEscaped(value[1..], false);
      assert value[1..][..k] == value[1..k + 1];
      TwoPassesIsUnescape(value[1..k + 1]);
    }
  }

  // ---------------------------------------------------------- writing a scalar

  function Escape(t: string): string {
    if t == "" then ""
    else (if t[0] == '\\' || t[0] == '"' then ['\\', t[0]] else [t[0]]) + Escape(t[1..])
  }

  lemma {:induction false} CloseQuoteEscaped(t: string, rest: string)
    ensures CloseQuote(Escape(t) + ['"'] + rest, '"', false) == |Escape(t)|
  {
    if t == "" {
      assert (Escape(t) + ['"'] + rest)[0] == '"';
    } else {
      var head := if t[0] == '\\' || t[0] == '"' then ['\\', t[0]] else [t[0]];
      var more := Escape(t[1..]) + ['"'] + rest;
      CloseQuoteEscaped(t[1..], rest);
      assert Escape(t) + ['"'] + rest == head + more;
      SkipOne(t[0], more);
    }
  }

  lemma SkipOne(c: char, more: string)
    ensures var head := if c == '\\' || c == '"' then ['\\', c] else [c];
            CloseQuote(head + more, '"', false) == Shift(|head|, CloseQuote(more, '"', false))
  {
    assert ([c] + more)[1..] == more;
    if c == '\\' || c == '"' {
      assert (['\\', c] + more)[1..] == [c] + more;
    }
  }

  lemma {:induction false} UnescapeEscape(t: string)
    ensures Unescape(Escape(t)) == t
  {
    if t != "" {
      UnescapeEscape(t[1..]);
      var e := Escape(t[1..]);
      if t[0] == '\\' || t[0] == '"' {
        assert (['\\', t[0]] + e)[2..] == e;
      } else {
        assert ([t[0]] + e)[1..] == e;
      }
    }
  }

  predicate Comment(c: string) {
    c == "" || (c[0] == '#' && !IsSpace(Python, c[|c| - 1]))
  }

  /** Trimming the raw value strips the outside and leaves quotes and comment alone. */
  lemma TrimQuoted(before: string, quote: char, body: string, gap: string, comment: string, after: string)
    requires Blank(Python, before) && Blank(Python, gap) && Blank(Python, after)
    requires Comment(comment) && !IsSpace(Python, quote)
    ensures var core := [quote] + body + [quote];
            Trim(Python, before + core + gap + comment + after)
            == (if comment == "" then core else core + gap + comment)
  {
    var core := [quote] + body + [quote];
    if comment == "" {
      assert before + core + gap + comment + after == before + core + (gap + after);
      TrimPadded(Python, before, core, gap + after);
    } else {
      var v := core + gap + comment;
      assert before + core + gap + comment + after == before + v + after;
      TrimPadded(Python, before, v, after);
    }
  }

  lemma TrailingAccepted(gap: string, comment: string)
    requires Blank(Python, gap) && Comment(comment)
    ensures var tr := Trim(Python, gap + comment); tr == "" || tr[0] == '#'
  {
    assert gap + comment == gap + comment + "";
    TrimPadded(Python, gap, comment, "");
  }

  /** Every text, written as a double-quoted scalar with or without a trailing comment,
      parses back to itself. */
  lemma DoubleQuotedRoundTrip(t: string, before: string, gap: string, comment: string, after: string)
    requires Blank(Python, before) && Blank(Python, gap) && Blank(Python, after) && Comment(comment)
    ensures Parse(before + (['"'] + Escape(t) + ['"']) + gap + comment + after) == t
  {
    var core := ['"'] + Escape(t) + ['"'];
    TrimQuoted(before, '"', Escape(t), gap, comment, after);
    if comment == "" {
      DoubleQuotedValue(t, "", gap, comment);
      assert core + "" == core;
    } else {
      DoubleQuotedValue(t, gap + comment, gap, comment);
      assert core + (gap + comment) == core + gap + comment;
    }
  }

  lemma DoubleQuotedValue(t: string, trail: string, gap: string, comment: string)
    requires Blank(Python, gap) && Comment(comment)
    requires trail == if comment == "" then "" else gap + comment
    ensures ParseQuoted(['"'] + Escape(t) + ['"'] + trail) == t
  {
    var e := Escape(t);
    QuotedSlices(e, trail);
    CloseQuoteEscaped(t, trail);
    TrailingAccepted(gap, comment);
    TrailingAccepted("", "");
    assert "" + "" == "";
    QuotedMeaning(['"'] + e + ['"'] + trail);
    UnescapeEscape(t);
  }

  lemma QuotedSlices(e: string, trail: string)
    ensures var value := ['"'] + e + ['"'] + trail;
            && value[0] == '"' && value[1..] == e + ['"'] + trail
            && value[1..|e| + 1] == e && value[|e| + 2..] == trail
  {
  }

  // ------------------------------------- the other two styles, and their limits

  lemma {:induction false} CloseQuoteSingle(s: string)
    ensures CloseQuote(s, '\'', false) == if IndexOf(s, '\'') == |s| then -1 else IndexOf(s, '\'')
  {
    if s != "" && s[0] != '\'' { CloseQuoteSingle(s[1..]); }
  }

  /** YAML writes a quote inside a single-quoted scalar twice. */
  function DoubleQuotes(t: string): string {
    if t == "" then "" else (if t[0] == '\'' then "''" else [t[0]]) + DoubleQuotes(t[1..])
  }

  lemma {:induction false} DoubleQuotesNone(t: string)
    requires '\'' !in t
    ensures DoubleQuotes(t) == t
  {
    if t != "" { DoubleQuotesNone(t[1..]); }
  }

  lemma {:induction false} DoubleQuotesFirst(t: string)
    requires '\'' in t
    ensures var d, k := DoubleQuotes(t), IndexOf(t, '\'');
            k + 1 < |d| && d[..k] == t[..k] && d[k] == d[k + 1] == '\''
  {
    IndexOfNone(t, '\'');
    if t[0] != '\'' {
      assert t == [t[0]] + t[1..];
      DoubleQuotesFirst(t[1..]);
      var k := IndexOf(t[1..], '\'');
      assert DoubleQuotes(t)[..k + 1] == [t[0]] + DoubleQuotes(t[1..])[..k];
      assert t[..k + 1] == [t[0]] + t[1..][..k];
    }
  }

  /** A single-quoted scalar survives exactly when it contains no quote: the script does
      not know the doubled quote and reads such a scalar as empty. */
  lemma SingleQuotedRoundTrip(t: string)
    ensures Parse(['\''] + DoubleQuotes(t) + ['\'']) == (if '\'' in t then "" else t)
  {
    var value := ['\''] + DoubleQuotes(t) + ['\''];
    TrimSolid(Python, value);
    if '\'' in t { SingleQuotedLost(t); } else { SingleQuotedKept(t); }
  }

  lemma SingleQuotedKept(t: string)
    requires '\'' !in t
    ensures ParseQuoted(['\''] + DoubleQuotes(t) + ['\'']) == t
  {
    DoubleQuotesNone(t);
    var value := ['\''] + t + ['\''];
    assert value[1..] == t + ['\''];
    IndexOfIs(value[1..], '\'', |t|);
    CloseQuoteSingle(value[1..]);
    assert value[|t| + 2..] == "";
    assert value[1..|t| + 1] == t;
  }

  lemma SingleQuotedLost(t: string)
    requires '\'' in t
    ensures ParseQuoted(['\''] + DoubleQuotes(t) + ['\'']) == ""
  {
    var d := DoubleQuotes(t);
    var value := ['\''] + d + ['\''];
    var k := IndexOf(t, '\'');
    DoubleQuotesFirst(t);
    assert value[1..] == d + ['\''];
    forall i | 0 <= i < k ensures value[1..][i] != '\'' {
      assert d[..k][i] == t[..k][i];
    }
    IndexOfIs(value[1..], '\'', k);
    CloseQuoteSingle(value[1..]);
    var tr := value[k + 2..];
    assert tr[0] == '\'' && tr[|tr| - 1] == '\'';
    TrimSolid(Python, tr);
  }

  /** A plain scalar is cut at its first `#`, even one that is not preceded by a space,
      so it survives exactly when it has none. */
  lemma PlainRoundTrip(t: string)
    requires t != "" && Solid(Python, t) && t[0] != '"' && t[0] != '\''
    ensures Parse(t) == t <==> '#' !in t
  {
    TrimSolid(Python, t);
    var k := IndexOf(t, '#');
    IndexOfNone(t, '#');
    if k == |t| { assert t[..k] == t; }
  }
}
