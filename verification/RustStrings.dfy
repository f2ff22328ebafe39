/** The readers of Rust source text in xtask/src/runtime_parsing_helpers.rs. */
module RustStrings {
  import opened Text
  import opened Braces

  // ------------------------------------------------------------- hexadecimal

  function HexValue(c: char): Option<nat> {
    if '0' <= c <= '9' then Some(c as int - '0' as int)
    else if 'a' <= c <= 'f' then Some(c as int - 'a' as int + 10)
    else if 'A' <= c <= 'F' then Some(c as int - 'A' as int + 10)
    else None
  }

  predicate HexDigits(s: string) {
    s != "" && forall i :: 0 <= i < |s| ==> HexValue(s[i]).Some?
  }

  function HexNumber(s: string): nat
    requires forall i :: 0 <= i < |s| ==> HexValue(s[i]).Some?
  {
    if s == "" then 0 else 16 * HexNumber(s[..|s| - 1]) + HexValue(s[|s| - 1]).value
  }

  /** `from_str_radix(s, 16)` of an unsigned type with the given maximum; a leading `+`
      is accepted when digits follow. */
  function ParseHex(s: string, max: nat): Option<nat> {
    var digits := if |s| > 1 && s[0] == '+' then s[1..] else s;
    if HexDigits(digits) && HexNumber(digits) <= max then Some(HexNumber(digits)) else None
  }

  predicate IsScalar(n: nat) {
    n < 0xD800 || 0xE000 <= n < 0x11_0000
  }

  // ------------------------------------------------------- the string decoder

  function Simple(c: char): Option<char> {
    match c
    case '"' => Some('"')
    case '\\' => Some('\\')
    case 'n' => Some('\n')
    case 'r' => Some('\r')
    case 't' => Some('\t')
    case '0' => Some('\0')
    case _ => None
  }

  /** One unit of literal text: the character it denotes and how many characters it takes. */
  datatype Unit = Unit(c: char, width: nat)

  function ReadEscape(s: string): (r: Option<Unit>)
    ensures r.Some? ==> 2 <= r.value.width <= |s|
  {
    if |s| < 2 then None
    else if Simple(s[1]).Some? then Some(Unit(Simple(s[1]).value, 2))
    else if s[1] == 'x' then
      if |s| < 4 || ParseHex(s[2..4], 255).None? then None
      else Some(Unit(ParseHex(s[2..4], 255).value as char, 4))
    else if s[1] == 'u' then ReadUnicode(s)
    else None
  }

  function ReadUnicode(s: string): (r: Option<Unit>)
    requires |s| >= 2
    ensures r.Some? ==> 2 <= r.value.width <= |s|
  {
    if |s| < 3 || s[2] != '{' then None
    else
      var k := IndexOf(s[3..], '}');
      if k == |s[3..]| then None
      else
        match ParseHex(s[3..][..k], 0xFFFF_FFFF)
        case None => None
        case Some(n) => if IsScalar(n) then Some(Unit(n as char, 4 + k)) else None
  }

  /** The literal that starts at the beginning of `s`, just after its opening quote. */
  function Decode(s: string): Option<string>
    decreases |s|
  {
    if s == "" then None
    else if s[0] == '"' then Some("")
    else if s[0] == '\\' then
      match ReadEscape(s)
      case None => None
      case Some(u) => Prepend(u.c, Decode(s[u.width..]))
    else Prepend(s[0], Decode(s[1..]))
  }

  function Prepend(c: char, r: Option<string>): Option<string> {
    match r
    case None => None
    case Some(t) => Some([c] + t)
  }

  /** First occurrence of `pat`, or -1. */
  function Find(s: string, pat: string): (r: int)
    ensures -1 <= r <= |s|
    ensures r >= 0 ==> pat <= s[r..]
    decreases |s|
  {
    if pat <= s then 0
    else if s == "" then -1
    else Shift(1, Find(s[1..], pat))
  }

  function Marker(name: string): string {
    "fn " + name + "(&self)"
  }

  /** The text from the first brace on. */
  function FromBrace(tail: string): Option<string> {
    var b := IndexOf(tail, '{');
    if b == |tail| then None else Some(tail[b..])
  }

  /** The text from the first brace after the method's signature on, if any. */
  function AfterSignature(content: string, name: string): Option<string> {
    var i := Find(content, Marker(name));
    if i < 0 then None else FromBrace(content[i..])
  }

  /** The first literal in a text. */
  function FirstLiteral(body: string): Option<string> {
    var q := IndexOf(body, '"');
    if q == |body| then None else Decode(body[q + 1..])
  }

  function StringMethod(content: string, name: string): Option<string> {
    var body := AfterSignature(content, name);
    if body.None? then None else FirstLiteral(body.value)
  }

  function BracedText(tail: string): Option<string> {
    if tail == "" then None
    else
      var e := FindClose(tail[1..], 1);
      if e < 0 then None else Some(tail[1..][..e])
  }

  function MethodBody(content: string, name: string): Option<string> {
    var tail := AfterSignature(content, name);
    if tail.None? then None else BracedText(tail.value)
  }

  /** `extract_runtime_string_method` */
  method ExtractStringMethod(content: string, name: string) returns (r: Option<string>)
    ensures r == StringMethod(content, name)
  {
    var tail := AfterSignature(content, name);
    if tail.None? { return None; }
    r := ReadFirstLiteral(tail.value);
  }

  method ReadFirstLiteral(body: string) returns (r: Option<string>)
    ensures r == FirstLiteral(body)
  {
    var q := IndexOf(body, '"');
    if q == |body| { return None; }
    r := DecodeLiteral(body[q + 1..]);
  }

  method DecodeLiteral(s: string) returns (r: Option<string>)
    ensures r == Decode(s)
  {
    var decoded, chars := "", s;
    ghost var goal := Decode(s);
    GlueNothing(goal);
    while chars != ""
      invariant goal == Glue(decoded, Decode(chars))
      decreases |chars|
    {
      if chars[0] == '"' {
        assert decoded + "" == decoded;
        return Some(decoded);
      }
      var u := Some(Unit(chars[0], 1));
      if chars[0] == '\\' {
        u := ReadEscape(chars);
        if u.None? { return None; }
      }
      GlueAssoc(decoded, u.value.c, Decode(chars[u.value.width..]));
      decoded, chars := decoded + [u.value.c], chars[u.value.width..];
    }
    r := None;
  }

  ghost function Glue(a: string, r: Option<string>): Option<string> {
    match r
    case None => None
    case Some(t) => Some(a + t)
  }

  lemma GlueNothing(r: Option<string>)
    ensures Glue("", r) == r
  {
    if r.Some? { assert "" + r.value == r.value; }
  }

  lemma GlueAssoc(a: string, c: char, r: Option<string>)
    ensures Glue(a, Prepend(c, r)) == Glue(a + [c], r)
  {
    if r.Some? { assert a + ([c] + r.value) == (a + [c]) + r.value; }
  }

  /** `extract_runtime_method_body` */
  method ExtractMethodBody(content: string, name: string) returns (r: Option<string>)
    ensures r == MethodBody(content, name)
  {
    var tail := AfterSignature(content, name);
    if tail.None? || tail.value == "" { return None; }
    var body := tail.value[1..];
    var end := ClosingBrace(body);
    r := if end == -1 then None else Some(body[..end]);
  }

  method ClosingBrace(body: string) returns (end: int)
    ensures end == FindClose(body, 1)
  {
    end := -1;
    var depth := 1;
    var i := 0;
    while i < |body|
      invariant 0 <= i <= |body|
      invariant FindClose(body, 1) == Shift(i, FindClose(body[i..], depth))
    {
      assert body[i..][1..] == body[i + 1..];
      if body[i] == '{' {
        depth := depth + 1;
      } else if body[i] == '}' {
        depth := depth - 1;
        if depth == 0 { return i; }
      }
      i := i + 1;
    }
  }

  // ---------------------------------------------------- encodings of a string

  /** The ways to write one character of a string literal. */
  datatype Piece =
    | Literal(c: char)
    | Escaped(letter: char, c: char)
    | HexEscape(digits: string, c: char)
    | Unicode(digits: string, c: char)

  predicate Legal(p: Piece) {
    match p
    case Literal(c) => c != '"' && c != '\\'
    case Escaped(letter, c) => Simple(letter) == Some(c)
    case HexEscape(digits, c) => |digits| == 2 && ParseHex(digits, 255) == Some(c as int)
    case Unicode(digits, c) => '}' !in digits && ParseHex(digits, 0xFFFF_FFFF) == Some(c as int)
  }

  function PieceText(p: Piece): string {
    match p
    case Literal(c) => [c]
    case Escaped(letter, _) => ['\\', letter]
    case HexEscape(digits, _) => "\\x" + digits
    case Unicode(digits, _) => "\\u{" + digits + "}"
  }

  function LiteralText(ps: seq<Piece>): string {
    if ps == [] then "" else PieceText(ps[0]) + LiteralText(ps[1..])
  }

  function Meaning(ps: seq<Piece>): string {
    if ps == [] then "" else [ps[0].c] + Meaning(ps[1..])
  }

  predicate AllLegal(ps: seq<Piece>) {
    forall i :: 0 <= i < |ps| ==> Legal(ps[i])
  }

  /** Hexadecimal digits of either case, with any number of leading zeros, are legal. */
  lemma HexDigitsParse(s: string, max: nat)
    requires HexDigits(s) && HexNumber(s) <= max
    ensures ParseHex(s, max) == Some(HexNumber(s)) && '}' !in s
  {
    assert HexValue(s[0]).Some?;
  }

  lemma ReadUnicodeText(digits: string, c: char, rest: string)
    requires Legal(Unicode(digits, c))
    ensures ReadEscape(PieceText(Unicode(digits, c)) + rest) == Some(Unit(c, 4 + |digits|))
  {
    var s := PieceText(Unicode(digits, c)) + rest;
    assert s[0] == '\\' && s[1] == 'u' && s[2] == '{';
    assert s[3..] == digits + ['}'] + rest;
    IndexOfAt(digits, '}', rest);
    assert s[3..][..|digits|] == digits;
  }

  lemma ReadHexText(digits: string, c: char, rest: string)
    requires Legal(HexEscape(digits, c))
    ensures ReadEscape(PieceText(HexEscape(digits, c)) + rest) == Some(Unit(c, 4))
  {
    var s := "\\x" + digits + rest;
    assert s[1] == 'x' && s[2..4] == digits;
  }

  lemma ReadSimpleText(letter: char, c: char, rest: string)
    requires Legal(Escaped(letter, c))
    ensures ReadEscape(['\\', letter] + rest) == Some(Unit(c, 2))
  {
    assert (['\\', letter] + rest)[1] == letter;
  }

  lemma ReadPiece(p: Piece, rest: string)
    requires Legal(p) && !p.Literal?
    ensures ReadEscape(PieceText(p) + rest) == Some(Unit(p.c, |PieceText(p)|))
  {
    match p {
      case Escaped(letter, c) => ReadSimpleText(letter, c, rest);
      case HexEscape(digits, c) => ReadHexText(digits, c, rest);
      case Unicode(digits, c) => ReadUnicodeText(digits, c, rest);
    }
  }

  lemma DecodePiece(p: Piece, rest: string)
    requires Legal(p)
    ensures Decode(PieceText(p) + rest) == Prepend(p.c, Decode(rest))
  {
    var s := PieceText(p) + rest;
    assert s[|PieceText(p)|..] == rest;
    if p.Literal? {
      assert s[0] == p.c;
    } else {
      ReadPiece(p, rest);
      assert s[0] == '\\';
    }
  }

  /** Any encoding of a string decodes to that string. */
  lemma {:induction false} DecodeRoundTrip(ps: seq<Piece>, rest: string)
    requires AllLegal(ps)
    ensures Decode(LiteralText(ps) + "\"" + rest) == Some(Meaning(ps))
  {
    if ps == [] {
      assert (LiteralText(ps) + "\"" + rest)[0] == '"';
    } else {
      DecodeRoundTrip(ps[1..], rest);
      var more := LiteralText(ps[1..]) + "\"" + rest;
      assert LiteralText(ps) + "\"" + rest == PieceText(ps[0]) + more;
      assert Legal(ps[0]);
      DecodePiece(ps[0], more);
    }
  }

  lemma PieceOfEscape(s: string) returns (p: Piece)
    requires s != "" && s[0] == '\\' && ReadEscape(s).Some?
    ensures Legal(p) && p.c == ReadEscape(s).value.c
    ensures PieceText(p) == s[..ReadEscape(s).value.width]
  {
    var u := ReadEscape(s).value;
    if Simple(s[1]).Some? {
      p := Escaped(s[1], u.c);
    } else if s[1] == 'x' {
      p := HexEscape(s[2..4], u.c);
    } else {
      var k := IndexOf(s[3..], '}');
      p := Unicode(s[3..][..k], u.c);
      assert s[..4 + k] == "\\u{" + s[3..][..k] + "}";
    }
  }

  /** The first piece of an accepted literal. */
  lemma FirstPiece(s: string) returns (p: Piece, w: nat)
    requires Decode(s).Some? && s[0] != '"'
    ensures Legal(p) && 1 <= w <= |s| && s == PieceText(p) + s[w..]
    ensures Decode(s) == Prepend(p.c, Decode(s[w..]))
  {
    if s[0] == '\\' {
      p := PieceOfEscape(s);
      w := ReadEscape(s).value.width;
    } else {
      p, w := Literal(s[0]), 1;
    }
    assert s == s[..w] + s[w..];
  }

  /** Conversely, whatever the decoder accepts is an encoding of its result, ended by a quote. */
  lemma {:induction false} DecodeSound(s: string) returns (ps: seq<Piece>, rest: string)
    requires Decode(s).Some?
    ensures AllLegal(ps) && s == LiteralText(ps) + "\"" + rest && Decode(s).value == Meaning(ps)
    decreases |s|
  {
    if s[0] == '"' {
      ps, rest := [], s[1..];
    } else {
      var p, w := FirstPiece(s);
      var tail;
      tail, rest := DecodeSound(s[w..]);
      ps := [p] + tail;
      ConsPiece(p, tail);
      Regroup(PieceText(p), LiteralText(tail), "\"", rest);
    }
  }

  lemma Regroup(a: string, b: string, c: string, d: string)
    ensures a + (b + c + d) == (a + b) + c + d
  {
  }

  lemma ConsPiece(p: Piece, tail: seq<Piece>)
    ensures LiteralText([p] + tail) == PieceText(p) + LiteralText(tail)
    ensures Meaning([p] + tail) == [p.c] + Meaning(tail)
    ensures Legal(p) && AllLegal(tail) ==> AllLegal([p] + tail)
  {
    assert ([p] + tail)[1..] == tail;
  }

  /** The first occurrence of the signature decides where the body starts. */
  lemma SignatureFound(content: string, name: string, pre: string, head: string, inside: string)
    requires content == pre + (head + ['{'] + inside)
    requires Find(content, Marker(name)) == |pre| && '{' !in head
    ensures AfterSignature(content, name) == Some(['{'] + inside)
  {
    DropPrefix(pre, head + ['{'] + inside);
    BraceFound(head, inside);
  }

  lemma BraceFound(head: string, inside: string)
    requires '{' !in head
    ensures FromBrace(head + ['{'] + inside) == Some(['{'] + inside)
  {
    IndexOfAt(head, '{', inside);
    assert head + ['{'] + inside == head + (['{'] + inside);
    DropPrefix(head, ['{'] + inside);
  }

  lemma DropPrefix(a: string, b: string)
    ensures (a + b)[|a|..] == b
  {
  }

  /** A method whose body holds a literal: the whole reader recovers the string. */
  lemma StringMethodRoundTrip(
      content: string, name: string, pre: string, head: string, gap: string, ps: seq<Piece>, rest: string)
    requires AllLegal(ps) && '{' !in head && '"' !in gap
    requires content == pre + (head + ['{'] + (gap + ['"'] + (LiteralText(ps) + "\"" + rest)))
    requires Find(content, Marker(name)) == |pre|
    ensures StringMethod(content, name) == Some(Meaning(ps))
  {
    var lit := LiteralText(ps) + "\"" + rest;
    SignatureFound(content, name, pre, head, gap + ['"'] + lit);
    QuoteFound(gap, lit);
    DecodeRoundTrip(ps, rest);
  }

  lemma QuoteFound(gap: string, lit: string)
    requires '"' !in gap
    ensures var body := ['{'] + (gap + ['"'] + lit);
            IndexOf(body, '"') == |gap| + 1 && body[|gap| + 2..] == lit
  {
    var body := ['{'] + (gap + ['"'] + lit);
    assert body == (['{'] + gap) + ['"'] + lit;
    IndexOfAt(['{'] + gap, '"', lit);
  }

  /** A method body with balanced braces is returned exactly, whatever follows it. */
  lemma MethodBodyExact(content: string, name: string, pre: string, head: string, body: string, rest: string)
    requires Nested(body, 0) && '{' !in head
    requires content == pre + (head + ['{'] + (body + ("}" + rest)))
    requires Find(content, Marker(name)) == |pre|
    ensures MethodBody(content, name) == Some(body)
  {
    SignatureFound(content, name, pre, head, body + ("}" + rest));
    BodyClosed(body, rest);
    DropPrefix(['{'], body + ("}" + rest));
    TakePrefix(body, "}" + rest);
  }

  lemma BodyClosed(body: string, rest: string)
    requires Nested(body, 0)
    ensures FindClose(body + ("}" + rest), 1) == |body|
  {
    FindCloseSkips(body, 0, "}" + rest);
  }

  lemma TakePrefix(a: string, b: string)
    ensures (a + b)[..|a|] == a
  {
  }

  // -------------------------------------------------- lists of quoted strings

  /** The scanner's state between two characters. */
  function Literals(s: string, inString: bool, escape: bool, current: string): seq<string>
    decreases |s|
  {
    if s == "" then []
    else if !inString then Literals(s[1..], s[0] == '"', escape, if s[0] == '"' then "" else current)
    else if escape then Literals(s[1..], true, false, current + [s[0]])
    else if s[0] == '\\' then Literals(s[1..], true, true, current)
    else if s[0] == '"' then [current] + Literals(s[1..], false, false, "")
    else Literals(s[1..], true, false, current + [s[0]])
  }

  /** `extract_string_literals` */
  method ExtractStringLiterals(input: string) returns (values: seq<string>)
    ensures values == Literals(input, false, false, "")
  {
    values := [];
    var current, inString, escape := "", false, false;
    for i := 0 to |input|
      invariant values + Literals(input[i..], inString, escape, current) == Literals(input, false, false, "")
    {
      var ch := input[i];
      assert input[i..][1..] == input[i + 1..];
      if !inString {
        if ch == '"' { inString, current := true, ""; }
      } else if escape {
        current, escape := current + [ch], false;
      } else if ch == '\\' {
        escape := true;
      } else if ch == '"' {
        values, current, inString := values + [current], "", false;
      } else {
        current := current + [ch];
      }
    }
  }

  /** One quoted element and the quote-free text before it. In this scanner a backslash
      stands for the character after it, so any character may be written escaped. */
  datatype Element = Element(separator: string, chars: seq<(char, bool)>)

  predicate LegalElement(e: Element) {
    '"' !in e.separator
    && forall i :: 0 <= i < |e.chars| ==> (e.chars[i].0 == '"' || e.chars[i].0 == '\\' ==> e.chars[i].1)
  }

  function CharsText(cs: seq<(char, bool)>): string {
    if cs == [] then ""
    else (if cs[0].1 then ['\\', cs[0].0] else [cs[0].0]) + CharsText(cs[1..])
  }

  function Value(cs: seq<(char, bool)>): string {
    if cs == [] then "" else [cs[0].0] + Value(cs[1..])
  }

  function ListText(es: seq<Element>, tail: string): string {
    if es == [] then tail
    else es[0].separator + ("\"" + (CharsText(es[0].chars) + ("\"" + ListText(es[1..], tail))))
  }

  function Values(es: seq<Element>): seq<string> {
    if es == [] then [] else [Value(es[0].chars)] + Values(es[1..])
  }

  lemma {:induction false} SkipSeparator(sep: string, rest: string, current: string)
    requires '"' !in sep
    ensures Literals(sep + rest, false, false, current) == Literals(rest, false, false, current)
    decreases |sep|
  {
    if sep == "" {
      assert sep + rest == rest;
    } else {
      assert (sep + rest)[1..] == sep[1..] + rest;
      SkipSeparator(sep[1..], rest, current);
    }
  }

  lemma {:induction false} ReadChars(cs: seq<(char, bool)>, rest: string, current: string)
    requires forall i :: 0 <= i < |cs| ==> (cs[i].0 == '"' || cs[i].0 == '\\' ==> cs[i].1)
    ensures Literals(CharsText(cs) + rest, true, false, current) == Literals(rest, true, false, current + Value(cs))
    decreases |cs|
  {
    if cs == [] {
      assert CharsText(cs) + rest == rest && current + Value(cs) == current;
    } else {
      CharsFirst(cs, rest, current);
      ReadChar(cs[0].0, cs[0].1, CharsText(cs[1..]) + rest, current);
      ReadChars(cs[1..], rest, current + [cs[0].0]);
    }
  }

  lemma CharsFirst(cs: seq<(char, bool)>, rest: string, current: string)
    requires cs != []
    ensures CharsText(cs) + rest == (if cs[0].1 then ['\\', cs[0].0] else [cs[0].0]) + (CharsText(cs[1..]) + rest)
    ensures current + Value(cs) == (current + [cs[0].0]) + Value(cs[1..])
  {
  }

  lemma ReadChar(c: char, escaped: bool, more: string, current: string)
    requires c == '"' || c == '\\' ==> escaped
    ensures Literals((if escaped then ['\\', c] else [c]) + more, true, false, current)
         == Literals(more, true, false, current + [c])
  {
    if escaped {
      assert (['\\', c] + more)[1..] == [c] + more;
    }
    assert ([c] + more)[1..] == more;
  }

  /** Every list of quoted strings is recovered element by element. */
  lemma {:induction false} LiteralsRoundTrip(es: seq<Element>, tail: string, current: string)
    requires forall i :: 0 <= i < |es| ==> LegalElement(es[i])
    requires '"' !in tail
    ensures Literals(ListText(es, tail), false, false, current) == Values(es)
    decreases |es|
  {
    if es == [] {
      SkipSeparator(tail, "", current);
      assert tail + "" == tail;
    } else {
      var e := es[0];
      assert LegalElement(e);
      var last := "\"" + ListText(es[1..], tail);
      var quoted := "\"" + (CharsText(e.chars) + last);
      SkipSeparator(e.separator, quoted, current);
      assert quoted[1..] == CharsText(e.chars) + last;
      ReadChars(e.chars, last, "");
      assert "" + Value(e.chars) == Value(e.chars);
      assert last[1..] == ListText(es[1..], tail);
      LiteralsRoundTrip(es[1..], tail, "");
    }
  }
}
