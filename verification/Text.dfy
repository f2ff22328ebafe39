/** Character and string vocabulary shared by the text-processing models. */
module Text {

  datatype Option<T> = None | Some(value: T)

  /** Python's `str.strip` and Rust's `str::trim` disagree on U+001C..U+001F. */
  datatype Dialect = Python | Rust

  predicate IsSpace(d: Dialect, c: char) {
    var n := c as int;
    || 9 <= n <= 13 || n == 32 || n == 0x85 || n == 0xA0 || n == 0x1680
    || 0x2000 <= n <= 0x200A || n == 0x2028 || n == 0x2029 || n == 0x202F
    || n == 0x205F || n == 0x3000
    || (d.Python? && 28 <= n <= 31)
  }

  function TrimStart(d: Dialect, s: string): (r: string)
    ensures |r| <= |s|
  {
    if s != "" && IsSpace(d, s[0]) then TrimStart(d, s[1..]) else s
  }

  function TrimEnd(d: Dialect, s: string): (r: string)
    ensures |r| <= |s|
  {
    if s != "" && IsSpace(d, s[|s| - 1]) then TrimEnd(d, s[..|s| - 1]) else s
  }

  function Trim(d: Dialect, s: string): (r: string)
    ensures |r| <= |s|
  {
    TrimEnd(d, TrimStart(d, s))
  }

  predicate Blank(d: Dialect, s: string) {
    forall i :: 0 <= i < |s| ==> IsSpace(d, s[i])
  }

  /** No white space at either end. */
  predicate Solid(d: Dialect, s: string) {
    s != "" ==> !IsSpace(d, s[0]) && !IsSpace(d, s[|s| - 1])
  }

  lemma {:induction false} TrimStartPadded(d: Dialect, a: string, s: string)
    requires Blank(d, a)
    requires s != "" ==> !IsSpace(d, s[0])
    ensures TrimStart(d, a + s) == s
  {
    if a == "" {
      assert a + s == s;
    } else {
      assert (a + s)[1..] == a[1..] + s;
      TrimStartPadded(d, a[1..], s);
    }
  }

  lemma {:induction false} TrimEndPadded(d: Dialect, s: string, b: string)
    requires Blank(d, b)
    requires s != "" ==> !IsSpace(d, s[|s| - 1])
    ensures TrimEnd(d, s + b) == s
  {
    if b == "" {
      assert s + b == s;
    } else {
      assert (s + b)[..|s + b| - 1] == s + b[..|b| - 1];
      TrimEndPadded(d, s, b[..|b| - 1]);
    }
  }

  /** Trimming removes exactly the padding around solid text. */
  lemma TrimPadded(d: Dialect, a: string, s: string, b: string)
    requires Blank(d, a) && Blank(d, b) && Solid(d, s)
    ensures Trim(d, a + s + b) == s
  {
    if s == "" {
      assert a + s + b == (a + b) + "";
      TrimStartPadded(d, a + b, "");
    } else {
      assert a + s + b == a + (s + b);
      TrimStartPadded(d, a, s + b);
      TrimEndPadded(d, s, b);
    }
  }

  lemma TrimSolid(d: Dialect, s: string)
    requires Solid(d, s)
    ensures Trim(d, s) == s
  {
    TrimPadded(d, "", s, "");
    assert "" + s + "" == s;
  }

  /** Nothing is left of a text exactly when it is blank. */
  lemma TrimEmptyExact(d: Dialect, s: string)
    ensures Trim(d, s) == "" <==> Blank(d, s)
  {
    if Blank(d, s) {
      TrimPadded(d, s, "", "");
      assert s + "" + "" == s;
    } else {
      TrimKeeps(d, s);
    }
  }

  lemma {:induction false} TrimKeeps(d: Dialect, s: string)
    requires !Blank(d, s)
    ensures Trim(d, s) != ""
  {
    if IsSpace(d, s[0]) {
      var k :| 0 <= k < |s| && !IsSpace(d, s[k]);
      assert s[1..][k - 1] == s[k];
      TrimKeeps(d, s[1..]);
    } else {
      TrimEndKeeps(d, s);
    }
  }

  lemma {:induction false} TrimEndKeeps(d: Dialect, s: string)
    requires s != "" && !IsSpace(d, s[0])
    ensures TrimEnd(d, s) != ""
  {
    if |s| > 1 && IsSpace(d, s[|s| - 1]) { TrimEndKeeps(d, s[..|s| - 1]); }
  }

  /** What trimming takes away is blank. */
  lemma TrimSplits(d: Dialect, s: string) returns (a: string, b: string)
    ensures Blank(d, a) && Blank(d, b) && s == a + Trim(d, s) + b
  {
    a := TrimStartSplits(d, s);
    b := TrimEndSplits(d, TrimStart(d, s));
    assert a + (Trim(d, s) + b) == a + Trim(d, s) + b;
  }

  lemma {:induction false} TrimStartSplits(d: Dialect, s: string) returns (a: string)
    ensures Blank(d, a) && s == a + TrimStart(d, s)
  {
    if s != "" && IsSpace(d, s[0]) {
      var rest := TrimStartSplits(d, s[1..]);
      a := [s[0]] + rest;
      assert s == [s[0]] + s[1..];
    } else {
      a := "";
    }
  }

  lemma {:induction false} TrimEndSplits(d: Dialect, s: string) returns (b: string)
    ensures Blank(d, b) && s == TrimEnd(d, s) + b
  {
    if s != "" && IsSpace(d, s[|s| - 1]) {
      var rest := TrimEndSplits(d, s[..|s| - 1]);
      b := rest + [s[|s| - 1]];
      assert s == s[..|s| - 1] + [s[|s| - 1]];
    } else {
      b := "";
    }
  }

  function Lower(c: char): char {
    if 'A' <= c <= 'Z' then (c as int + 32) as char else c
  }

  /** `eq_ignore_ascii_case` */
  predicate SameIgnoringCase(a: string, b: string) {
    |a| == |b| && forall i :: 0 <= i < |a| ==> Lower(a[i]) == Lower(b[i])
  }

  /** The two characters are the same, or the two cases of one ASCII letter. */
  predicate SameLetter(a: char, b: char) {
    || a == b
    || ('A' <= a <= 'Z' && b as int == a as int + 32)
    || ('A' <= b <= 'Z' && a as int == b as int + 32)
  }

  lemma SameIgnoringCaseExact(a: string, b: string)
    ensures SameIgnoringCase(a, b) <==> |a| == |b| && forall i :: 0 <= i < |a| ==> SameLetter(a[i], b[i])
  {
    if SameIgnoringCase(a, b) {
      forall i | 0 <= i < |a| ensures SameLetter(a[i], b[i]) { assert Lower(a[i]) == Lower(b[i]); }
    }
  }

  function Join(parts: seq<string>, sep: string): string {
    if parts == [] then ""
    else if |parts| == 1 then parts[0]
    else parts[0] + sep + Join(parts[1..], sep)
  }

  /** `replace('\\', "/")` */
  function Slashes(s: string): (r: string)
    ensures |r| == |s|
    ensures forall i :: 0 <= i < |s| ==> r[i] == if s[i] == '\\' then '/' else s[i]
  {
    seq(|s|, i requires 0 <= i < |s| => if s[i] == '\\' then '/' else s[i])
  }

  /** Position of the first `c`, or the length when there is none. */
  function IndexOf(s: string, c: char): (k: nat)
    ensures k <= |s|
    ensures forall i :: 0 <= i < k ==> s[i] != c
    ensures k < |s| ==> s[k] == c
  {
    if s == "" then 0
    else if s[0] == c then 0
    else 1 + IndexOf(s[1..], c)
  }

  lemma IndexOfIs(s: string, c: char, k: nat)
    requires k < |s| && s[k] == c && forall i :: 0 <= i < k ==> s[i] != c
    ensures IndexOf(s, c) == k
  {
  }

  lemma IndexOfNone(s: string, c: char)
    ensures IndexOf(s, c) == |s| <==> c !in s
  {
  }

  lemma IndexOfAt(a: string, c: char, b: string)
    requires c !in a
    ensures IndexOf(a + [c] + b, c) == |a|
  {
    IndexOfIs(a + [c] + b, c, |a|);
  }
}
