/** Brace matching, shared by the use-tree flattener and the Rust source readers. */
module Braces {

  function Shift(k: int, r: int): int {
    if r < 0 then -1 else k + r
  }

  /** Offset of the brace that brings the depth from `d` to zero, or -1. */
  function FindClose(s: string, d: int): (r: int)
    ensures -1 <= r < |s|
  {
    if s == "" then -1
    else if s[0] == '}' && d == 1 then 0
    else
      var d' := if s[0] == '{' then d + 1 else if s[0] == '}' then d - 1 else d;
      Shift(1, FindClose(s[1..], d'))
  }

  /** Scanned from relative depth `k`, the text closes every brace it opens. */
  predicate Nested(t: string, k: nat) {
    if t == "" then k == 0
    else if t[0] == '{' then Nested(t[1..], k + 1)
    else if t[0] == '}' then k > 0 && Nested(t[1..], k - 1)
    else Nested(t[1..], k)
  }

  lemma {:induction false} NestedAppend(a: string, j: nat, b: string, k: nat)
    requires Nested(a, j)
    ensures Nested(a + b, j + k) == Nested(b, k)
    decreases |a|
  {
    if a == "" {
      assert a + b == b;
    } else {
      assert (a + b)[1..] == a[1..] + b;
      NestedAppend(a[1..], if a[0] == '{' then j + 1 else if a[0] == '}' then j - 1 else j, b, k);
    }
  }

  lemma NestedBraced(t: string)
    requires Nested(t, 0)
    ensures Nested("{" + t + "}", 0)
  {
    NestedAppend(t, 0, "}", 1);
    assert ("{" + t + "}")[1..] == t + "}";
  }

  /** Looking for the closing brace skips nested text. */
  lemma {:induction false} FindCloseSkips(t: string, k: nat, rest: string)
    requires Nested(t, k)
    ensures FindClose(t + rest, k + 1) == Shift(|t|, FindClose(rest, 1))
    decreases |t|
  {
    if t == "" {
      assert t + rest == rest;
    } else {
      assert (t + rest)[1..] == t[1..] + rest;
      FindCloseSkips(t[1..], if t[0] == '{' then k + 1 else if t[0] == '}' then k - 1 else k, rest);
    }
  }

  lemma {:induction false} BraceFreeNested(t: string)
    requires '{' !in t && '}' !in t
    ensures Nested(t, 0)
  {
    if t != "" { BraceFreeNested(t[1..]); }
  }
}
