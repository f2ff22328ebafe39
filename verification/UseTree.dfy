/** The Rust `use`-tree flattener of scripts/architecture_dependency_guard.py. */
module UseTree {
  import opened Text
  import opened Braces

  // ---------------------------------------------------------------- the code

  function Keep(cur: string): seq<string> {
    var t := Trim(Python, cur);
    if t == "" then [] else [t]
  }

  /** Pieces of `s` between the commas at depth zero, trimmed, blanks dropped. */
  function SplitTop(s: string, d: int, cur: string): seq<string>
    decreases |s|
  {
    if s == "" then Keep(cur)
    else if s[0] == ',' && d == 0 then Keep(cur) + SplitTop(s[1..], d, "")
    else
      var d' := if s[0] == '{' then d + 1 else if s[0] == '}' then d - 1 else d;
      SplitTop(s[1..], d', cur + [s[0]])
  }

  lemma {:induction false} SplitTopShort(s: string, d: int, cur: string)
    ensures forall x :: x in SplitTop(s, d, cur) ==> |x| <= |s| + |cur|
    decreases |s|
  {
    if s != "" {
      if s[0] == ',' && d == 0 {
        SplitTopShort(s[1..], d, "");
      } else {
        SplitTopShort(s[1..], if s[0] == '{' then d + 1 else if s[0] == '}' then d - 1 else d, cur + [s[0]]);
      }
    }
  }

  /** `[part.strip() for part in s.split(",") if part.strip()]` */
  function SplitCommas(s: string, cur: string): seq<string>
    decreases |s|
  {
    if s == "" then Keep(cur)
    else if s[0] == ',' then Keep(cur) + SplitCommas(s[1..], "")
    else SplitCommas(s[1..], cur + [s[0]])
  }

  function StripColons(s: string): string {
    if s != "" && s[|s| - 1] == ':' then StripColons(s[..|s| - 1]) else s
  }

  function Attach(prefix: string, sub: string): string {
    if sub == "self" then StripColons(prefix) else prefix + sub
  }

  function AttachAll(prefix: string, subs: seq<string>): (r: seq<string>)
    ensures |r| == |subs|
    ensures forall i :: 0 <= i < |subs| ==> r[i] == Attach(prefix, subs[i])
  {
    if subs == [] then [] else [Attach(prefix, subs[0])] + AttachAll(prefix, subs[1..])
  }

  /** What one call sees: a brace-free list, or a prefix with the items of its group. */
  datatype Parts = Names(names: seq<string>) | Braced(prefix: string, items: seq<string>)

  function Dissect(t: string): Parts {
    var b := IndexOf(t, '{');
    if b == |t| then Names(SplitCommas(t, ""))
    else
      var after := t[b + 1..];
      var e := FindClose(after, 1);
      if e < 0 then Names([]) else Braced(t[..b], SplitTop(after[..e], 0, ""))
  }

  lemma DissectShorter(t: string)
    ensures Dissect(t).Braced? ==> forall x :: x in Dissect(t).items ==> |x| < |t|
  {
    var b := IndexOf(t, '{');
    if b < |t| && FindClose(t[b + 1..], 1) >= 0 {
      SplitTopShort(t[b + 1..][..FindClose(t[b + 1..], 1)], 0, "");
    }
  }

  function Flatten(s: string): seq<string>
    decreases |s|
  {
    var t := Trim(Python, s);
    if t == "" then []
    else
      DissectShorter(t);
      match Dissect(t)
      case Names(names) => names
      case Braced(prefix, items) => FlattenItems(prefix, items, |t|)
  }

  function FlattenItems(prefix: string, items: seq<string>, bound: nat): seq<string>
    requires forall x :: x in items ==> |x| < bound
    decreases bound, |items|
  {
    if items == [] then []
    else AttachAll(prefix, Flatten(items[0])) + FlattenItems(prefix, items[1..], bound)
  }

  /** `parse_use_tree`, with the loops of the script. */
  method ParseUseTree(text: string) returns (results: seq<string>)
    ensures results == Flatten(text)
    decreases |text|
  {
    var s := Trim(Python, text);
    if s == "" { return []; }
    var parts := FindGroup(s);
    DissectShorter(s);
    match parts {
      case Names(names) => results := names;
      case Braced(prefix, items) => results := FlattenEach(prefix, items, |s|);
    }
  }

  method FindGroup(s: string) returns (parts: Parts)
    ensures parts == Dissect(s)
  {
    var brace := IndexOf(s, '{');
    if brace == |s| {
      var names := SplitOnCommas(s);
      return Names(names);
    }
    var end := ClosingBrace(s, brace);
    if end == -1 { return Names([]); }
    var inner := s[brace + 1..end];
    assert inner == s[brace + 1..][..end - brace - 1];
    var items := TopLevelItems(inner);
    parts := Braced(s[..brace], items);
  }

  method FlattenEach(prefix: string, items: seq<string>, bound: nat) returns (results: seq<string>)
    requires forall x :: x in items ==> |x| < bound
    ensures results == FlattenItems(prefix, items, bound)
    decreases bound, 0
  {
    results := [];
    for i := 0 to |items|
      invariant results == FlattenItems(prefix, items[..i], bound)
    {
      var subs := ParseUseTree(items[i]);
      var paths := AttachEach(prefix, subs);
      results := results + paths;
      assert FlattenItems(prefix, items[..i + 1], bound)
          == FlattenItems(prefix, items[..i], bound) + paths by {
        assert items[..i + 1] == items[..i] + [items[i]];
        FlattenItemsLast(prefix, items[..i], items[i], bound);
      }
    }
    assert items[..|items|] == items;
  }

  method AttachEach(prefix: string, subs: seq<string>) returns (paths: seq<string>)
    ensures paths == AttachAll(prefix, subs)
  {
    paths := [];
    for j := 0 to |subs|
      invariant |paths| == j && forall i :: 0 <= i < j ==> paths[i] == Attach(prefix, subs[i])
    {
      if subs[j] == "self" {
        paths := paths + [StripColons(prefix)];
      } else {
        paths := paths + [prefix + subs[j]];
      }
    }
  }

  lemma {:induction false} FlattenItemsLast(prefix: string, items: seq<string>, last: string, bound: nat)
    requires forall x :: x in items ==> |x| < bound
    requires |last| < bound
    ensures FlattenItems(prefix, items + [last], bound)
         == FlattenItems(prefix, items, bound) + AttachAll(prefix, Flatten(last))
    decreases |items|
  {
    if items == [] {
      assert items + [last] == [last] && [last][1..] == [];
    } else {
      assert (items + [last])[1..] == items[1..] + [last];
      FlattenItemsLast(prefix, items[1..], last, bound);
    }
  }

  method SplitOnCommas(s: string) returns (parts: seq<string>)
    ensures parts == SplitCommas(s, "")
  {
    parts := [];
    var cur := "";
    for i := 0 to |s|
      invariant parts + SplitCommas(s[i..], cur) == SplitCommas(s, "")
    {
      assert s[i..][1..] == s[i + 1..];
      if s[i] == ',' {
        parts, cur := parts + Keep(cur), "";
      } else {
        cur := cur + [s[i]];
      }
    }
    parts := parts + Keep(cur);
  }

  method ClosingBrace(s: string, brace: nat) returns (end: int)
    requires brace < |s| && s[brace] == '{'
    ensures var e := FindClose(s[brace + 1..], 1);
            end == if e < 0 then -1 else brace + 1 + e
  {
    var depth := 0;
    end := -1;
    var i := brace;
    while i < |s|
      invariant brace <= i <= |s|
      invariant i == brace ==> depth == 0
      invariant i > brace ==>
        FindClose(s[brace + 1..], 1) == Shift(i - brace - 1, FindClose(s[i..], depth))
    {
      assert i > brace ==> s[i..][1..] == s[i + 1..];
      if s[i] == '{' {
        depth := depth + 1;
      } else if s[i] == '}' {
        depth := depth - 1;
        if depth == 0 {
          end := i;
          return;
        }
      }
      i := i + 1;
    }
  }

  method TopLevelItems(inner: string) returns (items: seq<string>)
    ensures items == SplitTop(inner, 0, "")
  {
    items := [];
    var cur, d := "", 0;
    for i := 0 to |inner|
      invariant items + SplitTop(inner[i..], d, cur) == SplitTop(inner, 0, "")
    {
      var ch := inner[i];
      assert inner[i..][1..] == inner[i + 1..];
      if ch == '{' {
        d, cur := d + 1, cur + [ch];
      } else if ch == '}' {
        d, cur := d - 1, cur + [ch];
      } else if ch == ',' && d == 0 {
        items, cur := items + Keep(cur), "";
      } else {
        cur := cur + [ch];
      }
    }
    items := items + Keep(cur);
  }

  // ------------------------------------------- use trees and what they denote

  /** A use tree together with the white space it is laid out with. */
  datatype Use =
    | Name(path: seq<string>)
    | Group(path: seq<string>, items: seq<Item>, comma: bool, close: string)

  datatype Item = Item(before: string, tree: Use, after: string)

  const SELF: Use := Name(["self"])

  /** The paths a tree imports: a plain `self` item stands for its group's own path. */
  function Leaves(u: Use): seq<seq<string>>
    decreases u, 0
  {
    match u
    case Name(p) => [p]
    case Group(p, items, _, _) => ItemLeaves(p, items)
  }

  function OneItem(p: seq<string>, u: Use): seq<seq<string>>
    decreases u, 1
  {
    if u == SELF then [p] else Under(p, Leaves(u))
  }

  function ItemLeaves(p: seq<string>, items: seq<Item>): seq<seq<string>>
    decreases items, 1
  {
    if items == [] then []
    else OneItem(p, items[0].tree) + ItemLeaves(p, items[1..])
  }

  function Under(p: seq<string>, qs: seq<seq<string>>): (r: seq<seq<string>>)
    ensures |r| == |qs|
    ensures forall i :: 0 <= i < |qs| ==> r[i] == p + qs[i]
  {
    seq(|qs|, i requires 0 <= i < |qs| => p + qs[i])
  }

  function PathText(p: seq<string>): string {
    Join(p, "::")
  }

  function Render(ps: seq<seq<string>>): (r: seq<string>)
    ensures |r| == |ps|
    ensures forall i :: 0 <= i < |ps| ==> r[i] == PathText(ps[i])
  {
    seq(|ps|, i requires 0 <= i < |ps| => PathText(ps[i]))
  }

  function Print(u: Use): string
    decreases u, 0
  {
    match u
    case Name(p) => PathText(p)
    case Group(p, items, comma, close) =>
      PathText(p) + "::{" + PrintItems(items) + Tail(comma, close) + "}"
  }

  function Tail(comma: bool, close: string): string {
    (if comma then "," else "") + close
  }

  function PrintItems(items: seq<Item>): string
    decreases items, 1
  {
    if items == [] then ""
    else PrintItem(items[0]) + (if |items| == 1 then "" else "," + PrintItems(items[1..]))
  }

  function PrintItem(it: Item): string
    decreases it, 0
  {
    it.before + Print(it.tree) + it.after
  }

  /** A path segment; inner spaces are allowed (`Foo as Bar`), outer ones are layout. */
  predicate Segment(s: string) {
    s != "" && Solid(Python, s) && '{' !in s && '}' !in s && ',' !in s && ':' !in s
  }

  predicate Segments(p: seq<string>) {
    p != [] && forall i :: 0 <= i < |p| ==> Segment(p[i])
  }

  predicate WellFormed(u: Use)
    decreases u, 0
  {
    Segments(u.path) && (u.Group? ==> Blank(Python, u.close) && WellFormedItems(u.items))
  }

  predicate WellFormedItems(items: seq<Item>)
    decreases items, 1
  {
    items == [] ||
    (Blank(Python, items[0].before) && Blank(Python, items[0].after)
     && WellFormed(items[0].tree) && WellFormedItems(items[1..]))
  }

  /** `self::{self, ..}`: a group whose own path is the single word `self`, naming itself. */
  predicate SelfOfSelf(u: Use) {
    u.Group? && u.path == ["self"] && exists i :: 0 <= i < |u.items| && u.items[i].tree == SELF
  }

  /** No group nested inside another one is a `SelfOfSelf`. */
  predicate Faithful(u: Use)
    decreases u, 0
  {
    u.Group? ==> FaithfulItems(u.items)
  }

  predicate FaithfulItems(items: seq<Item>)
    decreases items, 1
  {
    items == [] ||
    (!SelfOfSelf(items[0].tree) && Faithful(items[0].tree) && FaithfulItems(items[1..]))
  }

  // ------------------------------------------------------- nesting of a text

  predicate Plain(t: string) {
    '{' !in t && '}' !in t && ',' !in t
  }

  /** Inside braces, splitting keeps nested text whole, commas included. */
  lemma {:induction false} SplitTopInside(t: string, k: nat, rest: string, cur: string)
    requires Nested(t, k)
    ensures SplitTop(t + rest, k + 1, cur) == SplitTop(rest, 1, cur + t)
    decreases |t|
  {
    if t == "" {
      assert t + rest == rest && cur + t == cur;
    } else {
      assert (t + rest)[1..] == t[1..] + rest;
      assert (cur + [t[0]]) + t[1..] == cur + t;
      SplitTopInside(t[1..], if t[0] == '{' then k + 1 else if t[0] == '}' then k - 1 else k,
                     rest, cur + [t[0]]);
    }
  }

  lemma {:induction false} SplitTopPlain(t: string, rest: string, cur: string)
    requires Plain(t)
    ensures SplitTop(t + rest, 0, cur) == SplitTop(rest, 0, cur + t)
    decreases |t|
  {
    if t == "" {
      assert t + rest == rest && cur + t == cur;
    } else {
      assert (t + rest)[1..] == t[1..] + rest;
      assert (cur + [t[0]]) + t[1..] == cur + t;
      SplitTopPlain(t[1..], rest, cur + [t[0]]);
    }
  }

  lemma SplitTopBraced(t: string, rest: string, cur: string)
    requires Nested(t, 0)
    ensures SplitTop("{" + t + "}" + rest, 0, cur) == SplitTop(rest, 0, cur + ("{" + t + "}"))
  {
    assert ("{" + t + "}" + rest)[1..] == t + ("}" + rest);
    SplitTopInside(t, 0, "}" + rest, cur + "{");
    assert ("}" + rest)[1..] == rest;
    assert cur + "{" + t + "}" == cur + ("{" + t + "}");
  }

  // ---------------------------------------------------- facts about printing

  lemma {:induction false} PathTextPlain(p: seq<string>)
    requires Segments(p)
    ensures var t := PathText(p);
            Plain(t) && t != "" && Solid(Python, t) && t[|t| - 1] != ':'
  {
    assert Segment(p[0]);
    if |p| > 1 {
      PathTextPlain(p[1..]);
      var t := PathText(p);
      var u := PathText(p[1..]);
      assert t == p[0] + "::" + u;
      assert t[|t| - 1] == u[|u| - 1];
      assert t[0] == p[0][0];
    }
  }

  lemma {:induction false} PathTextAppend(p: seq<string>, q: seq<string>)
    requires p != [] && q != []
    ensures PathText(p + q) == PathText(p) + "::" + PathText(q)
  {
    if |p| == 1 {
      assert (p + q)[1..] == q;
    } else {
      assert (p + q)[1..] == p[1..] + q;
      PathTextAppend(p[1..], q);
    }
  }

  lemma StripColonsOfPrefix(t: string)
    requires t != "" && t[|t| - 1] != ':'
    ensures StripColons(t + "::") == t
  {
    var a := t + "::";
    var b := t + ":";
    assert a[|a| - 1] == ':' && a[..|a| - 1] == b;
    assert b[|b| - 1] == ':' && b[..|b| - 1] == t;
    assert StripColons(b) == StripColons(t) == t;
  }

  lemma BlankPlain(s: string)
    requires Blank(Python, s)
    ensures Plain(s)
  {
  }

  function Prefix(p: seq<string>): string {
    PathText(p) + "::"
  }

  function Inside(items: seq<Item>, comma: bool, close: string): string {
    PrintItems(items) + Tail(comma, close)
  }

  lemma PrintGroup(u: Use)
    requires u.Group?
    ensures Print(u) == Prefix(u.path) + ("{" + Inside(u.items, u.comma, u.close) + "}")
  {
  }

  lemma PrefixPlain(p: seq<string>)
    requires Segments(p)
    ensures Plain(Prefix(p)) && Prefix(p) != "" && !IsSpace(Python, Prefix(p)[0])
    ensures StripColons(Prefix(p)) == PathText(p)
  {
    PathTextPlain(p);
    StripColonsOfPrefix(PathText(p));
  }

  lemma PrintSolid(u: Use)
    requires WellFormed(u)
    ensures Print(u) != "" && Solid(Python, Print(u))
  {
    PathTextPlain(u.path);
    if u.Group? {
      PrefixPlain(u.path);
      PrintGroup(u);
      assert Print(u)[|Print(u)| - 1] == '}';
    }
  }

  lemma {:induction false} PrintNested(u: Use)
    requires WellFormed(u)
    ensures Nested(Print(u), 0)
    decreases u, 0
  {
    if u.Name? {
      PathTextPlain(u.path);
      BraceFreeNested(PathText(u.path));
    } else {
      InsideNested(u.items, u.comma, u.close);
      NestedBraced(Inside(u.items, u.comma, u.close));
      PrefixPlain(u.path);
      BraceFreeNested(Prefix(u.path));
      NestedAppend(Prefix(u.path), 0, "{" + Inside(u.items, u.comma, u.close) + "}", 0);
      PrintGroup(u);
    }
  }

  lemma InsideNested(items: seq<Item>, comma: bool, close: string)
    requires WellFormedItems(items) && Blank(Python, close)
    ensures Nested(Inside(items, comma, close), 0)
    decreases items, 2
  {
    BlankPlain(close);
    BraceFreeNested(close);
    var tail := Tail(comma, close);
    assert Nested(tail, 0) by {
      if comma { assert tail[1..] == close; } else { assert tail == close; }
    }
    PrintItemsNested(items);
    NestedAppend(PrintItems(items), 0, tail, 0);
  }

  lemma {:induction false} PrintItemsNested(items: seq<Item>)
    requires WellFormedItems(items)
    ensures Nested(PrintItems(items), 0)
    decreases items, 1
  {
    if items != [] {
      var x := PrintItem(items[0]);
      PrintItemNested(items[0]);
      if |items| == 1 {
        assert PrintItems(items) == x;
      } else {
        PrintItemsNested(items[1..]);
        var more := "," + PrintItems(items[1..]);
        assert more[1..] == PrintItems(items[1..]);
        NestedAppend(x, 0, more, 0);
      }
    }
  }

  lemma PrintItemNested(it: Item)
    requires Blank(Python, it.before) && Blank(Python, it.after) && WellFormed(it.tree)
    ensures Nested(PrintItem(it), 0)
    decreases it, 0
  {
    PrintNested(it.tree);
    BlankPlain(it.before);
    BlankPlain(it.after);
    BraceFreeNested(it.before);
    BraceFreeNested(it.after);
    NestedAppend(Print(it.tree), 0, it.after, 0);
    NestedAppend(it.before, 0, Print(it.tree) + it.after, 0);
    assert PrintItem(it) == it.before + (Print(it.tree) + it.after);
  }

  // --------------------------------------------------------- the round trip

  function Texts(items: seq<Item>): (r: seq<string>)
    ensures |r| == |items|
    ensures forall i :: 0 <= i < |items| ==> r[i] == Print(items[i].tree)
  {
    seq(|items|, i requires 0 <= i < |items| => Print(items[i].tree))
  }

  /** A printed tree is one piece for the top-level splitter. */
  lemma SplitTopTree(u: Use, rest: string, cur: string)
    requires WellFormed(u)
    ensures SplitTop(Print(u) + rest, 0, cur) == SplitTop(rest, 0, cur + Print(u))
  {
    if u.Name? {
      PathTextPlain(u.path);
      SplitTopPlain(Print(u), rest, cur);
    } else {
      var a, t := Prefix(u.path), Inside(u.items, u.comma, u.close);
      var g := "{" + t + "}";
      PrintGroup(u);
      PrefixPlain(u.path);
      InsideNested(u.items, u.comma, u.close);
      assert (a + g) + rest == a + (g + rest);
      SplitTopPlain(a, g + rest, cur);
      SplitTopBraced(t, rest, cur + a);
      assert cur + a + g == cur + (a + g);
    }
  }

  lemma SplitTopItem(it: Item, rest: string)
    requires Blank(Python, it.before) && Blank(Python, it.after) && WellFormed(it.tree)
    ensures SplitTop(PrintItem(it) + rest, 0, "") == SplitTop(rest, 0, PrintItem(it))
  {
    var a, t, b := it.before, Print(it.tree), it.after;
    BlankPlain(a);
    BlankPlain(b);
    assert PrintItem(it) + rest == a + (t + (b + rest));
    SplitTopPlain(a, t + (b + rest), "");
    SplitTopTree(it.tree, b + rest, "" + a);
    SplitTopPlain(b, rest, "" + a + t);
    assert "" + a + t + b == PrintItem(it);
  }

  lemma SplitTail(cur: string, comma: bool, close: string)
    requires Blank(Python, close)
    ensures SplitTop(Tail(comma, close), 0, cur) == if comma then Keep(cur) else Keep(cur + close)
  {
    BlankPlain(close);
    assert close + "" == close;
    if comma {
      assert Tail(comma, close)[1..] == close;
      SplitTopPlain(close, "", "");
      TrimPadded(Python, "", "", close);
      assert "" + "" + close == close && "" + close == close;
    } else {
      assert Tail(comma, close) == close;
      SplitTopPlain(close, "", cur);
    }
  }

  lemma KeepPadded(a: string, t: string, b: string, close: string)
    requires Blank(Python, a) && Blank(Python, b) && Blank(Python, close)
    requires t != "" && Solid(Python, t)
    ensures Keep(a + t + b) == [t] == Keep(a + t + b + close)
  {
    TrimPadded(Python, a, t, b);
    TrimPadded(Python, a, t, b + close);
    assert a + t + (b + close) == a + t + b + close;
  }

  /** Splitting the inside of a printed group yields the printed items, layout removed. */
  lemma {:induction false} SplitInside(items: seq<Item>, comma: bool, close: string)
    requires WellFormedItems(items) && Blank(Python, close)
    ensures SplitTop(Inside(items, comma, close), 0, "") == Texts(items)
    decreases |items|
  {
    if items == [] {
      SplitNothing(comma, close);
    } else if |items| == 1 {
      InsideOne(items, comma, close);
      SplitLast(items[0], comma, close);
    } else {
      InsideCons(items, comma, close);
      SplitFirst(items[0], Inside(items[1..], comma, close));
      SplitInside(items[1..], comma, close);
      TextsSplit(items);
    }
  }

  lemma InsideOne(items: seq<Item>, comma: bool, close: string)
    requires |items| == 1
    ensures Inside(items, comma, close) == PrintItem(items[0]) + Tail(comma, close)
  {
  }

  lemma InsideCons(items: seq<Item>, comma: bool, close: string)
    requires |items| > 1
    ensures Inside(items, comma, close) == PrintItem(items[0]) + ("," + Inside(items[1..], comma, close))
  {
    var a, b, c := PrintItem(items[0]), PrintItems(items[1..]), Tail(comma, close);
    assert PrintItems(items) == a + ("," + b);
    assert (a + ("," + b)) + c == a + ("," + (b + c));
  }

  lemma TextsSplit(items: seq<Item>)
    requires items != []
    ensures Texts(items) == [Print(items[0].tree)] + Texts(items[1..])
  {
  }

  lemma SplitNothing(comma: bool, close: string)
    requires Blank(Python, close)
    ensures SplitTop(Inside([], comma, close), 0, "") == []
  {
    assert Inside([], comma, close) == Tail(comma, close);
    SplitTail("", comma, close);
    KeepBlank(close);
  }

  lemma KeepBlank(b: string)
    requires Blank(Python, b)
    ensures Keep("") == [] == Keep("" + b)
  {
    TrimPadded(Python, "", "", b);
    assert "" + "" + b == "" + b;
  }

  lemma SplitLast(it: Item, comma: bool, close: string)
    requires Blank(Python, it.before) && Blank(Python, it.after) && WellFormed(it.tree)
    requires Blank(Python, close)
    ensures SplitTop(PrintItem(it) + Tail(comma, close), 0, "") == [Print(it.tree)]
  {
    PrintSolid(it.tree);
    KeepPadded(it.before, Print(it.tree), it.after, close);
    SplitTopItem(it, Tail(comma, close));
    SplitTail(PrintItem(it), comma, close);
  }

  lemma SplitFirst(it: Item, more: string)
    requires Blank(Python, it.before) && Blank(Python, it.after) && WellFormed(it.tree)
    ensures SplitTop(PrintItem(it) + ("," + more), 0, "") == [Print(it.tree)] + SplitTop(more, 0, "")
  {
    PrintSolid(it.tree);
    KeepPadded(it.before, Print(it.tree), it.after, "");
    SplitTopItem(it, "," + more);
    SplitAtComma(PrintItem(it), more);
  }

  lemma SplitAtComma(cur: string, more: string)
    ensures SplitTop("," + more, 0, cur) == Keep(cur) + SplitTop(more, 0, "")
  {
    assert ("," + more)[1..] == more;
  }

  lemma {:induction false} SplitCommasPlain(t: string, cur: string)
    requires ',' !in t
    ensures SplitCommas(t, cur) == Keep(cur + t)
    decreases |t|
  {
    if t == "" {
      assert cur + t == cur;
    } else {
      SplitCommasPlain(t[1..], cur + [t[0]]);
      assert (cur + [t[0]]) + t[1..] == cur + t;
    }
  }

  lemma FlattenName(p: seq<string>)
    requires Segments(p)
    ensures Flatten(PathText(p)) == [PathText(p)]
  {
    var t := PathText(p);
    PathTextPlain(p);
    TrimSolid(Python, t);
    SplitCommasPlain(t, "");
    assert "" + t == t;
  }

  /** Reading `prefix{inside}`: the closing brace found is the matching one. */
  lemma DissectBraced(prefix: string, t: string)
    requires '{' !in prefix && Nested(t, 0)
    ensures Dissect(prefix + ("{" + t + "}")) == Braced(prefix, SplitTop(t, 0, ""))
  {
    var s := prefix + ("{" + t + "}");
    var k := |prefix|;
    BracedOpen(prefix, t);
    BracedClose(t);
    BracedSlices(prefix, t);
  }

  lemma BracedOpen(prefix: string, t: string)
    requires '{' !in prefix
    ensures IndexOf(prefix + ("{" + t + "}"), '{') == |prefix|
  {
    assert prefix + ("{" + t + "}") == prefix + ['{'] + (t + "}");
    IndexOfAt(prefix, '{', t + "}");
  }

  lemma BracedClose(t: string)
    requires Nested(t, 0)
    ensures FindClose(t + "}", 1) == |t|
  {
    FindCloseSkips(t, 0, "}");
  }

  lemma BracedSlices(prefix: string, t: string)
    ensures var s := prefix + ("{" + t + "}");
            s[..|prefix|] == prefix && s[|prefix| + 1..] == t + "}" && (t + "}")[..|t|] == t
  {
  }

  lemma {:induction false} LeavesNonEmpty(u: Use)
    requires WellFormed(u)
    ensures forall q :: q in Leaves(u) ==> q != []
    decreases u, 0
  {
    if u.Group? { ItemLeavesNonEmpty(u.path, u.items); }
  }

  lemma {:induction false} ItemLeavesNonEmpty(p: seq<string>, items: seq<Item>)
    requires WellFormedItems(items) && p != []
    ensures forall q :: q in ItemLeaves(p, items) ==> q != []
    decreases items, 1
  {
    if items != [] {
      ItemLeavesNonEmpty(p, items[1..]);
      if items[0].tree != SELF { LeavesNonEmpty(items[0].tree); }
    }
  }

  lemma ColonInside(q: seq<string>)
    ensures |q| > 1 ==> ':' in PathText(q)
  {
    if |q| > 1 { assert PathText(q)[|q[0]|] == ':'; }
  }

  /** `PathText(q)` is the bare word `self` only for the path `self`. */
  lemma PathTextSelf(q: seq<string>)
    requires Segments(q) && PathText(q) == "self"
    ensures q == ["self"]
  {
    ColonInside(q);
  }

  lemma {:induction false} LeavesSegments(u: Use)
    requires WellFormed(u)
    ensures forall q :: q in Leaves(u) ==> Segments(q)
    decreases u, 0
  {
    if u.Group? { ItemLeavesSegments(u.path, u.items); }
  }

  lemma {:induction false} ItemLeavesSegments(p: seq<string>, items: seq<Item>)
    requires WellFormedItems(items) && Segments(p)
    ensures forall q :: q in ItemLeaves(p, items) ==> Segments(q)
    decreases items, 1
  {
    if items != [] {
      ItemLeavesSegments(p, items[1..]);
      if items[0].tree != SELF {
        LeavesSegments(items[0].tree);
        var ls := Leaves(items[0].tree);
        forall q | q in Under(p, ls) ensures Segments(q) {
          var i :| 0 <= i < |ls| && Under(p, ls)[i] == q;
          assert ls[i] in ls;
        }
      }
    }
  }

  /** Only a plain `self`, or a `SelfOfSelf` group, has a leaf spelled `self`. */
  lemma {:induction false} SelfLeafItems(p: seq<string>, items: seq<Item>)
    requires WellFormedItems(items) && Segments(p) && ["self"] in ItemLeaves(p, items)
    ensures p == ["self"] && exists i :: 0 <= i < |items| && items[i].tree == SELF
    decreases |items|
  {
    if items[0].tree == SELF && p == ["self"] {
    } else if ["self"] in ItemLeaves(p, items[1..]) {
      SelfLeafItems(p, items[1..]);
      var i :| 0 <= i < |items[1..]| && items[1..][i].tree == SELF;
      assert items[i + 1].tree == SELF;
    } else {
      LeavesNonEmpty(items[0].tree);
      var ls := Leaves(items[0].tree);
      forall i | 0 <= i < |ls| ensures |Under(p, ls)[i]| >= 2 {
        assert ls[i] in ls;
      }
    }
  }

  lemma AttachUnder(p: seq<string>, u: Use)
    requires Segments(p) && WellFormed(u) && u != SELF && !SelfOfSelf(u)
    ensures AttachAll(Prefix(p), Render(Leaves(u))) == Render(Under(p, Leaves(u)))
  {
    var ls := Leaves(u);
    LeavesSegments(u);
    forall i | 0 <= i < |ls|
      ensures Attach(Prefix(p), PathText(ls[i])) == PathText(p + ls[i])
    {
      assert ls[i] in ls;
      PathTextAppend(p, ls[i]);
      if PathText(ls[i]) == "self" {
        PathTextSelf(ls[i]);
        if u.Group? { SelfLeafItems(u.path, u.items); }
        assert false;
      }
    }
  }

  /** Flattening the printed text of any use tree, of any depth and any layout,
      gives exactly the tree's paths, in order. */
  lemma {:induction false} FlattenPrinted(u: Use)
    requires WellFormed(u) && Faithful(u)
    ensures Flatten(Print(u)) == Render(Leaves(u))
    decreases u, 0
  {
    if u.Name? {
      FlattenName(u.path);
    } else {
      FlattenGroupText(u);
      FlattenItemsPrinted(u.path, u.items, |Print(u)|);
    }
  }

  lemma {:induction false} FlattenItemsPrinted(p: seq<string>, items: seq<Item>, bound: nat)
    requires Segments(p) && WellFormedItems(items) && FaithfulItems(items)
    requires forall x :: x in Texts(items) ==> |x| < bound
    ensures FlattenItems(Prefix(p), Texts(items), bound) == Render(ItemLeaves(p, items))
    decreases items, 1
  {
    if items != [] {
      var u := items[0].tree;
      assert Texts(items)[1..] == Texts(items[1..]) && Texts(items)[0] == Print(u);
      FlattenItemsPrinted(p, items[1..], bound);
      FlattenPrinted(u);
      AttachItem(p, u);
      RenderAppend(OneItem(p, u), ItemLeaves(p, items[1..]));
      FlattenItemsCons(Prefix(p), Texts(items), bound);
    }
  }

  lemma AttachItem(p: seq<string>, u: Use)
    requires Segments(p) && WellFormed(u) && !SelfOfSelf(u)
    ensures AttachAll(Prefix(p), Render(Leaves(u))) == Render(OneItem(p, u))
  {
    if u == SELF {
      PrefixPlain(p);
      assert PathText(["self"]) == "self";
    } else {
      AttachUnder(p, u);
    }
  }

  lemma FlattenItemsCons(prefix: string, items: seq<string>, bound: nat)
    requires items != [] && forall x :: x in items ==> |x| < bound
    ensures FlattenItems(prefix, items, bound)
         == AttachAll(prefix, Flatten(items[0])) + FlattenItems(prefix, items[1..], bound)
  {
  }

  lemma RenderAppend(a: seq<seq<string>>, b: seq<seq<string>>)
    ensures Render(a + b) == Render(a) + Render(b)
  {
  }

  // ------------------------------------------------- when the round trip fails

  predicate NoLonger(a: seq<string>, b: seq<string>) {
    |a| == |b| && forall i :: 0 <= i < |a| ==> |a[i]| <= |b[i]|
  }

  predicate SomeShorter(a: seq<string>, b: seq<string>) {
    |a| == |b| && exists i :: 0 <= i < |a| && |a[i]| < |b[i]|
  }

  lemma CompareAppend(a: seq<string>, b: seq<string>, c: seq<string>, d: seq<string>)
    requires NoLonger(a, b) && NoLonger(c, d)
    ensures NoLonger(a + c, b + d)
    ensures SomeShorter(a, b) || SomeShorter(c, d) ==> SomeShorter(a + c, b + d)
  {
    if SomeShorter(a, b) {
      var i :| 0 <= i < |a| && |a[i]| < |b[i]|;
      assert |(a + c)[i]| < |(b + d)[i]|;
    } else if SomeShorter(c, d) {
      var i :| 0 <= i < |c| && |c[i]| < |d[i]|;
      assert |(a + c)[|a| + i]| < |(b + d)[|a| + i]|;
    }
  }

  /** Attaching a prefix never makes a path longer than the true one; a leaf wrongly
      spelled `self`, or one already too short, stays too short. */
  lemma AttachShrinks(p: seq<string>, flat: seq<string>, ls: seq<seq<string>>)
    requires Segments(p) && NoLonger(flat, Render(ls)) && forall q :: q in ls ==> Segments(q)
    ensures NoLonger(AttachAll(Prefix(p), flat), Render(Under(p, ls)))
    ensures SomeShorter(flat, Render(ls)) || "self" in flat
        ==> SomeShorter(AttachAll(Prefix(p), flat), Render(Under(p, ls)))
  {
    PrefixPlain(p);
    forall i | 0 <= i < |ls|
      ensures |PathText(p + ls[i])| == |Prefix(p)| + |PathText(ls[i])|
    {
      assert ls[i] in ls;
      PathTextAppend(p, ls[i]);
    }
    if SomeShorter(flat, Render(ls)) {
      var i :| 0 <= i < |flat| && |flat[i]| < |Render(ls)[i]|;
      assert |AttachAll(Prefix(p), flat)[i]| < |Render(Under(p, ls))[i]|;
    } else if "self" in flat {
      var i :| 0 <= i < |flat| && flat[i] == "self";
      assert |AttachAll(Prefix(p), flat)[i]| < |Render(Under(p, ls))[i]|;
    }
  }

  lemma {:induction false} FlattenShrinks(u: Use)
    requires WellFormed(u)
    ensures NoLonger(Flatten(Print(u)), Render(Leaves(u)))
    ensures !Faithful(u) ==> SomeShorter(Flatten(Print(u)), Render(Leaves(u)))
    decreases u, 0
  {
    if u.Name? {
      FlattenName(u.path);
    } else {
      FlattenGroupText(u);
      FlattenItemsShrinks(u.path, u.items, |Print(u)|);
    }
  }

  lemma FlattenGroupText(u: Use)
    requires WellFormed(u) && u.Group?
    ensures forall x :: x in Texts(u.items) ==> |x| < |Print(u)|
    ensures Flatten(Print(u)) == FlattenItems(Prefix(u.path), Texts(u.items), |Print(u)|)
  {
    PrefixPlain(u.path);
    InsideNested(u.items, u.comma, u.close);
    DissectBraced(Prefix(u.path), Inside(u.items, u.comma, u.close));
    SplitInside(u.items, u.comma, u.close);
    PrintGroup(u);
    DissectShorter(Print(u));
    PrintSolid(u);
    TrimSolid(Python, Print(u));
  }

  lemma {:induction false} FlattenItemsShrinks(p: seq<string>, items: seq<Item>, bound: nat)
    requires Segments(p) && WellFormedItems(items)
    requires forall x :: x in Texts(items) ==> |x| < bound
    ensures var r := FlattenItems(Prefix(p), Texts(items), bound);
            && NoLonger(r, Render(ItemLeaves(p, items)))
            && (!FaithfulItems(items) ==> SomeShorter(r, Render(ItemLeaves(p, items))))
    decreases items, 1
  {
    if items != [] {
      var u := items[0].tree;
      TextsCons(items);
      FlattenItemsShrinks(p, items[1..], bound);
      FlattenShrinks(u);
      AttachItemShrinks(p, u);
      FlattenItemsCons(Prefix(p), Texts(items), bound);
      RenderItemsCons(p, items);
      CompareAppend(AttachAll(Prefix(p), Flatten(Print(u))), Render(OneItem(p, u)),
                    FlattenItems(Prefix(p), Texts(items[1..]), bound), Render(ItemLeaves(p, items[1..])));
    }
  }

  lemma TextsCons(items: seq<Item>)
    requires items != []
    ensures Texts(items)[1..] == Texts(items[1..]) && Texts(items)[0] == Print(items[0].tree)
  {
  }

  lemma RenderItemsCons(p: seq<string>, items: seq<Item>)
    requires items != []
    ensures Render(ItemLeaves(p, items))
         == Render(OneItem(p, items[0].tree)) + Render(ItemLeaves(p, items[1..]))
  {
    RenderAppend(OneItem(p, items[0].tree), ItemLeaves(p, items[1..]));
  }

  lemma AttachItemShrinks(p: seq<string>, u: Use)
    requires Segments(p) && WellFormed(u)
    requires NoLonger(Flatten(Print(u)), Render(Leaves(u)))
    requires !Faithful(u) ==> SomeShorter(Flatten(Print(u)), Render(Leaves(u)))
    ensures var a, b := AttachAll(Prefix(p), Flatten(Print(u))), Render(OneItem(p, u));
            NoLonger(a, b) && (SelfOfSelf(u) || !Faithful(u) ==> SomeShorter(a, b))
  {
    if u == SELF {
      FlattenName(["self"]);
      PrefixPlain(p);
      assert PathText(["self"]) == "self";
    } else {
      LeavesSegments(u);
      if SelfOfSelf(u) && Faithful(u) {
        FlattenPrinted(u);
        SelfAmongLeaves(u.path, u.items);
        var i :| 0 <= i < |Leaves(u)| && Leaves(u)[i] == ["self"];
        assert Render(Leaves(u))[i] == "self";
      }
      AttachShrinks(p, Flatten(Print(u)), Leaves(u));
    }
  }

  lemma {:induction false} SelfAmongLeaves(p: seq<string>, items: seq<Item>)
    requires exists i :: 0 <= i < |items| && items[i].tree == SELF
    ensures p in ItemLeaves(p, items)
  {
    if items[0].tree != SELF {
      var i :| 0 <= i < |items| && items[i].tree == SELF;
      assert items[1..][i - 1].tree == SELF;
      SelfAmongLeaves(p, items[1..]);
    }
  }

  /** Flattening recovers the tree's paths exactly when no nested group is a `SelfOfSelf`. */
  lemma FlattenExact(u: Use)
    requires WellFormed(u)
    ensures Flatten(Print(u)) == Render(Leaves(u)) <==> Faithful(u)
  {
    if Faithful(u) { FlattenPrinted(u); } else { FlattenShrinks(u); }
  }

  /** `a::{self::{self}}` is read as `a` instead of `a::self`. */
  lemma SelfOfSelfIsLost()
    ensures var u := Group(["a"], [Item("", Group(["self"], [Item("", SELF, "")], false, ""), "")], false, "");
            Flatten(Print(u)) != Render(Leaves(u))
  {
    var g := Group(["self"], [Item("", SELF, "")], false, "");
    assert g.items[0].tree == SELF;
    assert WellFormedItems([]) && WellFormed(SELF) && WellFormedItems(g.items);
    assert WellFormedItems([Item("", g, "")]);
    FlattenExact(Group(["a"], [Item("", g, "")], false, ""));
  }
}
