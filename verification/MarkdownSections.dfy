/** Section and table lookup in a parsed document (xtask/src/docs_markdown.rs). */
module MarkdownSections {
  import opened Text
  import opened MarkdownEvents

  // ---------------------------------------------------------------- the code

  predicate Titled(h: HeadingData, level: nat, title: string) {
    h.level == level && Trim(Rust, h.text) == title
  }

  /** First heading from `i` on with this level and title, or the number of headings. */
  function NextTitled(hs: seq<HeadingData>, level: nat, title: string, i: nat): (k: nat)
    requires i <= |hs|
    ensures i <= k <= |hs|
    ensures k < |hs| ==> Titled(hs[k], level, title)
    ensures forall j :: i <= j < k ==> !Titled(hs[j], level, title)
    decreases |hs| - i
  {
    if i == |hs| || Titled(hs[i], level, title) then i else NextTitled(hs, level, title, i + 1)
  }

  /** First heading from `i` on that is at least as important, or the number of headings. */
  function NextBoundary(hs: seq<HeadingData>, level: nat, i: nat): (k: nat)
    requires i <= |hs|
    ensures i <= k <= |hs|
    ensures k < |hs| ==> hs[k].level <= level
    ensures forall j :: i <= j < k ==> hs[j].level > level
    decreases |hs| - i
  {
    if i == |hs| || hs[i].level <= level then i else NextBoundary(hs, level, i + 1)
  }

  function SectionAt(hs: seq<HeadingData>, len: nat, i: nat): Span
    requires i < |hs|
  {
    var k := NextBoundary(hs, hs[i].level, i + 1);
    Span(hs[i].span.end, if k == |hs| then len else hs[k].span.start)
  }

  /** `Document::section`: an error when the title is missing or ambiguous. */
  function Section(hs: seq<HeadingData>, len: nat, level: nat, title: string): Option<Span> {
    var i := NextTitled(hs, level, title, 0);
    if i == |hs| || NextTitled(hs, level, title, i + 1) != |hs| then None else Some(SectionAt(hs, len, i))
  }

  predicate Inside(t: TableData, r: Span) {
    r.start <= t.span.start < r.end
  }

  function Trimmed(cells: seq<Inline>): (r: seq<string>)
    ensures |r| == |cells| && forall i :: 0 <= i < |cells| ==> r[i] == Trim(Rust, cells[i].text)
  {
    seq(|cells|, i requires 0 <= i < |cells| => Trim(Rust, cells[i].text))
  }

  predicate Wanted(t: TableData, r: Span, columns: seq<string>) {
    Inside(t, r) && Trimmed(t.columns) == columns
  }

  function NextWanted(ts: seq<TableData>, r: Span, columns: seq<string>, i: nat): (k: nat)
    requires i <= |ts|
    ensures i <= k <= |ts|
    ensures k < |ts| ==> Wanted(ts[k], r, columns)
    ensures forall j :: i <= j < k ==> !Wanted(ts[j], r, columns)
    decreases |ts| - i
  {
    if i == |ts| || Wanted(ts[i], r, columns) then i else NextWanted(ts, r, columns, i + 1)
  }

  /** `Document::table` */
  function TableIn(doc: Document, len: nat, level: nat, title: string, columns: seq<string>): Option<TableData> {
    match Section(doc.headings, len, level, title)
    case None => None
    case Some(r) =>
      var i := NextWanted(doc.tables, r, columns, 0);
      if i == |doc.tables| || NextWanted(doc.tables, r, columns, i + 1) != |doc.tables| then None
      else Some(doc.tables[i])
  }

  // ------------------------------------------------------------- its promises

  /** Exactly one heading has this level and title, and it is number `i`. */
  predicate OnlyTitled(hs: seq<HeadingData>, level: nat, title: string, i: nat) {
    i < |hs| && forall j :: 0 <= j < |hs| ==> (Titled(hs[j], level, title) <==> j == i)
  }

  /** A section is found exactly when its title occurs once at its level. */
  lemma SectionExact(hs: seq<HeadingData>, len: nat, level: nat, title: string)
    ensures Section(hs, len, level, title).Some? <==> exists i: nat :: OnlyTitled(hs, level, title, i)
    ensures forall i: nat :: OnlyTitled(hs, level, title, i) ==>
              Section(hs, len, level, title) == Some(SectionAt(hs, len, i))
  {
    var i := NextTitled(hs, level, title, 0);
    if i < |hs| && NextTitled(hs, level, title, i + 1) == |hs| {
      assert OnlyTitled(hs, level, title, i);
    }
    forall k: nat | OnlyTitled(hs, level, title, k)
      ensures Section(hs, len, level, title) == Some(SectionAt(hs, len, k))
    {
      assert Titled(hs[k], level, title);
      assert i == k;
    }
  }

  /** Headings in document order, inside the document. */
  predicate InOrder(hs: seq<HeadingData>, len: nat) {
    && (forall i :: 0 <= i < |hs| ==> hs[i].span.start <= hs[i].span.end <= len)
    && (forall i, j :: 0 <= i < j < |hs| ==> hs[i].span.end <= hs[j].span.start)
  }

  /** Offset `x` lies after heading `i`, inside the document, and before every later heading that
      is at least as important. */
  predicate Below(hs: seq<HeadingData>, len: nat, i: nat, x: nat)
    requires i < |hs|
  {
    && hs[i].span.end <= x < len
    && forall j :: i < j < |hs| && hs[j].level <= hs[i].level ==> x < hs[j].span.start
  }

  /** The section of a heading is exactly what lies below it. */
  lemma SectionPoints(hs: seq<HeadingData>, len: nat, i: nat, x: nat)
    requires InOrder(hs, len) && i < |hs|
    ensures SectionAt(hs, len, i).start <= x < SectionAt(hs, len, i).end <==> Below(hs, len, i, x)
  {
    var k := NextBoundary(hs, hs[i].level, i + 1);
    if k < |hs| {
      forall j | i < j < |hs| && hs[j].level <= hs[i].level ensures hs[k].span.start <= hs[j].span.start {
        if k < j { assert hs[k].span.end <= hs[j].span.start; }
      }
    }
  }

  /** The section of a title, point by point: found exactly when one heading has that level and
      title, and then it is what lies below that heading. */
  lemma SectionMeaning(hs: seq<HeadingData>, len: nat, level: nat, title: string)
    requires InOrder(hs, len)
    ensures Section(hs, len, level, title).Some? <==> exists i: nat :: OnlyTitled(hs, level, title, i)
    ensures forall i: nat, x: nat :: OnlyTitled(hs, level, title, i) ==>
              var r := Section(hs, len, level, title); r.Some? && (r.value.start <= x < r.value.end <==> Below(hs, len, i, x))
  {
    SectionExact(hs, len, level, title);
    forall i: nat, x: nat | OnlyTitled(hs, level, title, i)
      ensures var r := Section(hs, len, level, title);
              r.Some? && (r.value.start <= x < r.value.end <==> Below(hs, len, i, x))
    {
      SectionPoints(hs, len, i, x);
    }
  }

  /** The table starts below heading `i` and has these columns. */
  predicate Suits(t: TableData, hs: seq<HeadingData>, len: nat, i: nat, columns: seq<string>)
    requires i < |hs|
  {
    && Below(hs, len, i, t.span.start) && |t.columns| == |columns|
    && forall c :: 0 <= c < |columns| ==> Trim(Rust, t.columns[c].text) == columns[c]
  }

  /** Table `k` is the only one that suits. */
  predicate OnlySuiting(doc: Document, len: nat, i: nat, columns: seq<string>, k: nat)
    requires i < |doc.headings|
  {
    k < |doc.tables| && forall m :: 0 <= m < |doc.tables| ==> (Suits(doc.tables[m], doc.headings, len, i, columns) <==> m == k)
  }

  lemma WantedIsSuiting(t: TableData, hs: seq<HeadingData>, len: nat, i: nat, columns: seq<string>)
    requires InOrder(hs, len) && i < |hs|
    ensures Wanted(t, SectionAt(hs, len, i), columns) <==> Suits(t, hs, len, i, columns)
  {
    SectionPoints(hs, len, i, t.span.start);
    if Suits(t, hs, len, i, columns) { assert Trimmed(t.columns) == columns; }
  }

  lemma TableBelow(doc: Document, len: nat, level: nat, title: string, columns: seq<string>, i: nat)
    requires InOrder(doc.headings, len) && OnlyTitled(doc.headings, level, title, i)
    ensures TableIn(doc, len, level, title, columns).Some? <==> exists k: nat :: OnlySuiting(doc, len, i, columns, k)
    ensures forall k: nat :: OnlySuiting(doc, len, i, columns, k) ==>
              TableIn(doc, len, level, title, columns) == Some(doc.tables[k])
  {
    SectionExact(doc.headings, len, level, title);
    var r := SectionAt(doc.headings, len, i);
    forall m | 0 <= m < |doc.tables|
      ensures Wanted(doc.tables[m], r, columns) <==> Suits(doc.tables[m], doc.headings, len, i, columns)
    {
      WantedIsSuiting(doc.tables[m], doc.headings, len, i, columns);
    }
    var n := NextWanted(doc.tables, r, columns, 0);
    if n < |doc.tables| && NextWanted(doc.tables, r, columns, n + 1) == |doc.tables| {
      assert OnlySuiting(doc, len, i, columns, n);
    }
    forall k: nat | OnlySuiting(doc, len, i, columns, k)
      ensures TableIn(doc, len, level, title, columns) == Some(doc.tables[k])
    {
      assert Suits(doc.tables[k], doc.headings, len, i, columns);
      assert n == k;
    }
  }

  /** Heading `i` is the only one titled so, table `k` the only one that suits, and it is `t`. */
  predicate FoundAt(
      doc: Document, len: nat, level: nat, title: string, columns: seq<string>, t: TableData, i: nat, k: nat)
  {
    OnlyTitled(doc.headings, level, title, i) && OnlySuiting(doc, len, i, columns, k) && doc.tables[k] == t
  }

  /** A table is found exactly when one heading has that level and title and one table starts
      below it with those column titles; and then it is that table. */
  lemma TableInExact(doc: Document, len: nat, level: nat, title: string, columns: seq<string>, t: TableData)
    requires InOrder(doc.headings, len)
    ensures TableIn(doc, len, level, title, columns) == Some(t) <==>
            exists i: nat, k: nat :: FoundAt(doc, len, level, title, columns, t, i, k)
  {
    SectionExact(doc.headings, len, level, title);
    if i: nat :| OnlyTitled(doc.headings, level, title, i) {
      TableBelow(doc, len, level, title, columns, i);
      forall i': nat | OnlyTitled(doc.headings, level, title, i') ensures i' == i {
        assert Titled(doc.headings[i], level, title);
      }
      if TableIn(doc, len, level, title, columns) == Some(t) {
        var k: nat :| OnlySuiting(doc, len, i, columns, k);
        assert FoundAt(doc, len, level, title, columns, t, i, k);
      }
    }
  }

  /** Sections of one level never overlap, and a section stops before every later heading
      that is at least as important. */
  lemma SectionsDisjoint(hs: seq<HeadingData>, len: nat, i: nat, j: nat)
    requires InOrder(hs, len) && i < j < |hs| && hs[j].level <= hs[i].level
    ensures SectionAt(hs, len, i).end <= hs[j].span.start <= SectionAt(hs, len, j).start
  {
    var k := NextBoundary(hs, hs[i].level, i + 1);
    assert k <= j;
    if k < j { assert hs[k].span.end <= hs[j].span.start; }
  }

  /** So one table cannot be found under two different sections of the same level. */
  lemma TableInOneSection(doc: Document, len: nat, level: nat, a: string, b: string, columns: seq<string>)
    requires InOrder(doc.headings, len) && a != b
    requires TableIn(doc, len, level, a, columns).Some? && TableIn(doc, len, level, b, columns).Some?
    ensures TableIn(doc, len, level, a, columns) != TableIn(doc, len, level, b, columns)
  {
    var hs := doc.headings;
    SectionExact(hs, len, level, a);
    SectionExact(hs, len, level, b);
    var i: nat :| OnlyTitled(hs, level, a, i);
    var j: nat :| OnlyTitled(hs, level, b, j);
    assert Titled(hs[i], level, a) && Titled(hs[j], level, b);
    if i < j { SectionsDisjoint(hs, len, i, j); } else { SectionsDisjoint(hs, len, j, i); }
  }

  // -------------------------------------------------------- in a parsed document

  /** The blocks at the top level of the stream follow one another between two offsets. */
  predicate Laid(evs: Events, from: nat, to: nat)
    decreases |evs|
  {
    if evs == [] then from <= to
    else if !evs[0].event.Start? then Laid(evs[1..], from, to)
    else
      && from <= evs[0].span.start <= evs[0].span.end
      && Laid(Take(evs[1..], 0).rest, evs[0].span.end, to)
  }

  lemma {:induction false} LaidBounds(evs: Events, from: nat, to: nat)
    requires Laid(evs, from, to)
    ensures from <= to
    decreases |evs|
  {
    if evs != [] {
      if evs[0].event.Start? {
        LaidBounds(Take(evs[1..], 0).rest, evs[0].span.end, to);
      } else {
        LaidBounds(evs[1..], from, to);
      }
    }
  }

  lemma {:induction false} ParsedInOrder(evs: Events, doc: Document, from: nat, to: nat)
    requires Laid(evs, from, to) && InOrder(doc.headings, from)
    ensures InOrder(Parse(evs, doc).headings, to)
    decreases |evs|
  {
    LaidBounds(evs, from, to);
    if evs != [] {
      if evs[0].event.Start? {
        var t := Take(evs[1..], 0);
        var next := AddBlock(doc, evs[0].event.tag, evs[0].span, t.body);
        BlockInOrder(doc, evs[0].event.tag, evs[0].span, t.body, from);
        ParsedInOrder(t.rest, next, evs[0].span.end, to);
      } else {
        ParsedInOrder(evs[1..], doc, from, to);
      }
    }
  }

  lemma BlockInOrder(doc: Document, tag: Tag, span: Span, body: Events, from: nat)
    requires InOrder(doc.headings, from) && from <= span.start <= span.end
    ensures InOrder(AddBlock(doc, tag, span, body).headings, span.end)
  {
  }

  /** In the document parsed from a stream whose blocks follow one another, one table is never
      found under two sections of the same level. */
  lemma ParsedTableInOneSection(evs: Events, len: nat, level: nat, a: string, b: string, columns: seq<string>)
    requires Laid(evs, 0, len) && a != b
    requires TableIn(Parse(evs, EMPTY), len, level, a, columns).Some?
    ensures TableIn(Parse(evs, EMPTY), len, level, a, columns) != TableIn(Parse(evs, EMPTY), len, level, b, columns)
  {
    ParsedInOrder(evs, EMPTY, 0, len);
    if TableIn(Parse(evs, EMPTY), len, level, b, columns).Some? {
      TableInOneSection(Parse(evs, EMPTY), len, level, a, b, columns);
    }
  }

  /** Heading number `i` of the forest has this level and title, and no other has. */
  predicate OnlyHeading(hs: seq<Node>, level: nat, title: string, i: nat)
    requires forall j :: 0 <= j < |hs| ==> hs[j].Element? && hs[j].tag.Heading?
  {
    && i < |hs|
    && forall j :: 0 <= j < |hs| ==>
         (hs[j].tag.level == level && Trim(Rust, InlineTree(hs[j].kids).text) == title <==> j == i)
  }

  /** The table element starts after heading `i` and before the next one that is at least as
      important, and its header cells read as these columns. */
  predicate TableUnder(n: Node, hs: seq<Node>, len: nat, i: nat, columns: seq<string>)
    requires n.Element? && i < |hs| && forall j :: 0 <= j < |hs| ==> hs[j].Element? && hs[j].tag.Heading?
  {
    && hs[i].span.end <= n.span.start < len
    && (forall j :: i < j < |hs| && hs[j].tag.level <= hs[i].tag.level ==> n.span.start < hs[j].span.start)
    && |TableOf(n).columns| == |columns|
    && forall c :: 0 <= c < |columns| ==> Trim(Rust, TableOf(n).columns[c].text) == columns[c]
  }

  lemma {:induction false} RowsKeepSpan(kids: seq<Node>, table: TableData)
    ensures RowsTree(kids, table).span == table.span
    decreases |kids|
  {
    if kids != [] && kids[0].Element? && IsRow(Start(kids[0].tag)) {
      RowsKeepSpan(kids[1..], AddRow(table, kids[0].tag, kids[0].span, CellsTree(kids[0].kids)));
    }
  }

  ghost predicate HeadingsAre(ds: seq<HeadingData>, hs: seq<Node>) {
    && |ds| == |hs| && (forall j :: 0 <= j < |hs| ==> hs[j].Element? && hs[j].tag.Heading?)
    && forall j :: 0 <= j < |hs| ==> ds[j] == HeadingData(hs[j].tag.level, InlineTree(hs[j].kids).text, hs[j].span)
  }

  lemma SameHeading(ds: seq<HeadingData>, hs: seq<Node>, level: nat, title: string, i: nat)
    requires HeadingsAre(ds, hs)
    ensures OnlyTitled(ds, level, title, i) <==> OnlyHeading(hs, level, title, i)
  {
    if OnlyTitled(ds, level, title, i) {
      forall j | 0 <= j < |hs|
        ensures hs[j].tag.level == level && Trim(Rust, InlineTree(hs[j].kids).text) == title <==> j == i
      {
        assert Titled(ds[j], level, title) <==> j == i;
      }
    }
  }

  lemma SamePlace(ds: seq<HeadingData>, hs: seq<Node>, len: nat, i: nat, x: nat)
    requires HeadingsAre(ds, hs) && i < |hs|
    ensures Below(ds, len, i, x) <==>
            && hs[i].span.end <= x < len
            && forall j :: i < j < |hs| && hs[j].tag.level <= hs[i].tag.level ==> x < hs[j].span.start
  {
    if Below(ds, len, i, x) {
      forall j | i < j < |hs| && hs[j].tag.level <= hs[i].tag.level ensures x < hs[j].span.start {
        assert ds[j].level <= ds[i].level;
      }
    }
  }

  /** Heading `i` is the only one titled so, table element `k` the only one under it with these
      columns, and it reads as `t`. */
  predicate LiesAt(
      hs: seq<Node>, ts: seq<Node>, len: nat, level: nat, title: string, columns: seq<string>, t: TableData,
      i: nat, k: nat)
    requires forall j :: 0 <= j < |hs| ==> hs[j].Element? && hs[j].tag.Heading?
    requires forall j :: 0 <= j < |ts| ==> ts[j].Element?
  {
    && OnlyHeading(hs, level, title, i) && k < |ts| && TableOf(ts[k]) == t
    && forall m :: 0 <= m < |ts| ==> (TableUnder(ts[m], hs, len, i, columns) <==> m == k)
  }

  lemma SuitsIsUnder(ds: seq<HeadingData>, hs: seq<Node>, n: Node, len: nat, i: nat, columns: seq<string>)
    requires HeadingsAre(ds, hs) && i < |hs| && n.Element?
    ensures Suits(TableOf(n), ds, len, i, columns) <==> TableUnder(n, hs, len, i, columns)
  {
    RowsKeepSpan(n.kids, TableData(n.span, [], []));
    SamePlace(ds, hs, len, i, n.span.start);
  }

  lemma FoundIsLying(
      doc: Document, hs: seq<Node>, ts: seq<Node>, len: nat, level: nat, title: string, columns: seq<string>,
      t: TableData, i: nat, k: nat)
    requires HeadingsAre(doc.headings, hs) && |doc.tables| == |ts|
    requires forall m :: 0 <= m < |ts| ==> ts[m].Element? && doc.tables[m] == TableOf(ts[m])
    ensures FoundAt(doc, len, level, title, columns, t, i, k) <==> LiesAt(hs, ts, len, level, title, columns, t, i, k)
  {
    SameHeading(doc.headings, hs, level, title, i);
    if i < |hs| {
      forall m | 0 <= m < |ts|
        ensures Suits(doc.tables[m], doc.headings, len, i, columns) <==> TableUnder(ts[m], hs, len, i, columns)
      {
        SuitsIsUnder(doc.headings, hs, ts[m], len, i, columns);
      }
    }
  }

  /** What looking up a table in a parsed text finds, in terms of the text's own top-level
      headings and tables: the one table element under the one heading of that title. */
  lemma ParsedTableExact(evs: Events, len: nat, level: nat, title: string, columns: seq<string>, t: TableData)
    returns (nodes: seq<Node>)
    requires WellNested(evs, 0) && Laid(evs, 0, len)
    ensures Proper(nodes) && Flat(nodes) == evs
    ensures TableIn(Parse(evs, EMPTY), len, level, title, columns) == Some(t) <==>
            exists i: nat, k: nat ::
              LiesAt(TopHeadings(nodes), TopTables(nodes), len, level, title, columns, t, i, k)
  {
    nodes := DocumentRecovered(evs);
    ParsedInOrder(evs, EMPTY, 0, len);
    LookupCarried(Parse(evs, EMPTY), TopHeadings(nodes), TopTables(nodes), len, level, title, columns, t);
  }

  lemma LookupCarried(
      doc: Document, hs: seq<Node>, ts: seq<Node>, len: nat, level: nat, title: string, columns: seq<string>,
      t: TableData)
    requires InOrder(doc.headings, len) && HeadingsAre(doc.headings, hs) && |doc.tables| == |ts|
    requires forall m :: 0 <= m < |ts| ==> ts[m].Element? && doc.tables[m] == TableOf(ts[m])
    ensures TableIn(doc, len, level, title, columns) == Some(t) <==>
            exists i: nat, k: nat :: LiesAt(hs, ts, len, level, title, columns, t, i, k)
  {
    TableInExact(doc, len, level, title, columns, t);
    forall i: nat, k: nat
      ensures FoundAt(doc, len, level, title, columns, t, i, k) <==> LiesAt(hs, ts, len, level, title, columns, t, i, k)
    {
      FoundIsLying(doc, hs, ts, len, level, title, columns, t, i, k);
    }
  }
}
