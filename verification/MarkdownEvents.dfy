/** The Markdown event reader of xtask/src/docs_markdown.rs. The events themselves come from
    the foreign CommonMark parser. */
module MarkdownEvents {
  import opened Text

  datatype Tag =
    | Heading(level: nat) | Table | TableHead | TableRow | TableCell
    | List(ordered: bool) | Item | Link(url: string) | OtherTag

  datatype Event =
    | Start(tag: Tag) | End
    | TextEvent(text: string) | Code(code: string) | Break | OtherEvent

  datatype Span = Span(start: nat, end: nat)

  datatype OffsetEvent = At(event: Event, span: Span)

  type Events = seq<OffsetEvent>

  datatype Inline = Inline(text: string, code: seq<string>, links: seq<string>)

  datatype Row = Row(span: Span, cells: seq<Inline>)

  datatype TableData = TableData(span: Span, columns: seq<Inline>, rows: seq<Row>)

  datatype ListItem = ListItem(span: Span, inline: Inline)

  datatype HeadingData = HeadingData(level: nat, text: string, span: Span)

  datatype Document = Document(
    headings: seq<HeadingData>,
    tables: seq<TableData>,
    items: seq<ListItem>,
    links: seq<string>,
    code: seq<string>)

  // ------------------------------------------------------------ event streams

  const NOTHING := Inline("", [], [])

  function Plus(a: Inline, b: Inline): Inline {
    Inline(a.text + b.text, a.code + b.code, a.links + b.links)
  }

  function EventInline(e: Event): Inline {
    match e
    case TextEvent(t) => Inline(t, [], [])
    case Code(c) => Inline(c, [c], [])
    case Start(Link(url)) => Inline("", [], [url])
    case Break => Inline(" ", [], [])
    case _ => NOTHING
  }

  /** `Inline::read`; its `links` and `code` are also what the document collects from a block. */
  function InlineOf(evs: Events): Inline {
    if evs == [] then NOTHING else Plus(EventInline(evs[0].event), InlineOf(evs[1..]))
  }

  datatype Taken = Taken(body: Events, rest: Events)

  /** What `children` yields from `depth` on, and what it leaves in the iterator. */
  function Take(evs: Events, depth: nat): (t: Taken)
    ensures |t.body| + |t.rest| <= |evs|
  {
    if evs == [] then Taken([], [])
    else if evs[0].event.End? && depth == 0 then Taken([], evs[1..])
    else
      var d := if evs[0].event.Start? then depth + 1 else if evs[0].event.End? then depth - 1 else depth;
      var t := Take(evs[1..], d);
      Taken([evs[0]] + t.body, t.rest)
  }

  /** The iterator that all readers drain. */
  class EventStream {
    var rest: Events

    constructor (events: Events)
      ensures rest == events
    {
      rest := events;
    }

    method Next() returns (e: Option<OffsetEvent>)
      modifies this
      ensures old(rest) == [] ==> e.None? && rest == []
      ensures old(rest) != [] ==> e == Some(old(rest)[0]) && rest == old(rest)[1..]
    {
      if rest == [] {
        e := None;
      } else {
        e, rest := Some(rest[0]), rest[1..];
      }
    }

    /** Consumes the subtree and its closing event; the closing event is not returned. */
    method Children() returns (body: Events)
      modifies this
      ensures Taken(body, rest) == Take(old(rest), 0)
    {
      body := [];
      var depth := 0;
      while rest != []
        invariant Take(old(rest), 0) == Taken(body + Take(rest, depth).body, Take(rest, depth).rest)
        invariant depth >= 0
        decreases |rest|
      {
        var e := rest[0];
        rest := rest[1..];
        if e.event.Start? {
          depth := depth + 1;
        } else if e.event.End? {
          if depth == 0 {
            assert body + [] == body;
            return;
          }
          depth := depth - 1;
        }
        assert body + ([e] + Take(rest, depth).body) == (body + [e]) + Take(rest, depth).body;
        body := body + [e];
      }
      assert body + [] == body;
    }
  }

  // --------------------------------------------------------- the block readers

  function Cells(evs: Events): seq<Inline>
    decreases |evs|
  {
    if evs == [] || evs[0].event != Start(TableCell) then []
    else
      var t := Take(evs[1..], 0);
      [InlineOf(t.body)] + Cells(t.rest)
  }

  function AddRow(table: TableData, tag: Tag, span: Span, cells: seq<Inline>): TableData {
    if tag.TableHead? then table.(columns := cells) else table.(rows := table.rows + [Row(span, cells)])
  }

  predicate IsRow(e: Event) {
    e == Start(TableHead) || e == Start(TableRow)
  }

  function Rows(evs: Events, table: TableData): TableData
    decreases |evs|
  {
    if evs == [] || !IsRow(evs[0].event) then table
    else
      var t := Take(evs[1..], 0);
      Rows(t.rest, AddRow(table, evs[0].event.tag, evs[0].span, Cells(t.body)))
  }

  function Items(evs: Events): seq<ListItem>
    decreases |evs|
  {
    if evs == [] || evs[0].event != Start(Item) then []
    else
      var t := Take(evs[1..], 0);
      [ListItem(evs[0].span, InlineOf(t.body))] + Items(t.rest)
  }

  function AddBlock(doc: Document, tag: Tag, span: Span, body: Events): Document {
    var seen := doc.(links := doc.links + InlineOf(body).links, code := doc.code + InlineOf(body).code);
    match tag
    case Heading(level) =>
      seen.(headings := doc.headings + [HeadingData(level, InlineOf(body).text, span)])
    case Table => seen.(tables := doc.tables + [Rows(body, TableData(span, [], []))])
    case List(ordered) => if ordered then seen else seen.(items := doc.items + Items(body))
    case _ => seen
  }

  function Parse(evs: Events, doc: Document): Document
    decreases |evs|
  {
    if evs == [] then doc
    else if !evs[0].event.Start? then Parse(evs[1..], doc)
    else
      var t := Take(evs[1..], 0);
      Parse(t.rest, AddBlock(doc, evs[0].event.tag, evs[0].span, t.body))
  }

  const EMPTY := Document([], [], [], [], [])

  method ReadCells(body: Events) returns (cells: seq<Inline>)
    ensures cells == Cells(body)
  {
    cells := [];
    var fields := new EventStream(body);
    while true
      invariant cells + Cells(fields.rest) == Cells(body)
      decreases |fields.rest|
    {
      var e := fields.Next();
      if e.None? || e.value.event != Start(TableCell) { return; }
      var inner := fields.Children();
      cells := cells + [InlineOf(inner)];
    }
  }

  method ReadTable(span: Span, body: Events) returns (table: TableData)
    ensures table == Rows(body, TableData(span, [], []))
  {
    table := TableData(span, [], []);
    var rows := new EventStream(body);
    while true
      invariant Rows(rows.rest, table) == Rows(body, TableData(span, [], []))
      decreases |rows.rest|
    {
      var e := rows.Next();
      if e.None? || !IsRow(e.value.event) { return; }
      var inner := rows.Children();
      var cells := ReadCells(inner);
      table := AddRow(table, e.value.event.tag, e.value.span, cells);
    }
  }

  method ReadItems(body: Events) returns (items: seq<ListItem>)
    ensures items == Items(body)
  {
    items := [];
    var stream := new EventStream(body);
    while true
      invariant items + Items(stream.rest) == Items(body)
      decreases |stream.rest|
    {
      var e := stream.Next();
      if e.None? || e.value.event != Start(Item) { return; }
      var inner := stream.Children();
      items := items + [ListItem(e.value.span, InlineOf(inner))];
    }
  }

  /** `Document::parse`, from the event stream on. */
  method ParseDocument(source: Events) returns (doc: Document)
    ensures doc == Parse(source, EMPTY)
  {
    doc := EMPTY;
    var events := new EventStream(source);
    while true
      invariant Parse(events.rest, doc) == Parse(source, EMPTY)
      decreases |events.rest|
    {
      var e := events.Next();
      if e.None? { return; }
      if e.value.event.Start? {
        var body := events.Children();
        var tag, span := e.value.event.tag, e.value.span;
        var before := doc;
        doc := doc.(links := doc.links + InlineOf(body).links, code := doc.code + InlineOf(body).code);
        match tag {
          case Heading(level) =>
            doc := doc.(headings := doc.headings + [HeadingData(level, InlineOf(body).text, span)]);
          case Table =>
            var table := ReadTable(span, body);
            doc := doc.(tables := doc.tables + [table]);
          case List(ordered) =>
            if !ordered {
              var items := ReadItems(body);
              doc := doc.(items := doc.items + items);
            }
          case _ =>
        }
        assert doc == AddBlock(before, tag, span, body);
      }
    }
  }

  // ------------------------------------------------------------ syntax trees

  datatype Node =
    | Leaf(leaf: OffsetEvent)
    | Element(tag: Tag, span: Span, kids: seq<Node>, close: Span)

  predicate Proper(nodes: seq<Node>)
    decreases nodes, 1
  {
    nodes == [] || (ProperNode(nodes[0]) && Proper(nodes[1..]))
  }

  predicate ProperNode(n: Node)
    decreases n, 0
  {
    match n
    case Leaf(e) => !e.event.Start? && !e.event.End?
    case Element(_, _, kids, _) => Proper(kids)
  }

  /** The event stream of a forest. */
  function Flat(nodes: seq<Node>): Events
    decreases nodes, 1
  {
    if nodes == [] then [] else FlatNode(nodes[0]) + Flat(nodes[1..])
  }

  function FlatNode(n: Node): Events
    decreases n, 0
  {
    match n
    case Leaf(e) => [e]
    case Element(tag, span, kids, close) => [At(Start(tag), span)] + (Flat(kids) + [At(End, close)])
  }

  /** Text, code spans and link targets of a forest, in document order. */
  function InlineTree(nodes: seq<Node>): Inline
    decreases nodes, 1
  {
    if nodes == [] then NOTHING else Plus(InlineNode(nodes[0]), InlineTree(nodes[1..]))
  }

  function InlineNode(n: Node): Inline
    decreases n, 0
  {
    match n
    case Leaf(e) => EventInline(e.event)
    case Element(tag, _, kids, _) => Plus(EventInline(Start(tag)), InlineTree(kids))
  }

  /** The leading cell elements of a row. */
  function CellsTree(kids: seq<Node>): seq<Inline> {
    if kids == [] || !kids[0].Element? || kids[0].tag != TableCell then []
    else [InlineTree(kids[0].kids)] + CellsTree(kids[1..])
  }

  function RowsTree(kids: seq<Node>, table: TableData): TableData
    decreases |kids|
  {
    if kids == [] || !kids[0].Element? || !IsRow(Start(kids[0].tag)) then table
    else RowsTree(kids[1..], AddRow(table, kids[0].tag, kids[0].span, CellsTree(kids[0].kids)))
  }

  function ItemsTree(kids: seq<Node>): seq<ListItem> {
    if kids == [] || !kids[0].Element? || kids[0].tag != Item then []
    else [ListItem(kids[0].span, InlineTree(kids[0].kids))] + ItemsTree(kids[1..])
  }

  /** What one top-level block contributes, read off its tree. */
  function AddTree(doc: Document, n: Node): Document {
    match n
    case Leaf(_) => doc
    case Element(tag, span, kids, _) =>
      var inline := InlineTree(kids);
      var seen := doc.(links := doc.links + inline.links, code := doc.code + inline.code);
      match tag
      case Heading(level) => seen.(headings := doc.headings + [HeadingData(level, inline.text, span)])
      case Table => seen.(tables := doc.tables + [RowsTree(kids, TableData(span, [], []))])
      case List(ordered) => if ordered then seen else seen.(items := doc.items + ItemsTree(kids))
      case _ => seen
  }

  function AddTrees(doc: Document, nodes: seq<Node>): Document
    decreases |nodes|
  {
    if nodes == [] then doc else AddTrees(AddTree(doc, nodes[0]), nodes[1..])
  }

  // ----------------------------------------------- reading back a forest's events

  lemma {:induction false} TakeSkips(nodes: seq<Node>, rest: Events, depth: nat)
    requires Proper(nodes)
    ensures Take(Flat(nodes) + rest, depth) == Taken(Flat(nodes) + Take(rest, depth).body, Take(rest, depth).rest)
    decreases nodes, 1
  {
    if nodes == [] {
      assert Flat(nodes) + rest == rest;
      assert Flat(nodes) + Take(rest, depth).body == Take(rest, depth).body;
    } else {
      var a, b := FlatNode(nodes[0]), Flat(nodes[1..]);
      assert Flat(nodes) + rest == a + (b + rest);
      TakeSkipsNode(nodes[0], b + rest, depth);
      TakeSkips(nodes[1..], rest, depth);
      assert a + (b + Take(rest, depth).body) == Flat(nodes) + Take(rest, depth).body;
    }
  }

  lemma {:induction false} TakeSkipsNode(n: Node, rest: Events, depth: nat)
    requires ProperNode(n)
    ensures Take(FlatNode(n) + rest, depth) == Taken(FlatNode(n) + Take(rest, depth).body, Take(rest, depth).rest)
    decreases n, 0
  {
    match n {
      case Leaf(e) => TakeOne(e, rest, depth, depth);
      case Element(tag, span, kids, close) =>
        var s, f, c := At(Start(tag), span), Flat(kids), At(End, close);
        var t := Take(rest, depth);
        TakeOne(c, rest, depth + 1, depth);
        TakeSkips(kids, [c] + rest, depth + 1);
        TakeOne(s, f + ([c] + rest), depth, depth + 1);
        Regroup3(s, f, c, rest);
        Regroup3(s, f, c, t.body);
    }
  }

  lemma Regroup3(s: OffsetEvent, f: Events, c: OffsetEvent, rest: Events)
    ensures ([s] + (f + [c])) + rest == [s] + (f + ([c] + rest))
  {
  }

  lemma TakeOne(e: OffsetEvent, rest: Events, depth: nat, next: nat)
    requires next == if e.event.Start? then depth + 1 else if e.event.End? then depth - 1 else depth
    ensures Take([e] + rest, depth) == Taken([e] + Take(rest, next).body, Take(rest, next).rest)
  {
    assert ([e] + rest)[1..] == rest;
  }

  /** `children`, called just after a Start, returns exactly the events up to the matching End
      and leaves the stream just past that End. */
  lemma ChildrenOfElement(kids: seq<Node>, close: Span, rest: Events)
    requires Proper(kids)
    ensures Take(Flat(kids) + ([At(End, close)] + rest), 0) == Taken(Flat(kids), rest)
  {
    var c := At(End, close);
    TakeSkips(kids, [c] + rest, 0);
    assert ([c] + rest)[1..] == rest;
    assert Flat(kids) + [] == Flat(kids);
  }

  lemma Regroup(s: OffsetEvent, f: Events, c: OffsetEvent, m: Events, rest: Events)
    ensures ([s] + (f + [c])) + m + rest == [s] + (f + ([c] + (m + rest)))
  {
  }

  /** Peeling the first element off a flattened forest. */
  lemma FirstElement(nodes: seq<Node>, rest: Events)
    requires nodes != [] && Proper(nodes) && nodes[0].Element?
    ensures var evs := Flat(nodes) + rest;
            && evs != [] && evs[0] == At(Start(nodes[0].tag), nodes[0].span)
            && Take(evs[1..], 0) == Taken(Flat(nodes[0].kids), Flat(nodes[1..]) + rest)
  {
    var n := nodes[0];
    var more := Flat(nodes[1..]) + rest;
    var evs := Flat(nodes) + rest;
    var s, c := At(Start(n.tag), n.span), At(End, n.close);
    assert FlatNode(n) == [s] + (Flat(n.kids) + [c]);
    assert Flat(nodes) == FlatNode(n) + Flat(nodes[1..]);
    Regroup(s, Flat(n.kids), c, Flat(nodes[1..]), rest);
    assert evs[1..] == Flat(n.kids) + ([At(End, n.close)] + more);
    ChildrenOfElement(n.kids, n.close, more);
  }

  lemma {:induction false} InlineAppend(a: Events, b: Events)
    ensures InlineOf(a + b) == Plus(InlineOf(a), InlineOf(b))
  {
    if a == [] {
      assert a + b == b;
      PlusUnit(InlineOf(b));
    } else {
      assert (a + b)[1..] == a[1..] + b;
      InlineAppend(a[1..], b);
      PlusAssoc(EventInline(a[0].event), InlineOf(a[1..]), InlineOf(b));
    }
  }

  lemma PlusUnit(x: Inline)
    ensures Plus(NOTHING, x) == x == Plus(x, NOTHING)
  {
    assert "" + x.text == x.text == x.text + "";
    assert [] + x.code == x.code == x.code + [];
    assert [] + x.links == x.links == x.links + [];
  }

  lemma PlusAssoc(a: Inline, b: Inline, c: Inline)
    ensures Plus(Plus(a, b), c) == Plus(a, Plus(b, c))
  {
    assert a.text + b.text + c.text == a.text + (b.text + c.text);
    assert a.code + b.code + c.code == a.code + (b.code + c.code);
    assert a.links + b.links + c.links == a.links + (b.links + c.links);
  }

  lemma InlineSingle(e: OffsetEvent)
    ensures InlineOf([e]) == EventInline(e.event)
  {
    assert [e][1..] == [];
    PlusUnit(EventInline(e.event));
  }

  lemma {:induction false} InlineFlat(nodes: seq<Node>)
    ensures InlineOf(Flat(nodes)) == InlineTree(nodes)
    decreases nodes, 1
  {
    if nodes != [] {
      InlineAppend(FlatNode(nodes[0]), Flat(nodes[1..]));
      InlineFlatNode(nodes[0]);
      InlineFlat(nodes[1..]);
    }
  }

  lemma {:induction false} InlineFlatNode(n: Node)
    ensures InlineOf(FlatNode(n)) == InlineNode(n)
    decreases n, 0
  {
    match n {
      case Leaf(e) => InlineSingle(e);
      case Element(tag, span, kids, close) =>
        var s, c := At(Start(tag), span), At(End, close);
        InlineFlat(kids);
        InlineSingle(s);
        InlineSingle(c);
        InlineAppend(Flat(kids), [c]);
        InlineAppend([s], Flat(kids) + [c]);
        PlusUnit(InlineTree(kids));
    }
  }

  /** How the events of a forest begin, for the readers that look at one event. */
  lemma FirstEvent(nodes: seq<Node>)
    requires Proper(nodes)
    ensures nodes == [] ==> Flat(nodes) == []
    ensures nodes != [] && nodes[0].Leaf? ==> Flat(nodes) != [] && !Flat(nodes)[0].event.Start?
    ensures nodes != [] && nodes[0].Element? ==>
              Flat(nodes) != [] && Flat(nodes)[0] == At(Start(nodes[0].tag), nodes[0].span)
  {
    if nodes != [] && nodes[0].Element? {
      FirstElement(nodes, []);
      assert Flat(nodes) + [] == Flat(nodes);
    }
  }

  lemma FlatElement(nodes: seq<Node>)
    requires nodes != [] && Proper(nodes) && nodes[0].Element?
    ensures Flat(nodes) != [] && Take(Flat(nodes)[1..], 0) == Taken(Flat(nodes[0].kids), Flat(nodes[1..]))
  {
    FirstElement(nodes, []);
    assert Flat(nodes) + [] == Flat(nodes) && Flat(nodes[1..]) + [] == Flat(nodes[1..]);
  }

  lemma {:induction false} CellsFlat(kids: seq<Node>)
    requires Proper(kids)
    ensures Cells(Flat(kids)) == CellsTree(kids)
    decreases |kids|
  {
    FirstEvent(kids);
    if kids != [] && kids[0].Element? && kids[0].tag == TableCell {
      FlatElement(kids);
      InlineFlat(kids[0].kids);
      CellsFlat(kids[1..]);
    }
  }

  lemma {:induction false} RowsFlat(kids: seq<Node>, table: TableData)
    requires Proper(kids)
    ensures Rows(Flat(kids), table) == RowsTree(kids, table)
    decreases |kids|
  {
    FirstEvent(kids);
    if kids != [] && kids[0].Element? && IsRow(Start(kids[0].tag)) {
      FlatElement(kids);
      CellsFlat(kids[0].kids);
      RowsFlat(kids[1..], AddRow(table, kids[0].tag, kids[0].span, CellsTree(kids[0].kids)));
    }
  }

  lemma {:induction false} ItemsFlat(kids: seq<Node>)
    requires Proper(kids)
    ensures Items(Flat(kids)) == ItemsTree(kids)
    decreases |kids|
  {
    FirstEvent(kids);
    if kids != [] && kids[0].Element? && kids[0].tag == Item {
      FlatElement(kids);
      InlineFlat(kids[0].kids);
      ItemsFlat(kids[1..]);
    }
  }

  lemma BlockFlat(doc: Document, n: Node)
    requires n.Element? && Proper(n.kids)
    ensures AddBlock(doc, n.tag, n.span, Flat(n.kids)) == AddTree(doc, n)
  {
    InlineFlat(n.kids);
    RowsFlat(n.kids, TableData(n.span, [], []));
    ItemsFlat(n.kids);
  }

  /** Parsing the events of any forest visits each top-level block exactly once, in order. */
  lemma {:induction false} ParseForest(nodes: seq<Node>, doc: Document)
    requires Proper(nodes)
    ensures Parse(Flat(nodes), doc) == AddTrees(doc, nodes)
    decreases |nodes|
  {
    if nodes != [] {
      FirstEvent(nodes);
      if nodes[0].Leaf? {
        assert Flat(nodes)[1..] == Flat(nodes[1..]);
        ParseForest(nodes[1..], doc);
      } else {
        FlatElement(nodes);
        BlockFlat(doc, nodes[0]);
        ParseForest(nodes[1..], AddTree(doc, nodes[0]));
      }
    }
  }

  // -------------------------------------------------------- well-nested streams

  predicate WellNested(evs: Events, depth: nat) {
    if evs == [] then depth == 0
    else if evs[0].event.Start? then WellNested(evs[1..], depth + 1)
    else if evs[0].event.End? then depth > 0 && WellNested(evs[1..], depth - 1)
    else WellNested(evs[1..], depth)
  }

  /** In a well-nested stream the events taken are well nested themselves, they are followed
      by the matching End, and what is left is well nested one level up. */
  lemma {:induction false} TakeMatches(evs: Events, k: nat, depth: nat)
    requires WellNested(evs, k + 1 + depth)
    ensures var t := Take(evs, k);
            && WellNested(t.body, k) && WellNested(t.rest, depth)
            && |t.body| < |evs| && evs[|t.body|].event.End?
            && evs == t.body + [evs[|t.body|]] + t.rest
    decreases |evs|
  {
    if evs[0].event.End? && k == 0 {
      assert evs == [] + [evs[0]] + evs[1..];
    } else {
      var k' := if evs[0].event.Start? then k + 1 else if evs[0].event.End? then k - 1 else k;
      TakeMatches(evs[1..], k', depth);
      var t := Take(evs[1..], k');
      assert ([evs[0]] + t.body)[1..] == t.body;
      Prefixed(evs, t.body, t.rest);
    }
  }

  lemma Prefixed(evs: Events, body: Events, rest: Events)
    requires |evs| >= 2 && |body| < |evs| - 1 && evs[1..] == body + [evs[1..][|body|]] + rest
    ensures var b := [evs[0]] + body; evs[|b|] == evs[1..][|body|] && evs == b + [evs[|b|]] + rest
  {
    var x := evs[1..][|body|];
    assert evs == [evs[0]] + (body + [x] + rest);
    assert [evs[0]] + (body + [x] + rest) == ([evs[0]] + body) + [x] + rest;
  }

  /** Every well-nested stream is the event stream of a forest. */
  lemma {:induction false} ForestOf(evs: Events) returns (nodes: seq<Node>)
    requires WellNested(evs, 0)
    ensures Proper(nodes) && Flat(nodes) == evs
    decreases |evs|
  {
    if evs == [] {
      nodes := [];
    } else if evs[0].event.Start? {
      TakeMatches(evs[1..], 0, 0);
      var t := Take(evs[1..], 0);
      var kids := ForestOf(t.body);
      var more := ForestOf(t.rest);
      var c := evs[1..][|t.body|];
      var n := Element(evs[0].event.tag, evs[0].span, kids, c.span);
      nodes := [n] + more;
      FlatCons(n, more);
      assert c == At(End, c.span);
      Reassemble(evs, t.body, c, t.rest);
    } else {
      var more := ForestOf(evs[1..]);
      var n := Leaf(evs[0]);
      nodes := [n] + more;
      FlatCons(n, more);
      assert evs == [evs[0]] + evs[1..];
    }
  }

  lemma FlatCons(n: Node, more: seq<Node>)
    ensures Flat([n] + more) == FlatNode(n) + Flat(more)
    ensures Proper([n] + more) <==> ProperNode(n) && Proper(more)
  {
    assert ([n] + more)[1..] == more;
  }

  lemma Reassemble(evs: Events, body: Events, c: OffsetEvent, rest: Events)
    requires evs != [] && evs[1..] == body + [c] + rest
    ensures evs == [evs[0]] + (body + [c]) + rest
  {
    assert evs == [evs[0]] + evs[1..];
  }

  // ------------------------------------------------------------ regular tables

  predicate AllTagged(nodes: seq<Node>, tag: Tag) {
    forall i :: 0 <= i < |nodes| ==> nodes[i].Element? && nodes[i].tag == tag
  }

  lemma {:induction false} CellsOfRow(kids: seq<Node>)
    requires AllTagged(kids, TableCell)
    ensures |CellsTree(kids)| == |kids|
    ensures forall i :: 0 <= i < |kids| ==> CellsTree(kids)[i] == InlineTree(kids[i].kids)
  {
    if kids != [] { CellsOfRow(kids[1..]); }
  }

  lemma {:induction false} RowsOfTable(rows: seq<Node>, table: TableData)
    requires AllTagged(rows, TableRow)
    ensures var t := RowsTree(rows, table);
            && t.span == table.span && t.columns == table.columns
            && |t.rows| == |table.rows| + |rows| && table.rows <= t.rows
            && forall i :: 0 <= i < |rows| ==>
                 t.rows[|table.rows| + i] == Row(rows[i].span, CellsTree(rows[i].kids))
    decreases |rows|
  {
    if rows != [] {
      var next := AddRow(table, TableRow, rows[0].span, CellsTree(rows[0].kids));
      RowsOfTable(rows[1..], next);
      var t := RowsTree(rows, table);
      assert t == RowsTree(rows[1..], next);
      forall i | 0 <= i < |rows|
        ensures t.rows[|table.rows| + i] == Row(rows[i].span, CellsTree(rows[i].kids))
      {
        if i > 0 {
          assert rows[1..][i - 1] == rows[i];
          assert t.rows[|next.rows| + (i - 1)] == t.rows[|table.rows| + i];
        } else {
          assert t.rows[|table.rows|] == next.rows[|table.rows|];
        }
      }
    }
  }

  /** A row of the table data is the given row of the tree, cell by cell. */
  predicate RowMatches(row: Row, n: Node)
    requires n.Element? && AllTagged(n.kids, TableCell)
  {
    && row.span == n.span && |row.cells| == |n.kids|
    && forall c :: 0 <= c < |n.kids| ==> row.cells[c] == InlineTree(n.kids[c].kids)
  }

  /** A table with one header and any rows, all made of cells: header, rows and cells are
      recovered one for one and in order. */
  lemma TableRecovered(head: Node, rows: seq<Node>, span: Span)
    requires head.Element? && head.tag == TableHead && AllTagged(head.kids, TableCell)
    requires AllTagged(rows, TableRow) && forall i :: 0 <= i < |rows| ==> AllTagged(rows[i].kids, TableCell)
    ensures var t := RowsTree([head] + rows, TableData(span, [], []));
            && RowMatches(Row(head.span, t.columns), head)
            && |t.rows| == |rows|
            && forall r :: 0 <= r < |rows| ==> RowMatches(t.rows[r], rows[r])
  {
    CellsOfRow(head.kids);
    var start := TableData(span, CellsTree(head.kids), []);
    assert ([head] + rows)[1..] == rows;
    RowsOfTable(rows, start);
    var t := RowsTree(rows, start);
    forall r | 0 <= r < |rows| ensures RowMatches(t.rows[r], rows[r]) {
      assert t.rows[0 + r] == Row(rows[r].span, CellsTree(rows[r].kids));
      CellsOfRow(rows[r].kids);
    }
  }

  // ------------------------------------------------------- the whole document

  function TopTables(nodes: seq<Node>): (r: seq<Node>)
    ensures forall i :: 0 <= i < |r| ==> r[i].Element? && r[i].tag == Table && r[i] in nodes
  {
    if nodes == [] then []
    else (if nodes[0].Element? && nodes[0].tag == Table then [nodes[0]] else []) + TopTables(nodes[1..])
  }

  function TopHeadings(nodes: seq<Node>): (r: seq<Node>)
    ensures forall i :: 0 <= i < |r| ==> r[i].Element? && r[i].tag.Heading? && r[i] in nodes
  {
    if nodes == [] then []
    else (if nodes[0].Element? && nodes[0].tag.Heading? then [nodes[0]] else []) + TopHeadings(nodes[1..])
  }

  function ItemsHere(n: Node): seq<ListItem> {
    if n.Element? && n.tag == List(false) then ItemsTree(n.kids) else []
  }

  /** The items of the unordered lists at the top level. */
  function TopItems(nodes: seq<Node>): seq<ListItem> {
    if nodes == [] then [] else ItemsHere(nodes[0]) + TopItems(nodes[1..])
  }

  function InlineHere(n: Node): Inline {
    if n.Element? then InlineTree(n.kids) else NOTHING
  }

  /** What the insides of the top-level blocks hold, in document order. */
  function TopInline(nodes: seq<Node>): Inline {
    if nodes == [] then NOTHING else Plus(InlineHere(nodes[0]), TopInline(nodes[1..]))
  }

  lemma {:induction false} TablesInOrder(doc: Document, nodes: seq<Node>)
    ensures var r, ts := AddTrees(doc, nodes).tables, TopTables(nodes);
            && doc.tables <= r && |r| == |doc.tables| + |ts|
            && forall k :: 0 <= k < |ts| ==>
                 r[|doc.tables| + k] == RowsTree(ts[k].kids, TableData(ts[k].span, [], []))
    decreases |nodes|
  {
    if nodes != [] {
      var next := AddTree(doc, nodes[0]);
      TablesInOrder(next, nodes[1..]);
      var r, ts, more := AddTrees(doc, nodes).tables, TopTables(nodes), TopTables(nodes[1..]);
      forall k | 0 <= k < |ts|
        ensures r[|doc.tables| + k] == RowsTree(ts[k].kids, TableData(ts[k].span, [], []))
      {
        var j := k - (|ts| - |more|);
        if j < 0 {
          assert r[|doc.tables|] == next.tables[|doc.tables|];
        } else {
          assert ts[k] == more[j] && r[|next.tables| + j] == r[|doc.tables| + k];
        }
      }
    }
  }

  lemma {:induction false} HeadingsInOrder(doc: Document, nodes: seq<Node>)
    ensures var r, hs := AddTrees(doc, nodes).headings, TopHeadings(nodes);
            && doc.headings <= r && |r| == |doc.headings| + |hs|
            && forall k :: 0 <= k < |hs| ==>
                 r[|doc.headings| + k] == HeadingData(hs[k].tag.level, InlineTree(hs[k].kids).text, hs[k].span)
    decreases |nodes|
  {
    if nodes != [] {
      var next := AddTree(doc, nodes[0]);
      HeadingsInOrder(next, nodes[1..]);
      var r, hs, more := AddTrees(doc, nodes).headings, TopHeadings(nodes), TopHeadings(nodes[1..]);
      forall k | 0 <= k < |hs|
        ensures r[|doc.headings| + k] == HeadingData(hs[k].tag.level, InlineTree(hs[k].kids).text, hs[k].span)
      {
        var j := k - (|hs| - |more|);
        if j < 0 {
          assert r[|doc.headings|] == next.headings[|doc.headings|];
        } else {
          assert hs[k] == more[j] && r[|next.headings| + j] == r[|doc.headings| + k];
        }
      }
    }
  }

  lemma OneBlock(doc: Document, n: Node)
    ensures var r := AddTree(doc, n);
            && r.items == doc.items + ItemsHere(n)
            && r.links == doc.links + InlineHere(n).links && r.code == doc.code + InlineHere(n).code
  {
  }

  lemma Joined<T>(a: seq<T>, b: seq<T>, c: seq<T>)
    ensures (a + b) + c == a + (b + c)
  {
  }

  lemma {:induction false} ItemsInOrder(doc: Document, nodes: seq<Node>)
    ensures AddTrees(doc, nodes).items == doc.items + TopItems(nodes)
    decreases |nodes|
  {
    if nodes != [] {
      OneBlock(doc, nodes[0]);
      ItemsInOrder(AddTree(doc, nodes[0]), nodes[1..]);
      Joined(doc.items, ItemsHere(nodes[0]), TopItems(nodes[1..]));
    }
  }

  lemma {:induction false} InlineInOrder(doc: Document, nodes: seq<Node>)
    ensures AddTrees(doc, nodes).links == doc.links + TopInline(nodes).links
    ensures AddTrees(doc, nodes).code == doc.code + TopInline(nodes).code
    decreases |nodes|
  {
    if nodes != [] {
      var here, more := InlineHere(nodes[0]), TopInline(nodes[1..]);
      OneBlock(doc, nodes[0]);
      InlineInOrder(AddTree(doc, nodes[0]), nodes[1..]);
      Joined(doc.links, here.links, more.links);
      Joined(doc.code, here.code, more.code);
    }
  }

  /** A table element as it is read. */
  function TableOf(n: Node): TableData
    requires n.Element?
  {
    RowsTree(n.kids, TableData(n.span, [], []))
  }

  /** One header and any rows, all made of cells: what the CommonMark parser emits for a table. */
  predicate Regular(n: Node) {
    && n.Element? && n.kids != [] && n.kids[0].Element? && n.kids[0].tag == TableHead
    && AllTagged(n.kids[0].kids, TableCell) && AllTagged(n.kids[1..], TableRow)
    && forall r :: 1 <= r < |n.kids| ==> AllTagged(n.kids[r].kids, TableCell)
  }

  /** The table is this element, header, rows and cells one for one. */
  predicate TableMatches(t: TableData, n: Node)
    requires Regular(n)
  {
    && t.span == n.span && RowMatches(Row(n.kids[0].span, t.columns), n.kids[0])
    && |t.rows| == |n.kids| - 1
    && forall r :: 0 <= r < |t.rows| ==> n.kids[1..][r].Element? && RowMatches(t.rows[r], n.kids[1..][r])
  }

  lemma RegularRecovered(n: Node)
    requires Regular(n)
    ensures TableMatches(RowsTree(n.kids, TableData(n.span, [], [])), n)
  {
    var head, rows := n.kids[0], n.kids[1..];
    assert [head] + rows == n.kids;
    forall i | 0 <= i < |rows| ensures AllTagged(rows[i].kids, TableCell) { assert rows[i] == n.kids[i + 1]; }
    TableRecovered(head, rows, n.span);
    RowsOfTable(rows, TableData(n.span, CellsTree(head.kids), []));
  }

  /** Every well-nested stream is the stream of a forest, and the parsed document is that
      forest's top level in order: its headings, its tables with header, rows and cells, the
      items of its lists, its links and its code. */
  lemma DocumentRecovered(evs: Events) returns (nodes: seq<Node>)
    requires WellNested(evs, 0)
    ensures Proper(nodes) && Flat(nodes) == evs
    ensures var doc, ts := Parse(evs, EMPTY), TopTables(nodes);
            && |doc.tables| == |ts|
            && (forall k :: 0 <= k < |ts| ==> doc.tables[k] == TableOf(ts[k]))
            && (forall k :: 0 <= k < |ts| && Regular(ts[k]) ==> TableMatches(doc.tables[k], ts[k]))
    ensures var doc, hs := Parse(evs, EMPTY), TopHeadings(nodes);
            && |doc.headings| == |hs|
            && forall k :: 0 <= k < |hs| ==>
                 doc.headings[k] == HeadingData(hs[k].tag.level, InlineTree(hs[k].kids).text, hs[k].span)
    ensures var doc := Parse(evs, EMPTY);
            && doc.items == TopItems(nodes)
            && doc.links == TopInline(nodes).links && doc.code == TopInline(nodes).code
  {
    nodes := ForestOf(evs);
    ParseForest(nodes, EMPTY);
    TablesInOrder(EMPTY, nodes);
    HeadingsInOrder(EMPTY, nodes);
    ItemsInOrder(EMPTY, nodes);
    InlineInOrder(EMPTY, nodes);
    var doc, ts, hs := Parse(evs, EMPTY), TopTables(nodes), TopHeadings(nodes);
    forall k | 0 <= k < |ts| ensures doc.tables[k] == TableOf(ts[k]) {
      assert doc.tables[0 + k] == RowsTree(ts[k].kids, TableData(ts[k].span, [], []));
    }
    forall k | 0 <= k < |ts| && Regular(ts[k]) ensures TableMatches(doc.tables[k], ts[k]) {
      RegularRecovered(ts[k]);
    }
    forall k | 0 <= k < |hs|
      ensures doc.headings[k] == HeadingData(hs[k].tag.level, InlineTree(hs[k].kids).text, hs[k].span)
    {
      assert doc.headings[0 + k] == HeadingData(hs[k].tag.level, InlineTree(hs[k].kids).text, hs[k].span);
    }
  }

  // --------------------------------------------------------- what a cell reads as

  /** Inline markup: words, code spans, links with a label, line breaks. */
  datatype Part = Words(text: string) | CodeSpan(code: string) | LinkTo(url: string, shown: seq<Part>) | NewLine

  function PartNodes(parts: seq<Part>): seq<Node>
    decreases parts, 1
  {
    if parts == [] then [] else [PartNode(parts[0])] + PartNodes(parts[1..])
  }

  function PartNode(p: Part): Node
    decreases p, 0
  {
    match p
    case Words(s) => Leaf(At(TextEvent(s), Span(0, 0)))
    case CodeSpan(c) => Leaf(At(Code(c), Span(0, 0)))
    case NewLine => Leaf(At(Break, Span(0, 0)))
    case LinkTo(url, shown) => Element(Link(url), Span(0, 0), PartNodes(shown), Span(0, 0))
  }

  /** What a reader sees: code without its marks, links as their labels, a break as a space. */
  function Visible(parts: seq<Part>): string
    decreases parts
  {
    if parts == [] then ""
    else
      (match parts[0]
       case Words(s) => s
       case CodeSpan(c) => c
       case NewLine => " "
       case LinkTo(_, shown) => Visible(shown))
      + Visible(parts[1..])
  }

  function CodeSpans(parts: seq<Part>): seq<string>
    decreases parts
  {
    if parts == [] then []
    else
      (match parts[0]
       case CodeSpan(c) => [c]
       case LinkTo(_, shown) => CodeSpans(shown)
       case _ => [])
      + CodeSpans(parts[1..])
  }

  function Urls(parts: seq<Part>): seq<string>
    decreases parts
  {
    if parts == [] then []
    else (if parts[0].LinkTo? then [parts[0].url] + Urls(parts[0].shown) else []) + Urls(parts[1..])
  }

  /** Any inline markup is read as the text one sees, its code spans and its link targets. */
  lemma {:induction false} MarkupRead(parts: seq<Part>)
    ensures InlineTree(PartNodes(parts)) == Inline(Visible(parts), CodeSpans(parts), Urls(parts))
    decreases parts
  {
    if parts != [] {
      var nodes := PartNodes(parts);
      assert nodes[1..] == PartNodes(parts[1..]);
      MarkupRead(parts[1..]);
      if parts[0].LinkTo? { MarkupRead(parts[0].shown); }
      PartRead(parts[0]);
    }
  }

  lemma PartRead(p: Part)
    requires p.LinkTo? ==>
      InlineTree(PartNodes(p.shown)) == Inline(Visible(p.shown), CodeSpans(p.shown), Urls(p.shown))
    ensures InlineNode(PartNode(p))
         == match p
            case Words(s) => Inline(s, [], [])
            case CodeSpan(c) => Inline(c, [c], [])
            case NewLine => Inline(" ", [], [])
            case LinkTo(url, shown) => Inline(Visible(shown), CodeSpans(shown), [url] + Urls(shown))
  {
    if p.LinkTo? {
      var inner := InlineTree(PartNodes(p.shown));
      assert InlineNode(PartNode(p)) == Plus(Inline("", [], [p.url]), inner);
      assert "" + inner.text == inner.text && [] + inner.code == inner.code;
    }
  }
}
