/** Which directory trees validate against a snapshot, and why a copy does. */
module SnapshotTree {
  import opened Text
  import opened PathOrder
  import opened SourceSnapshot
  import GitBatch

  // --------------------------------------------------- what a tree holds where

  predicate Name(s: string) {
    s != "" && '/' !in s
  }

  /** Names of one directory are proper and pairwise different, at every level. */
  predicate ValidNames(entries: seq<Entry>)
    decreases entries
  {
    entries == [] ||
    (Name(entries[0].name) && Find(entries[1..], entries[0].name).None?
     && (entries[0].node.Dir? ==> ValidNames(entries[0].node.entries)) && ValidNames(entries[1..]))
  }

  function Find(entries: seq<Entry>, name: string): Option<Node> {
    if entries == [] then None
    else if entries[0].name == name then Some(entries[0].node)
    else Find(entries[1..], name)
  }

  lemma FindSingle(e: Entry, q: string)
    ensures Find([e], q) == if e.name == q then Some(e.node) else None
  {
    assert [e][1..] == [];
    assert Find([], q) == None;
  }

  /** The node at a path below a directory. */
  function Lookup(entries: seq<Entry>, comps: seq<string>): Option<Node>
    decreases |comps|, 0
  {
    if comps == [] then None
    else
      match Find(entries, comps[0])
      case None => None
      case Some(node) => LookupIn(node, comps[1..])
  }

  function LookupIn(node: Node, comps: seq<string>): Option<Node>
    decreases |comps|, 1
  {
    if comps == [] then Some(node) else if node.Dir? then Lookup(node.entries, comps) else None
  }

  /** A tree of directories and regular files only. */
  predicate Ordinary(entries: seq<Entry>)
    decreases entries, 1
  {
    entries == [] || (OrdinaryNode(entries[0].node) && Ordinary(entries[1..]))
  }

  predicate OrdinaryNode(node: Node)
    decreases node, 0
  {
    node.File? || (node.Dir? && Ordinary(node.entries))
  }

  datatype Found = Found(comps: seq<string>, mode: Mode, bytes: Bytes)

  function List(at: seq<string>, entries: seq<Entry>): seq<Found>
    decreases entries, 1
  {
    if entries == [] then []
    else ListNode(at + [entries[0].name], entries[0].node) + List(at, entries[1..])
  }

  function ListNode(comps: seq<string>, node: Node): seq<Found>
    decreases node, 0
  {
    match node
    case File(mode, bytes) => [Found(comps, mode, bytes)]
    case Dir(entries) => List(comps, entries)
    case Symlink => []
    case Special => []
  }

  function ToSource(f: Found): SourceFile {
    SourceFile(PathString(f.comps), f.mode, OfBytes(f.bytes))
  }

  function ToSources(fs: seq<Found>): (r: seq<SourceFile>)
    ensures |r| == |fs|
    ensures forall i :: 0 <= i < |fs| ==> r[i] == ToSource(fs[i])
  {
    seq(|fs|, i requires 0 <= i < |fs| => ToSource(fs[i]))
  }

  /** Within the path rules and the size limit. */
  predicate Acceptable(f: Found) {
    SafeRelative(PathString(f.comps)) && |f.bytes| <= GitBatch.LIMIT
  }

  predicate AllAcceptable(fs: seq<Found>) {
    forall i :: 0 <= i < |fs| ==> Acceptable(fs[i])
  }

  lemma AcceptableAppend(a: seq<Found>, b: seq<Found>)
    ensures AllAcceptable(a + b) <==> AllAcceptable(a) && AllAcceptable(b)
    ensures ToSources(a + b) == ToSources(a) + ToSources(b)
  {
    if AllAcceptable(a + b) {
      forall i | 0 <= i < |a| ensures Acceptable(a[i]) { assert a[i] == (a + b)[i]; }
      forall i | 0 <= i < |b| ensures Acceptable(b[i]) { assert b[i] == (a + b)[|a| + i]; }
    }
  }

  /** Collecting succeeds on exactly the ordinary trees with acceptable files, and lists them all. */
  lemma {:induction false} CollectMeaning(at: seq<string>, entries: seq<Entry>)
    ensures var fs := List(at, entries);
            Collect(at, entries) == if Ordinary(entries) && AllAcceptable(fs) then Some(ToSources(fs)) else None
    decreases entries, 1
  {
    if entries != [] {
      CollectNodeMeaning(at + [entries[0].name], entries[0].node);
      CollectMeaning(at, entries[1..]);
      AcceptableAppend(ListNode(at + [entries[0].name], entries[0].node), List(at, entries[1..]));
    }
  }

  lemma {:induction false} CollectNodeMeaning(comps: seq<string>, node: Node)
    ensures var fs := ListNode(comps, node);
            CollectNode(comps, node) == if OrdinaryNode(node) && AllAcceptable(fs) then Some(ToSources(fs)) else None
    decreases node, 0
  {
    match node {
      case Dir(entries) => CollectMeaning(comps, entries);
      case File(mode, bytes) =>
        var f := Found(comps, mode, bytes);
        assert ToSources([f]) == [ToSource(f)];
        assert AllAcceptable([f]) <==> Acceptable([f][0]);
      case Symlink =>
      case Special =>
    }
  }

  // ------------------------------------------------ listing is the same as lookup

  lemma {:induction false} ListedIsThere(at: seq<string>, entries: seq<Entry>, f: Found)
    requires ValidNames(entries) && f in List(at, entries)
    ensures |f.comps| > |at| && f.comps[..|at|] == at
    ensures Lookup(entries, f.comps[|at|..]) == Some(File(f.mode, f.bytes))
    decreases entries, 1
  {
    var here := at + [entries[0].name];
    if f in ListNode(here, entries[0].node) {
      ListedNodeIsThere(here, entries[0].node, f);
      var cs := f.comps[|at|..];
      assert f.comps[..|at|] == f.comps[..|here|][..|at|] == at;
      assert cs[0] == f.comps[..|here|][|at|] == entries[0].name;
      assert cs[1..] == f.comps[|here|..];
    } else {
      ListedIsThere(at, entries[1..], f);
      assert Find(entries[1..], f.comps[|at|..][0]).Some?;
    }
  }

  lemma {:induction false} ListedNodeIsThere(comps: seq<string>, node: Node, f: Found)
    requires node.Dir? ==> ValidNames(node.entries)
    requires f in ListNode(comps, node)
    ensures |f.comps| >= |comps| && f.comps[..|comps|] == comps
    ensures LookupIn(node, f.comps[|comps|..]) == Some(File(f.mode, f.bytes))
    decreases node, 0
  {
    match node {
      case File(mode, bytes) => assert f.comps[|comps|..] == [];
      case Dir(entries) => ListedIsThere(comps, entries, f);
    }
  }

  lemma {:induction false} ThereIsListed(at: seq<string>, entries: seq<Entry>, cs: seq<string>, m: Mode, b: Bytes)
    requires Lookup(entries, cs) == Some(File(m, b))
    ensures Found(at + cs, m, b) in List(at, entries)
    decreases entries, 1
  {
    if entries != [] {
      if entries[0].name == cs[0] {
        var here := at + [entries[0].name];
        ThereIsListedNode(here, entries[0].node, cs[1..], m, b);
        assert here + cs[1..] == at + cs;
      } else {
        ThereIsListed(at, entries[1..], cs, m, b);
      }
    }
  }

  lemma {:induction false} ThereIsListedNode(comps: seq<string>, node: Node, cs: seq<string>, m: Mode, b: Bytes)
    requires LookupIn(node, cs) == Some(File(m, b))
    ensures Found(comps + cs, m, b) in ListNode(comps, node)
    decreases node, 0
  {
    if cs == [] {
      assert comps + cs == comps;
    } else {
      ThereIsListed(comps, node.entries, cs, m, b);
    }
  }

  // ------------------------------------------------------ paths as one string

  predicate NoSlash(cs: seq<string>) {
    forall i :: 0 <= i < |cs| ==> '/' !in cs[i]
  }

  predicate NoBackslash(cs: seq<string>) {
    forall i :: 0 <= i < |cs| ==> '\\' !in cs[i]
  }

  lemma {:induction false} SplitJoin(cs: seq<string>)
    requires cs != [] && NoSlash(cs)
    ensures SplitSlash(Join(cs, "/")) == cs
  {
    if |cs| == 1 {
      IndexOfNone(cs[0], '/');
    } else {
      var s := Join(cs, "/");
      assert s == cs[0] + ['/'] + Join(cs[1..], "/");
      IndexOfAt(cs[0], '/', Join(cs[1..], "/"));
      assert s[..|cs[0]|] == cs[0] && s[|cs[0]| + 1..] == Join(cs[1..], "/");
      SplitJoin(cs[1..]);
    }
  }

  lemma {:induction false} JoinBackslash(cs: seq<string>)
    ensures '\\' in Join(cs, "/") <==> !NoBackslash(cs)
  {
    if |cs| == 1 {
    } else if |cs| > 1 {
      JoinBackslash(cs[1..]);
      assert Join(cs, "/") == cs[0] + "/" + Join(cs[1..], "/");
      if !NoBackslash(cs[1..]) {
        var i :| 0 <= i < |cs[1..]| && '\\' in cs[1..][i];
        assert '\\' in cs[i + 1];
      }
      if !NoBackslash(cs) {
        var i :| 0 <= i < |cs| && '\\' in cs[i];
        if i > 0 { assert '\\' in cs[1..][i - 1]; }
      }
    }
  }

  lemma PlainPath(cs: seq<string>)
    requires NoBackslash(cs)
    ensures PathString(cs) == Join(cs, "/")
  {
    JoinBackslash(cs);
    var s := Join(cs, "/");
    forall i | 0 <= i < |s| ensures s[i] != '\\' { assert s[i] in s; }
    assert Slashes(s) == s;
  }

  predicate SafeChars(s: string) {
    forall i :: 0 <= i < |s| ==> s[i] != '\\' && s[i] != ':' && s[i] != '\0' && s[i] != '\r' && s[i] != '\n'
  }

  lemma {:induction false} JoinSafeChars(cs: seq<string>)
    ensures SafeChars(Join(cs, "/")) <==> forall i :: 0 <= i < |cs| ==> SafeChars(cs[i])
  {
    if |cs| > 1 {
      JoinSafeChars(cs[1..]);
      var a, b := cs[0], Join(cs[1..], "/");
      AppendSafeChars(a + "/", b);
      AppendSafeChars(a, "/");
      assert Join(cs, "/") == (a + "/") + b;
      assert (forall i :: 0 <= i < |cs| ==> SafeChars(cs[i])) <==>
             SafeChars(a) && forall i :: 0 <= i < |cs[1..]| ==> SafeChars(cs[1..][i]) by {
        if SafeChars(a) && forall i :: 0 <= i < |cs[1..]| ==> SafeChars(cs[1..][i]) {
          forall i | 0 <= i < |cs| ensures SafeChars(cs[i]) { if i > 0 { assert cs[i] == cs[1..][i - 1]; } }
        }
      }
    }
  }

  lemma AppendSafeChars(a: string, b: string)
    ensures SafeChars(a + b) <==> SafeChars(a) && SafeChars(b)
  {
    if SafeChars(a + b) {
      forall i | 0 <= i < |a| ensures a[i] == (a + b)[i] { }
      forall i | 0 <= i < |b| ensures b[i] == (a + b)[|a| + i] { }
    }
  }

  /** A path is safe exactly when every component of it is a real name other than `.git`, free of
      backslashes, colons, NULs and line breaks. */
  lemma SafeExact(cs: seq<string>)
    requires cs != [] && NoSlash(cs)
    ensures SafeRelative(Join(cs, "/")) <==>
            forall i :: 0 <= i < |cs| ==>
              cs[i] != "" && cs[i] != "." && cs[i] != ".." && cs[i] != ".git" && SafeChars(cs[i])
  {
    SplitJoin(cs);
    JoinSafeChars(cs);
    if SafeRelative(Join(cs, "/")) {
      forall i | 0 <= i < |cs|
        ensures cs[i] != "" && cs[i] != "." && cs[i] != ".." && cs[i] != ".git" && SafeChars(cs[i])
      {
        assert SafePart(SplitSlash(Join(cs, "/"))[i]);
      }
    }
  }

  lemma PathInjective(a: seq<string>, b: seq<string>)
    requires a != [] && b != [] && NoSlash(a) && NoSlash(b) && NoBackslash(a) && NoBackslash(b)
    requires PathString(a) == PathString(b)
    ensures a == b
  {
    PlainPath(a);
    PlainPath(b);
    SplitJoin(a);
    SplitJoin(b);
  }

  // ------------------------------------------------------- no path listed twice

  lemma {:induction false} ListedNoSlash(at: seq<string>, entries: seq<Entry>, f: Found)
    requires ValidNames(entries) && NoSlash(at) && f in List(at, entries)
    ensures NoSlash(f.comps)
    decreases entries, 1
  {
    var here := at + [entries[0].name];
    if f in ListNode(here, entries[0].node) {
      if entries[0].node.Dir? { ListedNoSlash(here, entries[0].node.entries, f); }
    } else {
      ListedNoSlash(at, entries[1..], f);
    }
  }

  predicate DistinctFound(fs: seq<Found>) {
    forall i, j :: 0 <= i < j < |fs| ==> fs[i].comps != fs[j].comps
  }

  lemma DistinctAppend(a: seq<Found>, b: seq<Found>)
    requires DistinctFound(a) && DistinctFound(b)
    requires forall f, g :: f in a && g in b ==> f.comps != g.comps
    ensures DistinctFound(a + b)
  {
    forall i, j | 0 <= i < j < |a + b| ensures (a + b)[i].comps != (a + b)[j].comps {
      if i < |a| <= j {
        assert a[i] in a && b[j - |a|] in b;
      }
    }
  }

  lemma {:induction false} ListDistinct(at: seq<string>, entries: seq<Entry>)
    requires ValidNames(entries)
    ensures DistinctFound(List(at, entries))
    decreases entries, 1
  {
    if entries != [] {
      var here := at + [entries[0].name];
      var a, b := ListNode(here, entries[0].node), List(at, entries[1..]);
      if entries[0].node.Dir? { ListDistinct(here, entries[0].node.entries); }
      ListDistinct(at, entries[1..]);
      forall f, g | f in a && g in b ensures f.comps != g.comps {
        SiblingsApart(at, entries, f, g);
      }
      DistinctAppend(a, b);
    }
  }

  lemma SiblingsApart(at: seq<string>, entries: seq<Entry>, f: Found, g: Found)
    requires entries != [] && ValidNames(entries)
    requires f in ListNode(at + [entries[0].name], entries[0].node) && g in List(at, entries[1..])
    ensures f.comps != g.comps
  {
    var here := at + [entries[0].name];
    ListedNodeIsThere(here, entries[0].node, f);
    ListedIsThere(at, entries[1..], g);
    assert f.comps[|at|] == f.comps[..|here|][|at|] == entries[0].name;
    assert g.comps[|at|..][0] == g.comps[|at|];
    assert Find(entries[1..], g.comps[|at|]).Some?;
  }

  lemma {:induction false} DistinctSources(fs: seq<Found>)
    requires DistinctFound(fs)
    requires forall f :: f in fs ==> f.comps != [] && NoSlash(f.comps) && NoBackslash(f.comps)
    ensures DistinctPaths(ToSources(fs))
  {
    if fs != [] {
      var r := ToSources(fs);
      assert r[1..] == ToSources(fs[1..]);
      DistinctSources(fs[1..]);
      forall i | 0 <= i < |r[1..]| ensures r[1..][i].path != r[0].path {
        assert fs[i + 1] in fs && fs[0] in fs;
        if PathString(fs[i + 1].comps) == PathString(fs[0].comps) {
          PathInjective(fs[i + 1].comps, fs[0].comps);
        }
      }
    }
  }

  // ------------------------------------------------------------- validation

  predicate BackslashFree(entries: seq<Entry>) {
    forall f :: f in List([], entries) ==> NoBackslash(f.comps)
  }

  predicate Canonical(s: Snapshot) {
    s.sha256 == OfList(s.files) && s.files != [] && StrictlySorted(s.files)
  }

  lemma ListProper(entries: seq<Entry>, f: Found)
    requires ValidNames(entries) && f in List([], entries)
    ensures f.comps != [] && NoSlash(f.comps)
    ensures Lookup(entries, f.comps) == Some(File(f.mode, f.bytes))
  {
    ListedIsThere([], entries, f);
    ListedNoSlash([], entries, f);
    assert f.comps[0..] == f.comps;
  }

  lemma TreeDistinct(entries: seq<Entry>)
    requires ValidNames(entries) && BackslashFree(entries)
    ensures NoClash(entries)
  {
    ListDistinct([], entries);
    forall f | f in List([], entries) ensures f.comps != [] && NoSlash(f.comps) { ListProper(entries, f); }
    DistinctSources(List([], entries));
  }

  /** No two files of the tree have the same path string. */
  predicate NoClash(entries: seq<Entry>) {
    DistinctPaths(ToSources(List([], entries)))
  }

  lemma {:induction false} AboveInsert(p: string, f: SourceFile, fs: seq<SourceFile>)
    requires Above(p, Insert(f, fs))
    ensures Above(p, fs) && Lt(p, f.path)
  {
    var r := Insert(f, fs);
    assert Lt(p, r[0].path);
    if fs == [] || Le(f.path, fs[0].path) {
      assert r[1..] == fs;
    } else {
      assert r[1..] == Insert(f, fs[1..]);
      AboveInsert(p, f, fs[1..]);
      forall i | 0 <= i < |fs| ensures Lt(p, fs[i].path) { if i > 0 { assert fs[i] == fs[1..][i - 1]; } }
    }
  }

  /** A list that is strictly sorted after an insertion had no file with that path. */
  lemma {:induction false} InsertStrict(f: SourceFile, fs: seq<SourceFile>)
    requires StrictlySorted(Insert(f, fs))
    ensures StrictlySorted(fs) && !Lists(fs, f.path)
  {
    var r := Insert(f, fs);
    if fs == [] || Le(f.path, fs[0].path) {
      assert r[1..] == fs;
    } else {
      assert r[1..] == Insert(f, fs[1..]);
      InsertStrict(f, fs[1..]);
      AboveInsert(fs[0].path, f, fs[1..]);
      ListsCons(fs, f.path);
    }
  }

  /** Sorting brings out a path that occurs twice. */
  lemma {:induction false} SortStrict(fs: seq<SourceFile>)
    ensures StrictlySorted(SortByPath(fs)) <==> DistinctPaths(fs)
  {
    if DistinctPaths(fs) {
      SortCanonical(fs);
    } else {
      SortStrict(fs[1..]);
      if StrictlySorted(SortByPath(fs)) {
        InsertStrict(fs[0], SortByPath(fs[1..]));
        SortCanonical(fs[1..]);
        KeyIsListed(fs[1..], fs[0].path);
        KeyIsListed(SortByPath(fs[1..]), fs[0].path);
      }
    }
  }

  lemma ValidateByMap(entries: seq<Entry>, expected: Snapshot)
    requires ValidNames(entries) && Canonical(expected)
    ensures Validate(Dir(entries), expected) <==>
            && Ordinary(entries) && AllAcceptable(List([], entries)) && NoClash(entries)
            && MapOf(ToSources(List([], entries))) == MapOf(expected.files)
  {
    var fs := ToSources(List([], entries));
    CollectMeaning([], entries);
    SortStrict(fs);
    if NoClash(entries) {
      SortCanonical(fs);
      CanonicalEqual(SortByPath(fs), expected.files);
    }
  }

  /** The expected snapshot lists this file. */
  predicate Expects(files: seq<SourceFile>, comps: seq<string>, m: Mode, b: Bytes) {
    PathString(comps) in MapOf(files) && MapOf(files)[PathString(comps)] == Data(m, OfBytes(b))
  }

  /** Nothing missing, nothing changed, nothing extra, in terms of what lies at each path. */
  ghost predicate HoldsExactly(entries: seq<Entry>, files: seq<SourceFile>) {
    && (forall cs, m, b :: Lookup(entries, cs) == Some(File(m, b)) ==> Expects(files, cs, m, b))
    && (forall p :: p in MapOf(files) ==>
          exists cs, m, b :: PathString(cs) == p && Lookup(entries, cs) == Some(File(m, b)))
  }

  lemma {:induction false} SourceMapAt(fs: seq<Found>, f: Found)
    requires f in fs && DistinctPaths(ToSources(fs))
    ensures Expects(ToSources(fs), f.comps, f.mode, f.bytes)
  {
    var r := ToSources(fs);
    assert r[1..] == ToSources(fs[1..]);
    if f != fs[0] {
      assert f in fs[1..];
      SourceMapAt(fs[1..], f);
      KeyIsListed(r[1..], PathString(f.comps));
    }
  }

  lemma HoldsIsMap(entries: seq<Entry>, files: seq<SourceFile>)
    requires ValidNames(entries) && NoClash(entries)
    ensures HoldsExactly(entries, files) <==> MapOf(ToSources(List([], entries))) == MapOf(files)
  {
    var fs := List([], entries);
    if MapOf(ToSources(fs)) == MapOf(files) { MapHolds(entries, files); }
    if HoldsExactly(entries, files) { HoldsMap(entries, files); }
  }

  lemma MapHolds(entries: seq<Entry>, files: seq<SourceFile>)
    requires ValidNames(entries) && NoClash(entries)
    requires MapOf(ToSources(List([], entries))) == MapOf(files)
    ensures HoldsExactly(entries, files)
  {
    var fs := List([], entries);
    forall cs, m, b | Lookup(entries, cs) == Some(File(m, b)) ensures Expects(files, cs, m, b) {
      ThereIsListed([], entries, cs, m, b);
      assert [] + cs == cs;
      SourceMapAt(fs, Found(cs, m, b));
    }
    forall p | p in MapOf(files)
      ensures exists cs, m, b :: PathString(cs) == p && Lookup(entries, cs) == Some(File(m, b))
    {
      var f := ListedAt(entries, p);
    }
  }

  lemma ListedAt(entries: seq<Entry>, p: string) returns (f: Found)
    requires ValidNames(entries) && p in MapOf(ToSources(List([], entries)))
    ensures f in List([], entries) && PathString(f.comps) == p
    ensures Lookup(entries, f.comps) == Some(File(f.mode, f.bytes))
  {
    var fs := List([], entries);
    KeyIsListed(ToSources(fs), p);
    var i :| 0 <= i < |fs| && ToSources(fs)[i].path == p;
    f := fs[i];
    ListProper(entries, f);
  }

  lemma HoldsMap(entries: seq<Entry>, files: seq<SourceFile>)
    requires ValidNames(entries) && NoClash(entries)
    requires HoldsExactly(entries, files)
    ensures MapOf(ToSources(List([], entries))) == MapOf(files)
  {
    var fs := List([], entries);
    var mine := MapOf(ToSources(fs));
    forall p | p in mine ensures p in MapOf(files) && MapOf(files)[p] == mine[p] {
      var f := ListedAt(entries, p);
      SourceMapAt(fs, f);
      assert Expects(files, f.comps, f.mode, f.bytes);
    }
    forall p | p in MapOf(files) ensures p in mine {
      var cs, m, b :| PathString(cs) == p && Lookup(entries, cs) == Some(File(m, b));
      ThereIsListed([], entries, cs, m, b);
      assert [] + cs == cs;
      SourceMapAt(fs, Found(cs, m, b));
    }
  }

  /** `validate_snapshot` accepts a directory exactly when it is an ordinary tree of acceptable
      files, no two with the same path string, holding precisely the expected files. */
  lemma ValidateExact(entries: seq<Entry>, expected: Snapshot)
    requires ValidNames(entries) && Canonical(expected)
    ensures Validate(Dir(entries), expected) <==>
            && Ordinary(entries) && AllAcceptable(List([], entries)) && NoClash(entries)
            && HoldsExactly(entries, expected.files)
  {
    ValidateByMap(entries, expected);
    if NoClash(entries) { HoldsIsMap(entries, expected.files); }
  }

  // ------------------------------------------------- names with a backslash

  lemma {:induction false} SortLists(fs: seq<SourceFile>, p: string)
    requires Lists(SortByPath(fs), p)
    ensures Lists(fs, p)
  {
    if fs != [] {
      InsertLists(fs[0], SortByPath(fs[1..]), p);
      ListsCons(fs, p);
      if fs[0].path != p { SortLists(fs[1..], p); }
    }
  }

  lemma {:induction false} InsertLists(f: SourceFile, fs: seq<SourceFile>, p: string)
    requires Lists(Insert(f, fs), p)
    ensures f.path == p || Lists(fs, p)
  {
    var r := Insert(f, fs);
    ListsCons(r, p);
    if fs == [] || Le(f.path, fs[0].path) {
      assert r[1..] == fs;
    } else {
      assert r[1..] == Insert(f, fs[1..]);
      ListsCons(fs, p);
      if fs[0].path != p { InsertLists(f, fs[1..], p); }
    }
  }

  /** Every file is at the place the snapshot says. */
  ghost predicate InPlace(entries: seq<Entry>, files: seq<SourceFile>) {
    forall cs, m, b :: Lookup(entries, cs) == Some(File(m, b)) ==> Join(cs, "/") in MapOf(files)
  }

  /** On Unix a backslash in a file name is turned into a separator, so an accepted tree has
      its files where the snapshot says exactly when no name contains a backslash. */
  lemma BackslashExact(entries: seq<Entry>, expected: Snapshot)
    requires ValidNames(entries) && Canonical(expected) && Validate(Dir(entries), expected)
    ensures InPlace(entries, expected.files) <==> BackslashFree(entries)
  {
    if BackslashFree(entries) {
      ValidateExact(entries, expected);
      forall cs, m, b | Lookup(entries, cs) == Some(File(m, b)) ensures Join(cs, "/") in MapOf(expected.files) {
        ThereIsListed([], entries, cs, m, b);
        assert [] + cs == cs;
        PlainPath(cs);
        assert Expects(expected.files, cs, m, b);
      }
    } else {
      var f :| f in List([], entries) && !NoBackslash(f.comps);
      ListProper(entries, f);
      JoinBackslash(f.comps);
      NoExpectedBackslash(entries, expected, Join(f.comps, "/"));
    }
  }

  lemma NoExpectedBackslash(entries: seq<Entry>, expected: Snapshot, p: string)
    requires Validate(Dir(entries), expected) && '\\' in p
    ensures p !in MapOf(expected.files)
  {
    var fs := ToSources(List([], entries));
    CollectMeaning([], entries);
    forall q | Lists(expected.files, q) ensures '\\' !in q {
      SortLists(fs, q);
      var i :| 0 <= i < |fs| && fs[i].path == q;
      assert q == PathString(List([], entries)[i].comps);
    }
    KeyIsListed(expected.files, p);
  }

  /** One file named `a\b` passes for the expected file `b` in directory `a`. */
  lemma BackslashImpostor(m: Mode, b: Bytes)
    requires |b| <= GitBatch.LIMIT
    ensures var files := [SourceFile("a/b", m, OfBytes(b))];
            var entries := [Entry("a\\b", File(m, b))];
            && Validate(Dir(entries), Snapshot(OfList(files), files))
            && Lookup(entries, ["a", "b"]).None?
  {
    var f := SourceFile("a/b", m, OfBytes(b));
    var e := Entry("a\\b", File(m, b));
    FindSingle(e, "a");
    assert |"a\\b"| == 3;
    ImpostorCollected(e, m, b);
    assert SortByPath([f]) == [f] by {
      assert [f][1..] == [];
      assert SortByPath([]) == [];
    }
  }

  lemma ImpostorCollected(e: Entry, m: Mode, b: Bytes)
    requires e == Entry("a\\b", File(m, b)) && |b| <= GitBatch.LIMIT
    ensures Collect([], [e]) == Some([SourceFile("a/b", m, OfBytes(b))])
  {
    assert [] + ["a\\b"] == ["a\\b"];
    assert PathString(["a\\b"]) == "a/b";
    SafeExample();
    CollectOne([], e);
  }

  lemma SafeExample()
    ensures SafeRelative("a/b")
  {
    SplitJoin(["a", "b"]);
    assert ["a", "b"][1..] == ["b"];
    assert Join(["b"], "/") == "b";
    assert Join(["a", "b"], "/") == "a/b";
  }
}
