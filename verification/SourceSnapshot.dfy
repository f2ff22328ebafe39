/** Canonical source snapshots of xtask/src/migrations.rs: collecting a directory tree,
    validating it and copying it. SHA-256 is an injective constructor. */
module SourceSnapshot {
  import opened Text
  import opened PathOrder
  import GitBatch

  type Bytes = GitBatch.Bytes

  datatype Mode = Regular | Executable

  datatype Digest = OfBytes(bytes: Bytes) | OfList(files: seq<SourceFile>)

  datatype SourceFile = SourceFile(path: string, mode: Mode, sha256: Digest)

  datatype Snapshot = Snapshot(sha256: Digest, files: seq<SourceFile>)

  /** What `read_dir` may meet, in whatever order it lists the entries. */
  datatype Node = File(mode: Mode, bytes: Bytes) | Dir(entries: seq<Entry>) | Symlink | Special

  datatype Entry = Entry(name: string, node: Node)

  // ---------------------------------------------------------------- the code

  function SplitSlash(s: string): (r: seq<string>)
    ensures r != []
    decreases |s|
  {
    var k := IndexOf(s, '/');
    if k == |s| then [s] else [s[..k]] + SplitSlash(s[k + 1..])
  }

  predicate SafePart(part: string) {
    part != "" && part != "." && part != ".." && part != ".git"
  }

  predicate SafeRelative(path: string) {
    && (forall i :: 0 <= i < |path| ==> path[i] !in {'\\', ':', '\0', '\r', '\n'})
    && (forall i :: 0 <= i < |SplitSlash(path)| ==> SafePart(SplitSlash(path)[i]))
  }

  function PathString(comps: seq<string>): string {
    Slashes(Join(comps, "/"))
  }

  function Collect(at: seq<string>, entries: seq<Entry>): Option<seq<SourceFile>>
    decreases entries, 1
  {
    if entries == [] then Some([])
    else
      match CollectNode(at + [entries[0].name], entries[0].node)
      case None => None
      case Some(first) =>
        match Collect(at, entries[1..])
        case None => None
        case Some(rest) => Some(first + rest)
  }

  function CollectNode(comps: seq<string>, node: Node): Option<seq<SourceFile>>
    decreases node, 0
  {
    match node
    case Symlink => None
    case Special => None
    case Dir(entries) => Collect(comps, entries)
    case File(mode, bytes) =>
      if SafeRelative(PathString(comps)) && |bytes| <= GitBatch.LIMIT
      then Some([SourceFile(PathString(comps), mode, OfBytes(bytes))])
      else None
  }

  function Insert(f: SourceFile, fs: seq<SourceFile>): seq<SourceFile> {
    if fs == [] || Le(f.path, fs[0].path) then [f] + fs else [fs[0]] + Insert(f, fs[1..])
  }

  /** `sort_by(|a, b| a.path.cmp(&b.path))` */
  function SortByPath(fs: seq<SourceFile>): seq<SourceFile> {
    if fs == [] then [] else Insert(fs[0], SortByPath(fs[1..]))
  }

  function MakeSnapshot(files: seq<SourceFile>): Option<Snapshot> {
    if files == [] then None else Some(Snapshot(OfList(files), files))
  }

  predicate Validate(root: Node, expected: Snapshot) {
    root.Dir? &&
    var files := Collect([], root.entries);
    files.Some? && MakeSnapshot(SortByPath(files.value)) == Some(expected)
  }

  /** `collect_snapshot_files`, pushing into the caller's vector. */
  method CollectSnapshotFiles(at: seq<string>, entries: seq<Entry>, files: seq<SourceFile>)
    returns (ok: bool, out: seq<SourceFile>)
    ensures ok == Collect(at, entries).Some?
    ensures ok ==> out == files + Collect(at, entries).value
    decreases entries
  {
    out := files;
    assert out[|files|..] == [] && entries[..0] == [];
    for i := 0 to |entries|
      invariant files <= out
      invariant Collect(at, entries[..i]) == Some(out[|files|..])
    {
      CollectSplit(at, entries, i);
      var e := entries[i];
      var comps := at + [e.name];
      match e.node {
        case Symlink => return false, out;
        case Special => return false, out;
        case Dir(inner) =>
          var fine, more := CollectSnapshotFiles(comps, inner, out);
          if !fine { return false, out; }
          assert more[|files|..] == out[|files|..] + Collect(comps, inner).value;
          out := more;
        case File(mode, bytes) =>
          if !SafeRelative(PathString(comps)) || |bytes| > GitBatch.LIMIT { return false, out; }
          var file := SourceFile(PathString(comps), mode, OfBytes(bytes));
          assert (out + [file])[|files|..] == out[|files|..] + [file];
          out := out + [file];
      }
    }
    assert entries[..|entries|] == entries;
    ok := true;
  }

  function Both(a: Option<seq<SourceFile>>, b: Option<seq<SourceFile>>): Option<seq<SourceFile>> {
    if a.Some? && b.Some? then Some(a.value + b.value) else None
  }

  lemma {:induction false} CollectAppend(at: seq<string>, a: seq<Entry>, b: seq<Entry>)
    ensures Collect(at, a + b) == Both(Collect(at, a), Collect(at, b))
    decreases |a|
  {
    if a == [] {
      assert a + b == b;
      if Collect(at, b).Some? { assert [] + Collect(at, b).value == Collect(at, b).value; }
    } else {
      assert (a + b)[1..] == a[1..] + b;
      CollectAppend(at, a[1..], b);
      BothAssoc(CollectNode(at + [a[0].name], a[0].node), Collect(at, a[1..]), Collect(at, b));
    }
  }

  lemma BothAssoc(a: Option<seq<SourceFile>>, b: Option<seq<SourceFile>>, c: Option<seq<SourceFile>>)
    ensures Both(Both(a, b), c) == Both(a, Both(b, c))
  {
    if a.Some? && b.Some? && c.Some? {
      assert (a.value + b.value) + c.value == a.value + (b.value + c.value);
    }
  }

  /** Processing entry `i` extends the result so far; a failure there is a failure overall. */
  lemma CollectSplit(at: seq<string>, entries: seq<Entry>, i: nat)
    requires i < |entries|
    ensures var here := CollectNode(at + [entries[i].name], entries[i].node);
            && Collect(at, entries[..i + 1]) == Both(Collect(at, entries[..i]), here)
            && (here.None? ==> Collect(at, entries).None?)
  {
    var e := [entries[i]];
    CollectOne(at, entries[i]);
    assert entries[..i + 1] == entries[..i] + e;
    CollectAppend(at, entries[..i], e);
    assert entries == entries[..i + 1] + entries[i + 1..];
    CollectAppend(at, entries[..i + 1], entries[i + 1..]);
  }

  lemma CollectOne(at: seq<string>, e: Entry)
    ensures Collect(at, [e]) == CollectNode(at + [e.name], e.node)
  {
    assert [e][1..] == [];
    var r := CollectNode(at + [e.name], e.node);
    if r.Some? { assert r.value + [] == r.value; }
  }

  // ------------------------------------------------- lists in canonical order

  predicate Above(p: string, fs: seq<SourceFile>) {
    forall i :: 0 <= i < |fs| ==> Lt(p, fs[i].path)
  }

  predicate StrictlySorted(fs: seq<SourceFile>) {
    fs == [] || (Above(fs[0].path, fs[1..]) && StrictlySorted(fs[1..]))
  }

  predicate Lists(fs: seq<SourceFile>, p: string) {
    exists i :: 0 <= i < |fs| && fs[i].path == p
  }

  predicate DistinctPaths(fs: seq<SourceFile>) {
    fs == [] || (!Lists(fs[1..], fs[0].path) && DistinctPaths(fs[1..]))
  }

  datatype Data = Data(mode: Mode, sha256: Digest)

  function MapOf(fs: seq<SourceFile>): map<string, Data> {
    if fs == [] then map[] else MapOf(fs[1..])[fs[0].path := Data(fs[0].mode, fs[0].sha256)]
  }

  lemma {:induction false} KeyIsListed(fs: seq<SourceFile>, p: string)
    ensures p in MapOf(fs) <==> Lists(fs, p)
  {
    if fs != [] {
      KeyIsListed(fs[1..], p);
      ListsCons(fs, p);
    }
  }

  lemma ListsCons(fs: seq<SourceFile>, p: string)
    requires fs != []
    ensures Lists(fs, p) <==> fs[0].path == p || Lists(fs[1..], p)
  {
    if Lists(fs[1..], p) {
      var i :| 0 <= i < |fs[1..]| && fs[1..][i].path == p;
      assert fs[i + 1].path == p;
    }
    if Lists(fs, p) {
      var i :| 0 <= i < |fs| && fs[i].path == p;
      if i > 0 { assert fs[1..][i - 1].path == p; }
    }
  }

  lemma AboveKey(q: string, fs: seq<SourceFile>, p: string)
    requires Above(q, fs) && p in MapOf(fs)
    ensures Lt(q, p)
  {
    KeyIsListed(fs, p);
  }

  /** The first file of a canonical list has the least path of its map, and only once. */
  lemma HeadLeast(fs: seq<SourceFile>, p: string)
    requires fs != [] && StrictlySorted(fs) && p in MapOf(fs)
    ensures Le(fs[0].path, p)
  {
    LeReflexive(p);
    if p in MapOf(fs[1..]) { AboveKey(fs[0].path, fs[1..], p); }
  }

  lemma TailMap(fs: seq<SourceFile>)
    requires fs != [] && StrictlySorted(fs)
    ensures MapOf(fs[1..]) == MapOf(fs) - {fs[0].path}
  {
    if fs[0].path in MapOf(fs[1..]) { AboveKey(fs[0].path, fs[1..], fs[0].path); }
  }

  /** Two lists in canonical order are equal exactly when they describe the same
      path-to-(mode, content) map. */
  lemma {:induction false} CanonicalEqual(a: seq<SourceFile>, b: seq<SourceFile>)
    requires StrictlySorted(a) && StrictlySorted(b)
    ensures a == b <==> MapOf(a) == MapOf(b)
    decreases |a|
  {
    if MapOf(a) == MapOf(b) {
      EmptyMap(b);
      if a != [] {
        assert a[0].path in MapOf(a);
        SameHead(a, b);
        CanonicalEqual(a[1..], b[1..]);
        assert a == [a[0]] + a[1..] && b == [b[0]] + b[1..];
      }
    }
  }

  lemma EmptyMap(fs: seq<SourceFile>)
    ensures MapOf(fs) == map[] <==> fs == []
  {
    if fs != [] { assert fs[0].path in MapOf(fs); }
  }

  lemma SameHead(a: seq<SourceFile>, b: seq<SourceFile>)
    requires StrictlySorted(a) && StrictlySorted(b) && a != [] && MapOf(a) == MapOf(b)
    ensures b != [] && a[0] == b[0] && MapOf(a[1..]) == MapOf(b[1..])
  {
    assert a[0].path in MapOf(b);
    assert b[0].path in MapOf(a);
    HeadLeast(a, b[0].path);
    HeadLeast(b, a[0].path);
    LeAntisymmetric(a[0].path, b[0].path);
    assert MapOf(a)[a[0].path] == MapOf(b)[b[0].path];
    TailMap(a);
    TailMap(b);
  }

  lemma {:induction false} InsertAbove(p: string, f: SourceFile, fs: seq<SourceFile>)
    requires Above(p, fs) && Lt(p, f.path)
    ensures Above(p, Insert(f, fs))
  {
    if fs != [] && !Le(f.path, fs[0].path) {
      InsertAbove(p, f, fs[1..]);
    }
  }

  lemma AboveAll(f: SourceFile, fs: seq<SourceFile>)
    requires fs != [] && StrictlySorted(fs) && Lt(f.path, fs[0].path)
    ensures Above(f.path, fs)
  {
    forall i | 0 <= i < |fs| ensures Lt(f.path, fs[i].path) {
      if i > 0 {
        assert fs[i] == fs[1..][i - 1];
        LtTransitive(f.path, fs[0].path, fs[i].path);
      }
    }
  }

  lemma {:induction false} InsertSorted(f: SourceFile, fs: seq<SourceFile>)
    requires StrictlySorted(fs) && f.path !in MapOf(fs)
    ensures StrictlySorted(Insert(f, fs))
  {
    if fs == [] {
      assert ([f] + fs)[1..] == fs;
    } else if Le(f.path, fs[0].path) {
      AboveAll(f, fs);
      assert ([f] + fs)[1..] == fs;
    } else {
      LeTotal(f.path, fs[0].path);
      InsertSorted(f, fs[1..]);
      InsertAbove(fs[0].path, f, fs[1..]);
      assert Insert(f, fs)[1..] == Insert(f, fs[1..]);
    }
  }

  lemma {:induction false} InsertMap(f: SourceFile, fs: seq<SourceFile>)
    requires f.path !in MapOf(fs)
    ensures MapOf(Insert(f, fs)) == MapOf(fs)[f.path := Data(f.mode, f.sha256)]
  {
    if fs == [] || Le(f.path, fs[0].path) {
      assert ([f] + fs)[1..] == fs;
    } else {
      InsertMap(f, fs[1..]);
      assert Insert(f, fs)[1..] == Insert(f, fs[1..]);
    }
  }

  /** Sorting a list of distinct paths gives the canonical list of its map. */
  lemma {:induction false} SortCanonical(fs: seq<SourceFile>)
    requires DistinctPaths(fs)
    ensures StrictlySorted(SortByPath(fs)) && MapOf(SortByPath(fs)) == MapOf(fs)
  {
    if fs != [] {
      SortCanonical(fs[1..]);
      KeyIsListed(fs[1..], fs[0].path);
      InsertSorted(fs[0], SortByPath(fs[1..]));
      InsertMap(fs[0], SortByPath(fs[1..]));
    }
  }
}
