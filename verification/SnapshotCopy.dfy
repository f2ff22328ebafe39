/** `copy_snapshot`: the copy of a valid source tree validates. */
module SnapshotCopy {
  import opened Text
  import opened SourceSnapshot
  import opened SnapshotTree
  import GitBatch

  // ---------------------------------------------------------------- the code

  /** Directories created on the way to a new file. */
  function Fresh(comps: seq<string>, file: Node): Node
    decreases |comps|
  {
    if comps == [] then file else Dir([Entry(comps[0], Fresh(comps[1..], file))])
  }

  function SetEntry(entries: seq<Entry>, name: string, node: Node): seq<Entry> {
    if entries == [] then []
    else if entries[0].name == name then [Entry(name, node)] + entries[1..]
    else [entries[0]] + SetEntry(entries[1..], name, node)
  }

  /** `create_dir_all` of the parent, then `write`. */
  function Put(entries: seq<Entry>, comps: seq<string>, file: Node): Option<seq<Entry>>
    requires comps != []
    decreases |comps|
  {
    match Find(entries, comps[0])
    case None => Some(entries + [Entry(comps[0], Fresh(comps[1..], file))])
    case Some(node) =>
      if |comps| == 1 then
        if node.File? then Some(SetEntry(entries, comps[0], file)) else None
      else if node.Dir? then
        match Put(node.entries, comps[1..], file)
        case None => None
        case Some(inner) => Some(SetEntry(entries, comps[0], Dir(inner)))
      else None
  }

  /** A regular file within the size limit at a safe path, reached without symlinks. */
  function Source(src: seq<Entry>, path: string): Option<Node> {
    var node := Lookup(src, SplitSlash(path));
    if SafeRelative(path) && node.Some? && node.value.File? && |node.value.bytes| <= GitBatch.LIMIT
    then node else None
  }

  function Copy(src: seq<Entry>, files: seq<SourceFile>, dest: seq<Entry>): Option<seq<Entry>>
    decreases |files|
  {
    if files == [] then Some(dest)
    else
      match Source(src, files[0].path)
      case None => None
      case Some(file) =>
        match Put(dest, SplitSlash(files[0].path), file)
        case None => None
        case Some(next) => Copy(src, files[1..], next)
  }

  predicate CopySnapshot(src: seq<Entry>, expected: Snapshot) {
    var dest := Copy(src, expected.files, []);
    dest.Some? && Validate(Dir(dest.value), expected)
  }

  /** The loop over the expected files. */
  method CopyFiles(src: seq<Entry>, files: seq<SourceFile>) returns (dest: Option<seq<Entry>>)
    ensures dest == Copy(src, files, [])
  {
    var tree: seq<Entry> := [];
    for i := 0 to |files|
      invariant Copy(src, files, []) == Copy(src, files[i..], tree)
    {
      assert files[i..][1..] == files[i + 1..];
      var input := Source(src, files[i].path);
      if input.None? { return None; }
      var next := Put(tree, SplitSlash(files[i].path), input.value);
      if next.None? { return None; }
      tree := next.value;
    }
    dest := Some(tree);
  }

  // ------------------------------------------------------- editing a directory

  lemma {:induction false} FindSet(entries: seq<Entry>, name: string, node: Node, q: string)
    requires Find(entries, name).Some?
    ensures Find(SetEntry(entries, name, node), q) == if q == name then Some(node) else Find(entries, q)
  {
    if entries[0].name != name { FindSet(entries[1..], name, node, q); }
  }

  lemma {:induction false} FindAppend(entries: seq<Entry>, e: Entry, q: string)
    ensures Find(entries + [e], q)
         == if Find(entries, q).Some? then Find(entries, q) else if e.name == q then Some(e.node) else None
  {
    if entries == [] {
      assert entries + [e] == [e] && [e][1..] == [];
    } else {
      assert (entries + [e])[1..] == entries[1..] + [e];
      FindAppend(entries[1..], e, q);
    }
  }

  lemma {:induction false} SetValid(entries: seq<Entry>, name: string, node: Node)
    requires ValidNames(entries) && (node.Dir? ==> ValidNames(node.entries))
    ensures ValidNames(SetEntry(entries, name, node))
  {
    if entries != [] {
      var r := SetEntry(entries, name, node);
      if entries[0].name == name {
        assert r[1..] == entries[1..];
      } else {
        SetValid(entries[1..], name, node);
        assert r[1..] == SetEntry(entries[1..], name, node);
        if Find(entries[1..], name).Some? {
          FindSet(entries[1..], name, node, entries[0].name);
        } else {
          SetAbsent(entries[1..], name, node);
        }
      }
    }
  }

  lemma {:induction false} SetAbsent(entries: seq<Entry>, name: string, node: Node)
    requires Find(entries, name).None?
    ensures SetEntry(entries, name, node) == entries
  {
    if entries != [] { SetAbsent(entries[1..], name, node); }
  }

  lemma {:induction false} AppendValid(entries: seq<Entry>, e: Entry)
    requires ValidNames(entries) && Find(entries, e.name).None? && Name(e.name)
    requires e.node.Dir? ==> ValidNames(e.node.entries)
    ensures ValidNames(entries + [e])
  {
    if entries == [] {
      assert entries + [e] == [e] && [e][1..] == [];
    } else {
      assert (entries + [e])[1..] == entries[1..] + [e];
      AppendValid(entries[1..], e);
      FindAppend(entries[1..], e, entries[0].name);
    }
  }

  // -------------------------------------------- the destination is a part of the source

  /** Everything in `d` is also in `s`: same files, and directories that are parts of directories. */
  predicate Part(d: seq<Entry>, s: seq<Entry>)
    decreases d, 1
  {
    d == [] ||
    (Find(s, d[0].name).Some? && PartNode(d[0].node, Find(s, d[0].name).value) && Part(d[1..], s))
  }

  predicate PartNode(n: Node, m: Node)
    decreases n, 0
  {
    (n.File? && n == m) || (n.Dir? && m.Dir? && Part(n.entries, m.entries))
  }

  lemma {:induction false} PartFind(d: seq<Entry>, s: seq<Entry>, name: string)
    requires Part(d, s) && Find(d, name).Some?
    ensures Find(s, name).Some? && PartNode(Find(d, name).value, Find(s, name).value)
  {
    if d[0].name != name { PartFind(d[1..], s, name); }
  }

  lemma {:induction false} PartSet(d: seq<Entry>, s: seq<Entry>, name: string, node: Node)
    requires Part(d, s) && Find(s, name).Some? && PartNode(node, Find(s, name).value)
    ensures Part(SetEntry(d, name, node), s)
  {
    if d != [] {
      var r := SetEntry(d, name, node);
      if d[0].name == name {
        assert r[1..] == d[1..];
      } else {
        PartSet(d[1..], s, name, node);
        assert r[1..] == SetEntry(d[1..], name, node);
      }
    }
  }

  lemma {:induction false} PartAppend(d: seq<Entry>, s: seq<Entry>, e: Entry)
    requires Part(d, s) && Find(s, e.name).Some? && PartNode(e.node, Find(s, e.name).value)
    ensures Part(d + [e], s)
  {
    if d == [] {
      assert d + [e] == [e] && [e][1..] == [];
    } else {
      assert (d + [e])[1..] == d[1..] + [e];
      PartAppend(d[1..], s, e);
    }
  }

  lemma {:induction false} PartOrdinary(d: seq<Entry>, s: seq<Entry>)
    requires Part(d, s)
    ensures Ordinary(d)
    decreases d
  {
    if d != [] {
      PartOrdinary(d[1..], s);
      if d[0].node.Dir? { PartOrdinary(d[0].node.entries, Find(s, d[0].name).value.entries); }
    }
  }

  predicate Names(comps: seq<string>) {
    forall i :: 0 <= i < |comps| ==> Name(comps[i])
  }

  lemma {:induction false} FreshPart(comps: seq<string>, file: Node, m: Node)
    requires Names(comps) && file.File? && LookupIn(m, comps) == Some(file)
    ensures PartNode(Fresh(comps, file), m)
    ensures Fresh(comps, file).Dir? ==> ValidNames(Fresh(comps, file).entries)
    decreases |comps|
  {
    if comps != [] {
      var e := Entry(comps[0], Fresh(comps[1..], file));
      assert Name(comps[0]);
      FreshPart(comps[1..], file, Find(m.entries, comps[0]).value);
      assert [e][1..] == [];
      assert Part([], m.entries) && ValidNames([]);
    }
  }

  /** Writing a file of the source into a part of it never meets a conflict. */
  lemma {:induction false} PutSucceeds(d: seq<Entry>, s: seq<Entry>, comps: seq<string>, file: Node)
    requires Part(d, s) && ValidNames(d) && Names(comps) && comps != []
    requires file.File? && Lookup(s, comps) == Some(file)
    ensures var r := Put(d, comps, file); r.Some? && Part(r.value, s) && ValidNames(r.value)
    decreases |comps|
  {
    var name := comps[0];
    assert Name(name);
    var there := Find(s, name).value;
    assert forall i :: 0 <= i < |comps[1..]| ==> comps[1..][i] == comps[i + 1];
    if Find(d, name).None? {
      FreshPart(comps[1..], file, there);
      var e := Entry(name, Fresh(comps[1..], file));
      PartAppend(d, s, e);
      AppendValid(d, e);
    } else {
      PartFind(d, s, name);
      var node := Find(d, name).value;
      if |comps| == 1 {
        assert comps[1..] == [];
        PartSet(d, s, name, file);
        SetValid(d, name, file);
      } else {
        FoundValid(d, name);
        PutSucceeds(node.entries, there.entries, comps[1..], file);
        var inner := Put(node.entries, comps[1..], file).value;
        PartSet(d, s, name, Dir(inner));
        SetValid(d, name, Dir(inner));
      }
    }
  }

  lemma {:induction false} FoundValid(d: seq<Entry>, name: string)
    requires ValidNames(d) && Find(d, name).Some? && Find(d, name).value.Dir?
    ensures ValidNames(Find(d, name).value.entries)
  {
    if d[0].name != name { FoundValid(d[1..], name); }
  }

  // ------------------------------------------------------- what a write changes

  ghost predicate FileAt(entries: seq<Entry>, cs: seq<string>, f: Node) {
    f.File? && Lookup(entries, cs) == Some(f)
  }

  lemma {:induction false} FreshLookup(comps: seq<string>, file: Node, cs: seq<string>, f: Node)
    requires file.File? && f.File?
    ensures LookupIn(Fresh(comps, file), cs) == Some(f) <==> cs == comps && f == file
    decreases |comps|
  {
    if comps == [] {
    } else if cs != [] {
      var e := Entry(comps[0], Fresh(comps[1..], file));
      FindSingle(e, cs[0]);
      if cs[0] == comps[0] {
        FreshLookup(comps[1..], file, cs[1..], f);
        assert cs == [cs[0]] + cs[1..] && comps == [comps[0]] + comps[1..];
      }
    }
  }

  /** After a write the new file is at its path and every other file is as before. */
  lemma {:induction false} PutLookup(d: seq<Entry>, comps: seq<string>, file: Node, cs: seq<string>, f: Node)
    requires comps != [] && file.File? && f.File? && Put(d, comps, file).Some?
    ensures Lookup(Put(d, comps, file).value, cs) == Some(f) <==>
            if cs == comps then f == file else Lookup(d, cs) == Some(f)
    decreases |comps|
  {
    if cs != [] {
      var name := comps[0];
      assert cs == [cs[0]] + cs[1..] && comps == [name] + comps[1..];
      if Find(d, name).None? {
        FindAppend(d, Entry(name, Fresh(comps[1..], file)), cs[0]);
        FreshLookup(comps[1..], file, cs[1..], f);
      } else {
        var node := Find(d, name).value;
        if |comps| == 1 {
          FindSet(d, name, file, cs[0]);
        } else {
          var inner := Put(node.entries, comps[1..], file).value;
          FindSet(d, name, Dir(inner), cs[0]);
          PutLookup(node.entries, comps[1..], file, cs[1..], f);
        }
      }
    }
  }

  // -------------------------------------------------------------- the copy

  predicate Mentions(files: seq<SourceFile>, cs: seq<string>) {
    exists i :: 0 <= i < |files| && SplitSlash(files[i].path) == cs
  }

  /** Every expected file is a readable source file. */
  ghost predicate Available(src: seq<Entry>, files: seq<SourceFile>) {
    forall i :: 0 <= i < |files| ==>
      Source(src, files[i].path).Some? && Names(SplitSlash(files[i].path))
  }

  /** The destination has exactly the source files written so far. */
  ghost predicate Mirrors(dest: seq<Entry>, src: seq<Entry>, d0: seq<Entry>, files: seq<SourceFile>) {
    forall cs, f :: FileAt(dest, cs, f) <==>
      (FileAt(d0, cs, f) && !Mentions(files, cs)) || (Mentions(files, cs) && FileAt(src, cs, f))
  }

  lemma {:induction false} CopyMirrors(src: seq<Entry>, files: seq<SourceFile>, dest: seq<Entry>)
    requires Available(src, files) && Part(dest, src) && ValidNames(dest)
    ensures var r := Copy(src, files, dest);
            r.Some? && Part(r.value, src) && ValidNames(r.value) && Mirrors(r.value, src, dest, files)
    decreases |files|
  {
    if files != [] {
      var comps := SplitSlash(files[0].path);
      var file := Source(src, files[0].path).value;
      PutSucceeds(dest, src, comps, file);
      var next := Put(dest, comps, file).value;
      assert forall i :: 0 <= i < |files[1..]| ==> files[1..][i] == files[i + 1];
      CopyMirrors(src, files[1..], next);
      MirrorStep(src, files, dest, next, Copy(src, files[1..], next).value);
    }
  }

  lemma MirrorStep(src: seq<Entry>, files: seq<SourceFile>, dest: seq<Entry>, next: seq<Entry>, last: seq<Entry>)
    requires files != [] && Source(src, files[0].path).Some?
    requires Put(dest, SplitSlash(files[0].path), Source(src, files[0].path).value) == Some(next)
    requires Mirrors(last, src, next, files[1..])
    ensures Mirrors(last, src, dest, files)
  {
    var comps := SplitSlash(files[0].path);
    var file := Source(src, files[0].path).value;
    forall cs, f
      ensures FileAt(last, cs, f) <==>
              (FileAt(dest, cs, f) && !Mentions(files, cs)) || (Mentions(files, cs) && FileAt(src, cs, f))
    {
      MentionsCons(files, cs);
      if f.File? { PutLookup(dest, comps, file, cs, f); }
    }
  }

  lemma MentionsCons(files: seq<SourceFile>, cs: seq<string>)
    requires files != []
    ensures Mentions(files, cs) <==> SplitSlash(files[0].path) == cs || Mentions(files[1..], cs)
  {
    if Mentions(files[1..], cs) {
      var i :| 0 <= i < |files[1..]| && SplitSlash(files[1..][i].path) == cs;
      assert SplitSlash(files[i + 1].path) == cs;
    }
    if Mentions(files, cs) {
      var i :| 0 <= i < |files| && SplitSlash(files[i].path) == cs;
      if i > 0 { assert SplitSlash(files[1..][i - 1].path) == cs; }
    }
  }

  /** A file of a backslash-free tree is recovered from its path string. */
  lemma FilePath(src: seq<Entry>, cs: seq<string>, m: Mode, b: Bytes)
    requires ValidNames(src) && BackslashFree(src) && Lookup(src, cs) == Some(File(m, b))
    ensures SplitSlash(PathString(cs)) == cs && Found(cs, m, b) in List([], src) && NoSlash(cs) && NoBackslash(cs)
  {
    ThereIsListed([], src, cs, m, b);
    assert [] + cs == cs;
    var f := Found(cs, m, b);
    ListProper(src, f);
    PlainPath(cs);
    SplitJoin(cs);
  }

  lemma {:induction false} ThereNames(entries: seq<Entry>, cs: seq<string>)
    requires ValidNames(entries) && Lookup(entries, cs).Some?
    ensures Names(cs)
    decreases |cs|
  {
    FoundName(entries, cs[0]);
    if |cs| > 1 {
      FoundValid(entries, cs[0]);
      ThereNames(Find(entries, cs[0]).value.entries, cs[1..]);
      forall i | 0 <= i < |cs| ensures Name(cs[i]) {
        if i > 0 { assert cs[i] == cs[1..][i - 1]; }
      }
    }
  }

  lemma {:induction false} FoundName(entries: seq<Entry>, name: string)
    requires ValidNames(entries) && Find(entries, name).Some?
    ensures Name(name)
  {
    if entries[0].name != name { FoundName(entries[1..], name); }
  }

  lemma SourceAvailable(src: seq<Entry>, expected: Snapshot)
    requires ValidNames(src) && BackslashFree(src) && Canonical(expected) && Validate(Dir(src), expected)
    ensures Available(src, expected.files)
  {
    ValidateExact(src, expected);
    var files := expected.files;
    forall i | 0 <= i < |files|
      ensures Source(src, files[i].path).Some? && Names(SplitSlash(files[i].path))
    {
      var p := files[i].path;
      KeyIsListed(files, p);
      var cs, m, b :| PathString(cs) == p && Lookup(src, cs) == Some(File(m, b));
      FilePath(src, cs, m, b);
      ThereNames(src, cs);
      var fs := List([], src);
      var k :| 0 <= k < |fs| && fs[k] == Found(cs, m, b);
      assert Acceptable(fs[k]);
    }
  }

  /** The source's files are all mentioned, so an exact mirror holds exactly the same files. */
  lemma MirrorSame(src: seq<Entry>, expected: Snapshot, dest: seq<Entry>, cs: seq<string>, f: Node)
    requires ValidNames(src) && BackslashFree(src) && Canonical(expected) && Validate(Dir(src), expected)
    requires Mirrors(dest, src, [], expected.files)
    ensures FileAt(dest, cs, f) <==> FileAt(src, cs, f)
  {
    ValidateExact(src, expected);
    assert !FileAt([], cs, f);
    if FileAt(src, cs, f) {
      FilePath(src, cs, f.mode, f.bytes);
      assert Expects(expected.files, cs, f.mode, f.bytes);
      KeyIsListed(expected.files, PathString(cs));
      var i :| 0 <= i < |expected.files| && expected.files[i].path == PathString(cs);
      assert Mentions(expected.files, cs);
    }
  }

  lemma SameFilesValidate(src: seq<Entry>, expected: Snapshot, dest: seq<Entry>)
    requires ValidNames(src) && BackslashFree(src) && Canonical(expected) && Validate(Dir(src), expected)
    requires ValidNames(dest) && Ordinary(dest)
    requires forall cs, f :: FileAt(dest, cs, f) <==> FileAt(src, cs, f)
    ensures Validate(Dir(dest), expected)
  {
    ValidateExact(src, expected);
    forall f | f in List([], dest)
      ensures NoBackslash(f.comps) && Acceptable(f)
    {
      ListProper(dest, f);
      assert FileAt(dest, f.comps, File(f.mode, f.bytes));
      FilePath(src, f.comps, f.mode, f.bytes);
      var fs := List([], src);
      var k :| 0 <= k < |fs| && fs[k] == f;
      assert Acceptable(fs[k]);
    }
    assert AllAcceptable(List([], dest)) by {
      var fs := List([], dest);
      forall i | 0 <= i < |fs| ensures Acceptable(fs[i]) { assert fs[i] in fs; }
    }
    SameFilesHold(src, expected.files, dest);
    TreeDistinct(dest);
    ValidateExact(dest, expected);
  }

  lemma SameFilesHold(src: seq<Entry>, files: seq<SourceFile>, dest: seq<Entry>)
    requires HoldsExactly(src, files)
    requires forall cs, f :: FileAt(dest, cs, f) <==> FileAt(src, cs, f)
    ensures HoldsExactly(dest, files)
  {
    forall cs, m, b | Lookup(dest, cs) == Some(File(m, b)) ensures Expects(files, cs, m, b) {
      assert FileAt(dest, cs, File(m, b));
    }
    forall p | p in MapOf(files)
      ensures exists cs, m, b :: PathString(cs) == p && Lookup(dest, cs) == Some(File(m, b))
    {
      var cs, m, b :| PathString(cs) == p && Lookup(src, cs) == Some(File(m, b));
      assert FileAt(src, cs, File(m, b));
      assert FileAt(dest, cs, File(m, b));
    }
  }

  lemma PlainCopyValidates(src: seq<Entry>, expected: Snapshot)
    requires ValidNames(src) && BackslashFree(src) && Canonical(expected) && Validate(Dir(src), expected)
    ensures CopySnapshot(src, expected)
  {
    SourceAvailable(src, expected);
    CopyMirrors(src, expected.files, []);
    var dest := Copy(src, expected.files, []).value;
    PartOrdinary(dest, src);
    forall cs, f ensures FileAt(dest, cs, f) <==> FileAt(src, cs, f) {
      MirrorSame(src, expected, dest, cs, f);
    }
    SameFilesValidate(src, expected, dest);
  }

  // ------------------------------------------------- names with a backslash

  lemma JoinCons(head: string, tail: seq<string>)
    requires tail != []
    ensures Join([head] + tail, "/") == head + "/" + Join(tail, "/")
  {
    assert ([head] + tail)[1..] == tail;
  }

  lemma SplitFirst(p: string, k: nat)
    requires k == IndexOf(p, '/')
    ensures k == |p| ==> SplitSlash(p) == [p]
    ensures k < |p| ==> SplitSlash(p) == [p[..k]] + SplitSlash(p[k + 1..])
  {
  }

  lemma AroundSlash(p: string, k: nat)
    requires k < |p| && p[k] == '/'
    ensures p == p[..k] + "/" + p[k + 1..]
  {
  }

  lemma {:induction false} JoinSplit(p: string)
    ensures Join(SplitSlash(p), "/") == p
    decreases |p|
  {
    var k := IndexOf(p, '/');
    SplitFirst(p, k);
    if k < |p| {
      JoinSplit(p[k + 1..]);
      JoinCons(p[..k], SplitSlash(p[k + 1..]));
      AroundSlash(p, k);
    }
  }

  lemma {:induction false} CopyReads(src: seq<Entry>, files: seq<SourceFile>, dest: seq<Entry>, i: nat)
    requires Copy(src, files, dest).Some? && i < |files|
    ensures Source(src, files[i].path).Some?
    decreases |files|
  {
    if i > 0 {
      var file := Source(src, files[0].path).value;
      CopyReads(src, files[1..], Put(dest, SplitSlash(files[0].path), file).value, i - 1);
    }
  }

  lemma {:induction false} PathsDiffer(fs: seq<SourceFile>, i: nat, j: nat)
    requires DistinctPaths(fs) && i < j < |fs|
    ensures fs[i].path != fs[j].path
  {
    if i == 0 {
      assert fs[1..][j - 1] == fs[j];
    } else {
      PathsDiffer(fs[1..], i - 1, j - 1);
    }
  }

  /** Files with the same path string are the same file. */
  lemma SamePathSameFile(entries: seq<Entry>, f: Found, g: Found)
    requires NoClash(entries) && f in List([], entries) && g in List([], entries)
    requires PathString(f.comps) == PathString(g.comps)
    ensures f == g
  {
    var fs := List([], entries);
    var i :| 0 <= i < |fs| && fs[i] == f;
    var j :| 0 <= j < |fs| && fs[j] == g;
    if i < j { PathsDiffer(ToSources(fs), i, j); }
    if j < i { PathsDiffer(ToSources(fs), j, i); }
  }

  /** A path string leads to a place whose own path string it is, without backslashes. */
  lemma PlaceOfPath(p: string)
    requires '\\' !in p
    ensures PathString(SplitSlash(p)) == p && NoBackslash(SplitSlash(p))
  {
    JoinSplit(p);
    JoinBackslash(SplitSlash(p));
    PlainPath(SplitSlash(p));
  }

  /** The copy looks for a misnamed file where its path string leads, and finds nothing there. */
  lemma MisnamedNotFound(src: seq<Entry>, expected: Snapshot, f: Found)
    requires ValidNames(src) && Canonical(expected) && Validate(Dir(src), expected)
    requires f in List([], src) && !NoBackslash(f.comps)
    ensures PathString(f.comps) in MapOf(expected.files) && Source(src, PathString(f.comps)).None?
  {
    var p := PathString(f.comps);
    ValidateExact(src, expected);
    ListProper(src, f);
    assert Expects(expected.files, f.comps, f.mode, f.bytes);
    if Source(src, p).Some? {
      var node := Source(src, p).value;
      var g := Found(SplitSlash(p), node.mode, node.bytes);
      ThereIsListed([], src, g.comps, g.mode, g.bytes);
      assert [] + g.comps == g.comps;
      PlaceOfPath(p);
      SamePathSameFile(src, f, g);
    }
  }

  /** A copy of a valid snapshot succeeds and validates, exactly when no file of the source has
      a backslash in its name. */
  lemma CopyValidates(src: seq<Entry>, expected: Snapshot)
    requires ValidNames(src) && Canonical(expected) && Validate(Dir(src), expected)
    ensures CopySnapshot(src, expected) <==> BackslashFree(src)
  {
    if BackslashFree(src) {
      PlainCopyValidates(src, expected);
    } else {
      var f :| f in List([], src) && !NoBackslash(f.comps);
      MisnamedNotFound(src, expected, f);
      KeyIsListed(expected.files, PathString(f.comps));
      var i :| 0 <= i < |expected.files| && expected.files[i].path == PathString(f.comps);
      if Copy(src, expected.files, []).Some? { CopyReads(src, expected.files, [], i); }
    }
  }
}
