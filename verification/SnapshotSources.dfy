/** The two ways a plan collects its snapshots: from the working tree and from a commit. */
module SnapshotSources {
  import opened Text
  import opened PathOrder
  import opened SourceSnapshot
  import GitBatch

  // -------------------------------------------------------- the working tree

  /** `working_snapshot` walks an ordered set of paths; a listed path that is gone is skipped. */
  function WorkingFiles(paths: seq<string>, disk: map<string, Node>): Option<seq<SourceFile>>
    decreases |paths|
  {
    if paths == [] then Some([])
    else if !SafeRelative(paths[0]) then None
    else if paths[0] !in disk then WorkingFiles(paths[1..], disk)
    else
      var node := disk[paths[0]];
      if !node.File? || |node.bytes| > GitBatch.LIMIT then None
      else
        match WorkingFiles(paths[1..], disk)
        case None => None
        case Some(rest) => Some([SourceFile(paths[0], node.mode, OfBytes(node.bytes))] + rest)
  }

  function WorkingSnapshot(paths: seq<string>, disk: map<string, Node>): Option<Snapshot> {
    match WorkingFiles(paths, disk)
    case None => None
    case Some(files) => MakeSnapshot(files)
  }

  predicate Ordered(paths: seq<string>) {
    paths == [] || ((forall i :: 1 <= i < |paths| ==> Lt(paths[0], paths[i])) && Ordered(paths[1..]))
  }

  lemma {:induction false} WorkingAbove(p: string, paths: seq<string>, disk: map<string, Node>)
    requires WorkingFiles(paths, disk).Some? && forall i :: 0 <= i < |paths| ==> Lt(p, paths[i])
    ensures Above(p, WorkingFiles(paths, disk).value)
    decreases |paths|
  {
    if paths != [] { WorkingAbove(p, paths[1..], disk); }
  }

  /** Walking an ordered set yields a list in canonical order. */
  lemma {:induction false} WorkingSorted(paths: seq<string>, disk: map<string, Node>)
    requires Ordered(paths) && WorkingFiles(paths, disk).Some?
    ensures StrictlySorted(WorkingFiles(paths, disk).value)
    decreases |paths|
  {
    if paths != [] {
      WorkingSorted(paths[1..], disk);
      if paths[0] in disk {
        var rest := WorkingFiles(paths[1..], disk).value;
        assert WorkingFiles(paths, disk).value[1..] == rest;
        assert forall i :: 0 <= i < |paths[1..]| ==> paths[1..][i] == paths[i + 1];
        WorkingAbove(paths[0], paths[1..], disk);
      }
    }
  }

  /** The files of the working tree are the listed paths that exist, with their contents. */
  lemma {:induction false} WorkingMap(paths: seq<string>, disk: map<string, Node>, p: string)
    requires Ordered(paths) && WorkingFiles(paths, disk).Some?
    ensures var m := MapOf(WorkingFiles(paths, disk).value);
            && (p in m <==> p in paths && p in disk)
            && (p in m ==> disk[p].File? && m[p] == Data(disk[p].mode, OfBytes(disk[p].bytes)))
    decreases |paths|
  {
    if paths != [] {
      WorkingMap(paths[1..], disk, p);
      assert p in paths <==> p == paths[0] || p in paths[1..];
      if paths[0] in disk {
        var rest := WorkingFiles(paths[1..], disk).value;
        assert WorkingFiles(paths, disk).value[1..] == rest;
      }
    }
  }

  // --------------------------------------------------------------- a commit

  datatype TreeEntry = TreeEntry(path: string, mode: Mode, oid: Bytes)

  function Oids(entries: seq<TreeEntry>): (r: seq<Bytes>)
    ensures |r| == |entries| && forall i :: 0 <= i < |entries| ==> r[i] == entries[i].oid
  {
    seq(|entries|, i requires 0 <= i < |entries| => entries[i].oid)
  }

  function GitFiles(entries: seq<TreeEntry>, blobs: seq<Bytes>): (r: seq<SourceFile>)
    requires |entries| == |blobs|
    ensures |r| == |entries|
    ensures forall i :: 0 <= i < |r| ==> r[i] == SourceFile(entries[i].path, entries[i].mode, OfBytes(blobs[i]))
  {
    seq(|entries|, i requires 0 <= i < |entries| => SourceFile(entries[i].path, entries[i].mode, OfBytes(blobs[i])))
  }

  lemma {:induction false} ReadAllCount(oids: seq<Bytes>, s: Bytes)
    requires GitBatch.ReadAll(oids, s).Some?
    ensures |GitBatch.ReadAll(oids, s).value.blobs| == |oids|
    decreases |oids|
  {
    if oids != [] {
      ReadAllCount(oids[1..], GitBatch.ReadOne(oids[0], s).value.rest);
    }
  }

  /** `git_snapshot`: tree entries in any order, contents from the batch stream. */
  function GitSnapshot(entries: seq<TreeEntry>, stream: Bytes): Option<Snapshot> {
    if !(forall i :: 0 <= i < |entries| ==> SafeRelative(entries[i].path)) then None
    else
      match GitBatch.ReadAll(Oids(entries), stream)
      case None => None
      case Some(r) =>
        ReadAllCount(Oids(entries), stream);
        MakeSnapshot(SortByPath(GitFiles(entries, r.blobs)))
  }

  /** A snapshot read from a commit equals one read from the working tree exactly when both
      hold the same paths with the same modes and contents. */
  lemma GitEqualsWorking(
      entries: seq<TreeEntry>, blobs: seq<Bytes>, tail: Bytes, paths: seq<string>, disk: map<string, Node>)
    requires entries != [] && GitBatch.Readable(Oids(entries), blobs)
    requires forall i :: 0 <= i < |entries| ==> SafeRelative(entries[i].path)
    requires DistinctPaths(GitFiles(entries, blobs))
    requires Ordered(paths) && WorkingFiles(paths, disk).Some?
    ensures GitSnapshot(entries, GitBatch.Stream(Oids(entries), blobs) + tail) == WorkingSnapshot(paths, disk)
       <==> MapOf(GitFiles(entries, blobs)) == MapOf(WorkingFiles(paths, disk).value)
  {
    var fs := GitFiles(entries, blobs);
    var ws := WorkingFiles(paths, disk).value;
    GitBatch.StreamRoundTrip(Oids(entries), blobs, tail);
    SortCanonical(fs);
    WorkingSorted(paths, disk);
    CanonicalEqual(SortByPath(fs), ws);
    assert fs[0].path in MapOf(fs) by { KeyIsListed(fs, fs[0].path); }
    assert SortByPath(fs) != [];
  }
}
