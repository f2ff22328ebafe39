/** The round-based review ledger of scripts/maintenance/review_orchestrator.py. */
module ReviewLedger {
  import opened Text

  datatype Component = Component(
    path: string, name: string, category: string, files: nat, loc: nat, completed: bool, notes: string)

  /** A component as found on disk. */
  datatype Found = Found(path: string, name: string, category: string, files: nat, loc: nat)

  datatype Summary = Summary(round: int, total: nat, loc: nat)

  /** The dictionaries keep insertion order, so they are sequences with distinct paths. */
  datatype Ledger = Ledger(round: int, archive: seq<Summary>, comps: seq<Component>)

  const FRESH := Ledger(1, [], [])

  // ------------------------------------------------------------ the operations

  function FindFound(ds: seq<Found>, path: string): Option<Found> {
    if ds == [] then None else if ds[0].path == path then Some(ds[0]) else FindFound(ds[1..], path)
  }

  predicate Stored(cs: seq<Component>, path: string) {
    exists i :: 0 <= i < |cs| && cs[i].path == path
  }

  function Refreshed(c: Component, d: Found): Component {
    c.(files := d.files, loc := d.loc, category := d.category)
  }

  /** Stale components dropped, the others refreshed in place. */
  function Kept(cs: seq<Component>, ds: seq<Found>): seq<Component> {
    if cs == [] then []
    else
      match FindFound(ds, cs[0].path)
      case None => Kept(cs[1..], ds)
      case Some(d) => [Refreshed(cs[0], d)] + Kept(cs[1..], ds)
  }

  function NewComponent(d: Found): Component {
    Component(d.path, d.name, d.category, d.files, d.loc, false, "")
  }

  /** The components of `ds` that are not stored yet, in the order they were found. */
  function Unstored(ds: seq<Found>, cs: seq<Component>): seq<Component> {
    if ds == [] then []
    else (if Stored(cs, ds[0].path) then [] else [NewComponent(ds[0])]) + Unstored(ds[1..], cs)
  }

  function Refresh(cs: seq<Component>, ds: seq<Found>): seq<Component> {
    Kept(cs, ds) + Unstored(ds, cs)
  }

  predicate AllDone(cs: seq<Component>) {
    cs != [] && forall i :: 0 <= i < |cs| ==> cs[i].completed
  }

  function TotalLoc(cs: seq<Component>): nat {
    if cs == [] then 0 else cs[0].loc + TotalLoc(cs[1..])
  }

  function ResetAll(cs: seq<Component>): (r: seq<Component>)
    ensures |r| == |cs| && forall i :: 0 <= i < |cs| ==> r[i] == cs[i].(completed := false, notes := "")
  {
    seq(|cs|, i requires 0 <= i < |cs| => cs[i].(completed := false, notes := ""))
  }

  function RollOver(l: Ledger): Ledger {
    if AllDone(l.comps)
    then Ledger(l.round + 1, l.archive + [Summary(l.round, |l.comps|, TotalLoc(l.comps))], ResetAll(l.comps))
    else l
  }

  function Sync(l: Ledger, ds: seq<Found>): Ledger {
    RollOver(l.(comps := Refresh(l.comps, ds)))
  }

  predicate Answers(c: Component, what: string) {
    what == c.path || what == c.name
  }

  /** The first component that answers to a path or name, or the number of components. */
  function Target(cs: seq<Component>, what: string): (k: nat)
    ensures k <= |cs|
    ensures k < |cs| ==> Answers(cs[k], what)
    ensures forall i :: 0 <= i < k ==> !Answers(cs[i], what)
  {
    if cs == [] || Answers(cs[0], what) then 0 else 1 + Target(cs[1..], what)
  }

  function NotesOr(notes: string): string {
    if notes == "" then "Audited and cleaned." else notes
  }

  function Tick(cs: seq<Component>, k: nat, notes: string): seq<Component>
    requires k < |cs|
  {
    cs[k := cs[k].(completed := true, notes := NotesOr(notes))]
  }

  /** Both synchronizations of a mark look at the disk, at different moments. An empty path
      is falsy in the script and counts as not found. */
  function Mark(l: Ledger, what: string, notes: string, ds: seq<Found>, ds': seq<Found>): Ledger {
    var s := Sync(l, ds);
    var k := Target(s.comps, what);
    if k == |s.comps| || s.comps[k].path == "" then s else Sync(s.(comps := Tick(s.comps, k, notes)), ds')
  }

  // -------------------------------------------------------- the mutable ledger

  class LedgerStore {
    var round: int
    var archive: seq<Summary>
    var comps: seq<Component>

    function Contents(): (l: Ledger)
      reads this
    {
      Ledger(round, archive, comps)
    }

    /** A missing or unreadable file yields a fresh ledger. */
    constructor (saved: Option<Ledger>)
      ensures Contents() == if saved.None? then FRESH else saved.value
    {
      round := if saved.None? then 1 else saved.value.round;
      archive := if saved.None? then [] else saved.value.archive;
      comps := if saved.None? then [] else saved.value.comps;
    }

    method SyncLedger(ds: seq<Found>)
      requires DistinctFound(ds)
      modifies this
      ensures Contents() == Sync(old(Contents()), ds)
    {
      Prune(ds);
      AddNew(ds, old(comps));
      if AllDone(comps) {
        archive := archive + [Summary(round, |comps|, TotalLoc(comps))];
        round := round + 1;
        comps := ResetAll(comps);
      }
    }

    method AddNew(ds: seq<Found>, ghost cs: seq<Component>)
      requires DistinctFound(ds) && comps == Kept(cs, ds)
      modifies this
      ensures round == old(round) && archive == old(archive) && comps == Refresh(cs, ds)
    {
      ghost var kept := comps;
      for i := 0 to |ds|
        invariant round == old(round) && archive == old(archive)
        invariant kept <= comps
        invariant forall j :: |kept| <= j < |comps| ==> exists k :: 0 <= k < i && comps[j].path == ds[k].path
        invariant comps + Unstored(ds[i..], cs) == kept + Unstored(ds, cs)
      {
        assert ds[i..][1..] == ds[i + 1..];
        assert Stored(comps, ds[i].path) <==> Stored(cs, ds[i].path) by {
          StoredKept(cs, ds, ds[i].path);
          StoredInPrefix(comps, kept, ds[i].path);
        }
        if !Stored(comps, ds[i].path) {
          comps := comps + [NewComponent(ds[i])];
        }
      }
      assert ds[|ds|..] == [] && comps + [] == comps;
    }

    /** Deleting stale entries and refreshing the others. */
    method Prune(ds: seq<Found>)
      modifies this
      ensures round == old(round) && archive == old(archive) && comps == Kept(old(comps), ds)
    {
      var result := [];
      for i := 0 to |comps|
        invariant comps == old(comps) && round == old(round) && archive == old(archive)
        invariant result + Kept(comps[i..], ds) == Kept(comps, ds)
      {
        assert comps[i..][1..] == comps[i + 1..];
        var d := FindFound(ds, comps[i].path);
        if d.Some? {
          result := result + [Refreshed(comps[i], d.value)];
        }
      }
      comps := result;
    }

    method MarkComponentDone(what: string, notes: string, ds: seq<Found>, ds': seq<Found>) returns (found: bool)
      requires DistinctFound(ds) && DistinctFound(ds')
      modifies this
      ensures Contents() == Mark(old(Contents()), what, notes, ds, ds')
      ensures found <==>
        var s := Sync(old(Contents()), ds);
        var k := Target(s.comps, what); k < |s.comps| && s.comps[k].path != ""
    {
      SyncLedger(ds);
      var k := Target(comps, what);
      if k == |comps| || comps[k].path == "" { return false; }
      comps := Tick(comps, k, notes);
      SyncLedger(ds');
      found := true;
    }
  }

  predicate DistinctFound(ds: seq<Found>) {
    forall i, j :: 0 <= i < j < |ds| ==> ds[i].path != ds[j].path
  }

  lemma StoredInPrefix(cs: seq<Component>, kept: seq<Component>, path: string)
    requires kept <= cs && forall j :: |kept| <= j < |cs| ==> cs[j].path != path
    ensures Stored(cs, path) <==> Stored(kept, path)
  {
    if Stored(kept, path) {
      var i :| 0 <= i < |kept| && kept[i].path == path;
      assert cs[i].path == path;
    }
    if Stored(cs, path) {
      var i :| 0 <= i < |cs| && cs[i].path == path;
      assert kept[i].path == path;
    }
  }

  lemma {:induction false} FoundStored(ds: seq<Found>, path: string)
    requires FindFound(ds, path).Some?
    ensures FindFound(ds, path).value.path == path
  {
    if ds[0].path != path { FoundStored(ds[1..], path); }
  }

  lemma {:induction false} FindFoundAt(ds: seq<Found>, i: nat)
    requires i < |ds|
    ensures FindFound(ds, ds[i].path).Some?
  {
    if ds[0].path != ds[i].path { FindFoundAt(ds[1..], i - 1); }
  }

  lemma StoredCons(cs: seq<Component>, path: string)
    requires cs != []
    ensures Stored(cs, path) <==> cs[0].path == path || Stored(cs[1..], path)
  {
    if Stored(cs[1..], path) {
      var i :| 0 <= i < |cs[1..]| && cs[1..][i].path == path;
      assert cs[i + 1].path == path;
    }
    if Stored(cs, path) {
      var i :| 0 <= i < |cs| && cs[i].path == path;
      if i > 0 { assert cs[1..][i - 1].path == path; }
    }
  }

  lemma {:induction false} KeptStored(cs: seq<Component>, ds: seq<Found>, path: string)
    ensures Stored(Kept(cs, ds), path) <==> Stored(cs, path) && FindFound(ds, path).Some?
  {
    if cs != [] {
      KeptStored(cs[1..], ds, path);
      StoredCons(cs, path);
      if FindFound(ds, cs[0].path).Some? {
        var k := Kept(cs, ds);
        assert k[1..] == Kept(cs[1..], ds);
        StoredCons(k, path);
      }
    }
  }

  /** A path that is on disk is stored before pruning exactly when it is stored after. */
  lemma StoredKept(cs: seq<Component>, ds: seq<Found>, path: string)
    requires exists i :: 0 <= i < |ds| && ds[i].path == path
    ensures Stored(Kept(cs, ds), path) <==> Stored(cs, path)
  {
    var i :| 0 <= i < |ds| && ds[i].path == path;
    FindFoundAt(ds, i);
    KeptStored(cs, ds, path);
  }
}
