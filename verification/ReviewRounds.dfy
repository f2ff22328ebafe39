/** What every run of the review ledger keeps, and when marking everything ends a round. */
module ReviewRounds {
  import opened Text
  import opened ReviewLedger

  datatype Op =
    | DoSync(ds: seq<Found>)
    | DoMark(what: string, notes: string, ds: seq<Found>, ds': seq<Found>)

  function Apply(op: Op, l: Ledger): Ledger {
    match op
    case DoSync(ds) => Sync(l, ds)
    case DoMark(what, notes, ds, ds') => Mark(l, what, notes, ds, ds')
  }

  function Run(ops: seq<Op>, l: Ledger): Ledger {
    if ops == [] then l else Apply(ops[|ops| - 1], Run(ops[..|ops| - 1], l))
  }

  predicate LegalOp(op: Op) {
    DistinctFound(op.ds) && (op.DoMark? ==> DistinctFound(op.ds'))
  }

  // --------------------------------------------------------- archived rounds

  /** The archive is numbered 1, 2, .., round - 1. */
  predicate Numbered(l: Ledger) {
    l.round == |l.archive| + 1 && forall i :: 0 <= i < |l.archive| ==> l.archive[i].round == i + 1
  }

  predicate HasPending(cs: seq<Component>) {
    cs == [] || exists i :: 0 <= i < |cs| && !cs[i].completed
  }

  predicate DistinctPaths(cs: seq<Component>) {
    forall i, j :: 0 <= i < j < |cs| ==> cs[i].path != cs[j].path
  }

  /** The stored components are exactly the discovered ones, with the category, the number of
      files and the lines of code that were found. */
  ghost predicate Mirrors(cs: seq<Component>, ds: seq<Found>) {
    && DistinctPaths(cs) && (forall path :: Stored(cs, path) <==> FindFound(ds, path).Some?)
    && UpToDate(cs, ds)
  }

  predicate UpToDate(cs: seq<Component>, ds: seq<Found>) {
    forall i :: 0 <= i < |cs| ==> Measured(cs[i], FindFound(ds, cs[i].path))
  }

  predicate Measured(c: Component, d: Option<Found>) {
    d.Some? && c.category == d.value.category && c.files == d.value.files && c.loc == d.value.loc
  }

  lemma {:induction false} KeptUpToDate(cs: seq<Component>, ds: seq<Found>)
    ensures UpToDate(Kept(cs, ds), ds)
  {
    if cs != [] { KeptUpToDate(cs[1..], ds); }
  }

  lemma {:induction false} UnstoredUpToDate(all: seq<Found>, ds: seq<Found>, cs: seq<Component>)
    requires forall i :: 0 <= i < |ds| ==> FindFound(all, ds[i].path) == Some(ds[i])
    ensures UpToDate(Unstored(ds, cs), all)
  {
    if ds != [] {
      assert FindFound(all, ds[0].path) == Some(ds[0]);
      UnstoredUpToDate(all, ds[1..], cs);
    }
  }

  lemma {:induction false} FindOwn(ds: seq<Found>, i: nat)
    requires DistinctFound(ds) && i < |ds|
    ensures FindFound(ds, ds[i].path) == Some(ds[i])
  {
    if i > 0 {
      assert ds[0].path != ds[i].path;
      FindOwn(ds[1..], i - 1);
    }
  }

  lemma RefreshUpToDate(cs: seq<Component>, ds: seq<Found>)
    requires DistinctFound(ds)
    ensures UpToDate(Refresh(cs, ds), ds)
  {
    KeptUpToDate(cs, ds);
    forall i | 0 <= i < |ds| ensures FindFound(ds, ds[i].path) == Some(ds[i]) { FindOwn(ds, i); }
    UnstoredUpToDate(ds, ds, cs);
  }

  lemma SyncNumbered(l: Ledger, ds: seq<Found>)
    requires Numbered(l)
    ensures Numbered(Sync(l, ds)) && HasPending(Sync(l, ds).comps)
  {
    var r := l.(comps := Refresh(l.comps, ds));
    var s := RollOver(r);
    if AllDone(r.comps) {
      assert !s.comps[0].completed;
    } else if r.comps != [] {
      var i :| 0 <= i < |r.comps| && !r.comps[i].completed;
      assert !s.comps[i].completed;
    }
  }

  lemma {:induction false} KeptDistinct(cs: seq<Component>, ds: seq<Found>)
    requires DistinctPaths(cs)
    ensures DistinctPaths(Kept(cs, ds))
  {
    if cs != [] {
      assert DistinctPaths(cs[1..]);
      KeptDistinct(cs[1..], ds);
      var k := Kept(cs[1..], ds);
      KeptStored(cs[1..], ds, cs[0].path);
      assert forall i :: 0 <= i < |cs[1..]| ==> cs[1..][i].path != cs[0].path;
      assert !Stored(cs[1..], cs[0].path);
    }
  }

  lemma {:induction false} UnstoredStored(ds: seq<Found>, cs: seq<Component>, path: string)
    ensures Stored(Unstored(ds, cs), path) <==> FindFound(ds, path).Some? && !Stored(cs, path)
  {
    if ds != [] {
      UnstoredStored(ds[1..], cs, path);
      if !Stored(cs, ds[0].path) {
        var u := Unstored(ds, cs);
        assert u[1..] == Unstored(ds[1..], cs);
        StoredCons(u, path);
      } else {
        assert Unstored(ds, cs) == Unstored(ds[1..], cs);
      }
    }
  }

  lemma {:induction false} UnstoredDistinct(ds: seq<Found>, cs: seq<Component>)
    requires DistinctFound(ds)
    ensures DistinctPaths(Unstored(ds, cs))
  {
    if ds != [] {
      UnstoredDistinct(ds[1..], cs);
      var u := Unstored(ds[1..], cs);
      forall i | 0 <= i < |u| ensures u[i].path != ds[0].path {
        assert Stored(u, u[i].path);
        UnstoredStored(ds[1..], cs, u[i].path);
        NotFirst(ds, u[i].path);
      }
    }
  }

  lemma {:induction false} NotFirst(ds: seq<Found>, path: string)
    requires ds != [] && DistinctFound(ds) && FindFound(ds[1..], path).Some?
    ensures path != ds[0].path
  {
    var k := FoundIndex(ds[1..], path);
    assert ds[k + 1].path == path;
  }

  lemma {:induction false} FoundIndex(ds: seq<Found>, path: string) returns (k: nat)
    requires FindFound(ds, path).Some?
    ensures k < |ds| && ds[k].path == path
  {
    if ds[0].path == path {
      k := 0;
    } else {
      k := FoundIndex(ds[1..], path);
      k := k + 1;
    }
  }

  lemma StoredAppend(a: seq<Component>, b: seq<Component>, path: string)
    ensures Stored(a + b, path) <==> Stored(a, path) || Stored(b, path)
  {
    if Stored(a, path) {
      var i :| 0 <= i < |a| && a[i].path == path;
      assert (a + b)[i].path == path;
    }
    if Stored(b, path) {
      var i :| 0 <= i < |b| && b[i].path == path;
      assert (a + b)[|a| + i].path == path;
    }
    if Stored(a + b, path) {
      var i :| 0 <= i < |a + b| && (a + b)[i].path == path;
      if i < |a| { assert a[i].path == path; } else { assert b[i - |a|].path == path; }
    }
  }

  lemma RefreshMirrors(cs: seq<Component>, ds: seq<Found>)
    requires DistinctPaths(cs) && DistinctFound(ds)
    ensures Mirrors(Refresh(cs, ds), ds)
  {
    var a, b := Kept(cs, ds), Unstored(ds, cs);
    RefreshUpToDate(cs, ds);
    KeptDistinct(cs, ds);
    UnstoredDistinct(ds, cs);
    forall i, j | 0 <= i < |a| && 0 <= j < |b| ensures a[i].path != b[j].path {
      assert Stored(a, a[i].path) && Stored(b, b[j].path);
      KeptStored(cs, ds, a[i].path);
      UnstoredStored(ds, cs, b[j].path);
    }
    forall path ensures Stored(a + b, path) <==> FindFound(ds, path).Some? {
      StoredAppend(a, b, path);
      KeptStored(cs, ds, path);
      UnstoredStored(ds, cs, path);
    }
  }

  lemma SamePaths(a: seq<Component>, b: seq<Component>, ds: seq<Found>)
    requires SameLabels(a, b) && Mirrors(a, ds)
    ensures Mirrors(b, ds)
  {
    forall path ensures Stored(b, path) <==> FindFound(ds, path).Some? {
      assert Stored(a, path) <==> FindFound(ds, path).Some?;
      if Stored(a, path) {
        var i :| 0 <= i < |a| && a[i].path == path;
        assert b[i].path == path;
      }
      if Stored(b, path) {
        var i :| 0 <= i < |b| && b[i].path == path;
        assert a[i].path == path;
      }
    }
  }

  lemma SyncMirrors(l: Ledger, ds: seq<Found>)
    requires DistinctPaths(l.comps) && DistinctFound(ds)
    ensures Mirrors(Sync(l, ds).comps, ds)
  {
    RefreshMirrors(l.comps, ds);
    var r := Refresh(l.comps, ds);
    SamePaths(r, ResetAll(r), ds);
  }

  /** The same component as before the refresh, as far as the review is concerned. */
  predicate Carried(c: Component, was: Component) {
    c.path == was.path && c.name == was.name && c.completed == was.completed && c.notes == was.notes
  }

  lemma {:induction false} KeptFrom(cs: seq<Component>, ds: seq<Found>, i: nat) returns (j: nat)
    requires i < |Kept(cs, ds)|
    ensures j < |cs| && Carried(Kept(cs, ds)[i], cs[j])
  {
    if FindFound(ds, cs[0].path).None? {
      j := KeptFrom(cs[1..], ds, i);
      j := j + 1;
    } else if i == 0 {
      j := 0;
    } else {
      j := KeptFrom(cs[1..], ds, i - 1);
      j := j + 1;
    }
  }

  lemma {:induction false} UnstoredFrom(ds: seq<Found>, cs: seq<Component>, i: nat) returns (j: nat)
    requires i < |Unstored(ds, cs)|
    ensures j < |ds| && Unstored(ds, cs)[i].path == ds[j].path && Unstored(ds, cs)[i].name == ds[j].name
    ensures var c := Unstored(ds, cs)[i]; !Stored(cs, c.path) && !c.completed && c.notes == ""
  {
    var here := if Stored(cs, ds[0].path) then 0 else 1;
    if i < here {
      j := 0;
    } else {
      j := UnstoredFrom(ds[1..], cs, i - here);
      j := j + 1;
    }
  }

  /** A synchronization that ends no round keeps what was marked and noted of every component, and
      a component it adds is pending, without notes, under the name found. */
  lemma SyncProgress(l: Ledger, ds: seq<Found>, i: nat)
    requires i < |Sync(l, ds).comps| && Sync(l, ds).round == l.round
    ensures var c := Sync(l, ds).comps[i];
            || (exists j :: 0 <= j < |l.comps| && Carried(c, l.comps[j]))
            || (!Stored(l.comps, c.path) && !c.completed && c.notes == ""
                && exists j :: 0 <= j < |ds| && ds[j].path == c.path && ds[j].name == c.name)
  {
    var kept := Kept(l.comps, ds);
    if i < |kept| {
      var j := KeptFrom(l.comps, ds, i);
    } else {
      var j := UnstoredFrom(ds, l.comps, i - |kept|);
    }
  }

  /** The disk as the operation last saw it: the second look only happens when a component
      was found to mark. */
  function LastSeen(op: Op, l: Ledger): seq<Found> {
    match op
    case DoSync(ds) => ds
    case DoMark(what, notes, ds, ds') =>
      var s := Sync(l, ds);
      var k := Target(s.comps, what);
      if k == |s.comps| || s.comps[k].path == "" then ds else ds'
  }

  lemma StepKeeps(op: Op, l: Ledger)
    requires LegalOp(op) && Numbered(l) && DistinctPaths(l.comps)
    ensures var l' := Apply(op, l);
            Numbered(l') && HasPending(l'.comps) && Mirrors(l'.comps, LastSeen(op, l))
  {
    SyncNumbered(l, op.ds);
    SyncMirrors(l, op.ds);
    if op.DoMark? {
      var s := Sync(l, op.ds);
      var k := Target(s.comps, op.what);
      if k < |s.comps| && s.comps[k].path != "" {
        var m := s.(comps := Tick(s.comps, k, op.notes));
        assert DistinctPaths(m.comps);
        SyncNumbered(m, op.ds');
        SyncMirrors(m, op.ds');
      }
    }
  }

  /** From a fresh ledger, after any sequence of syncs and marks with components coming and
      going: archived rounds are 1 to round - 1 without gaps, a non-empty ledger has a pending
      component, and the stored components are the discovered ones. */
  lemma {:induction false} RunKeeps(ops: seq<Op>)
    requires forall i :: 0 <= i < |ops| ==> LegalOp(ops[i])
    ensures var l := Run(ops, FRESH);
            && Numbered(l) && HasPending(l.comps) && DistinctPaths(l.comps)
            && (ops != [] ==> Mirrors(l.comps, LastSeen(ops[|ops| - 1], Run(ops[..|ops| - 1], FRESH))))
  {
    if ops != [] {
      RunKeeps(ops[..|ops| - 1]);
      StepKeeps(ops[|ops| - 1], Run(ops[..|ops| - 1], FRESH));
    }
  }

  // --------------------------------------------------------- a whole round

  /** In step with the disk, with something left to do. */
  predicate Settled(l: Ledger, ds: seq<Found>) {
    Refresh(l.comps, ds) == l.comps && !AllDone(l.comps)
  }

  lemma SyncSettled(l: Ledger, ds: seq<Found>)
    requires Settled(l, ds)
    ensures Sync(l, ds) == l
  {
  }

  /** The head and the tail of a list that nothing is dropped from. */
  lemma KeptWhole(cs: seq<Component>, ds: seq<Found>)
    requires cs != [] && Kept(cs, ds) == cs
    ensures FindFound(ds, cs[0].path).Some? && Refreshed(cs[0], FindFound(ds, cs[0].path).value) == cs[0]
    ensures Kept(cs[1..], ds) == cs[1..]
  {
    KeptLength(cs[1..], ds);
    assert FindFound(ds, cs[0].path).Some?;
    assert cs == [cs[0]] + cs[1..];
  }

  lemma KeptCons(c: Component, cs: seq<Component>, ds: seq<Found>)
    requires Kept(cs, ds) == cs && FindFound(ds, c.path).Some?
    requires Refreshed(c, FindFound(ds, c.path).value) == c
    ensures Kept([c] + cs, ds) == [c] + cs
  {
    assert ([c] + cs)[1..] == cs;
  }

  /** Completion marks do not matter to a refresh. */
  lemma {:induction false} KeptTicked(cs: seq<Component>, ds: seq<Found>, k: nat, notes: string)
    requires k < |cs| && Kept(cs, ds) == cs
    ensures Kept(Tick(cs, k, notes), ds) == Tick(cs, k, notes)
  {
    var u := Tick(cs, k, notes);
    KeptWhole(cs, ds);
    if k == 0 {
      KeptCons(u[0], cs[1..], ds);
      assert u == [u[0]] + cs[1..];
    } else {
      KeptTicked(cs[1..], ds, k - 1, notes);
      KeptCons(cs[0], Tick(cs[1..], k - 1, notes), ds);
      assert u == [cs[0]] + Tick(cs[1..], k - 1, notes);
    }
  }

  lemma {:induction false} KeptLength(cs: seq<Component>, ds: seq<Found>)
    ensures |Kept(cs, ds)| <= |cs|
  {
    if cs != [] { KeptLength(cs[1..], ds); }
  }

  lemma {:induction false} UnstoredTicked(ds: seq<Found>, cs: seq<Component>, k: nat, notes: string)
    requires k < |cs|
    ensures Unstored(ds, Tick(cs, k, notes)) == Unstored(ds, cs)
  {
    if ds != [] {
      UnstoredTicked(ds[1..], cs, k, notes);
      var u := Tick(cs, k, notes);
      assert Stored(u, ds[0].path) <==> Stored(cs, ds[0].path) by {
        if Stored(cs, ds[0].path) {
          var i :| 0 <= i < |cs| && cs[i].path == ds[0].path;
          assert u[i].path == ds[0].path;
        }
        if Stored(u, ds[0].path) {
          var i :| 0 <= i < |u| && u[i].path == ds[0].path;
          assert cs[i].path == ds[0].path;
        }
      }
    }
  }

  lemma RefreshTicked(cs: seq<Component>, ds: seq<Found>, k: nat, notes: string)
    requires k < |cs| && Refresh(cs, ds) == cs
    ensures Refresh(Tick(cs, k, notes), ds) == Tick(cs, k, notes)
  {
    RefreshSplit(cs, ds);
    KeptTicked(cs, ds, k, notes);
    UnstoredTicked(ds, cs, k, notes);
    assert Tick(cs, k, notes) + [] == Tick(cs, k, notes);
  }

  /** A list that a refresh leaves alone keeps all its entries and gains none. */
  lemma RefreshSplit(cs: seq<Component>, ds: seq<Found>)
    requires Refresh(cs, ds) == cs
    ensures Kept(cs, ds) == cs && Unstored(ds, cs) == []
  {
    forall i | 0 <= i < |ds| ensures Stored(cs, ds[i].path) {
      StoredAppend(Kept(cs, ds), Unstored(ds, cs), ds[i].path);
      FindFoundAt(ds, i);
      KeptStored(cs, ds, ds[i].path);
      UnstoredStored(ds, cs, ds[i].path);
    }
    UnstoredNone(ds, cs);
    assert Kept(cs, ds) + [] == Kept(cs, ds);
  }

  lemma {:induction false} UnstoredNone(ds: seq<Found>, cs: seq<Component>)
    requires forall i :: 0 <= i < |ds| ==> Stored(cs, ds[i].path)
    ensures Unstored(ds, cs) == []
  {
    if ds != [] { UnstoredNone(ds[1..], cs); }
  }

  /** Marking on an unchanged disk ticks the first component that answers, and rolls over
      exactly when that was the last pending one. */
  lemma MarkSettled(l: Ledger, ds: seq<Found>, what: string, notes: string)
    requires Settled(l, ds) && Target(l.comps, what) < |l.comps| && l.comps[Target(l.comps, what)].path != ""
    ensures Mark(l, what, notes, ds, ds) == RollOver(l.(comps := Tick(l.comps, Target(l.comps, what), notes)))
  {
    SyncSettled(l, ds);
    RefreshTicked(l.comps, ds, Target(l.comps, what), notes);
  }

  /** What a mark that does not end the round records: the component is done, with the notes given
      or the standard ones, and nothing else changes. */
  lemma MarkRecords(l: Ledger, ds: seq<Found>, what: string, notes: string)
    requires Settled(l, ds) && Target(l.comps, what) < |l.comps| && l.comps[Target(l.comps, what)].path != ""
    requires Mark(l, what, notes, ds, ds).round == l.round
    ensures var k, r := Target(l.comps, what), Mark(l, what, notes, ds, ds);
            && |r.comps| == |l.comps| && r.archive == l.archive
            && r.comps[k].completed && r.comps[k].notes == (if |notes| > 0 then notes else "Audited and cleaned.")
            && SameLabel(l.comps[k], r.comps[k])
            && forall i :: 0 <= i < |l.comps| && i != k ==> r.comps[i] == l.comps[i]
  {
    MarkSettled(l, ds, what, notes);
  }

  /** A name or path that nothing answers to changes nothing. */
  lemma MarkUnknown(l: Ledger, ds: seq<Found>, what: string, notes: string)
    requires Settled(l, ds) && forall i :: 0 <= i < |l.comps| ==> l.comps[i].path != what && l.comps[i].name != what
    ensures Mark(l, what, notes, ds, ds) == l
  {
    SyncSettled(l, ds);
  }

  /** Marks the components with these indices, one after another, each by its path. */
  function MarkEach(l: Ledger, ks: seq<nat>, paths: seq<string>, ds: seq<Found>): Ledger
    requires forall i :: 0 <= i < |ks| ==> ks[i] < |paths|
  {
    if ks == [] then l
    else Mark(MarkEach(l, ks[..|ks| - 1], paths, ds), paths[ks[|ks| - 1]], "", ds, ds)
  }

  predicate Permutes(ks: seq<nat>, n: nat) {
    && |ks| == n && (forall i :: 0 <= i < n ==> ks[i] < n)
    && (forall i, j :: 0 <= i < j < n ==> ks[i] != ks[j])
  }

  /** No component is named like the path of a later one, so a path always finds its own. */
  predicate NoCapture(cs: seq<Component>) {
    forall i, j :: 0 <= i < j < |cs| ==> cs[i].name != cs[j].path
  }

  /** The same components, but for completion and notes. */
  predicate SameLabels(a: seq<Component>, b: seq<Component>) {
    |a| == |b| && forall i :: 0 <= i < |a| ==> SameLabel(a[i], b[i])
  }

  predicate SameLabel(a: Component, b: Component) {
    b == a.(completed := b.completed, notes := b.notes)
  }

  lemma {:induction false} SameTotal(a: seq<Component>, b: seq<Component>)
    requires SameLabels(a, b)
    ensures TotalLoc(a) == TotalLoc(b)
  {
    if a != [] {
      assert SameLabel(a[0], b[0]);
      SameTotal(a[1..], b[1..]);
    }
  }

  /** A path is answered by its own component exactly when no earlier one is named like it. */
  lemma TargetOfPath(cs: seq<Component>, k: nat)
    requires DistinctPaths(cs) && k < |cs|
    ensures Target(cs, cs[k].path) <= k
    ensures Target(cs, cs[k].path) == k <==> forall i :: 0 <= i < k ==> cs[i].name != cs[k].path
  {
    assert Answers(cs[k], cs[k].path);
  }

  lemma {:induction false} TargetLabels(a: seq<Component>, b: seq<Component>, what: string)
    requires SameLabels(a, b)
    ensures Target(a, what) == Target(b, what)
  {
    if a != [] { TargetLabels(a[1..], b[1..], what); }
  }

  function Paths(cs: seq<Component>): (r: seq<string>)
    ensures |r| == |cs| && forall i :: 0 <= i < |cs| ==> r[i] == cs[i].path
  {
    seq(|cs|, i requires 0 <= i < |cs| => cs[i].path)
  }

  /** The component that the k-th path is answered by. */
  function Hit(cs: seq<Component>, k: nat): nat
    requires k < |cs|
  {
    Target(cs, cs[k].path)
  }

  predicate WasHit(cs: seq<Component>, ks: seq<nat>, i: nat)
    requires forall j :: 0 <= j < |ks| ==> ks[j] < |cs|
  {
    exists j :: 0 <= j < |ks| && Hit(cs, ks[j]) == i
  }

  /** A round in progress: nothing but completion marks has changed, and they are the hits. */
  ghost predicate Underway(l: Ledger, start: Ledger, ks: seq<nat>, ds: seq<Found>)
    requires forall j :: 0 <= j < |ks| ==> ks[j] < |start.comps|
  {
    && l.round == start.round && l.archive == start.archive
    && Settled(l, ds) && SameLabels(l.comps, start.comps)
    && forall i :: 0 <= i < |l.comps| ==> (l.comps[i].completed <==> WasHit(start.comps, ks, i))
  }

  /** The beginning of a round on a fixed disk. */
  ghost predicate RoundStart(l: Ledger, ds: seq<Found>) {
    && Settled(l, ds) && l.comps != [] && DistinctPaths(l.comps)
    && (forall i :: 0 <= i < |l.comps| ==> !l.comps[i].completed && l.comps[i].path != "")
  }

  /** Some component is never hit, whichever paths are marked. */
  predicate Unreached(cs: seq<Component>, i: nat) {
    i < |cs| && forall k :: 0 <= k < |cs| ==> Hit(cs, k) != i
  }

  /** The last path captured by an earlier name is a component nobody can mark by path. */
  lemma {:induction false} CaptureUnreached(cs: seq<Component>, top: nat) returns (i: nat)
    requires DistinctPaths(cs) && top <= |cs|
    requires exists k :: 0 <= k < top && Hit(cs, k) != k
    requires forall k :: top <= k < |cs| ==> Hit(cs, k) == k
    ensures Unreached(cs, i)
    decreases top
  {
    var k := top - 1;
    if Hit(cs, k) != k {
      i := k;
      forall j | 0 <= j < |cs| ensures Hit(cs, j) != k {
        TargetOfPath(cs, j);
      }
    } else {
      i := CaptureUnreached(cs, top - 1);
    }
  }

  lemma WasHitSnoc(cs: seq<Component>, ks: seq<nat>, k: nat, i: nat)
    requires k < |cs| && forall j :: 0 <= j < |ks| ==> ks[j] < |cs|
    ensures WasHit(cs, ks + [k], i) <==> WasHit(cs, ks, i) || Hit(cs, k) == i
  {
    var u := ks + [k];
    if WasHit(cs, ks, i) {
      var j :| 0 <= j < |ks| && Hit(cs, ks[j]) == i;
      assert Hit(cs, u[j]) == i;
    }
    if Hit(cs, k) == i { assert Hit(cs, u[|ks|]) == i; }
    if WasHit(cs, u, i) {
      var j :| 0 <= j < |u| && Hit(cs, u[j]) == i;
      if j < |ks| { assert Hit(cs, ks[j]) == i; }
    }
  }

  /** One more mark while some component stays pending. */
  lemma MarkUnderway(l: Ledger, start: Ledger, ks: seq<nat>, k: nat, ds: seq<Found>, i: nat)
    requires RoundStart(start, ds) && k < |start.comps| && forall j :: 0 <= j < |ks| ==> ks[j] < |start.comps|
    requires Underway(l, start, ks, ds)
    requires i < |start.comps| && !WasHit(start.comps, ks + [k], i)
    ensures Underway(Mark(l, start.comps[k].path, "", ds, ds), start, ks + [k], ds)
  {
    var h := Hit(start.comps, k);
    TargetOfPath(start.comps, k);
    TargetLabels(l.comps, start.comps, start.comps[k].path);
    MarkSettled(l, ds, start.comps[k].path, "");
    RefreshTicked(l.comps, ds, h, "");
    var cs := Tick(l.comps, h, "");
    forall j | 0 <= j < |cs| ensures cs[j].completed <==> WasHit(start.comps, ks + [k], j) {
      WasHitSnoc(start.comps, ks, k, j);
    }
    assert !cs[i].completed;
  }

  /** As long as some component is never answered to, the round goes on. */
  lemma {:induction false} MarkEachUnderway(start: Ledger, ks: seq<nat>, ds: seq<Found>, i: nat)
    requires RoundStart(start, ds) && forall j :: 0 <= j < |ks| ==> ks[j] < |start.comps|
    requires i < |start.comps| && !WasHit(start.comps, ks, i)
    ensures Underway(MarkEach(start, ks, Paths(start.comps), ds), start, ks, ds)
    decreases |ks|
  {
    if ks != [] {
      var most, k := ks[..|ks| - 1], ks[|ks| - 1];
      assert ks == most + [k];
      WasHitSnoc(start.comps, most, k, i);
      MarkEachUnderway(start, most, ds, i);
      MarkUnderway(MarkEach(start, most, Paths(start.comps), ds), start, most, k, ds, i);
    }
  }

  lemma NoCaptureHits(cs: seq<Component>, k: nat)
    requires DistinctPaths(cs) && NoCapture(cs) && k < |cs|
    ensures Hit(cs, k) == k
  {
    TargetOfPath(cs, k);
  }

  lemma CaptureMisses(cs: seq<Component>)
    requires DistinctPaths(cs) && !NoCapture(cs)
    ensures exists k :: 0 <= k < |cs| && Hit(cs, k) != k
  {
    var i, j :| 0 <= i < j < |cs| && cs[i].name == cs[j].path;
    TargetOfPath(cs, j);
    assert Hit(cs, j) != j;
  }

  lemma {:induction false} CoversAll(ks: seq<nat>, n: nat, i: nat)
    requires Permutes(ks, n) && i < n
    ensures i in ks
  {
    if i !in ks {
      UpToHas(n);
      Fits(ks, UpTo(n) - {i});
    }
  }

  function UpTo(n: nat): set<nat> {
    if n == 0 then {} else UpTo(n - 1) + {n - 1}
  }

  lemma {:induction false} UpToHas(n: nat)
    ensures |UpTo(n)| == n && forall x: nat :: x in UpTo(n) <==> x < n
  {
    if n > 0 { UpToHas(n - 1); }
  }

  lemma {:induction false} Fits(ks: seq<nat>, s: set<nat>)
    requires forall i :: 0 <= i < |ks| ==> ks[i] in s
    requires forall i, j :: 0 <= i < j < |ks| ==> ks[i] != ks[j]
    ensures |ks| <= |s|
    decreases |ks|
  {
    if ks != [] { Fits(ks[1..], s - {ks[0]}); }
  }

  /** Part of a round: as long as not every component has been marked, the round goes on and
      exactly the marked components are done. */
  lemma PartialRound(start: Ledger, ks: seq<nat>, m: nat, ds: seq<Found>)
    requires RoundStart(start, ds) && NoCapture(start.comps) && Permutes(ks, |start.comps|) && m < |ks|
    ensures Underway(MarkEach(start, ks[..m], Paths(start.comps), ds), start, ks[..m], ds)
  {
    var cs := start.comps;
    forall j | 0 <= j < m ensures Hit(cs, ks[..m][j]) != ks[m] { NoCaptureHits(cs, ks[j]); }
    MarkEachUnderway(start, ks[..m], ds, ks[m]);
  }

  /** The last mark completes the round. */
  lemma LastMark(l: Ledger, start: Ledger, ks: seq<nat>, ds: seq<Found>)
    requires RoundStart(start, ds) && NoCapture(start.comps) && Permutes(ks, |start.comps|)
    requires Underway(l, start, ks[..|ks| - 1], ds)
    ensures var l' := Mark(l, start.comps[ks[|ks| - 1]].path, "", ds, ds);
            && l'.round == start.round + 1
            && l'.archive == start.archive + [Summary(start.round, |start.comps|, TotalLoc(start.comps))]
            && SameLabels(l'.comps, start.comps)
            && forall i :: 0 <= i < |l'.comps| ==> !l'.comps[i].completed
  {
    var cs, k := start.comps, ks[|ks| - 1];
    NoCaptureHits(cs, k);
    TargetLabels(l.comps, cs, cs[k].path);
    MarkSettled(l, ds, cs[k].path, "");
    AllTicked(l, start, ks, ds);
    var ticked := Tick(l.comps, k, "");
    assert SameLabels(ticked, cs);
    SameTotal(ticked, cs);
  }

  lemma AllTicked(l: Ledger, start: Ledger, ks: seq<nat>, ds: seq<Found>)
    requires RoundStart(start, ds) && NoCapture(start.comps) && Permutes(ks, |start.comps|)
    requires Underway(l, start, ks[..|ks| - 1], ds)
    ensures AllDone(Tick(l.comps, ks[|ks| - 1], ""))
  {
    var cs, k := start.comps, ks[|ks| - 1];
    var ticked := Tick(l.comps, k, "");
    forall i | 0 <= i < |ticked| ensures ticked[i].completed {
      if i != k {
        CoversAll(ks, |cs|, i);
        var j :| 0 <= j < |ks| && ks[j] == i;
        NoCaptureHits(cs, i);
        assert Hit(cs, ks[..|ks| - 1][j]) == i;
      }
    }
  }

  /** With a captured path no sequence of marks by path, of any length, ends the round. */
  lemma CapturedNeverEnds(start: Ledger, ks: seq<nat>, ds: seq<Found>)
    requires RoundStart(start, ds) && !NoCapture(start.comps)
    requires forall j :: 0 <= j < |ks| ==> ks[j] < |start.comps|
    ensures MarkEach(start, ks, Paths(start.comps), ds).round == start.round
  {
    CaptureMisses(start.comps);
    var i := CaptureUnreached(start.comps, |start.comps|);
    MarkEachUnderway(start, ks, ds, i);
  }

  /** With a fixed set of components, marking each once by its path, in any order, ends exactly
      one round if no component is named like the path of a later one, and none otherwise. */
  lemma RoundAdvances(start: Ledger, ks: seq<nat>, ds: seq<Found>)
    requires RoundStart(start, ds) && Permutes(ks, |start.comps|)
    ensures MarkEach(start, ks, Paths(start.comps), ds).round
         == if NoCapture(start.comps) then start.round + 1 else start.round
    ensures NoCapture(start.comps) ==>
              var l := MarkEach(start, ks, Paths(start.comps), ds);
              && l.archive == start.archive + [Summary(start.round, |start.comps|, TotalLoc(start.comps))]
              && SameLabels(l.comps, start.comps) && forall i :: 0 <= i < |l.comps| ==> !l.comps[i].completed
  {
    var cs := start.comps;
    if NoCapture(cs) {
      PartialRound(start, ks, |ks| - 1, ds);
      LastMark(MarkEach(start, ks[..|ks| - 1], Paths(cs), ds), start, ks, ds);
    } else {
      CapturedNeverEnds(start, ks, ds);
    }
  }

  // ------------------------------------------------- which components can be captured

  /** `discover_components` searches two directories of the repository. */
  predicate Root(dir: string) {
    dir == "crates" || dir == "apps"
  }

  /** A component lies in a directory of one of the search roots, or is the root itself; its
      path is made of the directories' names, its name is the last of them. */
  predicate DiscoveredAt(path: string, name: string, dirs: seq<string>) {
    && dirs != [] && Root(dirs[0]) && (forall i :: 0 <= i < |dirs| ==> '/' !in dirs[i])
    && path == Slashes(Join(dirs, "/")) && name == dirs[|dirs| - 1]
  }

  ghost predicate Discovered(path: string, name: string) {
    exists dirs :: DiscoveredAt(path, name, dirs)
  }

  ghost predicate AllDiscovered(cs: seq<Component>) {
    forall i :: 0 <= i < |cs| ==> Discovered(cs[i].path, cs[i].name)
  }

  /** A path without a slash is a search root. */
  lemma OneDirectory(path: string, name: string)
    requires Discovered(path, name)
    ensures '/' !in path <==> Root(path)
    ensures '/' !in name
  {
    var dirs :| DiscoveredAt(path, name, dirs);
    var s := Join(dirs, "/");
    if |dirs| == 1 {
      assert s == dirs[0] && Slashes(s) == s;
    } else {
      assert s == dirs[0] + "/" + Join(dirs[1..], "/");
      assert path[|dirs[0]|] == s[|dirs[0]|] == '/';
      assert path[|dirs[0]|] in path;
    }
  }

  /** Among components found on disk, a path is captured exactly when it is that of a search
      root and a component in a directory named like that root is stored before it. */
  lemma OnlyRootsCaptured(cs: seq<Component>)
    requires AllDiscovered(cs)
    ensures NoCapture(cs) <==>
            forall i, j :: 0 <= i < j < |cs| && Root(cs[j].path) ==> cs[i].name != cs[j].path
  {
    forall i, j | 0 <= i < j < |cs| && cs[i].name == cs[j].path ensures Root(cs[j].path) {
      OneDirectory(cs[i].path, cs[i].name);
      OneDirectory(cs[j].path, cs[j].name);
    }
  }

  /** What one look at the disk can find. */
  ghost predicate FoundOnDisk(ds: seq<Found>) {
    forall i :: 0 <= i < |ds| ==> Discovered(ds[i].path, ds[i].name)
  }

  lemma {:induction false} KeptDiscovered(cs: seq<Component>, ds: seq<Found>)
    requires AllDiscovered(cs)
    ensures AllDiscovered(Kept(cs, ds))
  {
    if cs != [] {
      assert AllDiscovered(cs[1..]);
      KeptDiscovered(cs[1..], ds);
    }
  }

  lemma {:induction false} UnstoredDiscovered(ds: seq<Found>, cs: seq<Component>)
    requires FoundOnDisk(ds)
    ensures AllDiscovered(Unstored(ds, cs))
  {
    if ds != [] {
      assert FoundOnDisk(ds[1..]);
      UnstoredDiscovered(ds[1..], cs);
    }
  }

  lemma SyncDiscovered(l: Ledger, ds: seq<Found>)
    requires AllDiscovered(l.comps) && FoundOnDisk(ds)
    ensures AllDiscovered(Sync(l, ds).comps)
  {
    KeptDiscovered(l.comps, ds);
    UnstoredDiscovered(ds, l.comps);
    var cs := Refresh(l.comps, ds);
    assert AllDiscovered(cs);
  }

  /** The components of every reachable ledger were all found on disk. */
  lemma {:induction false} RunDiscovered(ops: seq<Op>)
    requires forall i :: 0 <= i < |ops| ==> FoundOnDisk(ops[i].ds) && (ops[i].DoMark? ==> FoundOnDisk(ops[i].ds'))
    ensures AllDiscovered(Run(ops, FRESH).comps)
  {
    if ops != [] {
      RunDiscovered(ops[..|ops| - 1]);
      var op, l := ops[|ops| - 1], Run(ops[..|ops| - 1], FRESH);
      SyncDiscovered(l, op.ds);
      if op.DoMark? {
        var s := Sync(l, op.ds);
        var k := Target(s.comps, op.what);
        if k < |s.comps| && s.comps[k].path != "" {
          SyncDiscovered(s.(comps := Tick(s.comps, k, op.notes)), op.ds');
        }
      }
    }
  }

  /** So with no package at a search root itself, marking each component once by its path, in
      any order, always ends exactly one round. */
  lemma RoundAdvancesOnDisk(start: Ledger, ks: seq<nat>, ds: seq<Found>)
    requires RoundStart(start, ds) && Permutes(ks, |start.comps|) && AllDiscovered(start.comps)
    requires forall i :: 0 <= i < |start.comps| ==> !Root(start.comps[i].path)
    ensures MarkEach(start, ks, Paths(start.comps), ds).round == start.round + 1
  {
    OnlyRootsCaptured(start.comps);
    RoundAdvances(start, ks, ds);
  }

  /** A round that marks by path cannot end exists: a package in `crates/x/apps`, and one in `apps` itself. */
  lemma CaptureExample(files: nat, loc: nat)
    ensures var ds := [Found("crates/x/apps", "apps", "x", files, loc), Found("apps", "apps", "apps", files, loc)];
            && FoundOnDisk(ds) && DistinctFound(ds)
            && RoundStart(Sync(FRESH, ds), ds) && !NoCapture(Sync(FRESH, ds).comps)
  {
    var a, b := Found("crates/x/apps", "apps", "x", files, loc), Found("apps", "apps", "apps", files, loc);
    ExampleDiscovered();
    assert |a.path| != |b.path|;
    CaptureRound(a, b);
  }

  lemma ExampleDiscovered()
    ensures Discovered("crates/x/apps", "apps") && Discovered("apps", "apps")
  {
    var dirs := ["crates", "x", "apps"];
    assert dirs[1..] == ["x", "apps"] && dirs[1..][1..] == ["apps"];
    assert Join(["x", "apps"], "/") == "x/apps";
    assert Join(dirs, "/") == "crates/x/apps" == Slashes("crates/x/apps");
    assert DiscoveredAt("crates/x/apps", "apps", dirs);
    assert Slashes("apps") == "apps";
    assert DiscoveredAt("apps", "apps", ["apps"]);
  }

  lemma CaptureRound(a: Found, b: Found)
    requires a.path != b.path && a.path != "" && b.path != "" && a.name == b.path
    ensures RoundStart(Sync(FRESH, [a, b]), [a, b]) && !NoCapture(Sync(FRESH, [a, b]).comps)
  {
    var ds, cs := [a, b], [NewComponent(a), NewComponent(b)];
    assert ds[1..] == [b] && ds[1..][1..] == [];
    assert Unstored([b], []) == [NewComponent(b)] + Unstored([], []);
    assert Refresh([], ds) == cs;
    CaptureSettled(a, b);
    assert !cs[0].completed && cs[0].name == cs[1].path;
  }

  lemma CaptureSettled(a: Found, b: Found)
    requires a.path != b.path
    ensures Refresh([NewComponent(a), NewComponent(b)], [a, b]) == [NewComponent(a), NewComponent(b)]
  {
    var ds, cs := [a, b], [NewComponent(a), NewComponent(b)];
    assert ds[1..] == [b] && cs[1..] == [NewComponent(b)] && cs[1..][1..] == [];
    assert FindFound(ds, a.path) == Some(a) && FindFound(ds, b.path) == FindFound([b], b.path) == Some(b);
    assert Kept([], ds) == [] && Kept(cs[1..], ds) == [NewComponent(b)] + [];
    assert Kept(cs, ds) == cs;
    assert cs[0].path == a.path && cs[1].path == b.path;
    UnstoredNone(ds, cs);
  }
}
