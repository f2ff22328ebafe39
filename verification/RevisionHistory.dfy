/** Revision numbers and automatic snapshots over whole sequential runs of the service. */
module RevisionHistory {
  import opened Text
  import opened RevisionDiff
  import opened RevisionStore

  /** The store, the identifiers drawn so far, and the numbers issued to each key in order. */
  datatype State = State(store: Store, drawn: set<Uuid>, issued: map<Key, seq<int>>)

  datatype Op =
    | Track(key: Key, id: Uuid, event: Event, content: Json, now: int, tracker: Tracker)
    | NewContent(key: Key, id: Uuid, content: Json, now: int)
    | RestoreTo(key: Key, id: Uuid, target: Uuid, readable: bool, now: int)
    | Rename(key: Key, id: Uuid, name: string)
    | Remove(id: Uuid)
    | Retain(key: Key, policy: Policy)

  function Issued(s: State, key: Key): seq<int> {
    if key in s.issued then s.issued[key] else []
  }

  function Add(s: State, r: Revision): State {
    State(s.store[r.id := r], s.drawn + {r.id}, s.issued[r.key := Issued(s, r.key) + [r.number]])
  }

  ghost predicate Valid(s: State) {
    Keyed(s.store) && s.store.Keys <= s.drawn
  }

  const INITIAL := State(map[], {}, map[])

  /** One complete call, as the service's methods are specified. */
  ghost predicate Does(op: Op, s: State, s': State) {
    match op
    case Track(key, id, event, content, now, tracker) =>
      if !Tracks(tracker, event) then s' == s
      else
        && id !in s.drawn
        && exists latest ::
             Latest(s.store, key, latest)
             && s' == Add(s, TrackedRevision(latest, id, key, event, content, now, tracker))
    case NewContent(key, id, content, now) => id !in s.drawn && s' == Add(s, CreatedRevision(id, key, content, now))
    case RestoreTo(key, id, target, readable, now) =>
      if target !in s.store || !readable then s' == s
      else
        && id !in s.drawn
        && exists latest ::
             Latest(s.store, key, latest)
             && s' == Add(s, RestoredRevision(latest, s.store[target], id, key, now))
    case Rename(key, id, name) =>
      if id in s.store && s.store[id].key == key
      then s' == s.(store := s.store[id := s.store[id].(versionName := Some(name))])
      else s' == s
    case Remove(id) => s' == s.(store := s.store - {id})
    case Retain(key, policy) =>
      match policy
      case KeepLast(count) =>
        exists top :: IsTop(s.store, key, count, top) && s' == s.(store := KeepTop(s.store, key, top))
      case KeepDays(cutoff) => s' == s.(store := DropOlder(s.store, key, cutoff))
      case KeepAll => s' == s
      case Custom(_) => s' == s
  }

  /** The create operation is used only for content that has no revision yet. */
  ghost predicate CreatesOnEmpty(op: Op, s: State) {
    op.NewContent? ==> Empty(s.store, op.key)
  }

  ghost predicate Run(ops: seq<Op>, states: seq<State>) {
    && |states| == |ops| + 1 && states[0] == INITIAL
    && forall i :: 0 <= i < |ops| ==> Does(ops[i], states[i], states[i + 1]) && CreatesOnEmpty(ops[i], states[i])
  }

  // ---------------------------------------------------------- distinct numbers

  /** Nothing new, and what is left keeps its key and number. */
  ghost predicate Shrinks(store: Store, store': Store) {
    forall id :: id in store' ==>
      id in store && store'[id].id == store[id].id && store'[id].key == store[id].key
      && store'[id].number == store[id].number
  }

  lemma AddLatest(s: State, latest: Option<Revision>, r: Revision)
    requires Valid(s) && r.id !in s.drawn && Latest(s.store, r.key, latest) && r.number == NextNumber(latest)
    ensures Valid(Add(s, r))
    ensures Distinct(s.store) ==> Distinct(Add(s, r).store)
    ensures Newest(Add(s, r).store, r.key, r)
  {
  }

  /** Which operations add a revision, and that all others only take away. */
  lemma StepShape(op: Op, s: State, s': State)
    requires Valid(s) && Does(op, s, s')
    ensures Valid(s')
    ensures (Shrinks(s.store, s'.store) && s'.issued == s.issued && s'.drawn == s.drawn)
         || (exists latest, r: Revision :: Latest(s.store, r.key, latest) && r.id !in s.drawn
               && r.number == NextNumber(latest) && s' == Add(s, r))
         || (op.NewContent? && op.id !in s.drawn && s' == Add(s, CreatedRevision(op.id, op.key, op.content, op.now)))
  {
    match op {
      case Track(key, id, event, content, now, tracker) =>
        if Tracks(tracker, event) {
          var latest :| Latest(s.store, key, latest)
            && s' == Add(s, TrackedRevision(latest, id, key, event, content, now, tracker));
          var r := TrackedRevision(latest, id, key, event, content, now, tracker);
          assert Latest(s.store, r.key, latest);
        }
      case NewContent(key, id, content, now) =>
      case RestoreTo(key, id, target, readable, now) =>
        if target in s.store && readable {
          var latest :| Latest(s.store, key, latest)
            && s' == Add(s, RestoredRevision(latest, s.store[target], id, key, now));
          var r := RestoredRevision(latest, s.store[target], id, key, now);
          assert Latest(s.store, r.key, latest);
        }
      case Rename(key, id, name) =>
      case Remove(id) =>
      case Retain(key, policy) =>
    }
  }

  lemma StepDistinct(op: Op, s: State, s': State)
    requires Valid(s) && Does(op, s, s') && CreatesOnEmpty(op, s) && Distinct(s.store)
    ensures Valid(s') && Distinct(s'.store)
  {
    StepShape(op, s, s');
    if op.NewContent? {
      AddLatest(s, None, CreatedRevision(op.id, op.key, op.content, op.now));
    } else if !Shrinks(s.store, s'.store) {
      var latest, r: Revision :| Latest(s.store, r.key, latest) && r.id !in s.drawn
        && r.number == NextNumber(latest) && s' == Add(s, r);
      AddLatest(s, latest, r);
    }
  }

  /** In every run, live revision numbers within a key are pairwise distinct. */
  lemma {:induction false} RunDistinct(ops: seq<Op>, states: seq<State>, i: nat)
    requires Run(ops, states) && i < |states|
    ensures Valid(states[i]) && Distinct(states[i].store)
  {
    if i > 0 {
      RunDistinct(ops, states, i - 1);
      StepDistinct(ops[i - 1], states[i - 1], states[i]);
    }
  }

  /** Using the create operation on existing content keeps the numbers distinct exactly when
      number one is free. */
  lemma CreateDistinctExactly(s: State, op: Op, s': State)
    requires Valid(s) && Distinct(s.store) && op.NewContent? && Does(op, s, s')
    ensures Distinct(s'.store) <==>
            forall id :: id in s.store && s.store[id].key == op.key ==> s.store[id].number != 1
  {
    if Distinct(s'.store) {
      forall id | id in s.store && s.store[id].key == op.key ensures s.store[id].number != 1 {
        assert id != op.id && s'.store[id] == s.store[id];
        assert op.id in s'.store && s'.store[op.id].key == op.key && s'.store[op.id].number == 1;
      }
    }
  }

  // -------------------------------------------------------- consecutive numbers

  /** The step leaves every newest revision of the key in the store. */
  ghost predicate KeepsNewest(s: State, s': State, key: Key) {
    forall r :: Newest(s.store, key, r) ==> r.id in s'.store
  }

  /** The numbers issued to the key are 1, 2, .., n, and number n is the newest live one. */
  ghost predicate Consecutive(s: State, key: Key) {
    && (forall i :: 0 <= i < |Issued(s, key)| ==> Issued(s, key)[i] == i + 1)
    && (Issued(s, key) == [] ==> Empty(s.store, key))
    && (Issued(s, key) != [] ==> exists r :: Newest(s.store, key, r) && r.number == |Issued(s, key)|)
  }

  lemma LatestNumber(s: State, key: Key, latest: Option<Revision>)
    requires Consecutive(s, key) && Latest(s.store, key, latest)
    ensures NextNumber(latest) == |Issued(s, key)| + 1
  {
    if Issued(s, key) != [] {
      var r :| Newest(s.store, key, r) && r.number == |Issued(s, key)|;
    }
  }

  lemma AddConsecutive(s: State, latest: Option<Revision>, r: Revision, key: Key)
    requires Valid(s) && r.id !in s.drawn && Latest(s.store, r.key, latest) && r.number == NextNumber(latest)
    requires Consecutive(s, key)
    ensures Consecutive(Add(s, r), key)
  {
    var s' := Add(s, r);
    AddLatest(s, latest, r);
    if r.key == key {
      LatestNumber(s, key, latest);
      assert Newest(s'.store, key, r);
    } else {
      assert Issued(s', key) == Issued(s, key);
      if Issued(s, key) != [] {
        var n :| Newest(s.store, key, n) && n.number == |Issued(s, key)|;
        assert Newest(s'.store, key, n);
      }
    }
  }

  lemma ShrinkConsecutive(s: State, s': State, key: Key)
    requires Valid(s) && Shrinks(s.store, s'.store) && s'.issued == s.issued
    requires Consecutive(s, key) && KeepsNewest(s, s', key)
    ensures Consecutive(s', key)
  {
    if Issued(s, key) != [] {
      var n :| Newest(s.store, key, n) && n.number == |Issued(s, key)|;
      assert Newest(s'.store, key, s'.store[n.id]);
    }
  }

  lemma StepConsecutive(op: Op, s: State, s': State, key: Key)
    requires Valid(s) && Does(op, s, s') && CreatesOnEmpty(op, s)
    requires Consecutive(s, key) && KeepsNewest(s, s', key)
    ensures Consecutive(s', key)
  {
    StepShape(op, s, s');
    if op.NewContent? {
      AddConsecutive(s, None, CreatedRevision(op.id, op.key, op.content, op.now), key);
    } else if Shrinks(s.store, s'.store) && s'.issued == s.issued {
      ShrinkConsecutive(s, s', key);
    } else {
      var latest, r: Revision :| Latest(s.store, r.key, latest) && r.id !in s.drawn
        && r.number == NextNumber(latest) && s' == Add(s, r);
      AddConsecutive(s, latest, r, key);
    }
  }

  /** If no step of a run removes the key's newest revision, the numbers issued to it are
      exactly 1, 2, 3, .. and none is issued twice. */
  lemma {:induction false} RunConsecutive(ops: seq<Op>, states: seq<State>, key: Key, i: nat)
    requires Run(ops, states) && i < |states|
    requires forall j :: 0 <= j < i ==> KeepsNewest(states[j], states[j + 1], key)
    ensures Consecutive(states[i], key)
  {
    if i > 0 {
      RunConsecutive(ops, states, key, i - 1);
      RunDistinct(ops, states, i - 1);
      assert KeepsNewest(states[i - 1], states[i - 1 + 1], key);
      StepConsecutive(ops[i - 1], states[i - 1], states[i], key);
    }
  }

  /** `KeepLast` never removes a newest revision of any key. */
  lemma KeepLastKeepsNewest(s: State, s': State, key: Key, count: nat, other: Key)
    requires Valid(s) && Does(Retain(key, KeepLast(count)), s, s')
    ensures KeepsNewest(s, s', other)
  {
    var top: seq<Revision> :| IsTop(s.store, key, count, top) && s' == s.(store := KeepTop(s.store, key, top));
    if top != [] {
      var last := top[|top| - 1];
      assert last.id in s.store && s.store[last.id] == last && last.key == key;
    }
  }

  /** What `KeepLast` leaves: every named revision and, when numbers are distinct and the count
      is positive, exactly the listed unnamed ones. With count zero it deletes nothing. */
  lemma KeepLastExactly(store: Store, key: Key, count: nat, top: seq<Revision>, id: Uuid)
    requires Keyed(store) && Distinct(store) && IsTop(store, key, count, top)
    requires id in store && store[id].key == key
    ensures id in KeepTop(store, key, top) <==> count == 0 || Among(top, id) || store[id].versionName.Some?
  {
    if top == [] {
      assert !Among(top, id);
    } else {
      var last := top[|top| - 1];
      assert last.id in store && store[last.id] == last && last.key == key;
      if Among(top, id) {
        var i :| 0 <= i < |top| && top[i].id == id;
        assert store[top[i].id] == top[i];
      } else {
        assert store[id].number <= last.number;
        assert Among(top, last.id);
      }
    }
  }

  /** The numbers issued to the key are 1 to m, each once or more, and no live one lies outside. */
  ghost predicate IssuedUpTo(s: State, key: Key, m: nat) {
    && (forall n :: n in Issued(s, key) <==> 1 <= n <= m)
    && (forall id :: id in s.store && s.store[id].key == key ==> 1 <= s.store[id].number <= m)
  }

  lemma AddIssued(s: State, r: Revision, key: Key, m: nat) returns (m': nat)
    requires IssuedUpTo(s, key, m) && (r.key == key ==> 1 <= r.number <= m + 1)
    ensures IssuedUpTo(Add(s, r), key, m')
  {
    m' := if r.key == key && r.number == m + 1 then m + 1 else m;
    var s' := Add(s, r);
    forall n ensures n in Issued(s', key) <==> 1 <= n <= m' {
      if r.key == key {
        assert Issued(s', key) == Issued(s, key) + [r.number];
        assert n in Issued(s', key) <==> n in Issued(s, key) || n == r.number;
      } else {
        assert Issued(s', key) == Issued(s, key);
      }
    }
  }

  lemma LatestInRange(s: State, key: Key, m: nat, latest: Option<Revision>)
    requires IssuedUpTo(s, key, m) && Latest(s.store, key, latest)
    ensures 1 <= NextNumber(latest) <= m + 1
  {
  }

  /** In every run, deletions and retention included, no number is skipped. */
  lemma {:induction false} RunIssued(ops: seq<Op>, states: seq<State>, key: Key, i: nat) returns (m: nat)
    requires Run(ops, states) && i < |states|
    ensures IssuedUpTo(states[i], key, m)
  {
    m := 0;
    if i > 0 {
      m := RunIssued(ops, states, key, i - 1);
      RunDistinct(ops, states, i - 1);
      var s, s', op := states[i - 1], states[i], ops[i - 1];
      StepShape(op, s, s');
      if op.NewContent? {
        m := AddIssued(s, CreatedRevision(op.id, op.key, op.content, op.now), key, m);
      } else if !(Shrinks(s.store, s'.store) && s'.issued == s.issued) {
        var latest, r: Revision :| Latest(s.store, r.key, latest) && r.id !in s.drawn
          && r.number == NextNumber(latest) && s' == Add(s, r);
        if r.key == key { LatestInRange(s, key, m, latest); }
        m := AddIssued(s, r, key, m);
      }
    }
  }

  /** A live revision of the key has at least this number. */
  ghost predicate Survives(s: State, key: Key, n: int) {
    exists id :: id in s.store && s.store[id].key == key && s.store[id].number >= n
  }

  /** The next number of a key is new exactly when no issued number lies above all live ones:
      removing the newest revision makes its number come back. */
  lemma NumberIsNewExactly(ops: seq<Op>, states: seq<State>, key: Key, i: nat, latest: Option<Revision>)
    requires Run(ops, states) && i < |states| && Latest(states[i].store, key, latest)
    ensures NextNumber(latest) !in Issued(states[i], key) <==>
            forall n :: n in Issued(states[i], key) ==> Survives(states[i], key, n)
  {
    var s := states[i];
    var m := RunIssued(ops, states, key, i);
    LatestInRange(s, key, m, latest);
    if NextNumber(latest) == m + 1 {
      forall n | n in Issued(s, key) ensures Survives(s, key, n) {
        assert latest.value.id in s.store && s.store[latest.value.id].number >= n;
      }
    } else {
      assert m in Issued(s, key);
      forall id | id in s.store && s.store[id].key == key ensures s.store[id].number < m { }
    }
  }

  /** Two tracked writes, the newer one deleted, and a third write: number two is issued twice. */
  lemma NumberReused(key: Key, a: Uuid, b: Uuid, c: Uuid, event: Event, content: Json, now: int, t: Tracker)
    returns (ops: seq<Op>, states: seq<State>)
    requires a != b && a != c && b != c && Tracks(t, event)
    ensures Run(ops, states) && Issued(states[|ops|], key) == [1, 2, 2]
  {
    var ra := TrackedRevision(None, a, key, event, content, now, t);
    var rb := TrackedRevision(Some(ra), b, key, event, content, now, t);
    var rc := TrackedRevision(Some(ra), c, key, event, content, now, t);
    var s1 := Add(INITIAL, ra);
    var s2 := Add(s1, rb);
    var s3 := s2.(store := s2.store - {b});
    var s4 := Add(s3, rc);
    ops := [Track(key, a, event, content, now, t), Track(key, b, event, content, now, t), Remove(b),
            Track(key, c, event, content, now, t)];
    states := [INITIAL, s1, s2, s3, s4];
    assert Latest(INITIAL.store, key, None);
    assert Latest(s1.store, key, Some(ra)) && Latest(s3.store, key, Some(ra));
    assert Does(ops[0], states[0], states[1]) && Does(ops[1], states[1], states[2]);
    assert Does(ops[2], states[2], states[3]) && Does(ops[3], states[3], states[4]);
  }

  // --------------------------------------------------------- automatic snapshots

  /** The operation neither names nor removes a revision of the key by hand. */
  ghost predicate LeavesAlone(op: Op, s: State, key: Key) {
    match op
    case Rename(k, _, _) => k != key
    case Remove(id) => id in s.store ==> s.store[id].key != key
    case Retain(k, _) => k != key
    case _ => true
  }

  /** A run of any operations, of which none names or removes a revision of the key by hand. */
  ghost predicate QuietRun(ops: seq<Op>, states: seq<State>, key: Key) {
    Run(ops, states) && forall i :: 0 <= i < |ops| ==> LeavesAlone(ops[i], states[i], key)
  }

  lemma StepKeeps(op: Op, s: State, s': State, key: Key, id: Uuid)
    requires Valid(s) && Does(op, s, s') && LeavesAlone(op, s, key) && id in s.store && s.store[id].key == key
    ensures id in s'.store && s'.store[id] == s.store[id]
  {
  }

  /** One of the first `i` operations was a tracked write of this revision with this tracker. */
  ghost predicate WrittenBy(ops: seq<Op>, i: nat, key: Key, t: Tracker, id: Uuid)
    requires i <= |ops|
  {
    exists j :: 0 <= j < i && WritesAt(ops[j], key, t, id)
  }

  predicate WritesAt(op: Op, key: Key, t: Tracker, id: Uuid) {
    op.Track? && op.key == key && op.id == id && op.tracker == t && Tracks(t, op.event)
  }

  /** Named exactly when its number is a multiple of the tracker's interval. */
  predicate NamedRight(r: Revision, key: Key, t: Tracker) {
    && r.key == key && (r.versionName.Some? <==> Snaps(t, r.number))
    && (Snaps(t, r.number) ==> r.versionName == Some(SnapshotName(r.number)))
  }

  /** In every quiet run, whatever events, times, restores and other keys come in between, a
      tracked write is and stays named exactly when its number is a multiple of the interval. */
  lemma {:induction false} TrackedNamed(ops: seq<Op>, states: seq<State>, key: Key, t: Tracker, i: nat, id: Uuid)
    requires QuietRun(ops, states, key) && i <= |ops| && WrittenBy(ops, i, key, t, id)
    ensures id in states[i].store && NamedRight(states[i].store[id], key, t)
  {
    var s, s', op := states[i - 1], states[i], ops[i - 1];
    RunDistinct(ops, states, i - 1);
    assert Does(op, s, s') && LeavesAlone(op, s, key);
    if WrittenBy(ops, i - 1, key, t, id) {
      TrackedNamed(ops, states, key, t, i - 1, id);
      StepKeeps(op, s, s', key, id);
    }
  }

  function SnapCount(t: Tracker, first: int, n: nat): nat {
    if n == 0 then 0 else SnapCount(t, first, n - 1) + (if Snaps(t, first + n - 1) then 1 else 0)
  }

  lemma DivStep(m: int, k: int)
    requires k >= 1
    ensures (m + 1) / k == m / k + (if (m + 1) % k == 0 then 1 else 0)
  {
    var q, r := m / k, m % k;
    assert m == q * k + r;
    if r + 1 == k {
      assert m + 1 == (q + 1) * k;
      DivExact(m + 1, q + 1, 0, k);
    } else {
      DivExact(m + 1, q, r + 1, k);
    }
  }

  lemma DivExact(m: int, q: int, r: int, k: int)
    requires k >= 1 && m == q * k + r && 0 <= r < k
    ensures m / k == q && m % k == r
  {
    var d, s := m / k, m % k;
    assert d * k + s == q * k + r;
    SmallMultiple(d - q, r - s, k);
  }

  lemma SmallMultiple(d: int, e: int, k: int)
    requires k >= 1 && d * k == e && -k < e < k
    ensures d == 0
  {
    if d >= 1 {
      MultipleAtLeast(d, k);
    } else if d <= -1 {
      MultipleAtLeast(-d, k);
    }
  }

  lemma MultipleAtLeast(d: int, k: int)
    requires d >= 1 && k >= 1
    ensures d * k >= k
  {
    assert (d - 1) * k >= 0;
  }

  lemma {:induction false} SnapCountFormula(t: Tracker, first: int, n: nat)
    requires t.autoSnapshot && t.interval.Some? && t.interval.value >= 1
    ensures var k := t.interval.value; SnapCount(t, first, n) == (first + n - 1) / k - (first - 1) / k
  {
    if n > 0 {
      SnapCountFormula(t, first, n - 1);
      DivStep(first + n - 2, t.interval.value);
    }
  }

  /** Between floor(n/k) and ceil(n/k). */
  predicate Dense(count: nat, n: nat, k: nat)
    requires k >= 1
  {
    n / k <= count <= (n + k - 1) / k
  }

  /** Any n consecutively numbered tracker writes contain between floor(n/k) and ceil(n/k)
      automatic snapshots. */
  lemma SnapshotDensity(t: Tracker, first: int, n: nat)
    requires t.autoSnapshot && t.interval.Some? && t.interval.value >= 1
    ensures Dense(SnapCount(t, first, n), n, t.interval.value)
  {
    var k: int := t.interval.value;
    SnapCountFormula(t, first, n);
    var a, b := first - 1, n as int;
    DivSum(a, b, k);
    DivCeil(b, k);
  }

  lemma DivSum(a: int, b: int, k: int)
    requires k >= 1
    ensures b / k <= (a + b) / k - a / k <= b / k + (if b % k == 0 then 0 else 1)
  {
    var q1, r1, q2, r2 := a / k, a % k, b / k, b % k;
    assert a == q1 * k + r1 && b == q2 * k + r2;
    if r1 + r2 < k {
      assert a + b == (q1 + q2) * k + (r1 + r2);
      DivExact(a + b, q1 + q2, r1 + r2, k);
    } else {
      assert a + b == (q1 + q2 + 1) * k + (r1 + r2 - k);
      DivExact(a + b, q1 + q2 + 1, r1 + r2 - k, k);
    }
  }

  lemma DivCeil(b: int, k: int)
    requires k >= 1
    ensures (b + k - 1) / k == b / k + (if b % k == 0 then 0 else 1)
  {
    var q, r := b / k, b % k;
    assert b == q * k + r;
    if r == 0 {
      DivExact(b + k - 1, q, k - 1, k);
    } else {
      assert b + k - 1 == (q + 1) * k + (r - 1);
      DivExact(b + k - 1, q + 1, r - 1, k);
    }
  }

  /** How many of these revisions carry a name. */
  function NamedAmong(store: Store, ids: seq<Uuid>): nat {
    if ids == [] then 0
    else
      var last := ids[|ids| - 1];
      NamedAmong(store, ids[..|ids| - 1]) + (if last in store && store[last].versionName.Some? then 1 else 0)
  }

  /** Revisions of tracked writes, numbered one after the other from `first`. */
  ghost predicate NumberedFrom(s: State, ids: seq<Uuid>, first: int) {
    forall k :: 0 <= k < |ids| ==> ids[k] in s.store && s.store[ids[k]].number == first + k
  }

  lemma {:induction false} NamedCount(
      ops: seq<Op>, states: seq<State>, key: Key, t: Tracker, i: nat, ids: seq<Uuid>, first: int)
    requires QuietRun(ops, states, key) && i <= |ops| && NumberedFrom(states[i], ids, first)
    requires forall k :: 0 <= k < |ids| ==> WrittenBy(ops, i, key, t, ids[k])
    ensures NamedAmong(states[i].store, ids) == SnapCount(t, first, |ids|)
    decreases |ids|
  {
    if ids != [] {
      NamedCount(ops, states, key, t, i, ids[..|ids| - 1], first);
      TrackedNamed(ops, states, key, t, i, ids[|ids| - 1]);
    }
  }

  /** Of any n consecutively numbered tracked writes in a quiet run, between floor(n/k) and
      ceil(n/k) are named. */
  lemma TrackedDensity(
      ops: seq<Op>, states: seq<State>, key: Key, t: Tracker, i: nat, ids: seq<Uuid>, first: int)
    requires QuietRun(ops, states, key) && i <= |ops| && NumberedFrom(states[i], ids, first)
    requires forall k :: 0 <= k < |ids| ==> WrittenBy(ops, i, key, t, ids[k])
    requires t.autoSnapshot && t.interval.Some? && t.interval.value >= 1
    ensures Dense(NamedAmong(states[i].store, ids), |ids|, t.interval.value)
  {
    NamedCount(ops, states, key, t, i, ids, first);
    SnapshotDensity(t, first, |ids|);
  }

  // ------------------------------------------------------------ what is written

  /** A revision written with the next number is the only latest one. */
  lemma OnlyLatest(s: State, latest: Option<Revision>, r: Revision, found: Option<Revision>)
    requires Valid(s) && r.id !in s.drawn && Latest(s.store, r.key, latest) && r.number == NextNumber(latest)
    requires Latest(Add(s, r).store, r.key, found)
    ensures found == Some(r)
  {
    var store := Add(s, r).store;
    assert store[r.id] == r;
  }

  /** A restore makes the target's content the latest one, whatever was written since, under a new
      unnamed revision that points back to the target; there is nothing to see in their diff. */
  lemma RestoreBringsBack(ops: seq<Op>, states: seq<State>, i: nat, found: Option<Revision>)
    requires Run(ops, states) && i < |ops| && ops[i].RestoreTo?
    requires ops[i].target in states[i].store && ops[i].readable
    requires Latest(states[i + 1].store, ops[i].key, found)
    ensures found.Some?
    ensures var op, r := ops[i], found.value;
            && r.id == op.id && r.content == states[i].store[op.target].content && r.parent == Some(op.target)
            && r.event == Restore && r.createdAt == op.now && r.versionName.None?
    ensures ComputeDiff(states[i].store[ops[i].target].content, found.value.content) == EMPTY
  {
    var s, op := states[i], ops[i];
    RunDistinct(ops, states, i);
    var latest :| Latest(s.store, op.key, latest)
      && states[i + 1] == Add(s, RestoredRevision(latest, s.store[op.target], op.id, op.key, op.now));
    OnlyLatest(s, latest, RestoredRevision(latest, s.store[op.target], op.id, op.key, op.now), found);
    DiffOfSame(found.value.content);
  }

  /** A tracked write makes its own content the latest one and points back to what was latest. */
  lemma TrackWrites(ops: seq<Op>, states: seq<State>, i: nat, found: Option<Revision>)
    requires Run(ops, states) && i < |ops| && ops[i].Track? && Tracks(ops[i].tracker, ops[i].event)
    requires Latest(states[i + 1].store, ops[i].key, found)
    ensures found.Some?
    ensures var op, r := ops[i], found.value;
            && r.id == op.id && r.content == op.content && r.event == op.event && r.createdAt == op.now
            && (Empty(states[i].store, op.key) ==> r.parent.None? && r.number == 1)
            && (r.parent.Some? ==>
                  && r.parent.value in states[i].store
                  && Newest(states[i].store, op.key, states[i].store[r.parent.value])
                  && r.number == states[i].store[r.parent.value].number + 1)
            && (r.parent.None? ==> Empty(states[i].store, op.key))
  {
    var s, op := states[i], ops[i];
    RunDistinct(ops, states, i);
    var latest :| Latest(s.store, op.key, latest)
      && states[i + 1] == Add(s, TrackedRevision(latest, op.id, op.key, op.event, op.content, op.now, op.tracker));
    OnlyLatest(s, latest, TrackedRevision(latest, op.id, op.key, op.event, op.content, op.now, op.tracker), found);
  }

  /** A write that is not tracked changes nothing. */
  lemma UntrackedWrites(ops: seq<Op>, states: seq<State>, i: nat)
    requires Run(ops, states) && i < |ops| && ops[i].Track?
    requires !ops[i].tracker.enabled || ops[i].event !in ops[i].tracker.trackOn
    ensures states[i + 1] == states[i]
  {
    assert Does(ops[i], states[i], states[i + 1]);
  }

  /** A create makes the content the first and latest revision, without a parent. */
  lemma CreateWrites(ops: seq<Op>, states: seq<State>, i: nat, found: Option<Revision>)
    requires Run(ops, states) && i < |ops| && ops[i].NewContent?
    requires Latest(states[i + 1].store, ops[i].key, found)
    ensures found.Some?
    ensures var op, r := ops[i], found.value;
            && r.id == op.id && r.content == op.content && r.event == Create && r.createdAt == op.now
            && r.number == 1 && r.parent.None? && r.versionName.None?
  {
    var s, op := states[i], ops[i];
    RunDistinct(ops, states, i);
    OnlyLatest(s, None, CreatedRevision(op.id, op.key, op.content, op.now), found);
  }

  /** Everything but the name. */
  predicate SameButName(a: Revision, b: Revision) {
    b == a.(versionName := b.versionName)
  }

  lemma StepImmutable(op: Op, s: State, s': State, id: Uuid)
    requires Valid(s) && Does(op, s, s') && id in s.drawn && id in s'.store
    ensures id in s.store && SameButName(s.store[id], s'.store[id]) && id in s'.drawn
  {
  }

  lemma StepDraws(op: Op, s: State, s': State)
    requires Does(op, s, s')
    ensures s.drawn <= s'.drawn
  {
  }

  lemma {:induction false} RunDraws(ops: seq<Op>, states: seq<State>, i: nat, j: nat)
    requires Run(ops, states) && i <= j < |states|
    ensures states[i].drawn <= states[j].drawn
    decreases j
  {
    if i < j {
      RunDraws(ops, states, i, j - 1);
      StepDraws(ops[j - 1], states[j - 1], states[j]);
    }
  }

  /** A stored revision never changes, its name aside: as long as it is there it has the content,
      number, parent, event and time it was written with. */
  lemma {:induction false} RunImmutable(ops: seq<Op>, states: seq<State>, i: nat, j: nat, id: Uuid)
    requires Run(ops, states) && i <= j < |states| && id in states[i].store && id in states[j].store
    ensures SameButName(states[i].store[id], states[j].store[id])
    decreases j
  {
    RunDistinct(ops, states, i);
    if i < j {
      RunDistinct(ops, states, j - 1);
      RunDraws(ops, states, i, j - 1);
      StepImmutable(ops[j - 1], states[j - 1], states[j], id);
      RunImmutable(ops, states, i, j - 1, id);
    }
  }

  /** What keeping the last days leaves: other keys, named revisions, and those not older than the
      cut-off, all as they were. */
  lemma KeepDaysExactly(s: State, s': State, key: Key, cutoff: int, id: Uuid)
    requires Does(Retain(key, KeepDays(cutoff)), s, s')
    ensures id in s'.store <==>
            && id in s.store
            && (s.store[id].key != key || s.store[id].versionName.Some? || cutoff <= s.store[id].createdAt)
    ensures id in s'.store ==> s'.store[id] == s.store[id]
  {
  }

  // ------------------------------------------------------- the service refines it

  /** Every call of the service is one operation of the model: whatever the service answers,
      its store afterwards is one that `Does` allows. */
  method Perform(service: RevisionService, op: Op, ghost s: State) returns (ghost s': State)
    requires Valid(s) && service.store == s.store
    requires op.Track? || op.NewContent? || op.RestoreTo? ==> op.id !in s.drawn
    modifies service
    ensures Valid(s') && service.store == s'.store && Does(op, s, s')
  {
    match op {
      case Track(key, id, event, content, now, tracker) =>
        var w := service.CreateRevisionWithTracker(key, event, content, tracker, id, now);
        s' := if w.Untracked? then s else Add(s, w.revision);
      case NewContent(key, id, content, now) =>
        var r := service.CreateRevisionForCreate(key, content, id, now);
        s' := Add(s, r);
      case RestoreTo(key, id, target, readable, now) =>
        var r := service.RestoreRevision(key, target, readable, id, now);
        s' := if r.Err? then s else Add(s, r.value);
      case Rename(key, id, name) =>
        var r := service.CreateNamedVersion(key, id, name);
        s' := s.(store := service.store);
      case Remove(id) =>
        service.DeleteRevision(id);
        s' := s.(store := service.store);
      case Retain(key, policy) =>
        var removed := service.ApplyRetentionPolicy(key, policy);
        s' := s.(store := service.store);
    }
    StepShape(op, s, s');
  }
}
