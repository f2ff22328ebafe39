/** The revision service of rustok-revisions/src/service.rs over the SeaORM backend's contract. */
module RevisionStore {
  import opened Text
  import opened RevisionDiff

  type Uuid = nat

  datatype Key = Key(tenant: Uuid, content: Uuid, locale: string)

  datatype Event = Create | Update | Delete | Restore | Snapshot

  datatype Revision = Revision(
    id: Uuid, key: Key, number: int, parent: Option<Uuid>, event: Event,
    content: Json, createdAt: int, versionName: Option<string>)

  datatype Tracker = Tracker(
    enabled: bool, trackOn: set<Event>, autoSnapshot: bool, interval: Option<nat>)

  type Store = map<Uuid, Revision>

  // ------------------------------------------------------- the store's contract

  ghost predicate Keyed(store: Store) {
    forall id :: id in store ==> store[id].id == id
  }

  ghost predicate Empty(store: Store, key: Key) {
    forall id :: id in store ==> store[id].key != key
  }

  /** A revision with the key's highest number; ties may be resolved either way. */
  ghost predicate Newest(store: Store, key: Key, r: Revision) {
    && r.id in store && store[r.id] == r && r.key == key
    && forall id :: id in store && store[id].key == key ==> store[id].number <= r.number
  }

  /** A possible answer of `get_latest_revision`. */
  ghost predicate Latest(store: Store, key: Key, r: Option<Revision>) {
    match r
    case None => Empty(store, key)
    case Some(v) => Newest(store, key, v)
  }

  /** Live numbers within a key are pairwise distinct. */
  ghost predicate Distinct(store: Store) {
    forall a, b :: a in store && b in store && a != b && store[a].key == store[b].key ==>
      store[a].number != store[b].number
  }

  function NextNumber(latest: Option<Revision>): int {
    if latest.None? then 1 else latest.value.number + 1
  }

  function IdOf(r: Option<Revision>): Option<Uuid> {
    if r.None? then None else Some(r.value.id)
  }

  /** The decimal name given to an automatic snapshot. */
  function SnapshotName(number: int): string {
    "snapshot-" + Decimal(number)
  }

  function Decimal(n: int): string
    decreases if n < 0 then 1 else 0, if n < 0 then -n else n
  {
    if n < 0 then "-" + Decimal(-n)
    else if n < 10 then [('0' as int + n) as char]
    else Decimal(n / 10) + [('0' as int + n % 10) as char]
  }

  /** The number that a decimal text stands for. */
  function DecimalValue(s: string): int {
    if s == "" then 0 else 10 * DecimalValue(s[..|s| - 1]) + (s[|s| - 1] as int - '0' as int)
  }

  lemma {:induction false} DecimalReads(n: nat)
    ensures DecimalValue(Decimal(n)) == n
  {
    var s := Decimal(n);
    if n < 10 {
      assert s[..|s| - 1] == "";
    } else {
      DecimalReads(n / 10);
      assert s[..|s| - 1] == Decimal(n / 10);
    }
  }

  /** An automatic name tells the revision's number. */
  lemma SnapshotNameTells(n: nat)
    ensures "snapshot-" <= SnapshotName(n) && DecimalValue(SnapshotName(n)[9..]) == n
  {
    DecimalReads(n);
    assert SnapshotName(n)[9..] == Decimal(n);
  }

  /** A revision gets an automatic name when its number is a multiple of the interval. */
  predicate Snaps(t: Tracker, number: int) {
    t.autoSnapshot && t.interval.Some? && t.interval.value > 0 && number % t.interval.value == 0
  }

  function TrackedRevision(
      latest: Option<Revision>, id: Uuid, key: Key, event: Event, content: Json, now: int, t: Tracker): Revision
  {
    var n := NextNumber(latest);
    Revision(id, key, n, IdOf(latest), event, content, now, if Snaps(t, n) then Some(SnapshotName(n)) else None)
  }

  function CreatedRevision(id: Uuid, key: Key, content: Json, now: int): Revision {
    Revision(id, key, 1, None, Create, content, now, None)
  }

  function RestoredRevision(latest: Option<Revision>, target: Revision, id: Uuid, key: Key, now: int): Revision {
    Revision(id, key, NextNumber(latest), Some(target.id), Restore, target.content, now, None)
  }

  predicate Tracks(t: Tracker, event: Event) {
    t.enabled && event in t.trackOn
  }

  /** The first `count` revisions of a key in descending order of number. */
  ghost predicate IsTop(store: Store, key: Key, count: nat, top: seq<Revision>) {
    && |top| <= count
    && (forall i :: 0 <= i < |top| ==> top[i].id in store && store[top[i].id] == top[i] && top[i].key == key)
    && (forall i, j :: 0 <= i < j < |top| ==> top[i].id != top[j].id && top[i].number >= top[j].number)
    && (forall id :: id in store && store[id].key == key && !Among(top, id) ==>
          |top| == count && forall i :: 0 <= i < |top| ==> store[id].number <= top[i].number)
  }

  predicate Among(top: seq<Revision>, id: Uuid) {
    exists i :: 0 <= i < |top| && top[i].id == id
  }

  /** `delete_many`: unnamed revisions of the key below the cut-off number. */
  function DropBelow(store: Store, key: Key, cutoff: int): Store {
    map id | id in store && !(store[id].key == key && store[id].number < cutoff && store[id].versionName.None?)
      :: store[id]
  }

  /** `delete_old_revisions`: nothing happens when the listing is empty. */
  function KeepTop(store: Store, key: Key, top: seq<Revision>): Store {
    if top == [] then store else DropBelow(store, key, top[|top| - 1].number)
  }

  /** `delete_revisions_older_than` */
  function DropOlder(store: Store, key: Key, cutoff: int): Store {
    map id | id in store && !(store[id].key == key && store[id].createdAt < cutoff && store[id].versionName.None?)
      :: store[id]
  }

  // --------------------------------------------------------------- the service

  datatype Policy = KeepLast(count: nat) | KeepDays(cutoff: int) | KeepAll | Custom(name: string)

  datatype Error = NotFound | InvalidOperation | Serialization

  datatype Result<T> = Ok(value: T) | Err(error: Error)

  /** Outcome of a tracked write: not tracked, written, or written and then stopped by the
      remainder operation because the interval is zero. */
  datatype Written = Untracked | Stored(revision: Revision) | Panicked(revision: Revision)

  class RevisionService {
    var store: Store

    constructor ()
      ensures store == map[]
    {
      store := map[];
    }

    method GetLatestRevision(key: Key) returns (r: Option<Revision>)
      requires Keyed(store)
      ensures Latest(store, key, r)
    {
      r := NewestAmong(store.Keys, key);
      if r.Some? { assert r.value.id in store.Keys; }
    }

    method NewestAmong(ids: set<Uuid>, key: Key) returns (r: Option<Revision>)
      requires Keyed(store) && ids <= store.Keys
      ensures r.None? ==> forall id :: id in ids ==> store[id].key != key
      ensures r.Some? ==> r.value.id in ids && store[r.value.id] == r.value && r.value.key == key
      ensures r.Some? ==> forall id :: id in ids && store[id].key == key ==> store[id].number <= r.value.number
    {
      r := None;
      var todo := ids;
      while todo != {}
        invariant todo <= ids
        invariant r.None? ==> forall id :: id in ids - todo ==> store[id].key != key
        invariant r.Some? ==> r.value.id in ids && store[r.value.id] == r.value && r.value.key == key
        invariant r.Some? ==>
          forall id :: id in ids - todo && store[id].key == key ==> store[id].number <= r.value.number
        decreases todo
      {
        var id :| id in todo;
        var v := store[id];
        if v.key == key && (r.None? || v.number > r.value.number) { r := Some(v); }
        todo := todo - {id};
      }
    }

    /** `id` is the fresh identifier drawn for this call. */
    method CreateRevisionWithTracker(
        key: Key, event: Event, content: Json, tracker: Tracker, id: Uuid, now: int) returns (w: Written)
      requires Keyed(store) && id !in store
      modifies this
      ensures Keyed(store)
      ensures !Tracks(tracker, event) <==> w.Untracked?
      ensures w.Untracked? ==> store == old(store)
      ensures !w.Untracked? ==>
        && (exists latest :: Latest(old(store), key, latest)
              && w.revision == TrackedRevision(latest, id, key, event, content, now, tracker))
        && store == old(store)[id := w.revision]
      ensures w.Panicked? <==> Tracks(tracker, event) && tracker.autoSnapshot && tracker.interval == Some(0)
    {
      if !tracker.enabled || event !in tracker.trackOn { return Untracked; }
      var latest := GetLatestRevision(key);
      var number := NextNumber(latest);
      var revision := Revision(id, key, number, IdOf(latest), event, content, now, None);
      store := store[id := revision];
      ghost var full := TrackedRevision(latest, id, key, event, content, now, tracker);
      if tracker.autoSnapshot && tracker.interval.Some? {
        if tracker.interval.value == 0 {
          assert revision == full;
          return Panicked(revision);
        }
        if number % tracker.interval.value == 0 {
          var named := CreateNamedVersion(key, id, SnapshotName(number));
        }
      }
      assert store[id] == full;
      w := Stored(store[id]);
    }

    method CreateRevisionForCreate(key: Key, content: Json, id: Uuid, now: int) returns (revision: Revision)
      requires Keyed(store) && id !in store
      modifies this
      ensures Keyed(store)
      ensures revision == CreatedRevision(id, key, content, now)
      ensures store == old(store)[id := revision]
    {
      revision := Revision(id, key, 1, None, Create, content, now, None);
      store := store[id := revision];
    }

    /** `readable` says whether the target's content deserializes as the caller's type. */
    method RestoreRevision(key: Key, targetId: Uuid, readable: bool, id: Uuid, now: int)
      returns (r: Result<Revision>)
      requires Keyed(store) && id !in store
      modifies this
      ensures Keyed(store)
      ensures r.Ok? <==> targetId in old(store) && readable
      ensures r.Err? ==>
        store == old(store) && r.error == if targetId in old(store) then Serialization else NotFound
      ensures r.Ok? ==>
        && (exists latest :: Latest(old(store), key, latest)
              && r.value == RestoredRevision(latest, old(store)[targetId], id, key, now))
        && store == old(store)[id := r.value]
    {
      if targetId !in store { return Err(NotFound); }
      if !readable { return Err(Serialization); }
      var target := store[targetId];
      var latest := GetLatestRevision(key);
      var revision := RestoredRevision(latest, target, id, key, now);
      store := store[id := revision];
      r := Ok(revision);
    }

    method CreateNamedVersion(key: Key, id: Uuid, name: string) returns (r: Result<()>)
      requires Keyed(store)
      modifies this
      ensures Keyed(store)
      ensures r.Ok? <==> id in old(store) && old(store)[id].key == key
      ensures r.Ok? ==> store == old(store)[id := old(store)[id].(versionName := Some(name))]
      ensures r.Err? ==> store == old(store) && (r.error == NotFound <==> id !in old(store))
    {
      if id !in store { return Err(NotFound); }
      if store[id].key != key { return Err(InvalidOperation); }
      store := store[id := store[id].(versionName := Some(name))];
      r := Ok(());
    }

    /** The listing query with a limit: newest first. */
    method ListTop(key: Key, count: nat) returns (top: seq<Revision>)
      requires Keyed(store)
      ensures IsTop(store, key, count, top)
    {
      top := [];
      var left := store.Keys;
      while |top| < count
        invariant |top| <= count && left <= store.Keys
        invariant forall i :: 0 <= i < |top| ==> top[i].id in store && store[top[i].id] == top[i] && top[i].key == key
        invariant forall i :: 0 <= i < |top| ==> top[i].id !in left
        invariant forall i, j :: 0 <= i < j < |top| ==> top[i].id != top[j].id && top[i].number >= top[j].number
        invariant forall id :: id in store && store[id].key == key && id !in left ==> Among(top, id)
        invariant forall id :: id in left && store[id].key == key ==>
          forall i :: 0 <= i < |top| ==> store[id].number <= top[i].number
      {
        var next := NewestAmong(left, key);
        if next.None? { return; }
        var before := top;
        top, left := top + [next.value], left - {next.value.id};
        forall id | id in store && store[id].key == key && id !in left ensures Among(top, id) {
          if id == next.value.id {
            assert top[|before|].id == id;
          } else {
            var i :| 0 <= i < |before| && before[i].id == id;
            assert top[i].id == id;
          }
        }
      }
    }

    method ApplyRetentionPolicy(key: Key, policy: Policy) returns (removed: nat)
      requires Keyed(store)
      modifies this
      ensures Keyed(store)
      ensures policy.KeepLast? ==>
        exists top :: IsTop(old(store), key, policy.count, top) && store == KeepTop(old(store), key, top)
      ensures policy.KeepDays? ==> store == DropOlder(old(store), key, policy.cutoff)
      ensures policy.KeepAll? || policy.Custom? ==> store == old(store)
      ensures removed == |old(store)| - |store|
    {
      var size := |store|;
      match policy {
        case KeepLast(count) =>
          var top := ListTop(key, count);
          ghost var before := store;
          KeepTopShrinks(store, key, top);
          store := KeepTop(store, key, top);
          assert IsTop(before, key, count, top) && store == KeepTop(before, key, top);
        case KeepDays(cutoff) =>
          DropOlderShrinks(store, key, cutoff);
          store := DropOlder(store, key, cutoff);
        case KeepAll =>
        case Custom(_) =>
      }
      removed := size - |store|;
    }

    method DeleteRevision(id: Uuid)
      requires Keyed(store)
      modifies this
      ensures Keyed(store) && store == old(store) - {id}
    {
      store := store - {id};
    }

    method CompareRevisions(from: Uuid, to: Uuid) returns (r: Result<Diff>)
      ensures r.Ok? <==> from in store && to in store
      ensures r.Ok? ==> r.value == ComputeDiff(store[from].content, store[to].content)
      ensures r.Err? ==> r.error == NotFound
    {
      if from !in store || to !in store { return Err(NotFound); }
      var d := Compute(store[from].content, store[to].content);
      r := Ok(d);
    }
  }

  lemma SubmapShrinks(a: Store, b: Store)
    requires b.Keys <= a.Keys
    ensures |b| <= |a|
  {
    SubsetCard(b.Keys, a.Keys);
    assert |b| == |b.Keys| && |a| == |a.Keys|;
  }

  lemma {:induction false} SubsetCard(x: set<Uuid>, y: set<Uuid>)
    requires x <= y
    ensures |x| <= |y|
  {
    if x != {} {
      var e :| e in x;
      SubsetCard(x - {e}, y - {e});
    }
  }

  lemma KeepTopShrinks(store: Store, key: Key, top: seq<Revision>)
    ensures |KeepTop(store, key, top)| <= |store|
  {
    SubmapShrinks(store, KeepTop(store, key, top));
  }

  lemma DropOlderShrinks(store: Store, key: Key, cutoff: int)
    ensures |DropOlder(store, key, cutoff)| <= |store|
  {
    SubmapShrinks(store, DropOlder(store, key, cutoff));
  }
}
