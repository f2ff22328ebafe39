/** Concurrent calls of the revision service: the read half and the write half of every call
    may interleave with any other call, deletion or retention step. */
module RevisionRace {
  import opened Text
  import opened RevisionDiff
  import opened RevisionStore

  /** `past` keeps every revision ever stored, in spite of deletions, and `born` the moment it
      was stored. A call between its reads and its write holds the revision it will insert; a
      restore between its two reads holds the target it read. */
  datatype State = State(
    store: Store, past: Store, born: map<Uuid, nat>, clock: nat,
    drawn: set<Uuid>, pending: set<Revision>, targets: set<Revision>)

  const INITIAL := State(map[], map[], map[], 0, {}, {}, {})

  datatype Step =
    | ReadForTrack(key: Key, id: Uuid, event: Event, content: Json, now: int, latest: Option<Revision>)
    | PrepareCreate(key: Key, id: Uuid, content: Json, now: int)
    | ReadTarget(target: Uuid)
    | ReadForRestore(key: Key, id: Uuid, read: Revision, now: int, latest: Option<Revision>)
    | Write(revision: Revision)
    | Abandon(revision: Revision)
    | SetName(id: Uuid, name: string)
    | Erase(ids: set<Uuid>)

  function Draft(latest: Option<Revision>, id: Uuid, key: Key, event: Event, content: Json, now: int): Revision {
    Revision(id, key, NextNumber(latest), IdOf(latest), event, content, now, None)
  }

  /** The draft is the revision a tracked write stores, before it may get its name. */
  lemma DraftIsTracked(
      latest: Option<Revision>, id: Uuid, key: Key, event: Event, content: Json, now: int, t: Tracker)
    ensures var r := TrackedRevision(latest, id, key, event, content, now, t);
            Draft(latest, id, key, event, content, now) == r.(versionName := None)
  {
  }

  function Prepare(s: State, r: Revision): State {
    s.(drawn := s.drawn + {r.id}, pending := s.pending + {r})
  }

  /** One atomic backend access. `Erase` covers deletion and every retention policy. */
  ghost predicate Next(step: Step, s: State, s': State) {
    match step
    case ReadForTrack(key, id, event, content, now, latest) =>
      id !in s.drawn && Latest(s.store, key, latest) && s' == Prepare(s, Draft(latest, id, key, event, content, now))
    case PrepareCreate(key, id, content, now) =>
      id !in s.drawn && s' == Prepare(s, CreatedRevision(id, key, content, now))
    case ReadTarget(target) => target in s.store && s' == s.(targets := s.targets + {s.store[target]})
    case ReadForRestore(key, id, target, now, latest) =>
      && target in s.targets && id !in s.drawn && Latest(s.store, key, latest)
      && s' == Prepare(s, RestoredRevision(latest, target, id, key, now))
    case Write(r) =>
      && r in s.pending && r.id !in s.store
      && s' == s.(store := s.store[r.id := r], past := s.past[r.id := r], born := s.born[r.id := s.clock],
                  clock := s.clock + 1, pending := s.pending - {r})
    case Abandon(r) => s' == s.(pending := s.pending - {r})
    case SetName(id, name) =>
      id in s.store && s' == s.(store := s.store[id := s.store[id].(versionName := Some(name))])
    case Erase(ids) => s' == s.(store := s.store - ids)
  }

  ghost predicate Run(steps: seq<Step>, states: seq<State>) {
    && |states| == |steps| + 1 && states[0] == INITIAL
    && forall i :: 0 <= i < |steps| ==> Next(steps[i], states[i], states[i + 1])
  }

  // --------------------------------------------------------------- invariant

  ghost predicate Known(s: State, p: Option<Uuid>) {
    p.Some? ==> p.value in s.born
  }

  ghost predicate Inv(s: State) {
    && (forall id :: id in s.store ==>
          id in s.past && s.store[id].id == id && s.store[id].parent == s.past[id].parent)
    && s.past.Keys == s.born.Keys && s.born.Keys <= s.drawn
    && (forall id :: id in s.born ==> s.born[id] < s.clock)
    && (forall id :: id in s.past && s.past[id].parent.Some? ==>
          s.past[id].parent.value in s.born && s.born[s.past[id].parent.value] < s.born[id])
    && (forall r :: r in s.pending ==> Known(s, r.parent) && r.id in s.drawn && r.id !in s.born)
    && (forall r, q :: r in s.pending && q in s.pending && r.id == q.id ==> r == q)
    && (forall r :: r in s.targets ==> r.id in s.born)
  }

  lemma PrepareInv(s: State, r: Revision)
    requires Inv(s) && r.id !in s.drawn && Known(s, r.parent)
    ensures Inv(Prepare(s, r))
  {
  }

  lemma WriteInv(s: State, s': State, r: Revision)
    requires Inv(s) && Next(Write(r), s, s')
    ensures Inv(s')
  {
    forall id | id in s'.past && s'.past[id].parent.Some?
      ensures s'.past[id].parent.value in s'.born && s'.born[s'.past[id].parent.value] < s'.born[id]
    {
      var p := s'.past[id].parent.value;
      if id == r.id {
        assert Known(s, r.parent);
      } else {
        assert p in s.born && p != r.id;
      }
    }
    forall q | q in s'.pending ensures Known(s', q.parent) && q.id in s'.drawn && q.id !in s'.born {
      assert q in s.pending && q != r && Known(s, q.parent);
    }
  }

  lemma StepInv(step: Step, s: State, s': State)
    requires Inv(s) && Next(step, s, s')
    ensures Inv(s')
  {
    match step {
      case ReadForTrack(key, id, event, content, now, latest) =>
        PrepareInv(s, Draft(latest, id, key, event, content, now));
      case PrepareCreate(key, id, content, now) => PrepareInv(s, CreatedRevision(id, key, content, now));
      case ReadForRestore(key, id, target, now, latest) =>
        PrepareInv(s, RestoredRevision(latest, target, id, key, now));
      case Write(r) => WriteInv(s, s', r);
      case ReadTarget(target) => StoreInv(s, s');
      case Abandon(r) => StoreInv(s, s');
      case SetName(id, name) => StoreInv(s, s');
      case Erase(ids) => StoreInv(s, s');
    }
  }

  /** Steps that store nothing new: reading a target, giving up, naming and erasing. */
  lemma StoreInv(s: State, s': State)
    requires Inv(s) && s'.past == s.past && s'.born == s.born && s'.clock == s.clock && s'.drawn == s.drawn
    requires s'.pending <= s.pending
    requires forall id :: id in s'.store ==>
               id in s.store && s'.store[id].id == id && s'.store[id].parent == s.store[id].parent
    requires forall r :: r in s'.targets ==> r in s.targets || r.id in s.born
    ensures Inv(s')
  {
    forall r | r in s'.pending ensures Known(s', r.parent) && r.id in s'.drawn && r.id !in s'.born {
      assert Known(s, r.parent);
    }
  }

  lemma {:induction false} RunInv(steps: seq<Step>, states: seq<State>, i: nat)
    requires Run(steps, states) && i < |states|
    ensures Inv(states[i])
  {
    if i > 0 {
      RunInv(steps, states, i - 1);
      StepInv(steps[i - 1], states[i - 1], states[i]);
    }
  }

  // ------------------------------------------------------------ parent chains

  /** In every run, under every interleaving, each revision's parent was stored strictly earlier. */
  lemma ParentStoredEarlier(steps: seq<Step>, states: seq<State>, i: nat, id: Uuid)
    requires Run(steps, states) && i < |states| && id in states[i].past && states[i].past[id].parent.Some?
    ensures var s := states[i]; var p := s.past[id].parent.value;
            p in s.past && p in s.born && id in s.born && s.born[p] < s.born[id]
  {
    RunInv(steps, states, i);
  }

  /** A walk along `parent_revision_id`. */
  ghost predicate Walk(s: State, path: seq<Uuid>) {
    && (forall k :: 0 <= k < |path| ==> path[k] in s.past)
    && (forall k :: 0 <= k < |path| - 1 ==> s.past[path[k]].parent == Some(path[k + 1]))
  }

  lemma {:induction false} WalkDescends(s: State, path: seq<Uuid>, j: nat, k: nat)
    requires Inv(s) && Walk(s, path) && j < k < |path|
    ensures path[j] in s.born && path[k] in s.born && s.born[path[k]] < s.born[path[j]]
    decreases k
  {
    assert s.past[path[k - 1]].parent == Some(path[k - 1 + 1]);
    if k > j + 1 { WalkDescends(s, path, j, k - 1); }
  }

  /** No walk visits a revision twice, so following parents never cycles and is no longer than
      the number of revisions ever stored. */
  lemma NoParentCycle(steps: seq<Step>, states: seq<State>, i: nat, path: seq<Uuid>)
    requires Run(steps, states) && i < |states| && Walk(states[i], path)
    ensures forall j, k :: 0 <= j < k < |path| ==> path[j] != path[k]
    ensures |path| <= |states[i].past|
  {
    var s := states[i];
    RunInv(steps, states, i);
    forall j, k | 0 <= j < k < |path| ensures path[j] != path[k] { WalkDescends(s, path, j, k); }
    NoRepeats(path, s.past.Keys);
    assert |s.past| == |s.past.Keys|;
  }

  lemma {:induction false} NoRepeats(path: seq<Uuid>, ids: set<Uuid>)
    requires forall k :: 0 <= k < |path| ==> path[k] in ids
    requires forall j, k :: 0 <= j < k < |path| ==> path[j] != path[k]
    ensures |path| <= |ids|
    decreases |path|
  {
    if path != [] { NoRepeats(path[1..], ids - {path[0]}); }
  }

  /** The same for the revisions still in the store. */
  lemma LiveParents(steps: seq<Step>, states: seq<State>, i: nat, id: Uuid)
    requires Run(steps, states) && i < |states| && id in states[i].store && states[i].store[id].parent.Some?
    ensures var s := states[i]; var p := s.store[id].parent.value;
            p != id && p in s.past && p in s.born && id in s.born && s.born[p] < s.born[id]
  {
    RunInv(steps, states, i);
  }

  // --------------------------------------------------- what a stale read may do

  /** Storing a revision keeps the numbers of its key distinct exactly when its number is free. */
  lemma FreeNumber(s: State, r: Revision, s': State)
    requires Distinct(s.store) && Next(Write(r), s, s')
    ensures Distinct(s'.store) <==>
            forall id :: id in s.store && s.store[id].key == r.key ==> s.store[id].number != r.number
  {
    if Distinct(s'.store) {
      forall id | id in s.store && s.store[id].key == r.key ensures s.store[id].number != r.number {
        assert id != r.id && s'.store[id] == s.store[id] && s'.store[r.id] == r;
      }
    }
  }

  /** The step that reads the latest revision and computes from it the revision to write. */
  predicate Drafts(step: Step, r: Revision) {
    match step
    case ReadForTrack(key, id, event, content, now, latest) => r == Draft(latest, id, key, event, content, now)
    case ReadForRestore(key, id, target, now, latest) => r == RestoredRevision(latest, target, id, key, now)
    case _ => false
  }

  /** The step stores this identifier under this key and number. */
  predicate Stores(step: Step, id: Uuid, key: Key, number: int) {
    step.Write? && step.revision.id == id && step.revision.key == key && step.revision.number == number
  }

  /** A revision keeps its key and number for as long as it is in the store. */
  lemma StepLive(step: Step, s: State, s': State, id: Uuid)
    requires Inv(s) && Next(step, s, s') && id in s'.store
    ensures var r := s'.store[id];
            || (id in s.store && s.store[id].key == r.key && s.store[id].number == r.number)
            || (id !in s.born && Stores(step, id, r.key, r.number))
  {
  }

  /** What is live was live before, or was written in between. */
  lemma {:induction false} LiveOrigin(steps: seq<Step>, states: seq<State>, j: nat, i: nat, id: Uuid)
    requires Run(steps, states) && j <= i < |states| && id in states[i].store
    ensures var r := states[i].store[id];
            || (id in states[j].store && states[j].store[id].key == r.key && states[j].store[id].number == r.number)
            || (exists k :: j <= k < i && id !in states[k].born && Stores(steps[k], id, r.key, r.number))
    decreases i
  {
    if j < i {
      RunInv(steps, states, i - 1);
      assert Next(steps[i - 1], states[i - 1], states[i - 1 + 1]);
      StepLive(steps[i - 1], states[i - 1], states[i], id);
      if id in states[i - 1].store { LiveOrigin(steps, states, j, i - 1, id); }
    }
  }

  lemma {:induction false} StaysBorn(steps: seq<Step>, states: seq<State>, j: nat, i: nat, id: Uuid)
    requires Run(steps, states) && j <= i < |states| && id in states[j].born
    ensures id in states[i].born
    decreases i
  {
    if j < i {
      StaysBorn(steps, states, j, i - 1, id);
      assert Next(steps[i - 1], states[i - 1], states[i - 1 + 1]);
    }
  }

  /** A written revision that is still there has the key and number it was written with. */
  lemma WrittenOnce(steps: seq<Step>, states: seq<State>, k: nat, i: nat)
    requires Run(steps, states) && k < i < |states| && steps[k].Write? && steps[k].revision.id in states[i].store
    ensures var r := steps[k].revision;
            states[i].store[r.id].key == r.key && states[i].store[r.id].number == r.number
  {
    var r := steps[k].revision;
    assert Next(steps[k], states[k], states[k + 1]);
    LiveOrigin(steps, states, k + 1, i, r.id);
    forall m | k + 1 <= m < i ensures r.id in states[m].born { StaysBorn(steps, states, k + 1, m, r.id); }
  }

  /** The number a draft gets is above every number it could read. */
  lemma DraftAbove(s: State, step: Step, s': State, r: Revision, id: Uuid)
    requires Next(step, s, s') && Drafts(step, r) && id in s.store && s.store[id].key == r.key
    ensures s.store[id].number < r.number
  {
  }

  /** Between steps `j` and `i` another call stored this number under this key, and what it
      stored is still there. */
  ghost predicate Overtaken(steps: seq<Step>, states: seq<State>, j: nat, i: nat, r: Revision)
    requires j < i < |states| && i <= |steps|
  {
    exists k :: j < k < i && steps[k].Write? && Stores(steps[k], steps[k].revision.id, r.key, r.number)
      && steps[k].revision.id in states[i].store
  }

  /** A write makes two numbers of its key equal exactly when another call stored that number
      between the write and the read it was computed from, and that revision is still there. */
  lemma WriteDistinctExactly(steps: seq<Step>, states: seq<State>, j: nat, i: nat, r: Revision)
    requires Run(steps, states) && j < i < |steps| && Drafts(steps[j], r) && steps[i] == Write(r)
    requires Distinct(states[i].store)
    ensures Distinct(states[i + 1].store) <==> !Overtaken(steps, states, j, i, r)
  {
    assert Next(steps[i], states[i], states[i + 1]) && Next(steps[j], states[j], states[j + 1]);
    FreeNumber(states[i], r, states[i + 1]);
    if Overtaken(steps, states, j, i, r) {
      var k :| j < k < i && steps[k].Write? && Stores(steps[k], steps[k].revision.id, r.key, r.number)
        && steps[k].revision.id in states[i].store;
      WrittenOnce(steps, states, k, i);
    } else {
      forall id | id in states[i].store && states[i].store[id].key == r.key
        ensures states[i].store[id].number != r.number
      {
        LiveOrigin(steps, states, j, i, id);
        if id in states[j].store && states[j].store[id].key == r.key {
          DraftAbove(states[j], steps[j], states[j + 1], r, id);
        }
      }
    }
  }

  /** Two tracked writes that both read before either writes are stored under the same number:
      nothing in the schema forbids it. */
  lemma LostNumber(key: Key, a: Uuid, b: Uuid, event: Event, content: Json, now: int)
    returns (steps: seq<Step>, states: seq<State>)
    requires a != b
    ensures Run(steps, states)
    ensures var last := states[|steps|].store;
            a in last && b in last && last[a].key == last[b].key == key && last[a].number == last[b].number
  {
    var ra, rb := Draft(None, a, key, event, content, now), Draft(None, b, key, event, content, now);
    steps := [ReadForTrack(key, a, event, content, now, None), ReadForTrack(key, b, event, content, now, None),
              Write(ra), Write(rb)];
    var s1 := Prepare(INITIAL, ra);
    var s2 := Prepare(s1, rb);
    var s3 := s2.(store := s2.store[a := ra], past := s2.past[a := ra], born := s2.born[a := s2.clock],
                  clock := s2.clock + 1, pending := s2.pending - {ra});
    var s4 := s3.(store := s3.store[b := rb], past := s3.past[b := rb], born := s3.born[b := s3.clock],
                  clock := s3.clock + 1, pending := s3.pending - {rb});
    states := [INITIAL, s1, s2, s3, s4];
    assert Next(steps[0], states[0], states[1]);
    assert Next(steps[1], states[1], states[2]);
    assert rb in s3.pending;
    assert Next(steps[2], states[2], states[3]) && Next(steps[3], states[3], states[4]);
  }
}
