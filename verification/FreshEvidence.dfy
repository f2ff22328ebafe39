/** `verify_fresh` of xtask/src/migrations.rs: any number of runs on one plan directory, at the
    same time or one after another, with every step able to fail and every run able to die. */
module FreshEvidence {
  import opened Text

  datatype Side = Reference | Candidate

  /** The guarded steps, in source order. */
  datatype Check =
    | PlanReadable | PlanVersion | PlanDirectory(side: Side) | CommitMatches | WorkingTreeMatches
    | ToolsReadable | AdminUrlPresent
    | NoCargoConfig | TreeCopied(side: Side)
    | InputsResolved(side: Side) | Built(side: Side) | ArtifactsInside(side: Side) | PlanExported(side: Side)
    | ResolutionStable(side: Side) | BuildTreeUnchanged(side: Side)
    | DatabaseVerified | OwnerReportValid | BuildInputsUnchanged | ToolsUnchanged | PlanUnchanged
    | PlanDirectoryAgain(side: Side) | BuildTreeAgain(side: Side) | WorkingTreeAgain | NoCargoConfigAgain

  const BEFORE: seq<Check> := [
    PlanReadable, PlanVersion, PlanDirectory(Reference), PlanDirectory(Candidate), CommitMatches,
    WorkingTreeMatches, ToolsReadable, AdminUrlPresent]

  function BuildChecks(side: Side): seq<Check> {
    [InputsResolved(side), Built(side), ArtifactsInside(side), PlanExported(side), ResolutionStable(side),
     BuildTreeUnchanged(side)]
  }

  const INSIDE: seq<Check> :=
    [NoCargoConfig, TreeCopied(Reference), TreeCopied(Candidate)]
    + BuildChecks(Reference) + BuildChecks(Candidate)
    + [DatabaseVerified, OwnerReportValid, BuildInputsUnchanged, ToolsUnchanged, PlanUnchanged,
       PlanDirectoryAgain(Reference), PlanDirectoryAgain(Candidate), BuildTreeAgain(Reference),
       BuildTreeAgain(Candidate), WorkingTreeAgain, NoCargoConfigAgain]

  const ALL: seq<Check> := BEFORE + INSIDE

  datatype Stage =
    | Checking                 // before the evidence directory
    | MakingEvidence
    | MakingScratch
    | Verifying                // inside the closure
    | WritingPending
    | Resolving(ok: bool)
    | Cleaning(ok: bool)
    | WritingFailure
    | Publishing
    | Exited
    | Published

  /** `passed` lists the checks this run has passed, `wrote` says that it wrote its pending
      report whole, `scratch` that its scratch tree is still there. */
  datatype Process = Process(stage: Stage, passed: seq<Check>, wrote: bool, scratch: bool)

  /** The plan's `fresh` directory, and which run created it. */
  datatype Evidence = Evidence(owner: Option<nat>, pending: bool, report: bool, failure: bool)

  datatype State = State(evidence: Evidence, processes: map<nat, Process>)

  const INITIAL := State(Evidence(None, false, false, false), map[])

  // ------------------------------------------------------------------- steps

  function Move(s: State, id: nat, p: Process): State {
    s.(processes := s.processes[id := p])
  }

  /** One step of run `id`. Any disjunct that leads to `Exited` is a failure of that step. */
  ghost predicate Acts(id: nat, s: State, s': State) {
    && id in s.processes
    && var p := s.processes[id];
       var e := s.evidence;
       match p.stage
       case Checking =>
         || s' == Move(s, id, p.(stage := Exited))
         || (|p.passed| < |BEFORE| && s' == Move(s, id, p.(passed := p.passed + [ALL[|p.passed|]])))
         || (|p.passed| == |BEFORE| && s' == Move(s, id, p.(stage := MakingEvidence)))
       case MakingEvidence =>
         || s' == Move(s, id, p.(stage := Exited))
         || (e.owner.None? && s' == Move(s, id, p.(stage := MakingScratch)).(evidence := e.(owner := Some(id))))
       case MakingScratch =>
         || s' == Move(s, id, p.(stage := Exited))
         || s' == Move(s, id, p.(stage := Verifying, scratch := true))
       case Verifying =>
         || s' == Move(s, id, p.(stage := Resolving(false)))
         || (|p.passed| < |ALL| && s' == Move(s, id, p.(passed := p.passed + [ALL[|p.passed|]])))
         || (|p.passed| == |ALL| && s' == Move(s, id, p.(stage := WritingPending)))
       case WritingPending =>
         || s' == Move(s, id, p.(stage := Resolving(false)))
         || s' == Move(s, id, p.(stage := Resolving(false))).(evidence := e.(pending := true))
         || (!e.pending && s' == Move(s, id, p.(stage := Resolving(true), wrote := true)).(evidence := e.(pending := true)))
       case Resolving(ok) =>
         || s' == Move(s, id, p.(stage := Exited))
         || s' == Move(s, id, p.(stage := Cleaning(ok)))
       case Cleaning(ok) =>
         || s' == Move(s, id, p.(stage := WritingFailure))
         || s' == Move(s, id, p.(stage := if ok then Publishing else WritingFailure, scratch := false))
       case WritingFailure =>
         || s' == Move(s, id, p.(stage := Exited))
         || s' == Move(s, id, p.(stage := Exited)).(evidence := e.(failure := true))
       case Publishing =>
         || s' == Move(s, id, p.(stage := Exited))
         || (e.pending && s' == Move(s, id, p.(stage := Published)).(evidence := e.(pending := false, report := true)))
       case Exited => false
       case Published => false
  }

  /** A new run starts, a run dies, or a run takes a step. */
  ghost predicate Next(s: State, s': State) {
    || (exists id :: id !in s.processes && s' == Move(s, id, Process(Checking, [], false, false)))
    || (exists id :: id in s.processes && !Final(s.processes[id].stage)
          && s' == Move(s, id, s.processes[id].(stage := Exited)))
    || (exists id :: Acts(id, s, s'))
  }

  predicate Final(stage: Stage) {
    stage.Exited? || stage.Published?
  }

  ghost predicate Run(states: seq<State>) {
    && states != [] && states[0] == INITIAL
    && forall i :: 0 <= i < |states| - 1 ==> Next(states[i], states[i + 1])
  }

  // --------------------------------------------------------------- invariant

  /** Stages that only the creator of the evidence directory can reach. */
  predicate Owning(stage: Stage) {
    match stage
    case Checking => false
    case MakingEvidence => false
    case Exited => false
    case _ => true
  }

  predicate Prefix(passed: seq<Check>) {
    passed <= ALL
  }

  /** Every check passed and the pending report written. */
  predicate Complete(p: Process) {
    p.passed == ALL && p.wrote
  }

  /** A check was missed, the pending report not written, or the scratch tree not removed. */
  predicate AtFault(p: Process) {
    p.passed != ALL || !p.wrote || p.scratch
  }

  /** What a stage says about the checks passed, the pending report and the scratch tree. */
  predicate Progress(p: Process) {
    && Prefix(p.passed)
    && match p.stage
       case Checking => |p.passed| <= |BEFORE| && !p.wrote && !p.scratch
       case MakingEvidence => |p.passed| == |BEFORE| && !p.wrote && !p.scratch
       case MakingScratch => |p.passed| == |BEFORE| && !p.wrote && !p.scratch
       case Verifying => !p.wrote && p.scratch
       case WritingPending => p.passed == ALL && !p.wrote && p.scratch
       case Resolving(ok) => (ok <==> Complete(p)) && p.scratch
       case Cleaning(ok) => (ok <==> Complete(p)) && p.scratch
       case WritingFailure => AtFault(p)
       case Publishing => Complete(p) && !p.scratch
       case Published => Complete(p) && !p.scratch
       case _ => true
  }

  ghost predicate Inv(s: State) {
    && (forall id :: id in s.processes ==> Progress(s.processes[id]))
    && (forall id :: id in s.processes && Owning(s.processes[id].stage) ==> s.evidence.owner == Some(id))
    && (s.evidence.owner.Some? ==> s.evidence.owner.value in s.processes)
    && (s.evidence.failure ==>
          && s.evidence.owner.Some? && s.processes[s.evidence.owner.value].stage.Exited?
          && AtFault(s.processes[s.evidence.owner.value]))
    && (s.evidence.report ==> s.evidence.owner.Some? && s.processes[s.evidence.owner.value].stage.Published?)
    && (s.evidence.pending ==> s.evidence.owner.Some?)
  }

  lemma PrefixGrows(passed: seq<Check>)
    requires Prefix(passed) && |passed| < |ALL|
    ensures Prefix(passed + [ALL[|passed|]])
  {
  }

  lemma PrefixFull(passed: seq<Check>)
    requires Prefix(passed) && |passed| == |ALL|
    ensures passed == ALL
  {
  }

  lemma ActProgress(id: nat, s: State, s': State)
    requires Inv(s) && Acts(id, s, s')
    ensures Progress(s'.processes[id])
  {
    var p := s.processes[id];
    if p.stage.Checking? && |p.passed| < |BEFORE| { PrefixGrows(p.passed); }
    if p.stage.Verifying? {
      if |p.passed| < |ALL| { PrefixGrows(p.passed); } else { PrefixFull(p.passed); }
    }
  }

  /** A run that has not ended moves on without touching the evidence directory. */
  lemma MoveInv(id: nat, s: State, p: Process)
    requires Inv(s) && id in s.processes && !Final(s.processes[id].stage)
    requires Progress(p) && (Owning(p.stage) ==> Owning(s.processes[id].stage))
    ensures Inv(Move(s, id, p))
  {
  }

  /** The steps that do touch it: creating the directory, and writing into it. */
  lemma TouchInv(id: nat, s: State, s': State)
    requires Inv(s) && Acts(id, s, s') && s'.evidence != s.evidence
    ensures Inv(s')
  {
    ActProgress(id, s, s');
    assert s'.processes == s.processes[id := s'.processes[id]];
  }

  lemma ActInv(id: nat, s: State, s': State)
    requires Inv(s) && Acts(id, s, s')
    ensures Inv(s')
  {
    if s'.evidence == s.evidence {
      ActProgress(id, s, s');
      assert s' == Move(s, id, s'.processes[id]);
      MoveInv(id, s, s'.processes[id]);
    } else {
      TouchInv(id, s, s');
    }
  }

  lemma StepInv(s: State, s': State)
    requires Inv(s) && Next(s, s')
    ensures Inv(s')
  {
    if id :| Acts(id, s, s') {
      ActInv(id, s, s');
    } else if id :| id in s.processes && !Final(s.processes[id].stage)
                    && s' == Move(s, id, s.processes[id].(stage := Exited)) {
      MoveInv(id, s, s.processes[id].(stage := Exited));
    }
  }

  lemma {:induction false} RunInv(states: seq<State>, i: nat)
    requires Run(states) && i < |states|
    ensures Inv(states[i])
  {
    if i > 0 {
      RunInv(states, i - 1);
      assert Next(states[i - 1], states[i - 1 + 1]);
      StepInv(states[i - 1], states[i]);
    }
  }

  // ------------------------------------------------------------ main theorems

  /** `report.json` and `failure.json` never both exist. */
  lemma NeverBoth(states: seq<State>, i: nat)
    requires Run(states) && i < |states|
    ensures !(states[i].evidence.report && states[i].evidence.failure)
  {
    RunInv(states, i);
  }

  /** No check of the vocabulary is missing from the sequence. */
  lemma EveryCheckListed(c: Check)
    ensures c in ALL
  {
    if c.PlanDirectory? {
      if c.side.Reference? { assert c.side == Reference; } else { assert c.side == Candidate; }
    } else if c !in BEFORE {
      assert c in INSIDE by {
        match c {
          case TreeCopied(side) => EveryBuildCheck(side);
          case InputsResolved(side) => EveryBuildCheck(side);
          case Built(side) => EveryBuildCheck(side);
          case ArtifactsInside(side) => EveryBuildCheck(side);
          case PlanExported(side) => EveryBuildCheck(side);
          case ResolutionStable(side) => EveryBuildCheck(side);
          case BuildTreeUnchanged(side) => EveryBuildCheck(side);
          case PlanDirectoryAgain(side) => EveryBuildCheck(side);
          case BuildTreeAgain(side) => EveryBuildCheck(side);
          case _ =>
        }
      }
    }
  }

  lemma EveryBuildCheck(side: Side)
    ensures forall c :: c in BuildChecks(side) ==> c in INSIDE
    ensures TreeCopied(side) in INSIDE && PlanDirectoryAgain(side) in INSIDE && BuildTreeAgain(side) in INSIDE
  {
    if side.Reference? { assert side == Reference; } else { assert side == Candidate; }
  }

  /** A report exists only if one run passed every check there is, in order, and removed its
      scratch tree. */
  lemma ReportIsEarned(states: seq<State>, i: nat)
    requires Run(states) && i < |states| && states[i].evidence.report
    ensures exists id :: id in states[i].processes
              && var p := states[i].processes[id];
                 p.stage.Published? && p.passed == ALL && !p.scratch && forall c: Check :: c in p.passed
  {
    RunInv(states, i);
    var id := states[i].evidence.owner.value;
    assert id in states[i].processes && states[i].processes[id].stage.Published?;
    forall c: Check ensures c in states[i].processes[id].passed { EveryCheckListed(c); }
  }

  /** A failure exists only if the run that created the directory missed a check, could not
      write its pending report or could not remove its scratch tree. */
  lemma FailureIsEarned(states: seq<State>, i: nat)
    requires Run(states) && i < |states| && states[i].evidence.failure
    ensures var s := states[i];
            && s.evidence.owner.Some? && s.evidence.owner.value in s.processes
            && var p := s.processes[s.evidence.owner.value];
               p.stage.Exited? && (p.passed != ALL || !p.wrote || p.scratch)
  {
    RunInv(states, i);
  }

  /** At most one run of all runs on a plan ever publishes. */
  lemma OnePublisher(states: seq<State>, i: nat, a: nat, b: nat)
    requires Run(states) && i < |states| && a in states[i].processes && b in states[i].processes
    requires states[i].processes[a].stage.Published? && states[i].processes[b].stage.Published?
    ensures a == b
  {
    RunInv(states, i);
  }

  /** The verdict is final: a report stays, a failure stays, and the directory keeps its owner. */
  lemma {:induction false} VerdictIsFinal(states: seq<State>, i: nat, j: nat)
    requires Run(states) && i <= j < |states|
    ensures var e, f := states[i].evidence, states[j].evidence;
            && (e.report ==> f.report) && (e.failure ==> f.failure)
            && (e.owner.Some? ==> f.owner == e.owner)
    decreases j - i
  {
    if i < j {
      VerdictIsFinal(states, i, j - 1);
      assert Next(states[j - 1], states[j - 1 + 1]);
      StepKeepsVerdict(states[j - 1], states[j]);
    }
  }

  lemma StepKeepsVerdict(s: State, s': State)
    requires Next(s, s')
    ensures var e, f := s.evidence, s'.evidence;
            && (e.report ==> f.report) && (e.failure ==> f.failure)
            && (e.owner.Some? ==> f.owner == e.owner)
  {
    if id :| Acts(id, s, s') {
      assert s'.evidence == s.evidence || s.evidence.owner.None? || s'.evidence.owner == s.evidence.owner;
    }
  }

  /** So after a failure no later or concurrent run can publish on the same plan. */
  lemma NoReportAfterFailure(states: seq<State>, i: nat, j: nat)
    requires Run(states) && i <= j < |states| && states[i].evidence.failure
    ensures !states[j].evidence.report
  {
    VerdictIsFinal(states, i, j);
    NeverBoth(states, j);
  }

  // ------------------------------------------------ a report and a failure can be reached

  function Last(states: seq<State>): State
    requires states != []
  {
    states[|states| - 1]
  }

  /** The run continues with these states. */
  ghost predicate Continues(states: seq<State>, more: seq<State>) {
    states <= more && Run(more)
  }

  lemma Extend(states: seq<State>, s': State)
    requires Run(states) && Next(Last(states), s')
    ensures Continues(states, states + [s']) && Last(states + [s']) == s'
  {
    var more := states + [s'];
    forall i | 0 <= i < |more| - 1 ensures Next(more[i], more[i + 1]) {
      if i < |states| - 1 { assert Next(states[i], states[i + 1]); }
    }
  }

  lemma {:induction false} Bound(ids: set<nat>) returns (b: nat)
    ensures forall id :: id in ids ==> id < b
  {
    b := 0;
    if ids != {} {
      var top :| top in ids;
      b := Bound(ids - {top});
      if b <= top { b := top + 1; }
      forall id | id in ids ensures id < b { assert id == top || id in ids - {top}; }
    }
  }

  /** One process takes one step. */
  lemma Go(states: seq<State>, id: nat, s': State) returns (more: seq<State>)
    requires Run(states) && Acts(id, Last(states), s')
    ensures Continues(states, more) && Last(more) == s'
  {
    Extend(states, s');
    more := states + [s'];
  }

  /** One process passes its checks up to a given one. */
  lemma {:induction false} PassChecks(states: seq<State>, id: nat, p: Process, upto: nat) returns (more: seq<State>)
    requires Run(states) && id in Last(states).processes && Last(states).processes[id] == p
    requires Prefix(p.passed) && |p.passed| <= upto
    requires (p.stage.Checking? && upto <= |BEFORE|) || (p.stage.Verifying? && upto <= |ALL|)
    ensures Continues(states, more) && Last(more) == Move(Last(states), id, p.(passed := ALL[..upto]))
    decreases upto - |p.passed|
  {
    var s := Last(states);
    if |p.passed| == upto {
      assert p.passed == ALL[..upto];
      assert s.processes[id := p] == s.processes;
      assert Move(s, id, p) == s;
      more := states;
    } else {
      var q := p.(passed := p.passed + [ALL[|p.passed|]]);
      PrefixGrows(p.passed);
      more := Go(states, id, Move(s, id, q));
      more := PassChecks(more, id, q, upto);
      assert Move(Move(s, id, q), id, p.(passed := ALL[..upto])) == Move(s, id, p.(passed := ALL[..upto]));
    }
  }

  const UNOWNED := Evidence(None, false, false, false)

  /** A new process on a plan that nobody owns gets as far as the guarded steps. */
  lemma Begin(states: seq<State>) returns (more: seq<State>, id: nat)
    requires Run(states) && Last(states).evidence == UNOWNED
    ensures Continues(states, more) && Last(more).evidence == UNOWNED.(owner := Some(id))
    ensures id in Last(more).processes
    ensures Last(more).processes[id] == Process(Verifying, ALL[..|BEFORE|], false, true)
  {
    var s := Last(states);
    id := Bound(s.processes.Keys);
    var p := Process(Checking, [], false, false);
    assert id !in s.processes;
    Extend(states, Move(s, id, p));
    more := PassChecks(states + [Move(s, id, p)], id, p, |BEFORE|);
    var checked := Last(more);
    p := p.(passed := ALL[..|BEFORE|]);
    more := Go(more, id, Move(checked, id, p.(stage := MakingEvidence)));
    more := Go(more, id, Move(Last(more), id, p.(stage := MakingScratch)).(evidence := UNOWNED.(owner := Some(id))));
    more := Go(more, id, Move(Last(more), id, p.(stage := Verifying, scratch := true)));
  }

  /** With every guarded step passed the report can be published. */
  lemma Finish(states: seq<State>, id: nat, e: Evidence) returns (more: seq<State>)
    requires Run(states) && Last(states).evidence == e && !e.pending && id in Last(states).processes
    requires Last(states).processes[id] == Process(Verifying, ALL, false, true)
    ensures Continues(states, more) && Last(more).evidence == e.(report := true)
    ensures id in Last(more).processes && Last(more).processes[id] == Process(Published, ALL, true, false)
  {
    var p := Process(Verifying, ALL, false, true);
    more := Go(states, id, Move(Last(states), id, p.(stage := WritingPending)));
    p := p.(wrote := true);
    more := Go(more, id, Move(Last(more), id, p.(stage := Resolving(true))).(evidence := e.(pending := true)));
    more := Go(more, id, Move(Last(more), id, p.(stage := Cleaning(true))));
    p := p.(scratch := false);
    more := Go(more, id, Move(Last(more), id, p.(stage := Publishing)));
    more := Go(more, id, Move(Last(more), id, p.(stage := Published)).(evidence := e.(pending := false, report := true)));
  }

  /** A process that has not got through the guarded steps can end in a failure, whether or not its
      scratch tree can be removed. */
  lemma Fail(states: seq<State>, id: nat, p: Process, stuck: bool) returns (more: seq<State>)
    requires Run(states) && id in Last(states).processes && Last(states).processes[id] == p
    requires p.stage.Verifying? && p.scratch
    ensures Continues(states, more) && Last(more).evidence == Last(states).evidence.(failure := true)
    ensures id in Last(more).processes && Last(more).processes[id] == p.(stage := Exited, scratch := stuck)
  {
    var e := Last(states).evidence;
    more := Go(states, id, Move(Last(states), id, p.(stage := Resolving(false))));
    more := Go(more, id, Move(Last(more), id, p.(stage := Cleaning(false))));
    more := Go(more, id, Move(Last(more), id, p.(stage := WritingFailure, scratch := stuck)));
    more := Go(more, id, Move(Last(more), id, p.(stage := Exited, scratch := stuck)).(evidence := e.(failure := true)));
  }

  lemma UnownedIsClean(states: seq<State>)
    requires Run(states) && Last(states).evidence.owner.None?
    ensures Last(states).evidence == UNOWNED
  {
    RunInv(states, |states| - 1);
  }

  /** As long as nobody owns the plan's directory, whatever was tried before, a report can still
      be reached, and then there is no failure and nothing pending. */
  lemma CanPublish(states: seq<State>) returns (more: seq<State>)
    requires Run(states) && Last(states).evidence.owner.None?
    ensures Continues(states, more)
    ensures Last(more).evidence.report && !Last(more).evidence.failure && !Last(more).evidence.pending
  {
    UnownedIsClean(states);
    var id;
    more, id := Begin(states);
    more := PassChecks(more, id, Process(Verifying, ALL[..|BEFORE|], false, true), |ALL|);
    assert ALL[..|ALL|] == ALL;
    more := Finish(more, id, UNOWNED.(owner := Some(id)));
  }

  /** So can a failure, with the scratch tree removed or left behind, and then there is no report. */
  lemma CanFail(states: seq<State>, stuck: bool) returns (more: seq<State>, id: nat)
    requires Run(states) && Last(states).evidence.owner.None?
    ensures Continues(states, more) && Last(more).evidence.failure && !Last(more).evidence.report
    ensures id in Last(more).processes && Last(more).processes[id].scratch == stuck
  {
    UnownedIsClean(states);
    more, id := Begin(states);
    more := Fail(more, id, Process(Verifying, ALL[..|BEFORE|], false, true), stuck);
  }

  /** The run that owns the directory has ended without publishing. */
  predicate Abandoned(s: State) {
    s.evidence.owner.Some? && s.evidence.owner.value in s.processes
    && s.processes[s.evidence.owner.value].stage.Exited?
  }

  /** A run can also die on the way, and leave the directory with neither file. */
  lemma CanAbandon(states: seq<State>) returns (more: seq<State>)
    requires Run(states) && Last(states).evidence.owner.None?
    ensures Continues(states, more) && Abandoned(Last(more))
    ensures !Last(more).evidence.report && !Last(more).evidence.failure
  {
    UnownedIsClean(states);
    var id;
    more, id := Begin(states);
    var s := Last(more);
    var s' := Move(s, id, s.processes[id].(stage := Exited));
    assert id in s.processes && !Final(s.processes[id].stage);
    Extend(more, s');
    more := more + [s'];
  }

  lemma StepAbandoned(s: State, s': State)
    requires Inv(s) && Next(s, s') && Abandoned(s)
    ensures Abandoned(s') && s'.evidence == s.evidence
  {
    if id :| Acts(id, s, s') {
      assert !s.processes[id].stage.Exited? && id != s.evidence.owner.value;
      assert !Owning(s.processes[id].stage);
    }
  }

  lemma AbandonedNext(states: seq<State>, k: nat)
    requires Run(states) && k + 1 < |states| && Abandoned(states[k])
    ensures Abandoned(states[k + 1]) && states[k + 1].evidence == states[k].evidence
  {
    RunInv(states, k);
    var s, s' := states[k], states[k + 1];
    assert Next(s, s');
    StepAbandoned(s, s');
  }

  /** An abandoned directory stays as it is: no run on that plan ever publishes, or fails, any more. */
  lemma {:induction false} AbandonedForGood(states: seq<State>, i: nat, j: nat)
    requires Run(states) && i <= j < |states| && Abandoned(states[i])
    ensures Abandoned(states[j]) && states[j].evidence == states[i].evidence
    decreases j - i
  {
    if i < j {
      AbandonedNext(states, i);
      AbandonedForGood(states, i + 1, j);
    }
  }
}
