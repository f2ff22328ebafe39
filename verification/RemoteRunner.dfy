/** The remote validation runner of xtask/src/validation_remote_runner.rs: a worker and a
    heartbeat thread that share a stop flag, under every schedule and every registry reply. */
module RemoteRunner {
  import opened Text

  datatype Claim = Claim(
    runnable: bool, version: string, crateName: string, stageKey: string, manual: bool, checksum: string,
    suggestedPass: Option<string>, suggestedFailure: Option<string>, allowed: seq<string>)

  /** What the local workspace answers: `None` where the step fails. */
  datatype Local = Local(
    slugKnown: bool, preview: Option<Preview>, artifactChecksum: Option<string>, commands: Option<nat>,
    passDefault: string, failureDefault: string)

  datatype Preview = Preview(version: string, crateName: string)

  const REVIEW := "security_policy_review"

  /** Where the worker is. `Deciding` walks the checks of the claim in order. */
  datatype Worker =
    | Starting
    | Deciding(check: nat)
    | Running(next: nat)
    | Completing
    | Stopping(ok: bool)
    | Joining(ok: bool)
    | Reporting
    | AwaitingReport
    | Returned(ok: bool)

  datatype Heart = Unborn | Head | Asleep | Recheck | Sending | Awaiting | Dead

  datatype Event =
    | Ran(command: nat)
    | CompleteSent(code: string)
    | CompleteAccepted
    | HeartbeatSent
    | FailSent(code: string)
    | Done

  datatype State = State(worker: Worker, heart: Heart, stop: bool, trace: seq<Event>)

  const INITIAL := State(Starting, Unborn, false, [])

  // ------------------------------------------------------------ the claim's checks

  const CHECKS := 7

  /** Check number `i` of `execute_remote_validation_claim`, in source order. */
  predicate Passes(c: Claim, l: Local, i: nat) {
    match i
    case 0 => l.slugKnown
    case 1 => l.preview.Some?
    case 2 => l.preview.Some? && l.preview.value.version == c.version
    case 3 => l.preview.Some? && l.preview.value.crateName == c.crateName
    case 4 => c.manual == (c.stageKey == REVIEW)
    case 5 => l.artifactChecksum == Some(c.checksum)
    case _ => l.commands.Some?
  }

  /** The local workspace matches the claim in every respect. */
  predicate Matches(c: Claim, l: Local) {
    && l.slugKnown && l.preview == Some(Preview(c.version, c.crateName))
    && c.manual == (c.stageKey == REVIEW)
    && l.artifactChecksum == Some(c.checksum) && l.commands.Some?
  }

  predicate Permitted(c: Claim, code: string) {
    c.allowed == [] || exists i :: 0 <= i < |c.allowed| && SameIgnoringCase(c.allowed[i], code)
  }

  function ReasonCode(c: Claim, suggested: Option<string>, default: string): string {
    if suggested.Some? && Permitted(c, suggested.value) then suggested.value else default
  }

  // ------------------------------------------------------------------- steps

  function Emit(s: State, e: Event): State {
    s.(trace := s.trace + [e])
  }

  /** One atomic step of the worker. Command results and replies are arbitrary. */
  ghost predicate WorkerStep(c: Claim, l: Local, s: State, s': State) {
    match s.worker
    case Starting =>
      if c.runnable then s' == s.(worker := Deciding(0), heart := Head)
      else s' == Emit(s, Done).(worker := Returned(false))
    case Deciding(i) =>
      if !Passes(c, l, i) then s' == s.(worker := Stopping(false))
      else s' == s.(worker := if i + 1 < CHECKS then Deciding(i + 1) else Running(0))
    case Running(i) =>
      if l.commands.Some? && i < l.commands.value then
        || s' == Emit(s, Ran(i)).(worker := Running(i + 1))
        || s' == Emit(s, Ran(i)).(worker := Stopping(false))
      else s' == Emit(s, CompleteSent(ReasonCode(c, c.suggestedPass, l.passDefault))).(worker := Completing)
    case Completing =>
      || s' == Emit(s, CompleteAccepted).(worker := Stopping(true))
      || s' == s.(worker := Stopping(false))
    case Stopping(ok) => s' == s.(stop := true, worker := Joining(ok))
    case Joining(ok) =>
      s.heart == Dead && s' == if ok then Emit(s, Done).(worker := Returned(true)) else s.(worker := Reporting)
    case Reporting =>
      s' == Emit(s, FailSent(ReasonCode(c, c.suggestedFailure, l.failureDefault))).(worker := AwaitingReport)
    case AwaitingReport => s' == Emit(s, Done).(worker := Returned(false))
    case Returned(_) => false
  }

  /** One atomic step of the heartbeat thread. The flag is read with relaxed ordering, so a
      read may miss a store for any length of time; it never sees one that did not happen. */
  ghost predicate HeartStep(s: State, s': State) {
    match s.heart
    case Unborn => false
    case Head => s' == s.(heart := Asleep) || (s.stop && s' == s.(heart := Dead))
    case Asleep => s' == s.(heart := Recheck)
    case Recheck => s' == s.(heart := Sending) || (s.stop && s' == s.(heart := Dead))
    case Sending => s' == Emit(s, HeartbeatSent).(heart := Awaiting)
    case Awaiting => s' == s.(heart := Head) || s' == s.(heart := Dead)
    case Dead => false
  }

  ghost predicate Next(c: Claim, l: Local, s: State, s': State) {
    WorkerStep(c, l, s, s') || HeartStep(s, s')
  }

  ghost predicate Run(c: Claim, l: Local, states: seq<State>) {
    && states != [] && states[0] == INITIAL
    && forall i :: 0 <= i < |states| - 1 ==> Next(c, l, states[i], states[i + 1])
  }

  // --------------------------------------------------------------- invariant

  predicate Alive(h: Heart) {
    !h.Unborn? && !h.Dead?
  }

  datatype Kind = Execution | Completion | Acceptance | Beat | Failure | End

  function KindOf(e: Event): Kind {
    match e
    case Ran(_) => Execution
    case CompleteSent(_) => Completion
    case CompleteAccepted => Acceptance
    case HeartbeatSent => Beat
    case FailSent(_) => Failure
    case Done => End
  }

  /** How many events of this kind the trace holds. */
  function Count(t: seq<Event>, k: Kind): nat {
    if t == [] then 0 else Count(t[..|t| - 1], k) + (if KindOf(t[|t| - 1]) == k then 1 else 0)
  }

  lemma CountEmit(t: seq<Event>, e: Event, k: Kind)
    ensures Count(t + [e], k) == Count(t, k) + (if KindOf(e) == k then 1 else 0)
  {
    assert (t + [e])[..|t|] == t;
  }

  /** All the counts that matter to the worker's position. */
  datatype Totals = Totals(ran: nat, completions: nat, accepted: nat, failures: nat, done: nat)

  function TotalsOf(t: seq<Event>): Totals {
    Totals(Count(t, Execution), Count(t, Completion), Count(t, Acceptance), Count(t, Failure), Count(t, End))
  }

  function Bump(n: Totals, k: Kind): Totals {
    match k
    case Execution => n.(ran := n.ran + 1)
    case Completion => n.(completions := n.completions + 1)
    case Acceptance => n.(accepted := n.accepted + 1)
    case Beat => n
    case Failure => n.(failures := n.failures + 1)
    case End => n.(done := n.done + 1)
  }

  lemma TotalsEmit(t: seq<Event>, e: Event)
    ensures TotalsOf(t + [e]) == Bump(TotalsOf(t), KindOf(e))
  {
    CountEmit(t, e, Execution);
    CountEmit(t, e, Completion);
    CountEmit(t, e, Acceptance);
    CountEmit(t, e, Failure);
    CountEmit(t, e, End);
  }

  lemma {:induction false} CountZero(t: seq<Event>, k: Kind)
    requires Count(t, k) == 0
    ensures forall i :: 0 <= i < |t| ==> KindOf(t[i]) != k
  {
    if t != [] { CountZero(t[..|t| - 1], k); }
  }

  /** What has been sent, as a function of where the worker is. */
  predicate Sent(c: Claim, l: Local, w: Worker, n: Totals) {
    match w
    case Starting => n == Totals(0, 0, 0, 0, 0)
    case Deciding(i) => i < CHECKS && n == Totals(0, 0, 0, 0, 0)
    case Running(i) => l.commands.Some? && i <= l.commands.value && n == Totals(i, 0, 0, 0, 0)
    case Completing => l.commands == Some(n.ran) && n == Totals(n.ran, 1, 0, 0, 0)
    case Stopping(ok) => Closing(ok, n.completions, n.accepted) && n.failures == n.done == 0
    case Joining(ok) => Closing(ok, n.completions, n.accepted) && n.failures == n.done == 0
    case Reporting => n.completions <= 1 && n.accepted == n.failures == n.done == 0
    case AwaitingReport => n.completions <= 1 && n.accepted == n.done == 0 && n.failures == 1
    case Returned(ok) =>
      && n.done == 1
      && if ok then n.completions == n.accepted == 1 && n.failures == 0
         else n.accepted == 0 && n.completions <= 1 && n.failures == if c.runnable then 1 else 0
  }

  predicate Closing(ok: bool, completions: nat, accepted: nat) {
    completions <= 1 && accepted == (if ok then 1 else 0) && (ok ==> completions == 1)
  }

  /** The heartbeat thread is over once the worker is past the join. */
  predicate Quiet(w: Worker, h: Heart) {
    w.Reporting? || w.AwaitingReport? || w.Returned? ==> !Alive(h)
  }

  predicate PassedSoFar(c: Claim, l: Local, w: Worker) {
    match w
    case Starting => true
    case Deciding(i) => forall j: nat :: j < i ==> Passes(c, l, j)
    case Running(_) => Matches(c, l)
    case Completing => Matches(c, l)
    case _ => true
  }

  /** Commands run in order, only on a matching workspace, and before any completion. */
  predicate Guarded(c: Claim, l: Local, t: seq<Event>) {
    forall i :: 0 <= i < |t| ==> GuardedAt(c, l, t, i)
  }

  predicate GuardedAt(c: Claim, l: Local, t: seq<Event>, i: nat)
    requires i < |t|
  {
    && (t[i].Ran? || t[i].CompleteSent? ==> Matches(c, l) && c.runnable)
    && (t[i].Ran? ==> t[i].command == Count(t[..i], Execution))
    && (t[i].CompleteSent? ==> l.commands == Some(Count(t[..i], Execution)))
    && (t[i].CompleteSent? ==> t[i].code == ReasonCode(c, c.suggestedPass, l.passDefault))
    && (t[i].FailSent? ==> t[i].code == ReasonCode(c, c.suggestedFailure, l.failureDefault))
  }

  /** No heartbeat is sent after a failure report or after the function returned. */
  predicate SilentAfter(t: seq<Event>) {
    forall i, j :: 0 <= i < j < |t| ==> SilentPair(t, i, j)
  }

  predicate SilentPair(t: seq<Event>, i: nat, j: nat)
    requires i < j < |t|
  {
    t[i].FailSent? || t[i].Done? ==> !t[j].HeartbeatSent?
  }

  predicate Inv(c: Claim, l: Local, s: State) {
    && Sent(c, l, s.worker, TotalsOf(s.trace))
    && Quiet(s.worker, s.heart)
    && (s.worker.Starting? ==> s.heart.Unborn?)
    && (!s.worker.Starting? && !s.worker.Returned? ==> !s.heart.Unborn? && c.runnable)
    && PassedSoFar(c, l, s.worker)
    && Guarded(c, l, s.trace)
    && SilentAfter(s.trace)
  }

  /** What an event must satisfy to be appended to a guarded trace. */
  predicate Justified(c: Claim, l: Local, t: seq<Event>, e: Event) {
    match e
    case Ran(n) => Matches(c, l) && c.runnable && n == Count(t, Execution)
    case CompleteSent(code) =>
      && Matches(c, l) && c.runnable && l.commands == Some(Count(t, Execution))
      && code == ReasonCode(c, c.suggestedPass, l.passDefault)
    case FailSent(code) => code == ReasonCode(c, c.suggestedFailure, l.failureDefault)
    case HeartbeatSent => Count(t, Failure) == 0 && Count(t, End) == 0
    case _ => true
  }

  lemma EmitKeeps(c: Claim, l: Local, t: seq<Event>, e: Event)
    requires Guarded(c, l, t) && SilentAfter(t) && Justified(c, l, t, e)
    ensures Guarded(c, l, t + [e]) && SilentAfter(t + [e])
  {
    var u := t + [e];
    forall i | 0 <= i < |u| ensures GuardedAt(c, l, u, i) {
      assert u[..i] == t[..i];
      if i < |t| { assert GuardedAt(c, l, t, i); } else { assert t[..i] == t; }
    }
    if e.HeartbeatSent? {
      CountZero(t, Failure);
      CountZero(t, End);
    }
    forall i, j | 0 <= i < j < |u| ensures SilentPair(u, i, j) {
      if j < |t| {
        assert SilentPair(t, i, j);
      } else if e.HeartbeatSent? {
        assert KindOf(t[i]) != Failure && KindOf(t[i]) != End;
      }
    }
  }

  lemma PassedAll(c: Claim, l: Local, i: nat)
    requires (forall j: nat :: j < i ==> Passes(c, l, j)) && Passes(c, l, i)
    ensures forall j: nat :: j < i + 1 ==> Passes(c, l, j)
    ensures i + 1 >= CHECKS ==> Matches(c, l)
  {
    if i + 1 >= CHECKS {
      assert Passes(c, l, 0) && Passes(c, l, 1) && Passes(c, l, 2) && Passes(c, l, 3);
      assert Passes(c, l, 4) && Passes(c, l, 5) && Passes(c, l, 6);
    }
  }

  lemma StartingInv(c: Claim, l: Local, s: State, s': State)
    requires Inv(c, l, s) && s.worker.Starting? && WorkerStep(c, l, s, s')
    ensures Inv(c, l, s')
  {
    TotalsEmit(s.trace, Done);
    EmitKeeps(c, l, s.trace, Done);
  }

  lemma DecidingInv(c: Claim, l: Local, s: State, s': State)
    requires Inv(c, l, s) && s.worker.Deciding? && WorkerStep(c, l, s, s')
    ensures Inv(c, l, s')
  {
    assert s'.trace == s.trace && s'.heart == s.heart;
    if Passes(c, l, s.worker.check) {
      PassedAll(c, l, s.worker.check);
    }
  }

  lemma RunningInv(c: Claim, l: Local, s: State, s': State)
    requires Inv(c, l, s) && s.worker.Running? && WorkerStep(c, l, s, s')
    ensures Inv(c, l, s')
  {
    if s.worker.next < l.commands.value {
      CommandInv(c, l, s, s');
    } else {
      LastCommandInv(c, l, s, s');
    }
  }

  lemma CommandInv(c: Claim, l: Local, s: State, s': State)
    requires Inv(c, l, s) && s.worker.Running? && s.worker.next < l.commands.value && WorkerStep(c, l, s, s')
    ensures Inv(c, l, s')
  {
    var e := Ran(s.worker.next);
    assert s'.trace == s.trace + [e] && s'.heart == s.heart;
    TotalsEmit(s.trace, e);
    EmitKeeps(c, l, s.trace, e);
  }

  lemma LastCommandInv(c: Claim, l: Local, s: State, s': State)
    requires Inv(c, l, s) && s.worker.Running? && s.worker.next >= l.commands.value && WorkerStep(c, l, s, s')
    ensures Inv(c, l, s')
  {
    var e := CompleteSent(ReasonCode(c, c.suggestedPass, l.passDefault));
    assert s'.trace == s.trace + [e] && s'.heart == s.heart;
    TotalsEmit(s.trace, e);
    EmitKeeps(c, l, s.trace, e);
  }

  lemma CompletingInv(c: Claim, l: Local, s: State, s': State)
    requires Inv(c, l, s) && WorkerStep(c, l, s, s') && s.worker.Completing?
    ensures Inv(c, l, s')
  {
    TotalsEmit(s.trace, CompleteAccepted);
    EmitKeeps(c, l, s.trace, CompleteAccepted);
  }

  lemma ClosingInv(c: Claim, l: Local, s: State, s': State)
    requires Inv(c, l, s) && WorkerStep(c, l, s, s') && (s.worker.Stopping? || s.worker.Joining?)
    ensures Inv(c, l, s')
  {
    TotalsEmit(s.trace, Done);
    EmitKeeps(c, l, s.trace, Done);
  }

  lemma ReportingInv(c: Claim, l: Local, s: State, s': State)
    requires Inv(c, l, s) && (s.worker.Reporting? || s.worker.AwaitingReport?) && WorkerStep(c, l, s, s')
    ensures Inv(c, l, s')
  {
    if s.worker.Reporting? {
      var e := FailSent(ReasonCode(c, c.suggestedFailure, l.failureDefault));
      TotalsEmit(s.trace, e);
      EmitKeeps(c, l, s.trace, e);
    } else {
      TotalsEmit(s.trace, Done);
      EmitKeeps(c, l, s.trace, Done);
    }
  }

  lemma HeartInv(c: Claim, l: Local, s: State, s': State)
    requires Inv(c, l, s) && HeartStep(s, s')
    ensures Inv(c, l, s')
  {
    if s.heart.Sending? {
      BeatInv(c, l, s, s');
    } else {
      assert s'.trace == s.trace && s'.worker == s.worker;
    }
  }

  /** A live heartbeat thread means that nothing final has been sent. */
  lemma AliveMeansOpen(c: Claim, l: Local, w: Worker, h: Heart, n: Totals)
    requires Sent(c, l, w, n) && Quiet(w, h) && Alive(h)
    ensures n.failures == n.done == 0
  {
  }

  lemma BeatInv(c: Claim, l: Local, s: State, s': State)
    requires Inv(c, l, s) && s.heart.Sending? && s' == Emit(s, HeartbeatSent).(heart := Awaiting)
    ensures Inv(c, l, s')
  {
    AliveMeansOpen(c, l, s.worker, s.heart, TotalsOf(s.trace));
    TotalsEmit(s.trace, HeartbeatSent);
    EmitKeeps(c, l, s.trace, HeartbeatSent);
  }

  lemma StepInv(c: Claim, l: Local, s: State, s': State)
    requires Inv(c, l, s) && Next(c, l, s, s')
    ensures Inv(c, l, s')
  {
    if HeartStep(s, s') {
      HeartInv(c, l, s, s');
    } else {
      match s.worker {
        case Starting => StartingInv(c, l, s, s');
        case Deciding(_) => DecidingInv(c, l, s, s');
        case Running(_) => RunningInv(c, l, s, s');
        case Completing => CompletingInv(c, l, s, s');
        case Stopping(_) => ClosingInv(c, l, s, s');
        case Joining(_) => ClosingInv(c, l, s, s');
        case Reporting => ReportingInv(c, l, s, s');
        case AwaitingReport => ReportingInv(c, l, s, s');
      }
    }
  }

  lemma {:induction false} RunInv(c: Claim, l: Local, states: seq<State>, i: nat)
    requires Run(c, l, states) && i < |states|
    ensures Inv(c, l, states[i])
  {
    if i > 0 {
      RunInv(c, l, states, i - 1);
      assert Next(c, l, states[i - 1], states[i - 1 + 1]);
      StepInv(c, l, states[i - 1], states[i]);
    }
  }

  // ------------------------------------------------------------ main theorems

  /** In every interleaving: a completion and a failure are each sent at most once, and no
      failure is reported once a completion was accepted. */
  lemma AtMostOnce(c: Claim, l: Local, states: seq<State>, i: nat)
    requires Run(c, l, states) && i < |states|
    ensures var t := states[i].trace;
            && Count(t, Completion) <= 1 && Count(t, Failure) <= 1 && Count(t, End) <= 1
            && (Count(t, Failure) == 0 || Count(t, Acceptance) == 0)
  {
    RunInv(c, l, states, i);
  }

  /** A runnable claim ends in a completion or failure attempt; the result is success exactly
      when the completion was accepted, and a claim that is not runnable sends nothing. */
  lemma EndsInAttempt(c: Claim, l: Local, states: seq<State>, i: nat)
    requires Run(c, l, states) && i < |states| && states[i].worker.Returned?
    ensures var t := states[i].trace;
            && (c.runnable ==> Count(t, Completion) + Count(t, Failure) >= 1)
            && (states[i].worker.ok <==> Count(t, Acceptance) == 1)
            && (c.runnable ==> (states[i].worker.ok <==> Count(t, Failure) == 0))
            && (!c.runnable ==> Count(t, Completion) == Count(t, Failure) == Count(t, Execution) == 0)
  {
    RunInv(c, l, states, i);
    var t := states[i].trace;
    if !c.runnable {
      NothingCounted(c, l, t, Execution);
      NothingCounted(c, l, t, Completion);
    }
  }

  lemma {:induction false} NothingCounted(c: Claim, l: Local, t: seq<Event>, k: Kind)
    requires Guarded(c, l, t) && !(c.runnable && Matches(c, l)) && (k == Execution || k == Completion)
    ensures Count(t, k) == 0
  {
    if t != [] {
      var u := t[..|t| - 1];
      forall i | 0 <= i < |u| ensures GuardedAt(c, l, u, i) {
        assert GuardedAt(c, l, t, i) && u[..i] == t[..i];
      }
      assert GuardedAt(c, l, t, |t| - 1);
      NothingCounted(c, l, u, k);
    }
  }

  /** No heartbeat is sent once the failure report has started or the function has returned. */
  lemma NoLateHeartbeat(c: Claim, l: Local, states: seq<State>, i: nat, j: nat, k: nat)
    requires Run(c, l, states) && i < |states| && j < k < |states[i].trace|
    requires states[i].trace[j].FailSent? || states[i].trace[j].Done?
    ensures !states[i].trace[k].HeartbeatSent?
  {
    RunInv(c, l, states, i);
    assert SilentPair(states[i].trace, j, k);
  }

  /** Commands run in order and only on a workspace that matched the claim in version, crate
      name, policy and artifact digest; a completion follows all of them. */
  lemma CommandsGuarded(c: Claim, l: Local, states: seq<State>, i: nat, j: nat)
    requires Run(c, l, states) && i < |states| && j < |states[i].trace|
    ensures var t := states[i].trace;
            && (t[j].Ran? ==> Matches(c, l) && t[j].command == Count(t[..j], Execution))
            && (t[j].CompleteSent? ==> Matches(c, l) && l.commands == Some(Count(t[..j], Execution)))
  {
    RunInv(c, l, states, i);
    assert GuardedAt(c, l, states[i].trace, j);
  }

  /** The reason code sent is the default or one the claim allows. */
  lemma CodesAllowed(c: Claim, l: Local, states: seq<State>, i: nat, j: nat)
    requires Run(c, l, states) && i < |states| && j < |states[i].trace|
    ensures var e := states[i].trace[j];
            && (e.CompleteSent? ==> e.code == l.passDefault || Permitted(c, e.code))
            && (e.FailSent? ==> e.code == l.failureDefault || Permitted(c, e.code))
  {
    RunInv(c, l, states, i);
    assert GuardedAt(c, l, states[i].trace, j);
  }

  /** The reason code sent is the suggested one exactly when there is one and the claim permits
      it: no list, or an entry that differs in case at most. */
  lemma CodesExact(c: Claim, l: Local, states: seq<State>, i: nat, j: nat)
    requires Run(c, l, states) && i < |states| && j < |states[i].trace|
    ensures var e := states[i].trace[j];
            && (e.CompleteSent? ==> ChosenCode(c, c.suggestedPass, l.passDefault, e.code))
            && (e.FailSent? ==> ChosenCode(c, c.suggestedFailure, l.failureDefault, e.code))
  {
    RunInv(c, l, states, i);
    assert GuardedAt(c, l, states[i].trace, j);
  }

  predicate ChosenCode(c: Claim, suggested: Option<string>, default: string, code: string) {
    match suggested
    case None => code == default
    case Some(s) =>
      if c.allowed != [] && forall i :: 0 <= i < |c.allowed| ==> !SameIgnoringCase(c.allowed[i], s)
      then code == default else code == s
  }

  // ------------------------------------------------ which claims are carried out

  /** The checks let through exactly the claims that the workspace matches. */
  lemma ChecksExact(c: Claim, l: Local)
    ensures (forall i: nat :: i < CHECKS ==> Passes(c, l, i)) <==> Matches(c, l)
  {
    if forall i: nat :: i < CHECKS ==> Passes(c, l, i) {
      assert Passes(c, l, 0) && Passes(c, l, 1) && Passes(c, l, 2) && Passes(c, l, 3);
      assert Passes(c, l, 4) && Passes(c, l, 5) && Passes(c, l, 6);
    }
  }

  /** A worker on its way out of a matching claim has run a command or sent the completion. */
  predicate Engaged(c: Claim, l: Local, s: State) {
    c.runnable && Matches(c, l) && Leaving(s.worker) ==>
      Count(s.trace, Completion) >= 1 || (Count(s.trace, Execution) >= 1 && l.commands.value >= 1)
  }

  predicate Leaving(w: Worker) {
    w.Stopping? || w.Joining? || w.Reporting? || w.AwaitingReport? || w.Returned?
  }

  /** A step leaves the trace alone or adds one event; no count ever falls. */
  ghost predicate Extends(t: seq<Event>, t': seq<Event>) {
    t' == t || exists e :: t' == t + [e]
  }

  lemma ExtendsCount(t: seq<Event>, t': seq<Event>, k: Kind)
    requires Extends(t, t')
    ensures Count(t, k) <= Count(t', k)
  {
    if t' != t {
      var e :| t' == t + [e];
      CountEmit(t, e, k);
    }
  }

  lemma WorkerExtends(c: Claim, l: Local, s: State, s': State)
    requires WorkerStep(c, l, s, s')
    ensures Extends(s.trace, s'.trace)
  {
  }

  lemma HeartExtends(s: State, s': State)
    requires HeartStep(s, s')
    ensures Extends(s.trace, s'.trace)
  {
  }

  /** The steps on which the worker turns to leave. */
  lemma WorkerTurns(c: Claim, l: Local, s: State, s': State)
    requires Sent(c, l, s.worker, TotalsOf(s.trace)) && !Leaving(s.worker) && WorkerStep(c, l, s, s')
    ensures Engaged(c, l, s')
  {
    match s.worker {
      case Starting =>
      case Deciding(i) => ChecksExact(c, l);
      case Running(i) => CountEmit(s.trace, Ran(i), Execution);
      case Completing => CountEmit(s.trace, CompleteAccepted, Completion);
    }
  }

  lemma StepEngaged(c: Claim, l: Local, s: State, s': State)
    requires Inv(c, l, s) && Engaged(c, l, s) && Next(c, l, s, s')
    ensures Engaged(c, l, s')
  {
    if HeartStep(s, s') {
      HeartExtends(s, s');
      ExtendsCount(s.trace, s'.trace, Completion);
      ExtendsCount(s.trace, s'.trace, Execution);
      assert s'.worker == s.worker;
    } else if Leaving(s.worker) {
      WorkerExtends(c, l, s, s');
      ExtendsCount(s.trace, s'.trace, Completion);
      ExtendsCount(s.trace, s'.trace, Execution);
    } else {
      WorkerTurns(c, l, s, s');
    }
  }

  lemma {:induction false} RunEngaged(c: Claim, l: Local, states: seq<State>, i: nat)
    requires Run(c, l, states) && i < |states|
    ensures Engaged(c, l, states[i])
  {
    if i > 0 {
      RunEngaged(c, l, states, i - 1);
      RunInv(c, l, states, i - 1);
      assert Next(c, l, states[i - 1], states[i - 1 + 1]);
      StepEngaged(c, l, states[i - 1], states[i]);
    }
  }

  /** A returned call on a runnable claim that the workspace matches has sent a completion, or
      stopped at a command it ran; without commands it has sent the completion. */
  lemma MatchingIsCarriedOut(c: Claim, l: Local, states: seq<State>, i: nat)
    requires Run(c, l, states) && i < |states| && states[i].worker.Returned? && c.runnable && Matches(c, l)
    ensures var t := states[i].trace;
            && (Count(t, Completion) == 1 || Count(t, Execution) >= 1)
            && (l.commands == Some(0) ==> Count(t, Completion) == 1)
  {
    RunInv(c, l, states, i);
    RunEngaged(c, l, states, i);
  }

  /** On a claim that the workspace does not match nothing is run or completed, and exactly one
      failure is reported. */
  lemma MismatchIsRefused(c: Claim, l: Local, states: seq<State>, i: nat)
    requires Run(c, l, states) && i < |states| && states[i].worker.Returned? && c.runnable && !Matches(c, l)
    ensures var t := states[i].trace;
            Count(t, Execution) == Count(t, Completion) == 0 && Count(t, Failure) == 1 && !states[i].worker.ok
  {
    RunInv(c, l, states, i);
    NothingCounted(c, l, states[i].trace, Execution);
    NothingCounted(c, l, states[i].trace, Completion);
  }

  // ------------------------------------------------------------ a way to the end

  /** How far the worker is from returning. */
  function WorkerRank(l: Local, w: Worker): nat {
    var commands := if l.commands.Some? then l.commands.value else 0;
    match w
    case Returned(_) => 0
    case AwaitingReport => 1
    case Reporting => 2
    case Joining(_) => 3
    case Stopping(_) => 4
    case Completing => 5
    case Running(i) => 6 + if i < commands then commands - i else 0
    case Deciding(i) => 7 + commands + if i < CHECKS then CHECKS - i else 0
    case Starting => 8 + commands + CHECKS
  }

  /** How far the heartbeat thread is from ending once it can see the flag. */
  function HeartRank(h: Heart): nat {
    match h
    case Dead => 0
    case Asleep => 2
    case Sending => 2
    case _ => 1
  }

  /** The worker waits for the other thread only after it has raised the flag. */
  predicate Flagged(s: State) {
    s.worker.Joining? ==> s.stop
  }

  lemma {:induction false} RunFlagged(c: Claim, l: Local, states: seq<State>, i: nat)
    requires Run(c, l, states) && i < |states|
    ensures Flagged(states[i])
  {
    if i > 0 {
      RunFlagged(c, l, states, i - 1);
      RunInv(c, l, states, i - 1);
      assert Next(c, l, states[i - 1], states[i - 1 + 1]);
    }
  }

  /** While the worker waits, the heartbeat thread can come one step closer to its end. */
  lemma HeartAdvance(s: State) returns (s': State)
    requires s.stop && Alive(s.heart)
    ensures HeartStep(s, s') && s'.worker == s.worker && s'.stop && HeartRank(s'.heart) < HeartRank(s.heart)
  {
    match s.heart {
      case Asleep => s' := s.(heart := Recheck);
      case Sending => s' := Emit(s, HeartbeatSent).(heart := Awaiting);
      case Head => s' := s.(heart := Dead);
      case Recheck => s' := s.(heart := Dead);
      case Awaiting => s' := s.(heart := Dead);
    }
  }

  /** No step has failed so far. */
  predicate Succeeding(w: Worker) {
    match w
    case Stopping(ok) => ok
    case Joining(ok) => ok
    case Returned(ok) => ok
    case Reporting => false
    case AwaitingReport => false
    case _ => true
  }

  /** Otherwise the worker can come one step closer to returning. */
  lemma WorkerAdvance(c: Claim, l: Local, s: State) returns (s': State)
    requires Inv(c, l, s) && !s.worker.Returned? && (s.worker.Joining? ==> s.heart.Dead?)
    ensures WorkerStep(c, l, s, s') && Flagged(s') && WorkerRank(l, s'.worker) < WorkerRank(l, s.worker)
    ensures c.runnable && Matches(c, l) && Succeeding(s.worker) ==> Succeeding(s'.worker)
    ensures !Succeeding(s.worker) ==> !Succeeding(s'.worker)
  {
    ChecksExact(c, l);
    match s.worker {
      case Starting =>
        s' := if c.runnable then s.(worker := Deciding(0), heart := Head)
              else Emit(s, Done).(worker := Returned(false));
      case Deciding(k) =>
        s' := if !Passes(c, l, k) then s.(worker := Stopping(false))
              else s.(worker := if k + 1 < CHECKS then Deciding(k + 1) else Running(0));
      case Running(k) =>
        s' := if k < l.commands.value then Emit(s, Ran(k)).(worker := Running(k + 1))
              else Emit(s, CompleteSent(ReasonCode(c, c.suggestedPass, l.passDefault))).(worker := Completing);
      case Completing => s' := Emit(s, CompleteAccepted).(worker := Stopping(true));
      case Stopping(ok) => s' := s.(stop := true, worker := Joining(ok));
      case Joining(ok) => s' := if ok then Emit(s, Done).(worker := Returned(true)) else s.(worker := Reporting);
      case Reporting =>
        s' := Emit(s, FailSent(ReasonCode(c, c.suggestedFailure, l.failureDefault))).(worker := AwaitingReport);
      case AwaitingReport => s' := Emit(s, Done).(worker := Returned(false));
    }
  }

  /** A schedule that leads from here to the return. */
  ghost predicate Leads(c: Claim, l: Local, s: State, path: seq<State>) {
    && path != [] && path[0] == s && path[|path| - 1].worker.Returned?
    && forall i :: 0 <= i < |path| - 1 ==> Next(c, l, path[i], path[i + 1])
  }

  lemma LeadsCons(c: Claim, l: Local, s: State, s': State, rest: seq<State>)
    requires Next(c, l, s, s') && Leads(c, l, s', rest)
    ensures Leads(c, l, s, [s] + rest)
  {
    var path := [s] + rest;
    forall i | 0 <= i < |path| - 1 ensures Next(c, l, path[i], path[i + 1]) {
      if i > 0 { assert Next(c, l, rest[i - 1], rest[i - 1 + 1]); }
    }
  }

  lemma {:induction false} Finishes(c: Claim, l: Local, s: State) returns (path: seq<State>)
    requires Inv(c, l, s) && Flagged(s)
    ensures Leads(c, l, s, path)
    ensures c.runnable && Matches(c, l) && Succeeding(s.worker) ==> path[|path| - 1].worker.ok
    ensures !Succeeding(s.worker) ==> !path[|path| - 1].worker.ok
    decreases WorkerRank(l, s.worker), HeartRank(s.heart)
  {
    if s.worker.Returned? {
      path := [s];
    } else {
      var s';
      if s.worker.Joining? && !s.heart.Dead? {
        s' := HeartAdvance(s);
      } else {
        s' := WorkerAdvance(c, l, s);
      }
      StepInv(c, l, s, s');
      var rest := Finishes(c, l, s');
      LeadsCons(c, l, s, s', rest);
      path := [s] + rest;
    }
  }

  /** The two threads can never block each other: from every reachable state, whatever was
      scheduled and answered so far, some finite schedule makes the function return. */
  lemma CanReturn(c: Claim, l: Local, states: seq<State>) returns (more: seq<State>)
    requires Run(c, l, states)
    ensures states <= more && Run(c, l, more) && more[|more| - 1].worker.Returned?
    ensures c.runnable && Matches(c, l) && Succeeding(states[|states| - 1].worker) ==> more[|more| - 1].worker.ok
    ensures !Succeeding(states[|states| - 1].worker) ==> !more[|more| - 1].worker.ok
  {
    var n := |states| - 1;
    RunInv(c, l, states, n);
    RunFlagged(c, l, states, n);
    var path := Finishes(c, l, states[n]);
    more := states + path[1..];
    forall i | 0 <= i < |more| - 1 ensures Next(c, l, more[i], more[i + 1]) {
      if i < n {
        assert Next(c, l, states[i], states[i + 1]);
      } else {
        assert Next(c, l, path[i - n], path[i - n + 1]);
        assert more[i] == path[i - n] && more[i + 1] == path[i - n + 1];
      }
    }
  }

  /** A matching runnable claim can succeed: every command in order, then the accepted completion. */
  lemma CanSucceed(c: Claim, l: Local) returns (states: seq<State>)
    requires c.runnable && Matches(c, l)
    ensures Run(c, l, states)
    ensures var s := states[|states| - 1];
            && s.worker == Returned(true) && Count(s.trace, Acceptance) == 1 && Count(s.trace, Failure) == 0
  {
    states := CanReturn(c, l, [INITIAL]);
    var n := |states| - 1;
    RunInv(c, l, states, n);
    EndsInAttempt(c, l, states, n);
  }

  /** Any command may fail, and so may the completion; the call then returns with a failure. */
  lemma CanStillFail(c: Claim, l: Local, states: seq<State>) returns (more: seq<State>)
    requires Run(c, l, states)
    requires var w := states[|states| - 1].worker;
             (w.Running? && l.commands.Some? && w.next < l.commands.value) || w.Completing?
    ensures states < more && Run(c, l, more) && more[|more| - 1].worker == Returned(false)
  {
    var s := states[|states| - 1];
    var s' := if s.worker.Running? then Emit(s, Ran(s.worker.next)).(worker := Stopping(false))
              else s.(worker := Stopping(false));
    more := states + [s'];
    forall i | 0 <= i < |more| - 1 ensures Next(c, l, more[i], more[i + 1]) {
      if i < |states| - 1 { assert Next(c, l, states[i], states[i + 1]); }
    }
    more := CanReturn(c, l, more);
  }

  // ------------------------------------------------------------ the heartbeat

  /** How far a live heartbeat thread is from its next heartbeat. */
  function BeatRank(h: Heart): nat {
    match h
    case Sending => 1
    case Recheck => 2
    case Asleep => 3
    case Head => 4
    case Awaiting => 5
    case _ => 0
  }

  /** As long as the thread lives, some schedule of its own steps sends another heartbeat. */
  lemma {:induction false} CanBeat(c: Claim, l: Local, states: seq<State>) returns (more: seq<State>)
    requires Run(c, l, states) && Alive(states[|states| - 1].heart)
    ensures states < more && Run(c, l, more)
    ensures more[|more| - 1].trace == states[|states| - 1].trace + [HeartbeatSent]
    decreases BeatRank(states[|states| - 1].heart)
  {
    var s := states[|states| - 1];
    var s' := match s.heart
              case Sending => Emit(s, HeartbeatSent).(heart := Awaiting)
              case Recheck => s.(heart := Sending)
              case Asleep => s.(heart := Recheck)
              case Head => s.(heart := Asleep)
              case _ => s.(heart := Head);
    more := states + [s'];
    forall i | 0 <= i < |more| - 1 ensures Next(c, l, more[i], more[i + 1]) {
      if i < |states| - 1 { assert Next(c, l, states[i], states[i + 1]); }
    }
    if !s.heart.Sending? { more := CanBeat(c, l, more); }
  }

  /** The thread is waiting for a reply, or has ended without the flag, only after a heartbeat. */
  predicate Reasoned(s: State) {
    s.heart.Awaiting? || (s.heart.Dead? && !s.stop) ==> Count(s.trace, Beat) >= 1
  }

  lemma StepReasoned(c: Claim, l: Local, s: State, s': State)
    requires Inv(c, l, s) && Reasoned(s) && Next(c, l, s, s')
    ensures Reasoned(s')
  {
    if HeartStep(s, s') {
      HeartExtends(s, s');
      if s.heart.Sending? { CountEmit(s.trace, HeartbeatSent, Beat); }
    } else {
      WorkerExtends(c, l, s, s');
      WorkerLeavesHeart(c, l, s, s');
      ExtendsCount(s.trace, s'.trace, Beat);
    }
  }

  lemma WorkerLeavesHeart(c: Claim, l: Local, s: State, s': State)
    requires WorkerStep(c, l, s, s')
    ensures s'.heart == s.heart || s'.heart.Head?
    ensures s.stop ==> s'.stop
  {
  }

  /** The thread ends only once the flag is up or a heartbeat it sent has failed. */
  lemma {:induction false} EndsForAReason(c: Claim, l: Local, states: seq<State>, i: nat)
    requires Run(c, l, states) && i < |states|
    ensures Reasoned(states[i])
  {
    if i > 0 {
      EndsForAReason(c, l, states, i - 1);
      RunInv(c, l, states, i - 1);
      assert Next(c, l, states[i - 1], states[i - 1 + 1]);
      StepReasoned(c, l, states[i - 1], states[i]);
    }
  }
}
