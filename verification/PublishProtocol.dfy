/** The live publish client of xtask/src/registry_publish_lifecycle.rs and registry_status.rs,
    against every possible sequence of registry replies. */
module PublishProtocol {
  import opened Text

  datatype Stage = Stage(key: string, status: string)

  datatype Status = Status(
    status: string, accepted: bool, stages: seq<Stage>, overrideRequired: bool, actions: seq<string>)

  datatype Mutation = Mutation(accepted: bool, requestId: Option<string>, status: Option<string>)

  datatype Request =
    | CreateRequest | UploadArtifact | StartValidation | ReadStatus
    | ReportStage(status: string) | Approve(reason: Option<string>, code: Option<string>)

  /** `NoReply` is a transport, HTTP or decoding error. */
  datatype Reply = NoReply | Changed(mutation: Mutation) | Seen(status: Status)

  datatype Exchange = Exchange(request: Request, reply: Reply)

  type Trace = seq<Exchange>

  /** The registry's answer to request number k, for every k, and the results of local steps. */
  datatype World = World(
    change: nat -> Option<Mutation>, status: nat -> Option<Status>,
    artifactBuilds: bool, planBuilds: bool, commands: nat, commandSucceeds: nat -> bool)

  datatype Options = Options(
    autoApprove: bool, confirmReview: bool, reason: Option<string>, code: Option<string>)

  const REVIEW := "security_policy_review"
  const ATTEMPTS := 10

  // -------------------------------------------------------- the pure predicates

  predicate Blank(s: Option<string>) {
    s.None? || s.value == ""
  }

  predicate StepAccepted(m: Mutation) {
    m.accepted && m.status != Some("rejected")
  }

  predicate NotRejected(st: Status) {
    st.accepted && st.status != "rejected"
  }

  /** The first stage with this key is what counts. */
  predicate StageOpen(stages: seq<Stage>, key: string) {
    stages != [] &&
    if SameIgnoringCase(stages[0].key, key) then !SameIgnoringCase(stages[0].status, "passed")
    else StageOpen(stages[1..], key)
  }

  /** Number `i` is the first stage with this key, and it has not passed. */
  predicate FirstOpen(stages: seq<Stage>, key: string, i: nat) {
    && i < |stages| && SameIgnoringCase(stages[i].key, key) && !SameIgnoringCase(stages[i].status, "passed")
    && forall j :: 0 <= j < i ==> !SameIgnoringCase(stages[j].key, key)
  }

  /** A stage requires action exactly when the first one with its key has any status but passed. */
  lemma {:induction false} StageOpenExact(stages: seq<Stage>, key: string)
    ensures StageOpen(stages, key) <==> exists i :: 0 <= i < |stages| && FirstOpen(stages, key, i)
  {
    if stages != [] && !SameIgnoringCase(stages[0].key, key) {
      var rest := stages[1..];
      StageOpenExact(rest, key);
      if i :| 0 <= i < |rest| && FirstOpen(rest, key, i) {
        assert FirstOpen(stages, key, i + 1) by {
          forall j | 0 <= j < i + 1 ensures !SameIgnoringCase(stages[j].key, key) {
            if j > 0 { assert stages[j] == rest[j - 1]; }
          }
        }
      }
      if i :| 0 <= i < |stages| && FirstOpen(stages, key, i) {
        assert FirstOpen(rest, key, i - 1);
      }
    } else if stages != [] {
      if StageOpen(stages, key) { assert FirstOpen(stages, key, 0); }
    }
  }

  predicate Offers(st: Status, action: string) {
    exists i :: 0 <= i < |st.actions| && SameIgnoringCase(st.actions[i], action)
  }

  predicate Desired(st: Status, wanted: seq<string>) {
    st.status in wanted
  }

  // ------------------------------------------------------------ what must hold

  predicate IsRead(x: Exchange) {
    x.request.ReadStatus? && x.reply.Seen?
  }

  /** A reply after which the client may go on. */
  predicate MayContinue(x: Exchange) {
    match x.reply
    case NoReply => false
    case Changed(m) => m.accepted
    case Seen(st) => st.status != "rejected"
  }

  /** Nothing is sent after a failed request, a refused change or a rejected status. */
  predicate StopsInTime(t: Trace) {
    forall i :: 0 <= i < |t| - 1 ==> MayContinue(t[i])
  }

  /** The three opening requests, all accepted, with a usable request id. */
  predicate Opened(t: Trace) {
    && |t| >= 3
    && t[0].request.CreateRequest? && t[0].reply.Changed? && t[0].reply.mutation.accepted
    && t[0].reply.mutation.requestId.Some? && Trim(Rust, t[0].reply.mutation.requestId.value) != ""
    && t[1].request.UploadArtifact? && t[1].reply.Changed? && StepAccepted(t[1].reply.mutation)
    && t[2].request.StartValidation? && t[2].reply.Changed? && StepAccepted(t[2].reply.mutation)
  }

  /** The newest status read in the trace, if any. */
  function NewestRead(t: Trace): Option<Status> {
    if t == [] then None
    else if IsRead(t[|t| - 1]) then Some(t[|t| - 1].reply.status)
    else NewestRead(t[..|t| - 1])
  }

  predicate Approvable(st: Status) {
    NotRejected(st) && st.status == "approved" && Offers(st, "approve")
  }

  /** The approvable reading the client acts on: the very last exchange, or the one just
      before a confirmed follow-up and its new reading. */
  predicate ActsOn(o: Options, before: Trace, j: nat) {
    && j < |before| && IsRead(before[j]) && Approvable(before[j].reply.status)
    && IsRead(before[|before| - 1])
    && if Reviews(o, before[j].reply.status)
       then j + 4 == |before| && before[j + 1].request == ReportStage("running")
            && before[j + 2].request == ReportStage("passed")
       else j + 1 == |before|
  }

  /** The review stage is open and confirmed, so the follow-up runs. */
  predicate Reviews(o: Options, st: Status) {
    StageOpen(st.stages, REVIEW) && o.confirmReview
  }

  /** What has to have happened before an approval may be posted. */
  predicate MayApprove(o: Options, before: Trace) {
    && Opened(before) && o.autoApprove && (exists j :: 0 <= j < |before| && ActsOn(o, before, j))
    && NewestRead(before).Some? && NotRejected(NewestRead(before).value)
    && (NewestRead(before).value.overrideRequired ==> !Blank(o.reason) && !Blank(o.code))
  }

  predicate NoApproval(t: Trace) {
    forall i :: 0 <= i < |t| ==> !t[i].request.Approve?
  }

  /** At most one approval, and only when everything before it allows it. */
  predicate Approvals(o: Options, t: Trace) {
    && (forall i, j :: 0 <= i < j < |t| && t[i].request.Approve? ==> !t[j].request.Approve?)
    && (forall i :: 0 <= i < |t| && t[i].request.Approve? ==>
          MayApprove(o, t[..i]) && t[i].request == Approve(o.reason, o.code))
  }

  predicate Safe(o: Options, t: Trace) {
    StopsInTime(t) && Approvals(o, t)
  }

  lemma NoApprovalSafe(o: Options, t: Trace)
    requires StopsInTime(t) && NoApproval(t)
    ensures Safe(o, t)
  {
  }

  lemma StopsAppend(t: Trace, x: Exchange)
    requires StopsInTime(t) && (t != [] ==> MayContinue(t[|t| - 1]))
    ensures StopsInTime(t + [x])
  {
  }

  // ------------------------------------------------------------------ polling

  /** The reads one poll adds: all but the last succeed without a wanted status, and the last
      is a failed read, a wanted status, or the tenth read. */
  predicate PollTrace(polled: Trace, wanted: seq<string>) {
    && 1 <= |polled| <= ATTEMPTS
    && (forall i :: 0 <= i < |polled| ==> polled[i].request.ReadStatus? && !polled[i].reply.Changed?)
    && (forall i :: 0 <= i < |polled| - 1 ==> IsRead(polled[i]) && !Desired(polled[i].reply.status, wanted))
    && (polled[|polled| - 1].reply.Seen? && !Desired(polled[|polled| - 1].reply.status, wanted) ==>
          |polled| == ATTEMPTS)
  }

  function ReadAt(w: World, t: Trace): Exchange {
    var answer := w.status(|t|);
    Exchange(ReadStatus, if answer.None? then NoReply else Seen(answer.value))
  }

  /** At most `n` reads, up to the first failed one or the first wanted status. */
  function PollFrom(w: World, t: Trace, wanted: seq<string>, n: nat): Trace
    decreases n
  {
    if n == 0 then t
    else
      var x := ReadAt(w, t);
      if !IsRead(x) || Desired(x.reply.status, wanted) then t + [x] else PollFrom(w, t + [x], wanted, n - 1)
  }

  function LastRead(t: Trace): Option<Status> {
    if t != [] && IsRead(t[|t| - 1]) then Some(t[|t| - 1].reply.status) else None
  }

  /** The replies of a poll are the server's, in order. */
  lemma {:induction false} PollReads(w: World, t: Trace, wanted: seq<string>, n: nat)
    ensures var p := PollFrom(w, t, wanted, n);
            && t <= p && |p| <= |t| + n
            && (forall i :: |t| <= i < |p| ==> p[i] == ReadAt(w, p[..i]))
            && (forall i :: |t| <= i < |p| - 1 ==> IsRead(p[i]) && !Desired(p[i].reply.status, wanted))
            && (|t| < |p| && IsRead(p[|p| - 1]) && !Desired(p[|p| - 1].reply.status, wanted) ==> |p| == |t| + n)
            && (n > 0 ==> |t| < |p|)
    decreases n
  {
    if n > 0 {
      var x := ReadAt(w, t);
      assert (t + [x])[..|t|] == t;
      if IsRead(x) && !Desired(x.reply.status, wanted) {
        var p := PollFrom(w, t + [x], wanted, n - 1);
        PollReads(w, t + [x], wanted, n - 1);
        assert p[..|t|] == (t + [x])[..|t|] == t && p[|t|] == x;
      }
    }
  }

  /** Against any server a poll stops exactly at a failed read, at a wanted status, or at the
      tenth read: a read that is merely not accepted, with an unwanted status, is polled past. */
  lemma PollEndsExactly(w: World, before: Trace, wanted: seq<string>, i: nat)
    requires |before| <= i < |PollFrom(w, before, wanted, ATTEMPTS)|
    ensures var t := PollFrom(w, before, wanted, ATTEMPTS);
            i == |t| - 1 <==>
            w.status(i).None? || w.status(i).value.status in wanted || i == |before| + 10 - 1
  {
    PollReads(w, before, wanted, ATTEMPTS);
    var t := PollFrom(w, before, wanted, ATTEMPTS);
    assert t[i] == ReadAt(w, t[..i]);
    if i == |t| - 1 { assert t[|t| - 1] == t[i]; }
  }

  /** What one poll adds to a trace that may go on. */
  lemma PollSafe(w: World, before: Trace, wanted: seq<string>)
    requires "rejected" in wanted
    requires StopsInTime(before) && (before != [] ==> MayContinue(before[|before| - 1]))
    ensures var t := PollFrom(w, before, wanted, ATTEMPTS);
            before < t && PollTrace(t[|before|..], wanted) && StopsInTime(t)
  {
    PollReads(w, before, wanted, ATTEMPTS);
    PollShape(w, before, wanted, PollFrom(w, before, wanted, ATTEMPTS));
  }

  lemma PollShape(w: World, before: Trace, wanted: seq<string>, t: Trace)
    requires "rejected" in wanted
    requires StopsInTime(before) && (before != [] ==> MayContinue(before[|before| - 1]))
    requires before < t && |t| <= |before| + ATTEMPTS
    requires forall i :: |before| <= i < |t| ==> t[i] == ReadAt(w, t[..i])
    requires forall i :: |before| <= i < |t| - 1 ==> IsRead(t[i]) && !Desired(t[i].reply.status, wanted)
    requires IsRead(t[|t| - 1]) && !Desired(t[|t| - 1].reply.status, wanted) ==> |t| == |before| + ATTEMPTS
    ensures PollTrace(t[|before|..], wanted) && StopsInTime(t)
  {
    forall i | 0 <= i < |t| - 1 ensures MayContinue(t[i]) {
      if i < |before| { assert t[i] == before[i]; }
    }
    var polled := t[|before|..];
    assert polled[|polled| - 1] == t[|t| - 1];
    forall i | 0 <= i < |polled| ensures polled[i].request.ReadStatus? && !polled[i].reply.Changed? {
      assert polled[i] == t[|before| + i] == ReadAt(w, t[..|before| + i]);
    }
  }

  method Poll(w: World, before: Trace, wanted: seq<string>) returns (t: Trace, last: Option<Status>)
    ensures t == PollFrom(w, before, wanted, ATTEMPTS) && last == LastRead(t)
  {
    t := before;
    last := None;
    var attempt := 0;
    while attempt < ATTEMPTS
      invariant 0 <= attempt <= ATTEMPTS
      invariant PollFrom(w, before, wanted, ATTEMPTS) == PollFrom(w, t, wanted, ATTEMPTS - attempt)
      invariant attempt > 0 ==> last == LastRead(t)
    {
      var answer := w.status(|t|);
      if answer.None? {
        t, last := t + [Exchange(ReadStatus, NoReply)], None;
        return;
      }
      t, last := t + [Exchange(ReadStatus, Seen(answer.value))], answer;
      if Desired(answer.value, wanted) { return; }
      attempt := attempt + 1;
    }
  }

  // ------------------------------------------------------- the steps of publishing

  /** The last exchange gives the reason for a failed call. */
  predicate Explained(w: World, o: Options, t: Trace) {
    t != [] &&
    var x := t[|t| - 1];
    match x.request
    case CreateRequest =>
      || !x.reply.Changed? || !x.reply.mutation.accepted || !w.artifactBuilds
      || x.reply.mutation.requestId.None? || Trim(Rust, x.reply.mutation.requestId.value) == ""
    case ReportStage(status) => status == "failed" || !MayContinue(x)
    case ReadStatus => !x.reply.Seen? || !NotRejected(x.reply.status) || Unready(w, o, x.reply.status)
    case _ => !x.reply.Changed? || !StepAccepted(x.reply.mutation)
  }

  /** An accepted status on which the client gives up. */
  predicate Unready(w: World, o: Options, st: Status) {
    || (st.status != "approved" && st.status != "published")
    || !Offers(st, "approve")
    || (o.autoApprove && st.overrideRequired && (Blank(o.reason) || Blank(o.code)))
    || (o.autoApprove && o.confirmReview && StageOpen(st.stages, REVIEW) && !w.planBuilds)
  }

  function ChangeAt(w: World, t: Trace, request: Request): Exchange {
    var answer := w.change(|t|);
    Exchange(request, if answer.None? then NoReply else Changed(answer.value))
  }

  method Change(w: World, before: Trace, request: Request) returns (t: Trace, m: Option<Mutation>)
    ensures m == w.change(|before|) && t == before + [ChangeAt(w, before, request)]
  {
    m := w.change(|before|);
    t := before + [Exchange(request, if m.None? then NoReply else Changed(m.value))];
  }

  /** The opening requests, each sent only after the one before it went well. */
  function OpenTrace(w: World): Trace {
    var t1 := [ChangeAt(w, [], CreateRequest)];
    var t2 := t1 + [ChangeAt(w, t1, UploadArtifact)];
    if !Created(t1[0]) || !w.artifactBuilds then t1
    else if !Advanced(t2[1]) then t2
    else t2 + [ChangeAt(w, t2, StartValidation)]
  }

  predicate Created(x: Exchange) {
    && x.reply.Changed? && x.reply.mutation.accepted
    && x.reply.mutation.requestId.Some? && Trim(Rust, x.reply.mutation.requestId.value) != ""
  }

  predicate Advanced(x: Exchange) {
    x.reply.Changed? && StepAccepted(x.reply.mutation)
  }

  lemma OpenSafe(w: World, o: Options)
    ensures var t := OpenTrace(w);
            && StopsInTime(t) && NoApproval(t) && (Opened(t) ==> |t| == 3 && MayContinue(t[2]))
            && (!Opened(t) ==> Explained(w, o, t))
  {
  }

  /** Create, upload, validate. */
  method Open(w: World) returns (t: Trace, ok: bool)
    ensures t == OpenTrace(w) && ok == Opened(t)
  {
    ok := false;
    var m: Option<Mutation>;
    t, m := Change(w, [], CreateRequest);
    if m.None? || !m.value.accepted { return; }
    if m.value.requestId.None? || Trim(Rust, m.value.requestId.value) == "" { return; }
    if !w.artifactBuilds { return; }
    t, m := Change(w, t, UploadArtifact);
    if m.None? || !StepAccepted(m.value) { return; }
    t, m := Change(w, t, StartValidation);
    if m.None? || !StepAccepted(m.value) { return; }
    ok := true;
  }

  predicate AllSucceed(w: World) {
    forall k :: 0 <= k < w.commands ==> w.commandSucceeds(k)
  }

  function StagesTrace(w: World, t: Trace): Trace {
    var running := t + [ChangeAt(w, t, ReportStage("running"))];
    if !MayContinue(running[|t|]) then running
    else running + [ChangeAt(w, running, ReportStage(if AllSucceed(w) then "passed" else "failed"))]
  }

  predicate StagesPassed(t: Trace) {
    t != [] && t[|t| - 1].request == ReportStage("passed") && MayContinue(t[|t| - 1])
  }

  lemma StagesSafe(w: World, before: Trace)
    requires StopsInTime(before) && before != [] && MayContinue(before[|before| - 1]) && NoApproval(before)
    ensures var t := StagesTrace(w, before);
            && before < t && StopsInTime(t) && NoApproval(t) && t[|before|].request == ReportStage("running")
            && (MayContinue(t[|before|]) ==> |t| == |before| + 2)
            && (|t| == |before| + 2 ==>
                  t[|before| + 1].request
                  == ReportStage(if exists k :: 0 <= k < w.commands && !w.commandSucceeds(k) then "failed" else "passed"))
            && (StagesPassed(t) ==> |t| == |before| + 2)
            && (!StagesPassed(t) ==> !MayContinue(t[|t| - 1]) || t[|t| - 1].request == ReportStage("failed"))
  {
    StopsAppend(before, ChangeAt(w, before, ReportStage("running")));
  }

  method ReportStages(w: World, before: Trace) returns (t: Trace, ok: bool)
    ensures t == StagesTrace(w, before) && ok == StagesPassed(t)
  {
    ok := false;
    var m: Option<Mutation>;
    t, m := Change(w, before, ReportStage("running"));
    if m.None? || !m.value.accepted { return; }
    for k := 0 to w.commands
      invariant forall j :: 0 <= j < k ==> w.commandSucceeds(j)
    {
      if !w.commandSucceeds(k) {
        t, m := Change(w, t, ReportStage("failed"));
        return;
      }
    }
    t, m := Change(w, t, ReportStage("passed"));
    ok := m.Some? && m.value.accepted;
  }

  /** The trace after the follow-up, and the status to decide on, if there is one. */
  datatype Reached = Reached(trace: Trace, newest: Option<Status>)

  function FollowUpRun(w: World, o: Options, t: Trace, readiness: Status): Reached {
    if !Reviews(o, readiness) then Reached(t, Some(readiness))
    else if !w.planBuilds then Reached(t, None)
    else
      var u := StagesTrace(w, t);
      if !StagesPassed(u) then Reached(u, None)
      else
        var x := ReadAt(w, u);
        Reached(u + [x], if IsRead(x) && NotRejected(x.reply.status) then Some(x.reply.status) else None)
  }

  lemma FollowUpSafe(w: World, o: Options, before: Trace, readiness: Status)
    requires StopsInTime(before) && before != [] && IsRead(before[|before| - 1]) && NoApproval(before)
    requires before[|before| - 1].reply.status == readiness && NotRejected(readiness)
    ensures var t, newest := FollowUpRun(w, o, before, readiness).trace, FollowUpRun(w, o, before, readiness).newest;
            && before <= t && NoApproval(t) && StopsInTime(t)
            && (newest.Some? ==> NotRejected(newest.value) && LastRead(t) == newest)
            && (newest.Some? ==> Followed(o, before, readiness, t))
            && (newest.None? && o.autoApprove && Approvable(readiness) ==> Explained(w, o, t))
  {
    if Reviews(o, readiness) && w.planBuilds {
      StagesSafe(w, before);
      var u := StagesTrace(w, before);
      if StagesPassed(u) { StopsAppend(u, ReadAt(w, u)); }
    }
  }

  /** Nothing was sent, or the two reports and the new reading. */
  predicate Followed(o: Options, before: Trace, readiness: Status, t: Trace) {
    if Reviews(o, readiness)
    then |t| == |before| + 3 && t[|before|].request == ReportStage("running")
         && t[|before| + 1].request == ReportStage("passed")
    else t == before
  }

  /** `run_publish_follow_up_stages_if_needed` */
  method FollowUp(w: World, o: Options, before: Trace, readiness: Status) returns (t: Trace, newest: Option<Status>)
    ensures Reached(t, newest) == FollowUpRun(w, o, before, readiness)
  {
    t, newest := before, Some(readiness);
    if !StageOpen(readiness.stages, REVIEW) || !o.confirmReview { return; }
    if !w.planBuilds { return before, None; }
    var ok;
    t, ok := ReportStages(w, before);
    if !ok { return t, None; }
    var answer := w.status(|t|);
    t := t + [Exchange(ReadStatus, if answer.None? then NoReply else Seen(answer.value))];
    newest := if answer.Some? && NotRejected(answer.value) then answer else None;
  }

  datatype Outcome = Failure | Success(status: Status)

  /** How a successful call may end under automatic approval: published, or approved and then
      ten reads that never said so. */
  predicate Concluded(t: Trace, st: Status) {
    || st.status == "published"
    || (exists k :: 0 <= k < |t| && t[k].request.Approve? && |t| == k + 1 + ATTEMPTS
          && forall i :: k < i < |t| ==> IsRead(t[i]) && !Desired(t[i].reply.status, ["published", "rejected"]))
  }

  datatype Session = Session(trace: Trace, outcome: Outcome)

  /** The outcome of a poll that must not end in a rejection. */
  function Settle(t: Trace): Session {
    var last := LastRead(t);
    Session(t, if last.Some? && NotRejected(last.value) then Success(last.value) else Failure)
  }

  function DecideRun(w: World, o: Options, before: Trace, readiness: Status): Session {
    var r := FollowUpRun(w, o, before, readiness);
    if r.newest.None? || (r.newest.value.overrideRequired && (Blank(o.reason) || Blank(o.code)))
    then Session(r.trace, Failure)
    else ApproveRun(w, o, r.trace)
  }

  function ApproveRun(w: World, o: Options, before: Trace): Session {
    var t := before + [ChangeAt(w, before, Approve(o.reason, o.code))];
    if !Advanced(t[|before|]) then Session(t, Failure)
    else Settle(PollFrom(w, t, ["published", "rejected"], ATTEMPTS))
  }

  /** The whole call as a function of the server's answers. */
  function PublishRun(w: World, o: Options): Session {
    var opening := OpenTrace(w);
    if !Opened(opening) then Session(opening, Failure)
    else AfterPoll(w, o, PollFrom(w, opening, ["approved", "published", "rejected"], ATTEMPTS))
  }

  /** What holds of every session, whatever the server answers: approval at most once and only
      when allowed, nothing after a rejected reading or a failed request, and a reason for
      every failure in the last exchange. */
  ghost predicate Proper(w: World, o: Options, s: Session) {
    && Safe(o, s.trace)
    && (s.outcome.Success? ==> NotRejected(s.outcome.status) && LastRead(s.trace) == Some(s.outcome.status))
    && (s.outcome.Failure? ==> Explained(w, o, s.trace))
    && (s.outcome.Success? && o.autoApprove ==> Concluded(s.trace, s.outcome.status))
    && (s.outcome.Success? && !o.autoApprove ==>
          NoApproval(s.trace) && (s.outcome.status.status == "published" || Approvable(s.outcome.status)))
  }

  lemma PublishProper(w: World, o: Options)
    ensures Proper(w, o, PublishRun(w, o))
  {
    var opening := OpenTrace(w);
    OpenSafe(w, o);
    NoApprovalSafe(o, opening);
    if Opened(opening) {
      var wanted := ["approved", "published", "rejected"];
      PollSafe(w, opening, wanted);
      var t := PollFrom(w, opening, wanted, ATTEMPTS);
      PolledNoApproval(opening, t);
      OpenedStays(opening, t);
      NoApprovalSafe(o, t);
      ReadinessProper(w, o, t);
    }
  }

  /** The rest of the session, after the poll for readiness. */
  function AfterPoll(w: World, o: Options, t: Trace): Session {
    var s := Settle(t);
    if s.outcome.Failure? || s.outcome.status.status == "published" then s
    else if !Approvable(s.outcome.status) then Session(s.trace, Failure)
    else if !o.autoApprove then s
    else DecideRun(w, o, s.trace, s.outcome.status)
  }

  lemma ReadinessProper(w: World, o: Options, t: Trace)
    requires Opened(t) && StopsInTime(t) && NoApproval(t) && Safe(o, t)
    requires t[|t| - 1].request.ReadStatus?
    ensures Proper(w, o, AfterPoll(w, o, t))
  {
    var s := Settle(t);
    if s.outcome.Success? && Approvable(s.outcome.status) && o.autoApprove {
      DecideProper(w, o, t, s.outcome.status);
    }
  }

  lemma DecideProper(w: World, o: Options, before: Trace, readiness: Status)
    requires Opened(before) && StopsInTime(before) && NoApproval(before) && o.autoApprove
    requires LastRead(before) == Some(readiness) && Approvable(readiness)
    ensures Proper(w, o, DecideRun(w, o, before, readiness))
  {
    var f := FollowUpRun(w, o, before, readiness);
    FollowUpSafe(w, o, before, readiness);
    NoApprovalSafe(o, f.trace);
    if f.newest.Some? && !(f.newest.value.overrideRequired && (Blank(o.reason) || Blank(o.code))) {
      FollowUpAllows(o, before, readiness, f.trace, f.newest.value);
      ApproveProper(w, o, f.trace);
    }
  }

  lemma FollowUpAllows(o: Options, before: Trace, readiness: Status, t: Trace, newest: Status)
    requires Opened(before) && o.autoApprove && before <= t
    requires LastRead(before) == Some(readiness) && Approvable(readiness)
    requires LastRead(t) == Some(newest) && NotRejected(newest) && Followed(o, before, readiness, t)
    requires newest.overrideRequired ==> !Blank(o.reason) && !Blank(o.code)
    ensures MayApprove(o, t)
  {
    OpenedStays(before, t);
    assert t[|before| - 1] == before[|before| - 1];
    assert ActsOn(o, t, |before| - 1);
  }

  lemma ApproveProper(w: World, o: Options, before: Trace)
    requires MayApprove(o, before) && NoApproval(before) && StopsInTime(before) && MayContinue(before[|before| - 1])
    ensures Proper(w, o, ApproveRun(w, o, before))
  {
    var x := ChangeAt(w, before, Approve(o.reason, o.code));
    var t := before + [x];
    StopsAppend(before, x);
    ApprovedSafe(o, before, t);
    if Advanced(x) {
      PollSafe(w, t, ["published", "rejected"]);
      ApprovedPoll(w, o, t, PollFrom(w, t, ["published", "rejected"], ATTEMPTS));
    }
  }

  lemma ApprovedPoll(w: World, o: Options, approved: Trace, t: Trace)
    requires Safe(o, approved) && approved != [] && approved[|approved| - 1].request.Approve? && approved < t
    requires PollTrace(t[|approved|..], ["published", "rejected"]) && StopsInTime(t) && o.autoApprove
    ensures Proper(w, o, Settle(t))
  {
    PolledSafe(o, approved, t);
    var polled := t[|approved|..];
    assert polled[|polled| - 1] == t[|t| - 1];
    if Settle(t).outcome.Success? { ConcludedByPoll(approved, t, Settle(t).outcome.status); }
  }

  /** `publish_via_registry_live` */
  method Publish(w: World, o: Options) returns (t: Trace, r: Outcome)
    ensures Session(t, r) == PublishRun(w, o) && Proper(w, o, Session(t, r))
  {
    PublishProper(w, o);
    var ok;
    t, ok := Open(w);
    if !ok { return t, Failure; }
    var readiness;
    t, readiness := Poll(w, t, ["approved", "published", "rejected"]);
    if readiness.None? || !NotRejected(readiness.value) { return t, Failure; }
    if readiness.value.status == "published" { return t, Success(readiness.value); }
    if readiness.value.status != "approved" || !Offers(readiness.value, "approve") { return t, Failure; }
    if !o.autoApprove { return t, Success(readiness.value); }
    t, r := Decide(w, o, t, readiness.value);
  }

  /** From the approved reading on. */
  method Decide(w: World, o: Options, before: Trace, readiness: Status) returns (t: Trace, r: Outcome)
    ensures Session(t, r) == DecideRun(w, o, before, readiness)
  {
    var newest;
    t, newest := FollowUp(w, o, before, readiness);
    if newest.None? || (newest.value.overrideRequired && (Blank(o.reason) || Blank(o.code))) {
      return t, Failure;
    }
    t, r := PostApproval(w, o, t);
  }

  /** The approval and the poll for its effect. */
  method PostApproval(w: World, o: Options, before: Trace) returns (t: Trace, r: Outcome)
    ensures Session(t, r) == ApproveRun(w, o, before)
  {
    var m;
    t, m := Change(w, before, Approve(o.reason, o.code));
    if m.None? || !StepAccepted(m.value) { return t, Failure; }
    var last;
    t, last := Poll(w, t, ["published", "rejected"]);
    if last.None? || !NotRejected(last.value) { return t, Failure; }
    r := Success(last.value);
  }

  lemma ConcludedByPoll(approved: Trace, t: Trace, st: Status)
    requires approved != [] && approved[|approved| - 1].request.Approve? && approved < t
    requires PollTrace(t[|approved|..], ["published", "rejected"])
    requires IsRead(t[|t| - 1]) && t[|t| - 1].reply.status == st && NotRejected(st)
    ensures Concluded(t, st)
  {
    var k := |approved| - 1;
    var polled := t[k + 1..];
    assert t[k] == approved[k];
    assert polled[|polled| - 1] == t[|t| - 1];
    if st.status != "published" {
      forall i | k < i < |t| ensures IsRead(t[i]) && !Desired(t[i].reply.status, ["published", "rejected"]) {
        assert polled[i - k - 1] == t[i];
      }
    }
  }

  lemma OpenedStays(a: Trace, b: Trace)
    requires Opened(a) && a <= b
    ensures Opened(b)
  {
    assert b[0] == a[0] && b[1] == a[1] && b[2] == a[2];
  }

  lemma PolledNoApproval(a: Trace, b: Trace)
    requires NoApproval(a) && a < b
    requires forall i :: 0 <= i < |b[|a|..]| ==> b[|a|..][i].request.ReadStatus?
    ensures NoApproval(b)
  {
    forall i | 0 <= i < |b| ensures !b[i].request.Approve? {
      if i < |a| { assert b[i] == a[i]; } else { assert b[i] == b[|a|..][i - |a|]; }
    }
  }

  lemma ApprovedSafe(o: Options, before: Trace, t: Trace)
    requires NoApproval(before) && MayApprove(o, before) && StopsInTime(t)
    requires |t| == |before| + 1 && before < t && t[|before|].request == Approve(o.reason, o.code)
    ensures Safe(o, t)
  {
    assert t[..|before|] == before;
    assert forall i :: 0 <= i < |before| ==> t[i] == before[i];
  }

  lemma PolledSafe(o: Options, a: Trace, b: Trace)
    requires Safe(o, a) && a < b && StopsInTime(b)
    requires forall i :: 0 <= i < |b[|a|..]| ==> b[|a|..][i].request.ReadStatus?
    ensures Safe(o, b)
  {
    forall i | |a| <= i < |b| ensures b[i].request.ReadStatus? {
      assert b[i] == b[|a|..][i - |a|];
    }
    forall i | 0 <= i < |a| ensures a[i] == b[i] && b[..i] == a[..i] {
      assert b[..i] == b[..|a|][..i];
    }
  }

  // ------------------------------------------------------- what the client lets pass

  /** The reading just before an approval is the one acted on, or the one after the follow-up. */
  lemma NewestApprovable(o: Options, before: Trace, j: nat)
    requires MayApprove(o, before) && ActsOn(o, before, j)
    ensures NewestRead(before) == Some(before[|before| - 1].reply.status)
    ensures Approvable(NewestRead(before).value) <==>
            !Reviews(o, before[j].reply.status) || Approvable(before[j + 3].reply.status)
  {
  }

  /** The reading an approval follows, when no follow-up is confirmed. */
  lemma ActsOnNewest(o: Options, before: Trace)
    requires MayApprove(o, before) && !o.confirmReview
    ensures NewestRead(before).Some? && Approvable(NewestRead(before).value)
  {
    var j :| 0 <= j < |before| && ActsOn(o, before, j);
    NewestApprovable(o, before, j);
  }

  /** A server that accepts every change and answers every read with one of two statuses. */
  function Server(at: nat, first: Status, later: Status): World {
    World(k => Some(Mutation(true, Some("r"), None)), k => if k == at then Some(first) else Some(later),
          true, true, 0, k => true)
  }

  const OPENING: Trace := [
    Exchange(CreateRequest, Changed(Mutation(true, Some("r"), None))),
    Exchange(UploadArtifact, Changed(Mutation(true, Some("r"), None))),
    Exchange(StartValidation, Changed(Mutation(true, Some("r"), None)))]

  lemma ServerOpens(at: nat, first: Status, later: Status)
    ensures OpenTrace(Server(at, first, later)) == OPENING && Opened(OPENING)
  {
    TrimSolid(Rust, "r");
  }

  /** Polling a server that keeps giving an unwanted answer takes every read there is. */
  lemma {:induction false} PollInVain(w: World, t: Trace, wanted: seq<string>, n: nat, st: Status)
    requires forall k :: k >= |t| ==> w.status(k) == Some(st)
    requires !Desired(st, wanted) && (n == 0 ==> LastRead(t) == Some(st))
    ensures var p := PollFrom(w, t, wanted, n); |p| == |t| + n && LastRead(p) == Some(st)
    decreases n
  {
    if n > 0 { PollInVain(w, t + [ReadAt(w, t)], wanted, n - 1, st); }
  }

  /** The poll that reads an unwanted status first and a wanted one next. */
  lemma PollTwice(w: World, t: Trace, wanted: seq<string>, a: Status, b: Status)
    requires w.status(|t|) == Some(a) && w.status(|t| + 1) == Some(b) && !Desired(a, wanted) && Desired(b, wanted)
    ensures PollFrom(w, t, wanted, ATTEMPTS)
         == t + [Exchange(ReadStatus, Seen(a)), Exchange(ReadStatus, Seen(b))]
  {
    var x := Exchange(ReadStatus, Seen(a));
    assert PollFrom(w, t, wanted, ATTEMPTS) == PollFrom(w, t + [x], wanted, ATTEMPTS - 1);
    assert t + [x] + [Exchange(ReadStatus, Seen(b))] == t + [x, Exchange(ReadStatus, Seen(b))];
  }

  /** A reading that is not accepted is followed by another request, and the call succeeds. */
  lemma UnacceptedPolledPast(o: Options)
    ensures var refused := Status("pending", false, [], false, []);
            var s := PublishRun(Server(3, refused, Status("published", true, [], false, [])), o);
            && |s.trace| == 5 && s.trace[3].reply == Seen(refused) && !NotRejected(refused)
            && s.trace[4].request.ReadStatus? && s.outcome.Success?
  {
    var refused, done := Status("pending", false, [], false, []), Status("published", true, [], false, []);
    var w := Server(3, refused, done);
    ServerOpens(3, refused, done);
    PollTwice(w, OPENING, ["approved", "published", "rejected"], refused, done);
  }

  /** With an approvable status at the first reading the session turns on the decision. */
  lemma ReadyAtOnce(w: World, o: Options, ready: Status)
    requires OpenTrace(w) == OPENING && Opened(OPENING) && w.status(3) == Some(ready)
    requires Approvable(ready) && o.autoApprove
    ensures PublishRun(w, o) == DecideRun(w, o, OPENING + [Exchange(ReadStatus, Seen(ready))], ready)
  {
    assert PollFrom(w, OPENING, ["approved", "published", "rejected"], ATTEMPTS)
        == OPENING + [Exchange(ReadStatus, Seen(ready))];
  }

  lemma OffersApproval(st: Status)
    requires st.accepted && st.status == "approved" && st.actions == ["approve"]
    ensures Approvable(st)
  {
    assert SameIgnoringCase(st.actions[0], "approve");
  }

  /** Under automatic approval the call may succeed although the release was never published. */
  lemma SucceedsUnpublished(o: Options)
    requires o.autoApprove
    ensures var ready := Status("approved", true, [], false, ["approve"]);
            PublishRun(Server(3, ready, ready), o).outcome == Success(ready)
  {
    var ready := Status("approved", true, [], false, ["approve"]);
    var w := Server(3, ready, ready);
    ServerOpens(3, ready, ready);
    OffersApproval(ready);
    ReadyAtOnce(w, o, ready);
    var read := OPENING + [Exchange(ReadStatus, Seen(ready))];
    PollInVain(w, read + [ChangeAt(w, read, Approve(o.reason, o.code))], ["published", "rejected"], ATTEMPTS, ready);
  }

  /** A follow-up against a server that accepts everything. */
  lemma FollowUpGoesOn(w: World, o: Options, t: Trace, readiness: Status, newest: Status)
    requires Reviews(o, readiness) && w.planBuilds && w.commands == 0
    requires forall k: nat :: w.change(k).Some? && w.change(k).value.accepted
    requires w.status(|t| + 2) == Some(newest) && NotRejected(newest)
    ensures var f := FollowUpRun(w, o, t, readiness);
            f.newest == Some(newest) && |f.trace| == |t| + 3 && f.trace[|t| + 2] == Exchange(ReadStatus, Seen(newest))
  {
  }

  lemma ApproveSent(w: World, o: Options, before: Trace)
    ensures before + [ChangeAt(w, before, Approve(o.reason, o.code))] <= ApproveRun(w, o, before).trace
  {
    PollReads(w, before + [ChangeAt(w, before, Approve(o.reason, o.code))], ["published", "rejected"], ATTEMPTS);
  }

  const READY := Status("approved", true, [Stage(REVIEW, "queued")], false, ["approve"])
  const UNREADY := Status("pending", true, [], false, [])

  lemma ReadyForReview(o: Options)
    requires o.confirmReview
    ensures Approvable(READY) && Reviews(o, READY) && NotRejected(UNREADY) && !Approvable(UNREADY)
  {
    OffersApproval(READY);
    assert |"queued"| == |"passed"| && Lower("queued"[0]) != Lower("passed"[0]);
    assert SameIgnoringCase(REVIEW, REVIEW);
    StageOpenExact(READY.stages, REVIEW);
    assert FirstOpen(READY.stages, REVIEW, 0);
  }

  /** After a confirmed follow-up the approval is posted although the newest reading is neither
      approved nor offers it. */
  lemma ApprovesUnready(o: Options)
    requires o.autoApprove && o.confirmReview
    ensures !Approvable(UNREADY)
    ensures var t := PublishRun(Server(3, READY, UNREADY), o).trace;
            |t| > 7 && t[6] == Exchange(ReadStatus, Seen(UNREADY)) && t[7].request == Approve(o.reason, o.code)
  {
    var w := Server(3, READY, UNREADY);
    ServerOpens(3, READY, UNREADY);
    ReadyForReview(o);
    ReadyAtOnce(w, o, READY);
    ReviewedAndSent(w, o, OPENING + [Exchange(ReadStatus, Seen(READY))], READY, UNREADY);
  }

  lemma ReviewedAndSent(w: World, o: Options, t: Trace, readiness: Status, newest: Status)
    requires Reviews(o, readiness) && w.planBuilds && w.commands == 0
    requires forall k: nat :: w.change(k).Some? && w.change(k).value.accepted
    requires w.status(|t| + 2) == Some(newest) && NotRejected(newest) && !newest.overrideRequired
    ensures var all := DecideRun(w, o, t, readiness).trace;
            && |all| > |t| + 3 && all[|t| + 2] == Exchange(ReadStatus, Seen(newest))
            && all[|t| + 3].request == Approve(o.reason, o.code)
  {
    FollowUpGoesOn(w, o, t, readiness, newest);
    var f := FollowUpRun(w, o, t, readiness).trace;
    ApproveSent(w, o, f);
    var sent := f + [ChangeAt(w, f, Approve(o.reason, o.code))];
    var all := ApproveRun(w, o, f).trace;
    assert all[..|sent|] == sent && all[|t| + 2] == sent[|t| + 2] && all[|t| + 3] == sent[|t| + 3];
  }

  /** Every approval follows a reading that is approved and offers it. */
  predicate ApprovesReady(t: Trace) {
    forall i :: 0 <= i < |t| && t[i].request.Approve? ==>
      NewestRead(t[..i]).Some? && Approvable(NewestRead(t[..i]).value)
  }

  /** Whatever the server answers, every approval follows such a reading: this holds exactly
      when automatic approval and the confirmation of the review are not used together. */
  lemma ApprovesReadyExactly(o: Options)
    ensures (forall w: World :: ApprovesReady(PublishRun(w, o).trace)) <==> !(o.autoApprove && o.confirmReview)
  {
    if o.autoApprove && o.confirmReview {
      UnreadyServer(o);
      assert !ApprovesReady(PublishRun(Server(3, READY, UNREADY), o).trace);
    } else {
      forall w: World ensures ApprovesReady(PublishRun(w, o).trace) {
        PublishProper(w, o);
        NoReviewReady(o, PublishRun(w, o).trace);
      }
    }
  }

  lemma UnreadyServer(o: Options)
    requires o.autoApprove && o.confirmReview
    ensures !ApprovesReady(PublishRun(Server(3, READY, UNREADY), o).trace)
  {
    ApprovesUnready(o);
    ApprovalUnread(PublishRun(Server(3, READY, UNREADY), o).trace);
  }

  lemma ApprovalUnread(t: Trace)
    requires |t| > 7 && IsRead(t[6]) && !Approvable(t[6].reply.status) && t[7].request.Approve?
    ensures !ApprovesReady(t)
  {
    assert t[..7][6] == t[6];
    assert NewestRead(t[..7]) == Some(t[6].reply.status);
  }

  lemma NoReviewReady(o: Options, t: Trace)
    requires Approvals(o, t) && !(o.autoApprove && o.confirmReview)
    ensures ApprovesReady(t)
  {
    forall i | 0 <= i < |t| && t[i].request.Approve?
      ensures NewestRead(t[..i]).Some? && Approvable(NewestRead(t[..i]).value)
    {
      ActsOnNewest(o, t[..i]);
    }
  }

  // ------------------------------------------------------- success without publication

  /** The server answers reads `from` to `from + n - 1`, none of them with a wanted status. */
  predicate Stalls(w: World, from: nat, n: nat, wanted: seq<string>) {
    forall i :: from <= i < from + n ==> w.status(i).Some? && w.status(i).value.status !in wanted
  }

  /** A poll ends with an unwanted status exactly when every answer was one. */
  lemma {:induction false} PollStalls(w: World, t: Trace, wanted: seq<string>, n: nat)
    requires n > 0
    ensures var p := PollFrom(w, t, wanted, n);
            && (LastRead(p).Some? && !Desired(LastRead(p).value, wanted) <==> Stalls(w, |t|, n, wanted))
            && (Stalls(w, |t|, n, wanted) ==> LastRead(p) == w.status(|t| + n - 1))
    decreases n
  {
    var x := ReadAt(w, t);
    if IsRead(x) && !Desired(x.reply.status, wanted) {
      if n == 1 {
        assert PollFrom(w, t + [x], wanted, 0) == t + [x];
      } else {
        PollStalls(w, t + [x], wanted, n - 1);
      }
    }
  }

  predicate Unpublished(s: Session) {
    s.outcome.Success? && s.outcome.status.status != "published"
  }

  /** Read by read: the ten answers after the approval, at position `k`, never say published or
      rejected, and the last one is accepted. */
  predicate NeverPublished(w: World, k: nat) {
    Stalls(w, k + 1, 10, ["published", "rejected"]) && w.status(k + 10).value.accepted
  }

  lemma ApproveUnpublished(w: World, o: Options, before: Trace)
    ensures Unpublished(ApproveRun(w, o, before)) <==>
            Advanced(ChangeAt(w, before, Approve(o.reason, o.code))) && NeverPublished(w, |before|)
  {
    var t := before + [ChangeAt(w, before, Approve(o.reason, o.code))];
    PollStalls(w, t, ["published", "rejected"], ATTEMPTS);
  }

  /** The session turned on an approval sent after `before`. */
  ghost predicate TurnsOn(w: World, o: Options, s: Session, before: Trace) {
    NoApproval(before) && s == ApproveRun(w, o, before)
  }

  /** Under automatic approval a session sends no approval and, if it succeeds, read published;
      or it turns on an approval. */
  lemma ApprovalSplit(w: World, o: Options)
    requires o.autoApprove
    ensures var s := PublishRun(w, o);
            || (NoApproval(s.trace) && !Unpublished(s))
            || (exists before :: TurnsOn(w, o, s, before))
  {
    var opening := OpenTrace(w);
    OpenSafe(w, o);
    if Opened(opening) {
      var wanted := ["approved", "published", "rejected"];
      PollSafe(w, opening, wanted);
      var t := PollFrom(w, opening, wanted, ATTEMPTS);
      PolledNoApproval(opening, t);
      SplitAfterPoll(w, o, t);
    }
  }

  lemma SplitAfterPoll(w: World, o: Options, t: Trace)
    requires o.autoApprove && NoApproval(t) && StopsInTime(t)
    ensures var s := AfterPoll(w, o, t);
            || (NoApproval(s.trace) && !Unpublished(s))
            || (exists before :: TurnsOn(w, o, s, before))
  {
    var s := Settle(t);
    if s.outcome.Success? && Approvable(s.outcome.status) {
      FollowUpSafe(w, o, t, s.outcome.status);
      var f := FollowUpRun(w, o, t, s.outcome.status);
      if f.newest.Some? && !(f.newest.value.overrideRequired && (Blank(o.reason) || Blank(o.code))) {
        assert TurnsOn(w, o, AfterPoll(w, o, t), f.trace);
      }
    }
  }

  /** Where the approval of a session is. */
  lemma ApprovalPosition(w: World, o: Options, before: Trace, k: nat)
    requires NoApproval(before) && k < |ApproveRun(w, o, before).trace|
    ensures ApproveRun(w, o, before).trace[k].request.Approve? <==> k == |before|
    ensures k == |before| ==> ApproveRun(w, o, before).trace[k] == ChangeAt(w, before, Approve(o.reason, o.code))
  {
    var t := before + [ChangeAt(w, before, Approve(o.reason, o.code))];
    var all := ApproveRun(w, o, before).trace;
    PollReads(w, t, ["published", "rejected"], ATTEMPTS);
    assert t <= all;
    if k < |t| { assert all[k] == t[k]; }
    if k >= |t| { assert all[k] == ReadAt(w, all[..k]); }
  }

  /** A session under automatic approval succeeds without the release being published exactly
      when its approval went through and the server's next ten answers neither published nor
      rejected it, the last of them accepted. */
  lemma UnpublishedExactly(w: World, o: Options)
    requires o.autoApprove
    ensures var s := PublishRun(w, o);
            Unpublished(s) <==>
            exists k :: 0 <= k < |s.trace| && s.trace[k].request.Approve? && Advanced(s.trace[k]) && NeverPublished(w, k)
  {
    var s := PublishRun(w, o);
    ApprovalSplit(w, o);
    if before :| TurnsOn(w, o, s, before) {
      ApproveUnpublished(w, o, before);
      ApproveSent(w, o, before);
      ApprovalPosition(w, o, before, |before|);
      forall k | 0 <= k < |s.trace| && s.trace[k].request.Approve? ensures k == |before| {
        ApprovalPosition(w, o, before, k);
      }
    }
  }

  // ------------------------------------------------------- when the review is carried out

  /** Number `j` is the first reading on which an approval is possible. */
  predicate FirstReady(t: Trace, j: nat) {
    && j < |t| && Ready(t[j])
    && forall i :: 0 <= i < j ==> !Ready(t[i])
  }

  /** The session splits at its first ready reading: the poll that ends with it, and the decision. */
  lemma ReadyIsPolled(w: World, o: Options, j: nat)
    requires o.autoApprove && FirstReady(PublishRun(w, o).trace, j)
    ensures var t := PublishRun(w, o).trace;
            && t[..j + 1] == PollFrom(w, OpenTrace(w), ["approved", "published", "rejected"], ATTEMPTS)
            && PublishRun(w, o) == DecideRun(w, o, t[..j + 1], t[j].reply.status)
  {
    var opening, wanted := OpenTrace(w), ["approved", "published", "rejected"];
    OpenSafe(w, o);
    OpenReadsNothing(w);
    assert Opened(opening);
    var p := PollFrom(w, opening, wanted, ATTEMPTS);
    PollReads(w, opening, wanted, ATTEMPTS);
    PollSafe(w, opening, wanted);
    OnlyLastReady(opening, p, wanted);
    PolledNoApproval(opening, p);
    AfterPollKeeps(w, o, p);
    FirstReadyAt(p, PublishRun(w, o).trace, j);
  }

  lemma OpenReadsNothing(w: World)
    ensures forall i :: 0 <= i < |OpenTrace(w)| ==> !IsRead(OpenTrace(w)[i])
  {
  }

  predicate Ready(x: Exchange) {
    IsRead(x) && Approvable(x.reply.status)
  }

  lemma FirstReadyAt(p: Trace, t: Trace, j: nat)
    requires p != [] && p <= t && FirstReady(t, j)
    requires forall i :: 0 <= i < |p| - 1 ==> !Ready(p[i])
    requires !Ready(p[|p| - 1]) ==> t == p
    ensures j == |p| - 1 && t[..j + 1] == p && Ready(p[|p| - 1]) && t[j] == p[|p| - 1]
  {
    assert forall i :: 0 <= i < |p| ==> t[i] == p[i];
    assert Ready(t[j]) && forall i :: 0 <= i < j ==> !Ready(t[i]);
  }

  /** Of the readings up to the end of the first poll only the last can be ready. */
  lemma OnlyLastReady(opening: Trace, p: Trace, wanted: seq<string>)
    requires opening < p && "approved" in wanted
    requires forall i :: 0 <= i < |opening| ==> !IsRead(opening[i])
    requires forall i :: |opening| <= i < |p| - 1 ==> IsRead(p[i]) && !Desired(p[i].reply.status, wanted)
    ensures forall i :: 0 <= i < |p| - 1 ==> !Ready(p[i])
  {
    forall i | 0 <= i < |p| - 1 ensures !Ready(p[i]) {
      if i < |opening| { assert p[i] == opening[i]; }
    }
  }

  lemma AfterPollKeeps(w: World, o: Options, p: Trace)
    requires p != [] && NoApproval(p) && StopsInTime(p) && o.autoApprove
    ensures p <= AfterPoll(w, o, p).trace
    ensures !Ready(p[|p| - 1]) ==> AfterPoll(w, o, p).trace == p
    ensures Ready(p[|p| - 1]) ==>
              AfterPoll(w, o, p) == DecideRun(w, o, p, p[|p| - 1].reply.status)
  {
    if Ready(p[|p| - 1]) {
      var st := p[|p| - 1].reply.status;
      FollowUpSafe(w, o, p, st);
      ApproveSent(w, o, FollowUpRun(w, o, p, st).trace);
    }
  }

  /** After the first ready reading the review is reported next exactly when it was confirmed and
      the first stage of that name has not passed; nothing else can come but the approval. */
  lemma ReviewComesNext(w: World, o: Options, j: nat)
    requires o.autoApprove && FirstReady(PublishRun(w, o).trace, j)
    ensures var t := PublishRun(w, o).trace;
            var stages := t[j].reply.status.stages;
            var open := exists i :: 0 <= i < |stages| && FirstOpen(stages, REVIEW, i);
            && (o.confirmReview && w.planBuilds && open <==>
                  j + 1 < |t| && t[j + 1].request == ReportStage("running"))
            && (j + 1 < |t| && t[j + 1].request != ReportStage("running") ==> t[j + 1].request.Approve?)
  {
    ReadyIsPolled(w, o, j);
    var t := PublishRun(w, o).trace;
    var p, st := t[..j + 1], t[j].reply.status;
    StageOpenExact(st.stages, REVIEW);
    if Reviews(o, st) && w.planBuilds {
      var u := p + [ChangeAt(w, p, ReportStage("running"))];
      assert u <= StagesTrace(w, p) <= FollowUpRun(w, o, p, st).trace;
      ApproveSent(w, o, FollowUpRun(w, o, p, st).trace);
      assert u <= t;
      assert t[j + 1] == u[j + 1];
    } else if !Reviews(o, st) {
      ApproveSent(w, o, p);
    }
  }

  /** An action is offered wherever it stands in the list and however its letters are cased. */
  lemma OffersExact(st: Status, action: string)
    ensures Offers(st, action) <==>
            exists i :: 0 <= i < |st.actions| && |st.actions[i]| == |action|
              && forall k :: 0 <= k < |action| ==> SameLetter(st.actions[i][k], action[k])
  {
    forall i | 0 <= i < |st.actions|
      ensures SameIgnoringCase(st.actions[i], action) <==>
              |st.actions[i]| == |action| && forall k :: 0 <= k < |action| ==> SameLetter(st.actions[i][k], action[k])
    {
      SameIgnoringCaseExact(st.actions[i], action);
    }
  }

  // ------------------------------------------------------- the conditions, one by one

  /** How many of the opening requests are sent. */
  lemma OpenExact(w: World)
    ensures |OpenTrace(w)| >= 2 <==>
            && w.change(0).Some? && w.change(0).value.accepted && w.artifactBuilds
            && w.change(0).value.requestId.Some? && !Text.Blank(Rust, w.change(0).value.requestId.value)
    ensures |OpenTrace(w)| >= 3 <==>
            && |OpenTrace(w)| >= 2 && w.change(1).Some?
            && w.change(1).value.accepted && w.change(1).value.status != Some("rejected")
    ensures Opened(OpenTrace(w)) <==>
            && |OpenTrace(w)| >= 3 && w.change(2).Some?
            && w.change(2).value.accepted && w.change(2).value.status != Some("rejected")
  {
    if w.change(0).Some? && w.change(0).value.requestId.Some? {
      TrimEmptyExact(Rust, w.change(0).value.requestId.value);
    }
  }

  predicate Filled(s: Option<string>) {
    s.Some? && |s.value| > 0
  }

  /** After the first ready reading, when no review is carried out, the approval comes next exactly
      when no override is required or both override fields are filled in. */
  lemma OverrideExact(w: World, o: Options, j: nat)
    requires o.autoApprove && FirstReady(PublishRun(w, o).trace, j)
    requires !Reviews(o, PublishRun(w, o).trace[j].reply.status)
    ensures var t := PublishRun(w, o).trace;
            j + 1 < |t| && t[j + 1].request == Approve(o.reason, o.code) <==>
            t[j].reply.status.overrideRequired ==> Filled(o.reason) && Filled(o.code)
  {
    ReadyIsPolled(w, o, j);
    ApproveSent(w, o, PublishRun(w, o).trace[..j + 1]);
  }

  /** After a review the approval comes exactly when the new reading is accepted, not rejected, and
      requires no override that is not filled in. */
  lemma ReviewedApproval(w: World, o: Options, before: Trace, readiness: Status)
    requires Reviews(o, readiness) && w.planBuilds && StagesPassed(StagesTrace(w, before))
    ensures var u := StagesTrace(w, before);
            var t := DecideRun(w, o, before, readiness).trace;
            var again := w.status(|u|);
            (|t| > |u| + 1 && t[|u| + 1].request == Approve(o.reason, o.code)) <==>
            && again.Some? && again.value.accepted && again.value.status != "rejected"
            && (again.value.overrideRequired ==> Filled(o.reason) && Filled(o.code))
  {
    ApproveSent(w, o, FollowUpRun(w, o, before, readiness).trace);
  }
}
