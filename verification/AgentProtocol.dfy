/**
 * The job and report protocol of the node agent, as a transition system.
 *
 * One step is one file operation, one network call or one internal branch of the agent's cycle. The process may die
 * (or a cycle may be abandoned by an uncaught exception) before any step; the files survive, the program counter does
 * not. Contacts with the control plane and results of jobs are chosen freely by the environment.
 */
module AgentProtocol {

  type JobId = string

  datatype JobResult = JobResult(jobId: JobId, status: string, summary: string)

  datatype Job = Job(id: JobId, desiredStateVersion: string)

  datatype SpoolState = Claimed | Executed

  /** What a state file holds; `Torn` is what an interrupted `writeFile` leaves behind. */
  datatype Content =
    | Torn
    | Spool(job: Job, state: SpoolState)
    | Report(result: JobResult, deliveryAttempts: nat)
    | NodeState(text: string)

  datatype Path =
    | SpoolFile(id: JobId)
    | ReportFile(id: JobId)
    | NodeIdentity
    | LastApplied
    | Temporary(target: Path)

  type Files = map<Path, Content>

  // ---------------------------------------------------------------------------------------------------------------
  // File names
  // ---------------------------------------------------------------------------------------------------------------

  /** Path relative to the agent's state directory. */
  function FileName(p: Path): string {
    match p
    case SpoolFile(id) => "job-spool/" + id + ".json"
    case ReportFile(id) => "report-buffer/" + id + ".json"
    case NodeIdentity => "node-identity.json"
    case LastApplied => "last-applied-state.json"
    case Temporary(target) => FileName(target) + ".tmp"
  }

  predicate EndsWith(s: string, suffix: string) {
    |suffix| <= |s| && s[|s| - |suffix|..] == suffix
  }

  /** A listing keeps finished files and never shows a temporary one. */
  lemma ListingShowsExactlyFinishedFiles(p: Path)
    ensures EndsWith(FileName(p), ".json") <==> !p.Temporary?
  {
    var name := FileName(p);
    match p {
      case Temporary(target) => assert name[|name| - 1] == 'p';
      case SpoolFile(id) => assert name[|name| - 5..] == ".json";
      case ReportFile(id) => assert name[|name| - 5..] == ".json";
      case NodeIdentity =>
      case LastApplied =>
    }
  }

  /** Distinct model paths are distinct files. */
  lemma {:induction false} FileNamesAreDistinct(p: Path, q: Path)
    requires FileName(p) == FileName(q)
    ensures p == q
    decreases p
  {
    ListingShowsExactlyFinishedFiles(p);
    ListingShowsExactlyFinishedFiles(q);
    var name := FileName(p);
    if p.Temporary? {
      assert FileName(p.target) == name[..|name| - 4];
      assert FileName(q.target) == name[..|name| - 4];
      FileNamesAreDistinct(p.target, q.target);
    } else {
      assert name[0] == 'j' || name[0] == 'r' || name[0] == 'n' || name[0] == 'l';
      if p.SpoolFile? {
        assert p.id == name[10..|name| - 5];
        assert q.id == name[10..|name| - 5];
      } else if p.ReportFile? {
        assert p.id == name[14..|name| - 5];
        assert q.id == name[14..|name| - 5];
      }
    }
  }

  // ---------------------------------------------------------------------------------------------------------------
  // Program counter
  // ---------------------------------------------------------------------------------------------------------------

  /** Who called `deliverBufferedReport`. */
  datatype Caller = FromFlush(todo: seq<JobId>) | FromJob(rest: seq<Job>)

  /** How far `writeJsonFileAtomic` has come. */
  datatype WritePhase = Begin | HalfWritten | Written

  /** Where an atomic write returns to. */
  datatype Return =
    | ToLastApplied
    | ToRegister
    | ToFlush
    | ToExecute(job: Job, rest: seq<Job>)
    | ToMarkExecuted(job: Job, result: JobResult, rest: seq<Job>)
    | ToRecordApplied(job: Job, result: JobResult, rest: seq<Job>)
    | ToDeliver(job: Job, result: JobResult, rest: seq<Job>)
    | ToGiveUp(id: JobId, caller: Caller)

  datatype Control =
    | Idle
    | Register
    | List
    | Flush(todo: seq<JobId>)
    | Discard(id: JobId, todo: seq<JobId>)
    | Claim
    | Jobs(queue: seq<Job>)
    | Run(job: Job, rest: seq<Job>)
    | Deliver(job: Job, result: JobResult, rest: seq<Job>)
    | Post(id: JobId, payload: Content, caller: Caller)
    | Clear(id: JobId, payload: Content, caller: Caller)
    | DropSpool(id: JobId, rest: seq<Job>)
    | Write(phase: WritePhase, target: Path, content: Content, ret: Return)

  /**
   * `accepted` is what the control plane has taken in and `latest` maps a job id to the last result whose report was
   * put in the buffer; neither is visible to the agent.
   */
  datatype State = State(files: Files, accepted: set<JobResult>, latest: map<JobId, JobResult>, pc: Control)

  predicate Initial(s: State) {
    s == State(map[], {}, map[], Idle)
  }

  // ---------------------------------------------------------------------------------------------------------------
  // Steps
  // ---------------------------------------------------------------------------------------------------------------

  /** The control that follows a finished atomic write. */
  function Resume(ret: Return): Control {
    match ret
    case ToLastApplied => Write(Begin, LastApplied, NodeState("bootstrap"), ToRegister)
    case ToRegister => Register
    case ToFlush => List
    case ToExecute(job, rest) => Run(job, rest)
    case ToMarkExecuted(job, result, rest) =>
      Write(Begin, SpoolFile(job.id), Spool(job, Executed), ToRecordApplied(job, result, rest))
    case ToRecordApplied(job, result, rest) =>
      Write(Begin, LastApplied, NodeState(job.desiredStateVersion), ToDeliver(job, result, rest))
    case ToDeliver(job, result, rest) => Deliver(job, result, rest)
    case ToGiveUp(id, caller) => AfterDelivery(id, caller, false)
  }

  /** The control that follows `deliverBufferedReport`. */
  function AfterDelivery(id: JobId, caller: Caller, success: bool): Control {
    match caller
    case FromFlush(todo) => Flush(todo)
    case FromJob(rest) => if success then DropSpool(id, rest) else Jobs(rest)
  }

  /** The rewrite in the catch branch of `deliverBufferedReport`. */
  function Rewrite(id: JobId, payload: Content, caller: Caller): Control
    requires payload.Report?
  {
    Write(Begin, ReportFile(id), payload.(deliveryAttempts := payload.deliveryAttempts + 1), ToGiveUp(id, caller))
  }

  /** The todo list lists exactly the finished reports, in some order. */
  ghost predicate Lists(todo: seq<JobId>, files: Files) {
    forall id :: id in todo <==> ReportFile(id) in files
  }

  /** The effect of renaming the temporary of `target` over `target`. */
  function Renamed(files: Files, target: Path): Files
    requires Temporary(target) in files
  {
    (files - {Temporary(target)})[target := files[Temporary(target)]]
  }

  /** A job's report enters the buffer. */
  function Recorded(latest: map<JobId, JobResult>, target: Path, content: Content): map<JobId, JobResult> {
    if target.ReportFile? && content.Report? then latest[target.id := content.result] else latest
  }

  ghost predicate WriteStep(s: State, t: State)
    requires s.pc.Write?
  {
    var Write(phase, target, content, ret) := s.pc;
    match phase
    case Begin =>
      t == s.(files := s.files[Temporary(target) := Torn], pc := s.pc.(phase := HalfWritten))
    case HalfWritten =>
      t == s.(files := s.files[Temporary(target) := content], pc := s.pc.(phase := Written))
    case Written =>
      && Temporary(target) in s.files
      && t == s.(files := Renamed(s.files, target), latest := Recorded(s.latest, target, content), pc := Resume(ret))
  }

  /** `reportJob` succeeds, fails before the control plane saw the report, or fails after it was taken in. */
  ghost predicate PostStep(s: State, t: State)
    requires s.pc.Post?
  {
    var Post(id, payload, caller) := s.pc;
    && payload.Report?
    && (|| t == s.(accepted := s.accepted + {payload.result}, pc := Clear(id, payload, caller))
        || t == s.(pc := Rewrite(id, payload, caller))
        || t == s.(accepted := s.accepted + {payload.result}, pc := Rewrite(id, payload, caller)))
  }

  /** The delivered report is removed; a throwing `rm` may or may not have removed it. */
  ghost predicate ClearStep(s: State, t: State)
    requires s.pc.Clear?
  {
    var Clear(id, payload, caller) := s.pc;
    var removed := s.files - {ReportFile(id)};
    && payload.Report?
    && (|| t == s.(files := removed, pc := AfterDelivery(id, caller, true))
        || t == s.(files := removed, pc := Rewrite(id, payload, caller))
        || t == s.(pc := Rewrite(id, payload, caller)))
  }

  ghost predicate FlushStep(s: State, t: State)
    requires s.pc.Flush?
  {
    var todo := s.pc.todo;
    if todo == [] then t == s.(pc := Claim)
    else if ReportFile(todo[0]) in s.files && s.files[ReportFile(todo[0])].Report? then
      t == s.(pc := Post(todo[0], s.files[ReportFile(todo[0])], FromFlush(todo[1..])))
    else
      t == s.(pc := Discard(todo[0], todo[1..]))
  }

  ghost predicate JobsStep(s: State, t: State)
    requires s.pc.Jobs?
  {
    var queue := s.pc.queue;
    if queue == [] then t == s.(pc := Idle)
    else
      t == s.(pc := Write(Begin, SpoolFile(queue[0].id), Spool(queue[0], Claimed), ToExecute(queue[0], queue[1..])))
  }

  /** The agent stores its identity, with a token chosen by the environment. */
  ghost predicate IdentityStep(s: State, t: State, ret: Return) {
    t.pc.Write? && t.pc.content.NodeState? && t == s.(pc := Write(Begin, NodeIdentity, t.pc.content, ret))
  }

  /** The driver returns any result, or a thrown error is turned into a failed one. */
  ghost predicate RunStep(s: State, t: State)
    requires s.pc.Run?
  {
    var Run(job, rest) := s.pc;
    && t.pc.Write? && t.pc.ret.ToMarkExecuted?
    && var result := t.pc.ret.result;
       t == s.(pc := Write(Begin, ReportFile(job.id), Report(result, 0), ToMarkExecuted(job, result, rest)))
  }

  /** One step of the agent, with the environment's choices, or a crash. */
  ghost predicate Step(s: State, t: State) {
    || t == s.(pc := Idle)
    || match s.pc
       case Idle => IdentityStep(s, t, ToLastApplied)
       case Register => IdentityStep(s, t, ToFlush)
       case List => t == s.(pc := Claim) || (t.pc.Flush? && Lists(t.pc.todo, s.files) && t == s.(pc := t.pc))
       case Flush(_) => FlushStep(s, t)
       case Discard(id, todo) => t == s.(files := s.files - {ReportFile(id)}, pc := Flush(todo))
       case Claim => t.pc.Jobs? && t == s.(pc := t.pc)
       case Jobs(_) => JobsStep(s, t)
       case Run(_, _) => RunStep(s, t)
       case Deliver(job, result, rest) =>
         || t == s.(pc := Post(job.id, Report(result, 0), FromJob(rest)))
         || t == s.(pc := Jobs(rest))
       case Post(_, _, _) => PostStep(s, t)
       case Clear(_, _, _) => ClearStep(s, t)
       case DropSpool(id, rest) => t == s.(files := s.files - {SpoolFile(id)}, pc := Jobs(rest))
       case Write(_, _, _, _) => WriteStep(s, t)
  }

  ghost predicate Follows(run: seq<State>, i: nat)
    requires i + 1 < |run|
  {
    Step(run[i], run[i + 1])
  }

  /** Any number of cycles, crashes and restarts, from an empty state directory. */
  ghost predicate Behaviour(run: seq<State>) {
    && run != []
    && Initial(run[0])
    && forall i: nat :: i + 1 < |run| ==> Follows(run, i)
  }

  lemma BehaviourGrows(run: seq<State>, t: State)
    requires Behaviour(run) && Step(run[|run| - 1], t)
    ensures Behaviour(run + [t])
  {
    forall i: nat | i + 1 < |run + [t]| ensures Follows(run + [t], i) {
      if i + 1 < |run| {
        assert Follows(run, i);
      }
    }
  }

  // ---------------------------------------------------------------------------------------------------------------
  // Safety
  // ---------------------------------------------------------------------------------------------------------------

  /** The latest result of `id` waits in the buffer in readable form. */
  ghost predicate Buffered(s: State, id: JobId) {
    && ReportFile(id) in s.files
    && s.files[ReportFile(id)].Report?
    && id in s.latest
    && s.files[ReportFile(id)].result == s.latest[id]
  }

  ghost predicate Accepted(s: State, id: JobId) {
    id in s.latest && s.latest[id] in s.accepted
  }

  /** What holds of the files in every reachable state, crashes included. */
  ghost predicate Safe(s: State) {
    && (forall id :: id in s.latest ==> Buffered(s, id) || Accepted(s, id))
    && (forall id :: ReportFile(id) in s.files ==> Buffered(s, id))
    && (forall id :: ReportFile(id) in s.files ==> SpoolFile(id) in s.files)
    && (forall id :: SpoolFile(id) in s.files ==> s.files[SpoolFile(id)].Spool?)
    && (forall id :: SpoolFile(id) in s.files && s.files[SpoolFile(id)].state == Executed && ReportFile(id) !in s.files
          ==> Accepted(s, id))
  }

  /** `result` is the latest of `id` and its spool entry is still there. */
  ghost predicate Owns(s: State, id: JobId, result: JobResult) {
    id in s.latest && s.latest[id] == result && SpoolFile(id) in s.files
  }

  ghost predicate WriteIsSound(s: State)
    requires s.pc.Write?
  {
    var Write(phase, target, content, ret) := s.pc;
    && (phase == Written ==> Temporary(target) in s.files && s.files[Temporary(target)] == content)
    && match ret
       case ToLastApplied => target == NodeIdentity
       case ToRegister => target == LastApplied
       case ToFlush => target == NodeIdentity
       case ToExecute(job, _) => target == SpoolFile(job.id) && content == Spool(job, Claimed)
       case ToMarkExecuted(job, result, _) =>
         target == ReportFile(job.id) && content == Report(result, 0) && SpoolFile(job.id) in s.files
       case ToRecordApplied(job, result, _) =>
         && target == SpoolFile(job.id) && content == Spool(job, Executed)
         && Owns(s, job.id, result) && ReportFile(job.id) in s.files
       case ToDeliver(job, result, _) =>
         target == LastApplied && Owns(s, job.id, result) && ReportFile(job.id) in s.files
       case ToGiveUp(id, _) =>
         target == ReportFile(id) && content.Report? && Owns(s, id, content.result)
  }

  /** What the program counter knows about the files. */
  ghost predicate ControlIsSound(s: State) {
    match s.pc
    case Idle | Register | List | Flush(_) | Claim | Jobs(_) => true
    case Discard(id, _) => ReportFile(id) !in s.files
    case Run(job, _) => SpoolFile(job.id) in s.files
    case Deliver(job, result, _) => Owns(s, job.id, result) && ReportFile(job.id) in s.files
    case Post(id, payload, _) => payload.Report? && Owns(s, id, payload.result)
    case Clear(id, payload, _) => payload.Report? && Owns(s, id, payload.result) && payload.result in s.accepted
    case DropSpool(id, _) => ReportFile(id) !in s.files
    case Write(_, _, _, _) => WriteIsSound(s)
  }

  ghost predicate Invariant(s: State) {
    Safe(s) && ControlIsSound(s)
  }

  /** Before the rename only a temporary file has changed. */
  lemma UnfinishedWriteKeepsInvariant(s: State, t: State)
    requires Invariant(s) && s.pc.Write? && s.pc.phase != Written && WriteStep(s, t)
    ensures Invariant(t)
  {
    assert forall id {:trigger ReportFile(id) in t.files} :: ReportFile(id) in t.files <==> ReportFile(id) in s.files;
    assert forall id {:trigger SpoolFile(id) in t.files} :: SpoolFile(id) in t.files <==> SpoolFile(id) in s.files;
    assert forall id :: Buffered(t, id) <==> Buffered(s, id);
    assert forall id :: Accepted(t, id) <==> Accepted(s, id);
    assert Safe(t);
  }

  lemma RenameKeepsSafety(s: State, t: State)
    requires Invariant(s) && s.pc.Write? && s.pc.phase == Written && WriteStep(s, t)
    ensures Safe(t)
  {
    var Write(_, target, content, ret) := s.pc;
    forall id | !target.ReportFile? || id != target.id
      ensures Buffered(t, id) <==> Buffered(s, id)
      ensures Accepted(t, id) <==> Accepted(s, id)
    {
    }
    if target.ReportFile? {
      assert Buffered(t, target.id);
    } else if target.SpoolFile? {
      assert content.state == Executed ==> ReportFile(target.id) in t.files;
    }
  }

  lemma WriteKeepsInvariant(s: State, t: State)
    requires Invariant(s) && s.pc.Write? && WriteStep(s, t)
    ensures Invariant(t)
  {
    if s.pc.phase != Written {
      UnfinishedWriteKeepsInvariant(s, t);
    } else {
      RenameKeepsSafety(s, t);
    }
  }

  lemma PostKeepsInvariant(s: State, t: State)
    requires Invariant(s) && s.pc.Post? && PostStep(s, t)
    ensures Invariant(t)
  {
    assert forall id :: Buffered(t, id) <==> Buffered(s, id);
    assert forall id :: Accepted(s, id) ==> Accepted(t, id);
  }

  lemma ClearKeepsInvariant(s: State, t: State)
    requires Invariant(s) && s.pc.Clear? && ClearStep(s, t)
    ensures Invariant(t)
  {
    assert forall id :: id != s.pc.id ==> (Buffered(t, id) <==> Buffered(s, id));
    assert forall id :: Accepted(t, id) <==> Accepted(s, id);
    assert Accepted(t, s.pc.id);
  }

  /** A step that changes nothing but the control. */
  lemma ControlStepKeepsSafety(s: State, t: State)
    requires Safe(s) && t == s.(pc := t.pc)
    ensures Safe(t)
  {
    assert forall id :: Buffered(t, id) <==> Buffered(s, id);
    assert forall id :: Accepted(t, id) <==> Accepted(s, id);
  }

  lemma DropSpoolKeepsSafety(s: State, t: State, id: JobId)
    requires Safe(s) && ReportFile(id) !in s.files && t == s.(files := s.files - {SpoolFile(id)}, pc := t.pc)
    ensures Safe(t)
  {
    assert forall other :: Buffered(t, other) <==> Buffered(s, other);
    assert forall other :: Accepted(t, other) <==> Accepted(s, other);
  }

  /** Deleting a report that is not there. */
  lemma DiscardKeepsSafety(s: State, t: State, id: JobId)
    requires Safe(s) && ReportFile(id) !in s.files && t == s.(files := s.files - {ReportFile(id)}, pc := t.pc)
    ensures Safe(t)
  {
    assert t.files == s.files;
    ControlStepKeepsSafety(s, t);
  }

  lemma StepKeepsInvariant(s: State, t: State)
    requires Invariant(s) && Step(s, t)
    ensures Invariant(t)
  {
    if t == s.(pc := Idle) {
      ControlStepKeepsSafety(s, t);
    } else if s.pc.Write? {
      WriteKeepsInvariant(s, t);
    } else if s.pc.Post? {
      PostKeepsInvariant(s, t);
    } else if s.pc.Clear? {
      ClearKeepsInvariant(s, t);
    } else if s.pc.DropSpool? {
      DropSpoolKeepsSafety(s, t, s.pc.id);
    } else if s.pc.Discard? {
      DiscardKeepsSafety(s, t, s.pc.id);
    } else {
      ControlStepKeepsSafety(s, t);
    }
  }

  /** No result is lost in any state of any behaviour. */
  lemma {:induction false} EveryReachableStateIsSafe(run: seq<State>, i: nat)
    requires Behaviour(run) && i < |run|
    ensures Invariant(run[i])
  {
    if i > 0 {
      EveryReachableStateIsSafe(run, i - 1);
      assert Follows(run, i - 1);
      StepKeepsInvariant(run[i - 1], run[i]);
    }
  }

  lemma StepAccepts(s: State, t: State)
    requires Invariant(s) && Step(s, t)
    ensures s.accepted <= t.accepted
    ensures forall result :: result in t.accepted - s.accepted ==>
      s.pc.Post? && s.pc.id in s.latest && s.latest[s.pc.id] == result
  {
  }

  lemma StepRemembersJobs(s: State, t: State)
    requires Step(s, t)
    ensures s.latest.Keys <= t.latest.Keys
  {
  }

  /** A job that once had a result buffered has one in every later state. */
  lemma {:induction false} RecordedJobsStay(run: seq<State>, i: nat, j: nat)
    requires Behaviour(run) && i <= j < |run|
    ensures run[i].latest.Keys <= run[j].latest.Keys
    decreases j
  {
    if i < j {
      RecordedJobsStay(run, i, j - 1);
      assert Follows(run, j - 1);
      StepRemembersJobs(run[j - 1], run[j]);
    }
  }

  /** The control plane never takes in a result that no job's report held. */
  lemma {:induction false} OnlyBufferedResultsAreAccepted(run: seq<State>, i: nat, result: JobResult)
    requires Behaviour(run) && i < |run|
    requires result in run[i].accepted
    ensures exists j, id :: 0 <= j <= i && id in run[j].latest && run[j].latest[id] == result
  {
    if i > 0 {
      EveryReachableStateIsSafe(run, i - 1);
      assert Follows(run, i - 1);
      StepAccepts(run[i - 1], run[i]);
      if result in run[i - 1].accepted {
        OnlyBufferedResultsAreAccepted(run, i - 1, result);
      }
    }
  }

  /** What the control plane has taken in stays taken in. */
  lemma {:induction false} AcceptanceIsPermanent(run: seq<State>, i: nat, j: nat)
    requires Behaviour(run) && i <= j < |run|
    ensures run[i].accepted <= run[j].accepted
  {
    if i < j {
      AcceptanceIsPermanent(run, i, j - 1);
      EveryReachableStateIsSafe(run, j - 1);
      assert Follows(run, j - 1);
      StepAccepts(run[j - 1], run[j]);
    }
  }
}
