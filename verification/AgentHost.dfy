/**
 * The agent's file operations and delivery routines in the form the agent has them: methods that change a disk.
 *
 * Every method may be cut short before each of its operations. The ghost field `run` records every state passed
 * through, and each method is proved to extend it by steps of the protocol only, so that what `AgentProtocol` proves
 * of every behaviour holds of every state of the host.
 */
module AgentHost {
  import opened AgentProtocol

  /** `Threw` is an exception the caller may catch; `Stopped` is a crash or an exception nobody catches. */
  datatype Outcome = Done | Threw | Stopped

  /** A call that delivers a report, and whether it came back without an exception. */
  datatype Call = Posted(result: JobResult, ok: bool) | Removed(id: JobId, ok: bool)

  /** The calls of one delivery that came to an end; only when all of them succeed has the report been delivered. */
  ghost predicate IsDelivery(calls: seq<Call>, id: JobId, result: JobResult, delivered: bool) {
    || (delivered && calls == [Posted(result, true), Removed(id, true)])
    || (!delivered && (calls == [Posted(result, false)] || calls == [Posted(result, true), Removed(id, false)]))
  }

  /** Results that have been posted, with whatever outcome. */
  ghost predicate WasPosted(calls: seq<Call>, result: JobResult) {
    exists ok :: Posted(result, ok) in calls
  }

  /** Each of these reports, as it was in `files`, has been posted. */
  ghost predicate ArePosted(ids: set<JobId>, files: Files, calls: seq<Call>) {
    forall id :: id in ids && ReportFile(id) in files && files[ReportFile(id)].Report? ==>
      WasPosted(calls, files[ReportFile(id)].result)
  }

  /** What a cycle meets: the jobs it is given, whether there is a token, and how many operations it lives for. */
  datatype Occasion = Occasion(claimed: seq<Job>, token: bool, life: nat)

  /** One cycle: its occasion, where in the run it began and ended, and what it returned. */
  datatype Cycle = Cycle(occasion: Occasion, start: nat, end: nat, outcome: Outcome, delivered: nat, failed: nat)

  function IdsOf(jobs: seq<Job>): set<JobId> {
    set k | 0 <= k < |jobs| :: jobs[k].id
  }

  function ReportsOf(files: Files): set<JobId> {
    set p | p in files && p.ReportFile? :: p.id
  }

  ghost predicate SameReport(s: State, t: State, id: JobId) {
    && (ReportFile(id) in s.files <==> ReportFile(id) in t.files)
    && (ReportFile(id) in s.files ==> t.files[ReportFile(id)] == s.files[ReportFile(id)])
  }

  ghost predicate SameLatest(s: State, t: State, id: JobId) {
    (id in s.latest <==> id in t.latest) && (id in s.latest ==> t.latest[id] == s.latest[id])
  }

  /** Between two states nothing was taken back, and of other jobs neither report nor latest result has changed. */
  ghost predicate KeepsAllBut(s: State, t: State, ids: set<JobId>) {
    s.accepted <= t.accepted && forall id :: id !in ids ==> SameReport(s, t, id) && SameLatest(s, t, id)
  }

  lemma KeepingComposes(s: State, t: State, u: State, first: set<JobId>, second: set<JobId>, ids: set<JobId>)
    requires KeepsAllBut(s, t, first) && KeepsAllBut(t, u, second) && first <= ids && second <= ids
    ensures KeepsAllBut(s, u, ids)
  {
    forall id | id !in ids ensures SameReport(s, u, id) && SameLatest(s, u, id) {
      assert SameReport(s, t, id) && SameReport(t, u, id) && SameLatest(s, t, id) && SameLatest(t, u, id);
    }
  }

  lemma WriteKeeps(s: State, t: State, target: Path, content: Content)
    requires t.files == (s.files - {Temporary(target)})[target := content]
    requires t.latest == Recorded(s.latest, target, content) && t.accepted == s.accepted
    ensures KeepsAllBut(s, t, if target.ReportFile? then {target.id} else {})
  {
  }

  lemma RemovalKeeps(s: State, t: State, id: JobId)
    requires t.files == s.files || t.files == s.files - {ReportFile(id)}
    requires t.latest == s.latest && s.accepted <= t.accepted
    ensures KeepsAllBut(s, t, {id})
  {
  }

  /** The two disks differ at most in the report file of `id` and its temporary. */
  ghost predicate SameElsewhere(f: Files, g: Files, id: JobId) {
    forall p :: p != ReportFile(id) && p != Temporary(ReportFile(id)) ==>
      (p in g <==> p in f) && (p in g ==> g[p] == f[p])
  }

  lemma RewriteIsElsewhere(f: Files, g: Files, h: Files, id: JobId, content: Content)
    requires g == f || g == f - {ReportFile(id)}
    requires h == (g - {Temporary(ReportFile(id))})[ReportFile(id) := content]
    ensures SameElsewhere(f, h, id)
  {
  }

  lemma KeptReports(s: State, t: State)
    requires KeepsAllBut(s, t, {})
    ensures ReportsOf(t.files) == ReportsOf(s.files)
  {
    forall id ensures id in ReportsOf(t.files) <==> id in ReportsOf(s.files) {
      assert SameReport(s, t, id);
    }
  }

  lemma SameFilesKeep(s: State, t: State, ids: set<JobId>)
    requires s.accepted <= t.accepted && t.latest == s.latest
    requires forall id :: ReportFile(id) in s.files <==> ReportFile(id) in t.files
    requires forall id :: ReportFile(id) in s.files ==> t.files[ReportFile(id)] == s.files[ReportFile(id)]
    ensures KeepsAllBut(s, t, ids)
  {
  }

  /** A delivery that came to an end has posted its report, and what was posted before stays so. */
  lemma DeliveryPosts(first: seq<Call>, known: seq<Call>, calls: seq<Call>, id: JobId, result: JobResult,
        delivered: bool)
    requires first <= known <= calls && IsDelivery(calls[|known|..], id, result, delivered)
    ensures WasPosted(calls[|first|..], result)
    ensures forall other :: WasPosted(known[|first|..], other) ==> WasPosted(calls[|first|..], other)
  {
    assert calls == known + calls[|known|..];
    assert calls[|first|..] == known[|first|..] + calls[|known|..];
    assert calls[|known|..][0] in calls[|known|..];
  }

  /** Every one of these jobs has been tried: a report of it that is still there has seen an attempt. */
  ghost predicate WereTried(files: Files, jobs: seq<Job>) {
    forall k :: 0 <= k < |jobs| && ReportFile(jobs[k].id) in files ==>
      files[ReportFile(jobs[k].id)].Report? && files[ReportFile(jobs[k].id)].deliveryAttempts > 0
  }

  ghost predicate LastAppliedIs(files: Files, job: Job) {
    LastApplied in files && files[LastApplied] == NodeState(job.desiredStateVersion)
  }

  /** The job is settled and its files are gone, or its report waits after `attempts` and its spool entry says so. */
  ghost predicate IsSettledOrWaits(s: State, job: Job, result: JobResult, attempts: nat) {
    || (result in s.accepted && ReportFile(job.id) !in s.files && SpoolFile(job.id) !in s.files)
    || Waits(s, job, result, attempts)
  }

  ghost predicate Waits(s: State, job: Job, result: JobResult, attempts: nat) {
    && ReportFile(job.id) in s.files && s.files[ReportFile(job.id)] == Report(result, attempts)
    && SpoolFile(job.id) in s.files && s.files[SpoolFile(job.id)] == Spool(job, Executed)
  }

  /** What the first `n` jobs have left when the job loop began at `start`. */
  ghost predicate JobsDone(start: State, now: State, jobs: seq<Job>, n: nat, token: bool)
    requires n <= |jobs|
  {
    && (forall k :: 0 <= k < n ==> jobs[k].id in now.latest)
    && KeepsAllBut(start, now, IdsOf(jobs))
    && (token ==> WereTried(now.files, jobs[..n]))
    && (n > 0 ==> LastAppliedIs(now.files, jobs[n - 1]))
  }

  lemma OneMoreJob(start: State, before: State, now: State, jobs: seq<Job>, n: nat, token: bool)
    requires n < |jobs| && JobsDone(start, before, jobs, n, token) && KeepsAllBut(before, now, {jobs[n].id})
    requires jobs[n].id in now.latest && LastAppliedIs(now.files, jobs[n])
    requires token ==> IsSettledOrWaits(now, jobs[n], now.latest[jobs[n].id], 1)
    ensures JobsDone(start, now, jobs, n + 1, token)
  {
    KeepingComposes(start, before, now, IdsOf(jobs), {jobs[n].id}, IdsOf(jobs));
    forall k | 0 <= k <= n ensures jobs[k].id in now.latest {
      assert jobs[k].id != jobs[n].id ==> SameLatest(before, now, jobs[k].id);
    }
    if token {
      OneMoreIsTried(before, now, jobs, n);
    }
  }

  lemma OneMoreIsTried(before: State, now: State, jobs: seq<Job>, n: nat)
    requires n < |jobs| && KeepsAllBut(before, now, {jobs[n].id}) && WereTried(before.files, jobs[..n])
    requires ReportFile(jobs[n].id) in now.files ==>
      now.files[ReportFile(jobs[n].id)].Report? && now.files[ReportFile(jobs[n].id)].deliveryAttempts > 0
    ensures WereTried(now.files, jobs[..n + 1])
  {
    assert forall k :: 0 <= k <= n && jobs[k].id != jobs[n].id ==> SameReport(before, now, jobs[k].id);
    assert forall k :: 0 <= k < n ==> jobs[..n][k] == jobs[k];
  }

  /** What the flush loop has done for the first `n` of the listed reports since `start`. */
  ghost predicate FlushDone(start: State, now: State, todo: seq<JobId>, n: nat, posted: seq<Call>)
    requires n <= |todo|
  {
    && now.latest == start.latest && start.accepted <= now.accepted
    && (forall i :: n <= i < |todo| ==> ReportFile(todo[i]) in now.files && SameReport(start, now, todo[i]))
    && (forall i :: 0 <= i < n ==>
          && ReportFile(todo[i]) in start.files && start.files[ReportFile(todo[i])].Report?
          && WasPosted(posted, start.files[ReportFile(todo[i])].result))
  }

  lemma NextReportWaits(start: State, now: State, todo: seq<JobId>, n: nat, posted: seq<Call>)
    requires n < |todo| && FlushDone(start, now, todo, n, posted)
    ensures ReportFile(todo[n]) in now.files && ReportFile(todo[n]) in start.files
    ensures now.files[ReportFile(todo[n])] == start.files[ReportFile(todo[n])]
  {
    assert SameReport(start, now, todo[n]);
  }

  lemma OneMoreFlush(start: State, before: State, now: State, todo: seq<JobId>, n: nat, known: seq<Call>,
        posted: seq<Call>)
    requires n < |todo| && FlushDone(start, before, todo, n, known) && KeepsAllBut(before, now, {todo[n]})
    requires now.latest == before.latest && forall i, j :: 0 <= i < j < |todo| ==> todo[i] != todo[j]
    requires forall result :: WasPosted(known, result) ==> WasPosted(posted, result)
    requires ReportFile(todo[n]) in start.files && start.files[ReportFile(todo[n])].Report?
    requires WasPosted(posted, start.files[ReportFile(todo[n])].result)
    ensures FlushDone(start, now, todo, n + 1, posted)
  {
    forall i | n < i < |todo| ensures ReportFile(todo[i]) in now.files && SameReport(start, now, todo[i]) {
      assert SameReport(start, before, todo[i]) && SameReport(before, now, todo[i]);
    }
  }

  /** What a cycle that came to the end has done for the reports that waited when it began. */
  ghost predicate HasFlushed(before: State, after: State, claimed: seq<Job>, token: bool, delivered: nat, failed: nat)
  {
    token ==>
      && delivered + failed == |ReportsOf(before.files)|
      && (claimed == [] ==> failed == |ReportsOf(after.files)|)
      && (failed == 0 ==> forall id :: id in before.latest && id !in IdsOf(claimed) ==>
            Accepted(after, id) && after.latest[id] == before.latest[id] && ReportFile(id) !in after.files)
  }

  /** Between these points of the run the jobs were claimed. */
  ghost predicate HasClaimed(run: seq<State>, start: nat, end: nat, claimed: seq<Job>)
    requires end < |run|
  {
    exists i :: start <= i <= end && run[i].pc == Jobs(claimed)
  }

  /** Each of these jobs was run: its latest result was accepted or waits in the buffer, and the last is on record. */
  ghost predicate WereRun(s: State, jobs: seq<Job>) {
    && (forall k :: 0 <= k < |jobs| ==> Accepted(s, jobs[k].id) || Buffered(s, jobs[k].id))
    && (jobs != [] ==> LastAppliedIs(s.files, jobs[|jobs| - 1]))
  }

  /** The record of a cycle says of it what `RunCycle` does; a process stops only when its life is used up. */
  ghost predicate IsRecorded(run: seq<State>, cycle: Cycle) {
    && cycle.start <= cycle.end < |run| && cycle.outcome != Threw
    && (cycle.outcome == Stopped ==> cycle.end - cycle.start >= cycle.occasion.life)
    && (cycle.outcome == Done ==>
          && HasFlushed(run[cycle.start], run[cycle.end], cycle.occasion.claimed, cycle.occasion.token,
                        cycle.delivered, cycle.failed)
          && HasClaimed(run, cycle.start, cycle.end, cycle.occasion.claimed)
          && WereRun(run[cycle.end], cycle.occasion.claimed)
          && (cycle.occasion.token ==> WereTried(run[cycle.end].files, cycle.occasion.claimed)))
  }

  /** The entry of a log is of its occasion, true of the run, and begins where the one before it ended. */
  ghost predicate IsEntry(run: seq<State>, log: seq<Cycle>, occasions: seq<Occasion>, first: nat, k: nat)
    requires k < |log| <= |occasions|
  {
    && log[k].occasion == occasions[k] && IsRecorded(run, log[k])
    && log[k].start == if k == 0 then first else log[k - 1].end
  }

  /** The cycles of these occasions, one after the other, from `first` on. */
  ghost predicate IsLog(run: seq<State>, log: seq<Cycle>, occasions: seq<Occasion>, first: nat) {
    |log| <= |occasions| && forall k: nat :: k < |log| ==> IsEntry(run, log, occasions, first, k)
  }

  lemma EntryStays(before: seq<State>, run: seq<State>, log: seq<Cycle>, occasions: seq<Occasion>, first: nat,
        cycle: Cycle, k: nat)
    requires before <= run && |log| < |occasions| && k < |log| && IsEntry(before, log, occasions, first, k)
    ensures IsEntry(run, log + [cycle], occasions, first, k)
  {
    assert run[log[k].start] == before[log[k].start] && run[log[k].end] == before[log[k].end];
    assert forall i :: 0 <= i < |before| ==> run[i] == before[i];
    assert (log + [cycle])[k] == log[k] && (k > 0 ==> (log + [cycle])[k - 1] == log[k - 1]);
  }

  lemma LogGrows(before: seq<State>, run: seq<State>, log: seq<Cycle>, occasions: seq<Occasion>, first: nat,
        cycle: Cycle)
    requires before <= run && IsLog(before, log, occasions, first) && |log| < |occasions|
    requires cycle.occasion == occasions[|log|] && IsRecorded(run, cycle)
    requires cycle.start == if log == [] then first else log[|log| - 1].end
    ensures IsLog(run, log + [cycle], occasions, first)
  {
    forall k: nat | k < |log + [cycle]| ensures IsEntry(run, log + [cycle], occasions, first, k) {
      if k < |log| {
        assert IsEntry(before, log, occasions, first, k);
        EntryStays(before, run, log, occasions, first, cycle, k);
      } else {
        assert (log + [cycle])[k] == cycle && (k > 0 ==> (log + [cycle])[k - 1] == log[k - 1]);
      }
    }
  }

  class Host {
    var files: Files
    /** How many more operations the process lives for. */
    var life: nat
    ghost var run: seq<State>
    ghost var calls: seq<Call>

    constructor (life: nat)
      ensures Valid() && At(Idle) && files == map[] && calls == [] && this.life == life
    {
      files := map[];
      this.life := life;
      calls := [];
      run := [State(map[], {}, map[], Idle)];
    }

    ghost predicate Valid()
      reads this
    {
      Behaviour(run) && run[|run| - 1].files == files
    }

    ghost function Now(): State
      reads this
      requires Valid()
    {
      run[|run| - 1]
    }

    ghost predicate At(pc: Control)
      reads this
    {
      Valid() && Now().pc == pc
    }

    /** Every operation costs a life and takes at least a step, and only a process without one has stopped. */
    ghost predicate Spent(before: nat, steps: nat, outcome: Outcome)
      reads this
    {
      life <= before <= life + |run| - steps && (outcome == Stopped ==> life == 0)
    }

    /** The host takes one step of the protocol. */
    ghost method Record(t: State)
      requires Valid() && t.files == Now().files && Step(Now(), t)
      modifies this`run
      ensures Valid() && run == old(run) + [t]
    {
      BehaviourGrows(run, t);
      run := run + [t];
    }

    ghost method Stop()
      requires Valid()
      modifies this`run
      ensures At(Idle) && old(run) <= run && Now() == old(Now()).(pc := Idle)
    {
      Record(Now().(pc := Idle));
    }

    /** The disk changes together with the protocol state. */
    method Change(next: Files, ghost t: State)
      requires Valid() && t.files == next && Step(Now(), t)
      modifies this`files, this`run
      ensures Valid() && Now() == t && files == next && run == old(run) + [t]
    {
      files := next;
      BehaviourGrows(run, t);
      run := run + [t];
    }

    method WriteJsonFileAtomic(target: Path, content: Content, ghost ret: Return) returns (outcome: Outcome)
      requires At(Write(Begin, target, content, ret))
      modifies this`files, this`run, this`life
      ensures Valid() && old(run) <= run && outcome != Threw
      ensures Spent(old(life), |old(run)|, outcome)
      ensures Now().accepted == old(Now()).accepted
      ensures outcome == Stopped ==> At(Idle)
      ensures outcome == Done ==>
        && At(Resume(ret))
        && files == (old(files) - {Temporary(target)})[target := content]
        && Now().latest == Recorded(old(Now()).latest, target, content)
        && KeepsAllBut(old(Now()), Now(), if target.ReportFile? then {target.id} else {})
    {
      ghost var start := Now();
      outcome := WriteTemporary(target, content, ret);
      if outcome == Stopped {
        return;
      }
      if life == 0 {
        Stop();
        return Stopped;
      }
      life := life - 1;
      var renamed := Renamed(files, target);
      Change(renamed, Now().(files := renamed, latest := Recorded(Now().latest, target, content), pc := Resume(ret)));
      WriteKeeps(start, Now(), target, content);
      return Done;
    }

    /** Writes the temporary file, which may be cut in the middle. */
    method WriteTemporary(target: Path, content: Content, ghost ret: Return) returns (outcome: Outcome)
      requires At(Write(Begin, target, content, ret))
      modifies this`files, this`run, this`life
      ensures Valid() && old(run) <= run && outcome != Threw
      ensures Spent(old(life), |old(run)|, outcome)
      ensures Now().accepted == old(Now()).accepted
      ensures outcome == Stopped ==> At(Idle)
      ensures outcome == Done ==>
        && Now() == old(Now()).(files := files, pc := Write(Written, target, content, ret))
        && files == old(files)[Temporary(target) := content]
    {
      if life == 0 {
        Stop();
        return Stopped;
      }
      life := life - 1;
      var torn := files[Temporary(target) := Torn];
      Change(torn, Now().(files := torn, pc := Write(HalfWritten, target, content, ret)));
      if life == 0 {
        Stop();
        return Stopped;
      }
      life := life - 1;
      var whole := files[Temporary(target) := content];
      Change(whole, Now().(files := whole, pc := Write(Written, target, content, ret)));
      return Done;
    }

    /** Removes a file; a throwing call may have removed it all the same. */
    method RemoveReport(id: JobId, ghost payload: Content, ghost caller: Caller) returns (outcome: Outcome)
      requires At(Clear(id, payload, caller)) && payload.Report?
      modifies this
      ensures Valid() && old(run) <= run
      ensures Spent(old(life), |old(run)|, outcome)
      ensures Now().accepted == old(Now()).accepted && Now().latest == old(Now()).latest
      ensures outcome == Stopped ==> At(Idle)
      ensures outcome == Threw ==> At(Rewrite(id, payload, caller))
      ensures outcome == Threw ==> files == old(files) || files == old(files) - {ReportFile(id)}
      ensures outcome == Done ==> At(AfterDelivery(id, caller, true)) && files == old(files) - {ReportFile(id)}
      ensures calls == if outcome == Stopped then old(calls) else old(calls) + [Removed(id, outcome == Done)]
    {
      var throws: bool, gone: bool := *, *;
      if life == 0 {
        Stop();
        return Stopped;
      }
      life := life - 1;
      calls := calls + [Removed(id, !throws)];
      var rest := if throws && !gone then files else files - {ReportFile(id)};
      if throws {
        Change(rest, Now().(files := rest, pc := Rewrite(id, payload, caller)));
        return Threw;
      }
      Change(rest, Now().(files := rest, pc := AfterDelivery(id, caller, true)));
      return Done;
    }

    /** One call to the control plane; when it throws, the report may have been taken in or not. */
    method ReportJob(id: JobId, payload: Content, ghost caller: Caller) returns (outcome: Outcome)
      requires At(Post(id, payload, caller)) && payload.Report?
      modifies this`run, this`calls, this`life
      ensures Valid() && old(run) <= run
      ensures Spent(old(life), |old(run)|, outcome)
      ensures Now().latest == old(Now()).latest
      ensures outcome == Stopped ==> At(Idle)
      ensures old(Now()).accepted <= Now().accepted <= old(Now()).accepted + {payload.result}
      ensures outcome == Threw ==> At(Rewrite(id, payload, caller))
      ensures outcome == Done ==> At(Clear(id, payload, caller)) && payload.result in Now().accepted
      ensures calls == if outcome == Stopped then old(calls) else old(calls) + [Posted(payload.result, outcome == Done)]
    {
      var throws: bool := *;
      ghost var takenIn: bool := *;
      if life == 0 {
        Stop();
        return Stopped;
      }
      life := life - 1;
      calls := calls + [Posted(payload.result, !throws)];
      if throws {
        Record(Now().(accepted := Now().accepted + (if takenIn then {payload.result} else {}),
                      pc := Rewrite(id, payload, caller)));
        return Threw;
      }
      Record(Now().(accepted := Now().accepted + {payload.result}, pc := Clear(id, payload, caller)));
      return Done;
    }

    /** The part of a delivery inside the `try`. */
    method PostAndRemove(id: JobId, payload: Content, ghost caller: Caller) returns (outcome: Outcome)
      requires At(Post(id, payload, caller)) && payload.Report?
      modifies this
      ensures Valid() && old(run) <= run && old(calls) <= calls
      ensures Spent(old(life), |old(run)|, outcome)
      ensures old(Now()).accepted <= Now().accepted && Now().latest == old(Now()).latest
      ensures outcome == Stopped ==> At(Idle)
      ensures outcome == Threw ==>
        && At(Rewrite(id, payload, caller)) && (files == old(files) || files == old(files) - {ReportFile(id)})
      ensures outcome == Done ==>
        && At(AfterDelivery(id, caller, true)) && payload.result in Now().accepted
        && files == old(files) - {ReportFile(id)}
      ensures outcome != Stopped ==> IsDelivery(calls[|old(calls)|..], id, payload.result, outcome == Done)
    {
      outcome := ReportJob(id, payload, caller);
      if outcome == Done {
        outcome := RemoveReport(id, payload, caller);
      }
    }

    method DeliverBufferedReport(id: JobId, payload: Content, ghost caller: Caller)
      returns (outcome: Outcome, delivered: bool)
      requires At(Post(id, payload, caller)) && payload.Report?
      modifies this
      ensures Valid() && old(run) <= run && outcome != Threw
      ensures Spent(old(life), |old(run)|, outcome)
      ensures old(Now()).accepted <= Now().accepted
      ensures outcome == Stopped ==> At(Idle)
      ensures outcome == Done ==> At(AfterDelivery(id, caller, delivered))
      ensures outcome == Done && delivered ==>
        && payload.result in Now().accepted
        && files == old(files) - {ReportFile(id)}
        && Now().latest == old(Now()).latest
      ensures outcome == Done && !delivered ==>
        && ReportFile(id) in files
        && files[ReportFile(id)] == payload.(deliveryAttempts := payload.deliveryAttempts + 1)
        && Now().latest == old(Now()).latest[id := payload.result]
      ensures outcome == Done ==> SameElsewhere(old(files), files, id)
      ensures outcome == Done ==> KeepsAllBut(old(Now()), Now(), {id})
      ensures old(calls) <= calls
      ensures outcome == Done ==> IsDelivery(calls[|old(calls)|..], id, payload.result, delivered)
    {
      ghost var start := Now();
      outcome := PostAndRemove(id, payload, caller);
      if outcome == Stopped {
        return Stopped, false;
      }
      RemovalKeeps(start, Now(), id);
      if outcome == Done {
        return Done, true;
      }
      outcome := BufferAgain(id, payload, caller, start);
      return outcome, false;
    }

    /** Puts the report back with one more attempt in it, after a delivery that began at `start` threw. */
    method BufferAgain(id: JobId, payload: Content, ghost caller: Caller, ghost start: State) returns (outcome: Outcome)
      requires payload.Report? && At(Rewrite(id, payload, caller))
      requires KeepsAllBut(start, Now(), {id}) && (files == start.files || files == start.files - {ReportFile(id)})
      modifies this`files, this`run, this`life
      ensures Valid() && old(run) <= run && outcome != Threw && Now().accepted == old(Now()).accepted
      ensures Spent(old(life), |old(run)|, outcome)
      ensures outcome == Stopped ==> At(Idle)
      ensures outcome == Done ==>
        && At(AfterDelivery(id, caller, false)) && ReportFile(id) in files
        && files[ReportFile(id)] == payload.(deliveryAttempts := payload.deliveryAttempts + 1)
        && Now().latest == old(Now()).latest[id := payload.result]
        && SameElsewhere(start.files, files, id) && KeepsAllBut(start, Now(), {id})
    {
      ghost var kept := Now();
      var retry := payload.(deliveryAttempts := payload.deliveryAttempts + 1);
      outcome := WriteJsonFileAtomic(ReportFile(id), retry, ToGiveUp(id, caller));
      if outcome == Done {
        KeepingComposes(start, kept, Now(), {id}, {id}, {id});
        RewriteIsElsewhere(start.files, kept.files, files, id, retry);
      }
    }

    ghost function Reports(): set<JobId>
      reads this
    {
      ReportsOf(files)
    }

    /** The finished reports, each once. */
    method ListReports() returns (todo: seq<JobId>)
      requires Valid()
      ensures Lists(todo, files)
      ensures |todo| == |Reports()|
      ensures forall i, j :: 0 <= i < j < |todo| ==> todo[i] != todo[j]
    {
      var left := set p | p in files && p.ReportFile? :: p.id;
      todo := [];
      while left != {}
        invariant forall id :: (id in todo || id in left) <==> ReportFile(id) in files
        invariant forall id :: id in todo ==> id !in left
        invariant forall i, j :: 0 <= i < j < |todo| ==> todo[i] != todo[j]
        invariant |todo| + |left| == |Reports()|
        decreases |left|
      {
        var id :| id in left;
        todo := todo + [id];
        left := left - {id};
      }
    }

    /** One turn of the flush loop: a readable report is delivered, anything else is deleted. */
    method FlushOne(id: JobId, ghost later: seq<JobId>) returns (outcome: Outcome, delivered: bool)
      requires At(Flush([id] + later))
      requires ReportFile(id) in files
      modifies this
      ensures Valid() && old(run) <= run && outcome != Threw
      ensures Spent(old(life), |old(run)|, outcome)
      ensures outcome == Stopped ==> At(Idle)
      ensures outcome == Done ==> At(Flush(later))
      ensures outcome == Done ==>
        forall other :: other != id ==> (ReportFile(other) in files <==> ReportFile(other) in old(files))
      ensures outcome == Done ==> (delivered <==> ReportFile(id) !in files)
      ensures outcome == Done && delivered ==> Accepted(Now(), id)
      ensures outcome == Done ==> KeepsAllBut(old(Now()), Now(), {id})
      ensures outcome == Done ==> Now().latest == old(Now()).latest && old(Now()).accepted <= Now().accepted
      ensures old(calls) <= calls && old(files)[ReportFile(id)].Report?
      ensures outcome == Done ==>
        IsDelivery(calls[|old(calls)|..], id, old(files)[ReportFile(id)].result, delivered)
    {
      assert ([id] + later)[1..] == later;
      EverythingBufferedIsReadable();
      if ReportFile(id) in files && files[ReportFile(id)].Report? {
        var payload := files[ReportFile(id)];
        Record(Now().(pc := Post(id, payload, FromFlush(later))));
        outcome, delivered := DeliverBufferedReport(id, payload, FromFlush(later));
        assert outcome == Done ==> Now().latest == old(Now()).latest;
      } else {
        // The deletion of a report that cannot be read: no reachable state comes here.
        assert false;
        return Stopped, false;
      }
    }

    lemma EverythingBufferedIsReadable()
      requires Valid()
      ensures forall id :: ReportFile(id) in files ==> Buffered(Now(), id)
      ensures (forall id :: ReportFile(id) !in files) ==> forall id :: id in Now().latest ==> Accepted(Now(), id)
    {
      EveryReachableStateIsSafe(run, |run| - 1);
    }

    /** The loop over the listed reports. */
    method FlushListed(todo: seq<JobId>) returns (outcome: Outcome, delivered: nat, failed: nat)
      requires At(Flush(todo)) && Lists(todo, files) && |todo| == |Reports()|
      requires forall i, j :: 0 <= i < j < |todo| ==> todo[i] != todo[j]
      modifies this
      ensures Valid() && old(run) <= run && outcome != Threw
      ensures Spent(old(life), |old(run)|, outcome)
      ensures outcome == Stopped ==> At(Idle)
      ensures outcome == Done ==> At(Flush([])) && delivered + failed == |todo| && failed == |Reports()|
      ensures outcome == Done ==> Now().latest == old(Now()).latest && old(Now()).accepted <= Now().accepted
      ensures old(calls) <= calls
      ensures outcome == Done ==> ArePosted(old(Reports()), old(files), calls[|old(calls)|..])
    {
      delivered, failed := 0, 0;
      ghost var before := Now();
      var next := 0;
      while next < |todo|
        invariant 0 <= next <= |todo|
        invariant At(Flush(todo[next..])) && old(run) <= run && old(calls) <= calls
        invariant delivered + failed == next && |Reports()| == failed + |todo| - next
        invariant FlushDone(before, Now(), todo, next, calls[|old(calls)|..])
        invariant Spent(old(life), |old(run)|, Done)
      {
        var success;
        outcome, success := FlushNext(todo, next, before, old(calls));
        if outcome == Stopped {
          return;
        }
        if success {
          delivered := delivered + 1;
        } else {
          failed := failed + 1;
        }
        next := next + 1;
      }
      outcome := Done;
    }

    /** One turn of the loop that began at `start`. */
    method FlushNext(todo: seq<JobId>, next: nat, ghost start: State, ghost first: seq<Call>)
      returns (outcome: Outcome, success: bool)
      requires next < |todo| && At(Flush(todo[next..])) && first <= calls
      requires forall i, j :: 0 <= i < j < |todo| ==> todo[i] != todo[j]
      requires FlushDone(start, Now(), todo, next, calls[|first|..])
      modifies this
      ensures Valid() && old(run) <= run && outcome != Threw
      ensures Spent(old(life), |old(run)|, outcome)
      ensures outcome == Stopped ==> At(Idle)
      ensures old(calls) <= calls
      ensures outcome == Done ==>
        && At(Flush(todo[next + 1..])) && FlushDone(start, Now(), todo, next + 1, calls[|first|..])
        && |Reports()| == if success then |old(Reports())| - 1 else |old(Reports())|
    {
      ghost var now, known := Now(), calls;
      assert todo[next..] == [todo[next]] + todo[next + 1..];
      NextReportWaits(start, now, todo, next, calls[|first|..]);
      outcome, success := FlushOne(todo[next], todo[next + 1..]);
      if outcome == Stopped {
        return;
      }
      DeliveryPosts(first, known, calls, todo[next], start.files[ReportFile(todo[next])].result, success);
      OneMoreFlush(start, now, Now(), todo, next, known[|first|..], calls[|first|..]);
      ReportsAfter(now, todo[next], success);
    }

    lemma ReportsAfter(before: State, id: JobId, removed: bool)
      requires Valid() && KeepsAllBut(before, Now(), {id})
      requires ReportFile(id) in before.files && (removed <==> ReportFile(id) !in files)
      ensures |Reports()| == if removed then |ReportsOf(before.files)| - 1 else |ReportsOf(before.files)|
    {
      var reports := ReportsOf(before.files);
      forall other | other != id ensures other in Reports() <==> other in reports {
        assert SameReport(before, Now(), other);
      }
      assert Reports() == if removed then reports - {id} else reports;
    }

    /** Delivers every listed report once; the counts add up to what was buffered. */
    method FlushBufferedReports(token: bool) returns (outcome: Outcome, delivered: nat, failed: nat)
      requires At(List)
      modifies this
      ensures Valid() && old(run) <= run && outcome != Threw
      ensures Spent(old(life), |old(run)|, outcome)
      ensures outcome == Stopped ==> At(Idle)
      ensures outcome == Done ==> At(Claim)
      ensures !token ==> delivered == 0 && files == old(files) && calls == old(calls)
      ensures outcome == Done ==> Now().latest == old(Now()).latest && old(Now()).accepted <= Now().accepted
      ensures outcome == Done && token ==> delivered + failed == |old(Reports())| && failed == |Reports()|
      ensures old(calls) <= calls
      ensures outcome == Done && token ==> ArePosted(old(Reports()), old(files), calls[|old(calls)|..])
      // A pass in which every call succeeds empties the buffer, and then every latest result has been accepted.
      ensures outcome == Done && token && failed == 0 ==>
        && (forall id :: ReportFile(id) !in files)
        && (forall id :: id in Now().latest ==> Accepted(Now(), id))
    {
      if !token {
        Record(Now().(pc := Claim));
        return Done, 0, 0;
      }
      var todo := ListReports();
      Record(Now().(pc := Flush(todo)));
      outcome, delivered, failed := FlushListed(todo);
      if outcome == Stopped {
        return;
      }
      if failed == 0 {
        forall id ensures ReportFile(id) !in files {
          assert ReportFile(id) in files ==> id in Reports();
        }
      }
      EverythingBufferedIsReadable();
      Record(Now().(pc := Claim));
    }

    method SpoolJob(job: Job, ghost rest: seq<Job>) returns (outcome: Outcome)
      requires At(Jobs([job] + rest))
      modifies this`files, this`run, this`life
      ensures Valid() && old(run) <= run && outcome != Threw
      ensures Spent(old(life), |old(run)|, outcome)
      ensures outcome == Stopped ==> At(Idle)
      ensures outcome == Done ==> At(Run(job, rest)) && KeepsAllBut(old(Now()), Now(), {})
    {
      assert ([job] + rest)[1..] == rest;
      Record(Now().(pc := Write(Begin, SpoolFile(job.id), Spool(job, Claimed), ToExecute(job, rest))));
      outcome := WriteJsonFileAtomic(SpoolFile(job.id), Spool(job, Claimed), ToExecute(job, rest));
    }

    /** Spools the job, runs it, and leaves its report in the buffer. */
    method RunAndBuffer(job: Job, ghost rest: seq<Job>) returns (outcome: Outcome, result: JobResult)
      requires At(Jobs([job] + rest))
      modifies this`files, this`run, this`life
      ensures Valid() && old(run) <= run && outcome != Threw
      ensures Spent(old(life), |old(run)|, outcome)
      ensures outcome == Stopped ==> At(Idle)
      ensures outcome == Done ==>
        At(Write(Begin, SpoolFile(job.id), Spool(job, Executed), ToRecordApplied(job, result, rest)))
      ensures outcome == Done ==> ReportFile(job.id) in files && files[ReportFile(job.id)] == Report(result, 0)
      ensures outcome == Done ==> job.id in Now().latest && Now().latest[job.id] == result
      ensures outcome == Done ==> KeepsAllBut(old(Now()), Now(), {job.id})
    {
      result := *;
      ghost var start := Now();
      outcome := SpoolJob(job, rest);
      if outcome == Stopped {
        return;
      }
      ghost var spooled := Now();
      Record(Now().(pc := Write(Begin, ReportFile(job.id), Report(result, 0), ToMarkExecuted(job, result, rest))));
      outcome := WriteJsonFileAtomic(ReportFile(job.id), Report(result, 0), ToMarkExecuted(job, result, rest));
      if outcome == Done {
        KeepingComposes(start, spooled, Now(), {}, {job.id}, {job.id});
      }
    }

    /** Marks the job executed and records the applied desired state. */
    method MarkExecuted(job: Job, ghost result: JobResult, ghost rest: seq<Job>) returns (outcome: Outcome)
      requires At(Write(Begin, SpoolFile(job.id), Spool(job, Executed), ToRecordApplied(job, result, rest)))
      modifies this`files, this`run, this`life
      ensures Valid() && old(run) <= run && outcome != Threw
      ensures Spent(old(life), |old(run)|, outcome)
      ensures outcome == Stopped ==> At(Idle)
      ensures outcome == Done ==> At(Deliver(job, result, rest)) && Now().latest == old(Now()).latest
      ensures outcome == Done ==> SpoolFile(job.id) in files && files[SpoolFile(job.id)] == Spool(job, Executed)
      ensures outcome == Done ==>
        forall id :: ReportFile(id) in old(files) ==>
          ReportFile(id) in files && files[ReportFile(id)] == old(files)[ReportFile(id)]
      ensures outcome == Done ==> LastAppliedIs(files, job)
      ensures outcome == Done ==> KeepsAllBut(old(Now()), Now(), {job.id})
    {
      ghost var start := Now();
      outcome := WriteJsonFileAtomic(SpoolFile(job.id), Spool(job, Executed), ToRecordApplied(job, result, rest));
      if outcome == Stopped {
        return;
      }
      ghost var marked := Now();
      outcome := WriteJsonFileAtomic(LastApplied, NodeState(job.desiredStateVersion), ToDeliver(job, result, rest));
      if outcome == Done {
        KeepingComposes(start, marked, Now(), {}, {}, {job.id});
      }
    }

    /** Delivers the fresh report and drops the spool entry when that worked. */
    method DeliverAndSettle(job: Job, result: JobResult, ghost rest: seq<Job>) returns (outcome: Outcome)
      requires At(Deliver(job, result, rest))
      requires SpoolFile(job.id) in files && files[SpoolFile(job.id)] == Spool(job, Executed)
      requires job.id in Now().latest && Now().latest[job.id] == result
      modifies this
      ensures Valid() && old(run) <= run && outcome != Threw
      ensures Spent(old(life), |old(run)|, outcome)
      ensures outcome == Stopped ==> At(Idle)
      ensures outcome == Done ==> At(Jobs(rest)) && job.id in Now().latest && Now().latest[job.id] == result
      ensures outcome == Done ==> IsSettledOrWaits(Now(), job, result, 1)
      ensures outcome == Done ==> KeepsAllBut(old(Now()), Now(), {job.id})
      ensures outcome == Done ==> (LastAppliedIs(files, job) <==> LastAppliedIs(old(files), job))
      ensures old(calls) <= calls
      ensures outcome == Done ==>
        IsDelivery(calls[|old(calls)|..], job.id, result, SpoolFile(job.id) !in files)
    {
      ghost var start := Now();
      Record(Now().(pc := Post(job.id, Report(result, 0), FromJob(rest))));
      var success;
      outcome, success := DeliverBufferedReport(job.id, Report(result, 0), FromJob(rest));
      if outcome == Stopped || !success {
        return;
      }
      ghost var settled := Now();
      outcome := DropSpoolEntry(job.id, rest);
      if outcome == Done {
        KeepingComposes(start, settled, Now(), {job.id}, {}, {job.id});
      }
    }

    /** Removes the spool entry of a job that is settled. */
    method DropSpoolEntry(id: JobId, ghost rest: seq<Job>) returns (outcome: Outcome)
      requires At(DropSpool(id, rest))
      modifies this`files, this`run, this`life
      ensures Valid() && old(run) <= run && outcome != Threw
      ensures Spent(old(life), |old(run)|, outcome)
      ensures Now().accepted == old(Now()).accepted && Now().latest == old(Now()).latest
      ensures outcome == Stopped ==> At(Idle)
      ensures outcome == Done ==>
        At(Jobs(rest)) && files == old(files) - {SpoolFile(id)} && KeepsAllBut(old(Now()), Now(), {})
    {
      ghost var settled := Now();
      if life == 0 {
        Stop();
        return Stopped;
      }
      life := life - 1;
      var left := files - {SpoolFile(id)};
      Change(left, Now().(files := left, pc := Jobs(rest)));
      SameFilesKeep(settled, Now(), {});
      outcome := Done;
    }

    method ExecuteClaimedJob(job: Job, token: bool, ghost rest: seq<Job>) returns (outcome: Outcome)
      requires At(Jobs([job] + rest))
      modifies this
      ensures Valid() && old(run) <= run && outcome != Threw
      ensures Spent(old(life), |old(run)|, outcome)
      ensures outcome == Stopped ==> At(Idle)
      ensures outcome == Done ==> At(Jobs(rest))
      ensures outcome == Done ==> KeepsAllBut(old(Now()), Now(), {job.id})
      ensures outcome == Done ==>
        job.id in Now().latest && LastAppliedIs(files, job)
      // With a token the result is posted. It is settled and both its files are gone, or its report waits, with the
      // number of attempts in it, and its spool entry says so.
      ensures old(calls) <= calls && (!token ==> calls == old(calls))
      ensures outcome == Done && token ==>
        IsDelivery(calls[|old(calls)|..], job.id, Now().latest[job.id], SpoolFile(job.id) !in files)
      ensures outcome == Done && token ==> IsSettledOrWaits(Now(), job, Now().latest[job.id], 1)
      ensures outcome == Done && !token ==> Waits(Now(), job, Now().latest[job.id], 0)
    {
      ghost var start := Now();
      var result;
      outcome, result := RunAndMark(job, rest);
      if outcome == Stopped {
        return;
      }
      ghost var marked := Now();
      if token {
        outcome := DeliverAndSettle(job, result, rest);
        if outcome == Done {
          KeepingComposes(start, marked, Now(), {job.id}, {job.id}, {job.id});
        }
      } else {
        Record(Now().(pc := Jobs(rest)));
      }
    }

    /** The job up to the point at which its report is delivered. */
    method RunAndMark(job: Job, ghost rest: seq<Job>) returns (outcome: Outcome, result: JobResult)
      requires At(Jobs([job] + rest))
      modifies this`files, this`run, this`life
      ensures Valid() && old(run) <= run && outcome != Threw
      ensures Spent(old(life), |old(run)|, outcome)
      ensures outcome == Stopped ==> At(Idle)
      ensures outcome == Done ==>
        && At(Deliver(job, result, rest)) && KeepsAllBut(old(Now()), Now(), {job.id})
        && job.id in Now().latest && Now().latest[job.id] == result
        && LastAppliedIs(files, job) && Waits(Now(), job, result, 0)
    {
      ghost var start := Now();
      outcome, result := RunAndBuffer(job, rest);
      if outcome == Stopped {
        return;
      }
      ghost var buffered := Now();
      outcome := MarkExecuted(job, result, rest);
      if outcome == Done {
        KeepingComposes(start, buffered, Now(), {job.id}, {job.id}, {job.id});
      }
    }

    /** The snapshot writes of a cycle and the identity write after the registration. */
    method Announce() returns (outcome: Outcome)
      requires At(Idle)
      modifies this`files, this`run, this`life
      ensures Valid() && old(run) <= run && outcome != Threw
      ensures Spent(old(life), |old(run)|, outcome)
      ensures outcome == Stopped ==> At(Idle)
      ensures outcome == Done ==> At(List) && KeepsAllBut(old(Now()), Now(), {}) && Reports() == old(Reports())
    {
      var identity: string := *;
      ghost var start := Now();
      Record(Now().(pc := Write(Begin, NodeIdentity, NodeState(identity), ToLastApplied)));
      outcome := WriteJsonFileAtomic(NodeIdentity, NodeState(identity), ToLastApplied);
      if outcome == Stopped {
        return;
      }
      ghost var identified := Now();
      outcome := WriteJsonFileAtomic(LastApplied, NodeState("bootstrap"), ToRegister);
      if outcome == Stopped {
        return;
      }
      KeepingComposes(start, identified, Now(), {}, {}, {});
      outcome := Register(start);
    }

    /** The registration and the identity write after it. */
    method Register(ghost start: State) returns (outcome: Outcome)
      requires At(Control.Register) && KeepsAllBut(start, Now(), {})
      modifies this`files, this`run, this`life
      ensures Valid() && old(run) <= run && outcome != Threw
      ensures Spent(old(life), |old(run)|, outcome)
      ensures outcome == Stopped ==> At(Idle)
      ensures outcome == Done ==> At(List) && KeepsAllBut(start, Now(), {}) && Reports() == ReportsOf(start.files)
    {
      var issued: string := *;
      if life == 0 {
        Stop();
        return Stopped;
      }
      life := life - 1;
      Record(Now().(pc := Write(Begin, NodeIdentity, NodeState(issued), ToFlush)));
      ghost var registered := Now();
      outcome := WriteJsonFileAtomic(NodeIdentity, NodeState(issued), ToFlush);
      if outcome == Done {
        KeepingComposes(start, registered, Now(), {}, {}, {});
        KeptReports(start, Now());
      }
    }

    lemma ResultsAreSafe(jobs: seq<Job>)
      requires Valid() && forall k :: 0 <= k < |jobs| ==> jobs[k].id in Now().latest
      ensures forall k :: 0 <= k < |jobs| ==> Accepted(Now(), jobs[k].id) || Buffered(Now(), jobs[k].id)
    {
      EveryReachableStateIsSafe(run, |run| - 1);
    }

    method ExecuteClaimedJobs(claimed: seq<Job>, token: bool) returns (outcome: Outcome)
      requires At(Jobs(claimed))
      modifies this
      ensures At(Idle) && old(run) <= run && outcome != Threw
      ensures Spent(old(life), |old(run)|, outcome)
      ensures outcome == Done ==> WereRun(Now(), claimed) && JobsDone(old(Now()), Now(), claimed, |claimed|, token)
      ensures old(calls) <= calls && (!token ==> calls == old(calls))
    {
      var next := 0;
      ghost var start := Now();
      while next < |claimed|
        invariant 0 <= next <= |claimed|
        invariant At(Jobs(claimed[next..])) && old(run) <= run
        invariant old(calls) <= calls && (!token ==> calls == old(calls))
        invariant JobsDone(start, Now(), claimed, next, token)
        invariant Spent(old(life), |old(run)|, Done)
      {
        assert claimed[next..] == [claimed[next]] + claimed[next + 1..];
        ghost var before := Now();
        outcome := ExecuteClaimedJob(claimed[next], token, claimed[next + 1..]);
        if outcome == Stopped {
          return;
        }
        OneMoreJob(start, before, Now(), claimed, next, token);
        next := next + 1;
      }
      Record(Now().(pc := Idle));
      ResultsAreSafe(claimed);
      outcome := Done;
    }

    /** The claim, which a process may not live to make, and the claimed jobs. */
    method ClaimAndExecute(claimed: seq<Job>, token: bool) returns (outcome: Outcome)
      requires At(Claim)
      modifies this
      ensures At(Idle) && old(run) <= run && outcome != Threw
      ensures Spent(old(life), |old(run)|, outcome)
      ensures outcome == Done ==> WereRun(Now(), claimed) && KeepsAllBut(old(Now()), Now(), IdsOf(claimed))
      ensures outcome == Done ==> HasClaimed(run, |old(run)|, |run| - 1, claimed)
      ensures outcome == Done && token ==> WereTried(files, claimed)
      ensures old(calls) <= calls && (!token ==> calls == old(calls))
    {
      if life == 0 {
        Stop();
        return Stopped;
      }
      life := life - 1;
      Record(Now().(pc := Jobs(claimed)));
      ghost var claiming := run;
      outcome := ExecuteClaimedJobs(claimed, token);
      assert claimed[..|claimed|] == claimed;
      assert run[|claiming| - 1] == claiming[|claiming| - 1];
    }

    /** One manager cycle: identity, flush, claim, then the claimed jobs in order. */
    method RunCycle(claimed: seq<Job>, token: bool) returns (outcome: Outcome, delivered: nat, failed: nat)
      requires At(Idle)
      modifies this
      ensures At(Idle) && old(run) <= run && outcome != Threw
      ensures Spent(old(life), |old(run)|, outcome)
      ensures outcome == Done ==> WereRun(Now(), claimed) && (token ==> WereTried(files, claimed))
      ensures outcome == Done ==> HasClaimed(run, |old(run)|, |run| - 1, claimed)
      ensures outcome == Done ==> HasFlushed(old(Now()), Now(), claimed, token, delivered, failed)
      ensures old(calls) <= calls && (!token ==> calls == old(calls))
      ensures outcome == Done && token ==> ArePosted(old(Reports()), old(files), calls[|old(calls)|..])
    {
      delivered, failed := 0, 0;
      ghost var start := Now();
      outcome := Announce();
      if outcome == Stopped {
        return;
      }
      ghost var announced := Now();
      outcome, delivered, failed := FlushBufferedReports(token);
      if outcome == Stopped {
        return;
      }
      ghost var flushed, posted := Now(), calls;
      assert token ==> ArePosted(ReportsOf(start.files), start.files, posted[|old(calls)|..]) by {
        AnnouncedReportsArePosted(start, announced, posted[|old(calls)|..], token);
      }
      outcome := ClaimAndExecute(claimed, token);
      if outcome == Done && token {
        MorePosts(ReportsOf(start.files), start.files, old(calls), posted, calls);
        FlushedBeforeJobs(start, announced, flushed, Now(), claimed, failed);
      }
    }

    lemma AnnouncedReportsArePosted(start: State, announced: State, posted: seq<Call>, token: bool)
      requires KeepsAllBut(start, announced, {})
      requires token ==> ArePosted(ReportsOf(announced.files), announced.files, posted)
      ensures token ==> ArePosted(ReportsOf(start.files), start.files, posted)
    {
      forall id | id in ReportsOf(start.files)
        ensures SameReport(start, announced, id) && id in ReportsOf(announced.files)
      {
      }
    }

    lemma FlushedBeforeJobs(start: State, announced: State, flushed: State, now: State, claimed: seq<Job>, failed: nat)
      requires KeepsAllBut(start, announced, {}) && KeepsAllBut(flushed, now, IdsOf(claimed))
      requires flushed.latest == announced.latest
      requires failed == 0 ==>
        (forall id :: ReportFile(id) !in flushed.files) && forall id :: id in flushed.latest ==> Accepted(flushed, id)
      ensures failed == 0 ==> forall id :: id in start.latest && id !in IdsOf(claimed) ==>
        Accepted(now, id) && now.latest[id] == start.latest[id] && ReportFile(id) !in now.files
      ensures claimed == [] ==> ReportsOf(now.files) == ReportsOf(flushed.files)
    {
      if failed == 0 {
        forall id | id in start.latest && id !in IdsOf(claimed)
          ensures Accepted(now, id) && now.latest[id] == start.latest[id] && ReportFile(id) !in now.files
        {
          assert SameLatest(start, announced, id) && SameLatest(flushed, now, id) && SameReport(flushed, now, id);
          assert Accepted(flushed, id);
        }
      }
      if claimed == [] {
        forall id ensures id in ReportsOf(now.files) <==> id in ReportsOf(flushed.files) {
          assert SameReport(flushed, now, id);
        }
      }
    }

    /** Whatever cycles were started and wherever they were cut, nothing is lost, and each that ended has flushed. */
    method RunCycles(occasions: seq<Occasion>) returns (ghost log: seq<Cycle>)
      requires At(Idle)
      modifies this
      ensures At(Idle) && old(run) <= run
      ensures forall i :: 0 <= i < |run| ==> Safe(run[i])
      ensures |log| == |occasions| && IsLog(run, log, occasions, |old(run)| - 1)
    {
      log := [];
      ghost var first := |run| - 1;
      for i := 0 to |occasions|
        invariant At(Idle) && old(run) <= run
        invariant |log| == i && IsLog(run, log, occasions, first)
        invariant |run| - 1 == if i == 0 then first else log[i - 1].end
      {
        ghost var before := run;
        life := occasions[i].life;
        var outcome, delivered, failed := RunCycle(occasions[i].claimed, occasions[i].token);
        ghost var cycle := Cycle(occasions[i], |before| - 1, |run| - 1, outcome, delivered, failed);
        assert run[cycle.start] == before[cycle.start];
        LogGrows(before, run, log, occasions, first, cycle);
        log := log + [cycle];
      }
      forall i | 0 <= i < |run| ensures Safe(run[i]) {
        EveryReachableStateIsSafe(run, i);
      }
    }
  }

  lemma MorePosts(ids: set<JobId>, files: Files, first: seq<Call>, known: seq<Call>, calls: seq<Call>)
    requires first <= known <= calls && ArePosted(ids, files, known[|first|..])
    ensures ArePosted(ids, files, calls[|first|..])
  {
    assert calls[|first|..] == known[|first|..] + calls[|known|..];
  }

  /**
   * A cycle that claimed nothing and whose deliveries all succeeded leaves no report behind, and what had waited when
   * it began has been accepted then and stays accepted.
   */
  lemma SuccessfulCycleEmptiesTheBuffer(host: Host, cycle: Cycle, i: nat, id: JobId)
    requires host.Valid() && IsRecorded(host.run, cycle)
    requires cycle.outcome == Done && cycle.failed == 0 && cycle.occasion.token && cycle.occasion.claimed == []
    requires cycle.end <= i < |host.run|
    ensures forall p :: p in host.run[cycle.end].files ==> !p.ReportFile?
    ensures id in host.run[cycle.start].latest ==>
      host.run[cycle.start].latest[id] in host.run[i].accepted
  {
    var after := host.run[cycle.end];
    assert forall p :: p in after.files && p.ReportFile? ==> p.id in ReportsOf(after.files);
    assert ReportsOf(after.files) == {};
    AcceptanceIsPermanent(host.run, cycle.end, i);
  }
}
