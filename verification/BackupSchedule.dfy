/**
 * The once-per-minute rule and the backup cycle.
 *
 * A cycle reads the clock once, asks the control plane for the newest run of each policy, and attempts the policies
 * that are due; the control plane stamps a run when it is recorded, so after the attempt and not before it. `Runner`
 * keeps every attempt in a ghost history, and `Valid` says of it that no policy is attempted twice in a minute.
 */
module BackupSchedule {
  import opened Prelude
  import opened Text
  import Cron

  datatype Policy = Policy(slug: string, targetNode: string, schedule: string)

  /** A recorded run; `startedAt` is the control plane's stamp in milliseconds. */
  datatype Run = Run(slug: string, startedAt: int, succeeded: bool)

  /** Whether a schedule matches at a time in milliseconds. */
  type Matcher = (string, int) -> bool

  /** The matcher in use: the cron matcher on the UTC fields of the time. */
  function CronMatcher(calendar: int -> Cron.Time): Matcher {
    (schedule, now) => Cron.MatchesCronExpression(schedule, calendar(now))
  }

  /** The UTC minute a time falls in: what is left of its ISO text after 16 characters, for years of four digits. */
  function Minute(ms: int): int {
    ms / 60000
  }

  ghost predicate IsInMinute(ms: int, m: int) {
    60000 * m <= ms < 60000 * (m + 1)
  }

  /** Two instants lie in one minute of sixty seconds. */
  ghost predicate InOneMinute(a: int, b: int) {
    exists m :: IsInMinute(a, m) && IsInMinute(b, m)
  }

  lemma MinuteIsSixtySeconds(a: int, b: int)
    ensures IsInMinute(a, Minute(a))
    ensures Minute(a) == Minute(b) <==> InOneMinute(a, b)
  {
    assert IsInMinute(a, Minute(a)) && IsInMinute(b, Minute(b));
  }

  /** `SELECT DISTINCT ON … ORDER BY started_at DESC`, then `find`. */
  function NewestRun(runs: seq<Run>, slug: string): Option<Run> {
    if runs == [] then None
    else
      var rest := NewestRun(runs[1..], slug);
      if runs[0].slug == slug && (rest.None? || rest.value.startedAt <= runs[0].startedAt) then Some(runs[0]) else rest
  }

  lemma {:induction false} NewestRunIsNewest(runs: seq<Run>, slug: string)
    ensures var newest := NewestRun(runs, slug);
      && (newest.None? <==> forall r :: r in runs ==> r.slug != slug)
      && (newest.Some? ==>
            && newest.value in runs && newest.value.slug == slug
            && forall r :: r in runs && r.slug == slug ==> r.startedAt <= newest.value.startedAt)
  {
    if runs != [] {
      NewestRunIsNewest(runs[1..], slug);
      assert forall r :: r in runs <==> r == runs[0] || r in runs[1..];
    }
  }

  predicate ShouldRunPolicyAtTime(schedule: string, latest: Option<Run>, now: int, force: bool, matches: Matcher) {
    if force then true
    else if !matches(schedule, now) then false
    else Minute(if latest.Some? then latest.value.startedAt else 0) != Minute(now)
  }

  predicate IsDue(p: Policy, runs: seq<Run>, now: int, force: bool, matches: Matcher) {
    ShouldRunPolicyAtTime(p.schedule, NewestRun(runs, p.slug), now, force, matches)
  }

  ghost predicate RanIn(p: Policy, runs: seq<Run>, minute: int) {
    exists r :: r in runs && r.slug == p.slug && Minute(r.startedAt) == minute
  }

  ghost predicate RanAfter(p: Policy, runs: seq<Run>, minute: int) {
    exists r :: r in runs && r.slug == p.slug && Minute(r.startedAt) > minute
  }

  ghost predicate NeverRan(p: Policy, runs: seq<Run>) {
    forall r :: r in runs ==> r.slug != p.slug
  }

  /**
   * Whatever the clock did: an unforced policy is due exactly when its schedule matches and no run of it was stamped in
   * this minute, or one was stamped in a later one. Without any run, minute 0 of 1970 counts as taken.
   */
  lemma DueExactly(p: Policy, runs: seq<Run>, now: int, matches: Matcher)
    ensures IsDue(p, runs, now, false, matches) <==>
      && matches(p.schedule, now)
      && (NeverRan(p, runs) ==> Minute(now) != 0)
      && (RanIn(p, runs, Minute(now)) ==> RanAfter(p, runs, Minute(now)))
  {
    NewestRunIsNewest(runs, p.slug);
    var newest := NewestRun(runs, p.slug);
    if newest.Some? {
      forall r | r in runs && r.slug == p.slug ensures Minute(r.startedAt) <= Minute(newest.value.startedAt) {
      }
    }
  }

  /** With a clock that has not gone back, a minute with a run in it is taken. */
  lemma TakenMinuteIsNotDue(p: Policy, runs: seq<Run>, now: int, matches: Matcher)
    requires forall r :: r in runs && r.slug == p.slug ==> r.startedAt <= now
    ensures IsDue(p, runs, now, false, matches) ==> !RanIn(p, runs, Minute(now))
  {
    DueExactly(p, runs, now, matches);
  }

  /** In a minute with a run in it, a policy runs again exactly when a later run shows that the clock went back. */
  lemma MinuteRepeatsExactly(p: Policy, runs: seq<Run>, now: int, matches: Matcher)
    requires matches(p.schedule, now) && RanIn(p, runs, Minute(now))
    ensures IsDue(p, runs, now, false, matches) <==> RanAfter(p, runs, Minute(now))
  {
    DueExactly(p, runs, now, matches);
  }

  /** An input on which it does. */
  lemma ClockGoingBackRepeatsAMinute(p: Policy, m: int, matches: Matcher)
    requires matches(p.schedule, 60000 * m)
    ensures IsDue(p, [Run(p.slug, 60000 * m, true), Run(p.slug, 60000 * (m + 1), true)], 60000 * m, false, matches)
  {
    var runs := [Run(p.slug, 60000 * m, true), Run(p.slug, 60000 * (m + 1), true)];
    assert runs[0] in runs && runs[1] in runs;
    MinuteRepeatsExactly(p, runs, 60000 * m, matches);
  }

  /** A run that ends in a later minute takes that minute away from its schedule. */
  lemma SlowRunTakesTheMinuteItEndsIn(p: Policy, runs: seq<Run>, ended: Run, now: int, matches: Matcher)
    requires ended in runs && ended.slug == p.slug && ended.startedAt <= now && Minute(ended.startedAt) == Minute(now)
    requires forall r :: r in runs && r.slug == p.slug ==> r.startedAt <= now
    ensures !IsDue(p, runs, now, false, matches)
  {
    TakenMinuteIsNotDue(p, runs, now, matches);
  }

  // ---------------------------------------------------------------------------------------------------------------
  // Selection of policies
  // ---------------------------------------------------------------------------------------------------------------

  /** The slugs asked for: trimmed, empty ones dropped. */
  function Wanted(slugs: seq<string>): set<string> {
    set i | 0 <= i < |slugs| && Trim(slugs[i]) != "" :: Trim(slugs[i])
  }

  predicate IsSelected(p: Policy, localNode: string, wanted: set<string>) {
    p.targetNode == localNode && (wanted == {} || p.slug in wanted)
  }

  /** No slug was asked for. */
  predicate AsksForAll(slugs: seq<string>) {
    forall i :: 0 <= i < |slugs| ==> Trim(slugs[i]) == ""
  }

  ghost predicate IsRequested(slugs: seq<string>, slug: string) {
    slug != "" && exists i :: 0 <= i < |slugs| && Trim(slugs[i]) == slug
  }

  /** A policy takes part when it is for this node and asked for, or none is asked for. */
  lemma SelectionIsAsAsked(p: Policy, localNode: string, slugs: seq<string>)
    ensures IsSelected(p, localNode, Wanted(slugs)) <==>
      p.targetNode == localNode && (AsksForAll(slugs) || IsRequested(slugs, p.slug))
  {
    if !AsksForAll(slugs) {
      var i :| 0 <= i < |slugs| && Trim(slugs[i]) != "";
      assert Trim(slugs[i]) in Wanted(slugs);
    }
  }

  function Selected(policies: seq<Policy>, localNode: string, wanted: set<string>): seq<Policy> {
    if policies == [] then []
    else
      (if IsSelected(policies[0], localNode, wanted) then [policies[0]] else [])
        + Selected(policies[1..], localNode, wanted)
  }

  function Slugs(policies: seq<Policy>): (s: seq<string>)
    ensures |s| == |policies| && forall i :: 0 <= i < |s| ==> s[i] == policies[i].slug
  {
    seq(|policies|, i requires 0 <= i < |policies| => policies[i].slug)
  }

  predicate DistinctSlugs(policies: seq<Policy>) {
    forall i, j :: 0 <= i < j < |policies| ==> policies[i].slug != policies[j].slug
  }

  lemma {:induction false} SelectedAre(policies: seq<Policy>, localNode: string, wanted: set<string>)
    requires DistinctSlugs(policies)
    ensures forall p ::
      p in Selected(policies, localNode, wanted) <==> p in policies && IsSelected(p, localNode, wanted)
    ensures DistinctSlugs(Selected(policies, localNode, wanted))
  {
    if policies != [] {
      SelectedAre(policies[1..], localNode, wanted);
      assert policies == [policies[0]] + policies[1..];
      var rest := Selected(policies[1..], localNode, wanted);
      forall i | 0 <= i < |rest| ensures rest[i].slug != policies[0].slug {
        assert rest[i] in policies[1..];
      }
    }
  }

  ghost predicate ComesBefore(policies: seq<Policy>, p: Policy, q: Policy) {
    exists i, j :: 0 <= i < j < |policies| && policies[i] == p && policies[j] == q
  }

  lemma ComesBeforeInWhole(policies: seq<Policy>, p: Policy, q: Policy)
    requires policies != []
    requires ComesBefore(policies[1..], p, q) || (p == policies[0] && q in policies[1..])
    ensures ComesBefore(policies, p, q)
  {
    if ComesBefore(policies[1..], p, q) {
      var i, j :| 0 <= i < j < |policies[1..]| && policies[1..][i] == p && policies[1..][j] == q;
      assert policies[i + 1] == p && policies[j + 1] == q;
    } else {
      var j :| 0 <= j < |policies[1..]| && policies[1..][j] == q;
      assert policies[0] == p && policies[j + 1] == q;
    }
  }

  /** The selected policies come in the order of the policies. */
  lemma {:induction false} SelectionKeepsOrder(policies: seq<Policy>, localNode: string, wanted: set<string>, i: nat,
        j: nat)
    requires DistinctSlugs(policies) && i < j < |Selected(policies, localNode, wanted)|
    ensures var selected := Selected(policies, localNode, wanted); ComesBefore(policies, selected[i], selected[j])
    decreases |policies|
  {
    var selected, rest := Selected(policies, localNode, wanted), Selected(policies[1..], localNode, wanted);
    SelectedAre(policies[1..], localNode, wanted);
    if !IsSelected(policies[0], localNode, wanted) {
      assert selected == rest;
      SelectionKeepsOrder(policies[1..], localNode, wanted, i, j);
    } else {
      assert selected == [policies[0]] + rest && rest[j - 1] in rest;
      if i > 0 {
        SelectionKeepsOrder(policies[1..], localNode, wanted, i - 1, j - 1);
      }
    }
    ComesBeforeInWhole(policies, selected[i], selected[j]);
  }

  /** The slugs, in order, of those of the first `n` policies that are due, or of those that are not. */
  function Pick(policies: seq<Policy>, n: nat, due: bool, runs: seq<Run>, now: int, force: bool, matches: Matcher)
    : seq<string>
    requires n <= |policies|
  {
    if n == 0 then []
    else
      var before := Pick(policies, n - 1, due, runs, now, force, matches);
      if IsDue(policies[n - 1], runs, now, force, matches) == due then before + [policies[n - 1].slug] else before
  }

  /** Each policy goes to its side, in the place that the earlier ones of that side leave it. */
  lemma {:induction false} PickPlaces(policies: seq<Policy>, n: nat, i: nat, due: bool, runs: seq<Run>, now: int,
        force: bool, matches: Matcher)
    requires i < n <= |policies| && IsDue(policies[i], runs, now, force, matches) == due
    ensures var place := |Pick(policies, i, due, runs, now, force, matches)|;
      && place < |Pick(policies, n, due, runs, now, force, matches)|
      && Pick(policies, n, due, runs, now, force, matches)[place] == policies[i].slug
  {
    if i < n - 1 {
      PickPlaces(policies, n - 1, i, due, runs, now, force, matches);
    }
  }

  /** And nothing else is on either side. */
  lemma {:induction false} PickSplits(policies: seq<Policy>, n: nat, runs: seq<Run>, now: int, force: bool,
        matches: Matcher)
    requires n <= |policies|
    ensures var due := Pick(policies, n, true, runs, now, force, matches);
      |due| + |Pick(policies, n, false, runs, now, force, matches)| == n
  {
    if n > 0 {
      PickSplits(policies, n - 1, runs, now, force, matches);
    }
  }

  /** A forced cycle has no one to skip. */
  lemma {:induction false} ForcedSkipsNone(policies: seq<Policy>, n: nat, runs: seq<Run>, now: int, matches: Matcher)
    requires n <= |policies|
    ensures Pick(policies, n, true, runs, now, true, matches) == Slugs(policies[..n])
    ensures Pick(policies, n, false, runs, now, true, matches) == []
  {
    if n > 0 {
      ForcedSkipsNone(policies, n - 1, runs, now, matches);
      assert policies[..n] == policies[..n - 1] + [policies[n - 1]];
    }
  }

  // ---------------------------------------------------------------------------------------------------------------
  // The cycle
  // ---------------------------------------------------------------------------------------------------------------

  datatype Outcome =
    | Completed(attempted: seq<string>, skipped: seq<string>, runs: seq<Run>)
    | UnknownPolicy(missing: set<string>)
    | StoreFailed

  /** One call of the policy executor; `recorded` says whether the control plane took its run. */
  datatype Attempt = Attempt(policy: Policy, now: int, forced: bool, recorded: bool)

  /** How an attempt goes: whether the policy succeeds, and whether its run, or else the run of a failure, is stored. */
  datatype Execution = Execution(succeeds: bool, stored: bool, failureStored: bool)
  {
    predicate IsRecorded() { stored || (succeeds && failureStored) }
  }

  /** What a cycle is run on: all policies, this node, the slugs asked for, and how each attempt would go. */
  datatype Input = Input(policies: seq<Policy>, localNode: string, slugs: seq<string>, force: bool,
                         executions: string -> Execution)
  {
    function Chosen(): seq<Policy> { Selected(policies, localNode, Wanted(slugs)) }
  }

  /** The clock, what the control plane has on record, and all attempts so far. */
  datatype Ledger = Ledger(clock: int, runs: seq<Run>, attempts: seq<Attempt>)

  /** One attempt and one recorded run for each attempted slug. */
  ghost predicate RunsFor(attempted: seq<string>, attempts: seq<Attempt>, runs: seq<Run>) {
    && |attempted| == |attempts| == |runs|
    && forall i :: 0 <= i < |attempted| ==>
         attempts[i].recorded && attempts[i].policy.slug == attempted[i] == runs[i].slug
  }

  /** The run that recorded an attempt. */
  ghost predicate Records(r: Run, a: Attempt) {
    r.slug == a.policy.slug && a.now <= r.startedAt
  }

  /** `later` is an unforced attempt of the policy that `earlier` ran. */
  ghost predicate Repeats(earlier: Attempt, later: Attempt) {
    earlier.policy.slug == later.policy.slug && earlier.recorded && !later.forced
  }

  /** An unforced attempt of a due policy comes in a later minute than every recorded attempt before it. */
  lemma DuePolicyHasANewMinute(p: Policy, runs: seq<Run>, now: int, matches: Matcher, a: Attempt, r: Run)
    requires IsDue(p, runs, now, false, matches) && a.policy.slug == p.slug
    requires r in runs && Records(r, a)
    requires forall q :: q in runs ==> q.startedAt <= now
    ensures Minute(a.now) < Minute(now) && matches(p.schedule, now)
  {
    DueExactly(p, runs, now, matches);
    TakenMinuteIsNotDue(p, runs, now, matches);
    assert Minute(a.now) <= Minute(r.startedAt) <= Minute(now);
  }

  /** What holds of every history of attempts and of the runs recorded for them. */
  ghost predicate History(attempts: seq<Attempt>, runs: seq<Run>, clock: int, matches: Matcher) {
    && (forall r :: r in runs ==> r.startedAt <= clock)
    && AllRecorded(attempts, runs)
    && AtMostOncePerMinute(attempts)
    && OnlyWhenScheduled(attempts, matches)
  }

  ghost predicate AllRecorded(attempts: seq<Attempt>, runs: seq<Run>) {
    forall a :: a in attempts && a.recorded ==> IsRecorded(a, runs)
  }

  ghost predicate IsRecorded(a: Attempt, runs: seq<Run>) {
    exists r :: r in runs && Records(r, a)
  }

  ghost predicate AtMostOncePerMinute(attempts: seq<Attempt>) {
    forall i, j :: 0 <= i < j < |attempts| && Repeats(attempts[i], attempts[j]) ==>
      Minute(attempts[i].now) < Minute(attempts[j].now)
  }

  /** No unforced attempt lies in the minute of an earlier recorded attempt of its policy. */
  ghost predicate NeverTwiceInAMinute(attempts: seq<Attempt>) {
    forall i, j :: 0 <= i < j < |attempts| && Repeats(attempts[i], attempts[j]) ==>
      !InOneMinute(attempts[i].now, attempts[j].now)
  }

  lemma LaterMinutesDiffer(attempts: seq<Attempt>)
    requires AtMostOncePerMinute(attempts)
    ensures NeverTwiceInAMinute(attempts)
  {
    forall i, j | 0 <= i < j < |attempts| && Repeats(attempts[i], attempts[j])
      ensures !InOneMinute(attempts[i].now, attempts[j].now)
    {
      MinuteIsSixtySeconds(attempts[i].now, attempts[j].now);
    }
  }

  ghost predicate OnlyWhenScheduled(attempts: seq<Attempt>, matches: Matcher) {
    forall a :: a in attempts && !a.forced ==> matches(a.policy.schedule, a.now)
  }

  /** The control plane had recorded these attempts of a policy when it was asked. */
  ghost predicate KnowsAttempts(snapshot: seq<Run>, slug: string, attempts: seq<Attempt>) {
    forall a :: a in attempts && a.recorded && a.policy.slug == slug ==> IsRecorded(a, snapshot)
  }

  lemma RunJoinsHistory(attempts: seq<Attempt>, runs: seq<Run>, r: Run, clock: int, matches: Matcher)
    requires History(attempts, runs, clock, matches) && r.startedAt <= clock
    ensures History(attempts, runs + [r], clock, matches)
  {
    forall a | a in attempts && a.recorded ensures IsRecorded(a, runs + [r]) {
      var q :| q in runs && Records(q, a);
      assert q in runs + [r];
    }
  }

  lemma AttemptJoinsHistory(attempts: seq<Attempt>, runs: seq<Run>, a: Attempt, snapshot: seq<Run>, clock: int,
        matches: Matcher)
    requires History(attempts, runs, clock, matches)
    requires IsDue(a.policy, snapshot, a.now, a.forced, matches) && KnowsAttempts(snapshot, a.policy.slug, attempts)
    requires forall q :: q in snapshot ==> q.startedAt <= a.now
    requires a.recorded ==> IsRecorded(a, runs)
    ensures History(attempts + [a], runs, clock, matches)
  {
    if !a.forced {
      forall i | 0 <= i < |attempts| && Repeats(attempts[i], a) ensures Minute(attempts[i].now) < Minute(a.now) {
        assert attempts[i] in attempts;
        var q :| q in snapshot && Records(q, attempts[i]);
        DuePolicyHasANewMinute(a.policy, snapshot, a.now, matches, attempts[i], q);
      }
      DueExactly(a.policy, snapshot, a.now, matches);
    }
  }

  /** Within one cycle a policy comes up once, so what the control plane said at the start is still all there is. */
  lemma SnapshotKnowsAttempts(selected: seq<Policy>, i: nat, before: seq<Attempt>, added: seq<Attempt>,
        snapshot: seq<Run>)
    requires i < |selected| && DistinctSlugs(selected) && AllRecorded(before, snapshot)
    requires AreAmong(added, selected, i)
    ensures KnowsAttempts(snapshot, selected[i].slug, before + added)
  {
    forall a | a in added ensures a.policy.slug != selected[i].slug {
      var k :| 0 <= k < i && selected[k] == a.policy;
    }
  }

  ghost predicate AreAmong(attempts: seq<Attempt>, policies: seq<Policy>, n: nat)
    requires n <= |policies|
  {
    forall a :: a in attempts ==> exists k :: 0 <= k < n && policies[k] == a.policy
  }

  /** The attempts of those of the first `n` policies that are due, each recorded. */
  ghost function Made(policies: seq<Policy>, n: nat, runs: seq<Run>, now: int, force: bool, matches: Matcher)
    : seq<Attempt>
    requires n <= |policies|
  {
    if n == 0 then []
    else
      var before := Made(policies, n - 1, runs, now, force, matches);
      if IsDue(policies[n - 1], runs, now, force, matches) then before + [Attempt(policies[n - 1], now, force, true)]
      else before
  }

  ghost function SlugsOf(runs: seq<Run>): seq<string> {
    if runs == [] then [] else SlugsOf(runs[..|runs| - 1]) + [runs[|runs| - 1].slug]
  }

  lemma SlugsOfGrow(runs: seq<Run>, run: Run)
    ensures SlugsOf(runs + [run]) == SlugsOf(runs) + [run.slug]
  {
    assert (runs + [run])[..|runs|] == runs;
  }

  lemma {:induction false} SlugsOfAre(runs: seq<Run>)
    ensures |SlugsOf(runs)| == |runs| && forall i :: 0 <= i < |runs| ==> SlugsOf(runs)[i] == runs[i].slug
  {
    if runs != [] {
      SlugsOfAre(runs[..|runs| - 1]);
    }
  }

  lemma {:induction false} MadeAre(policies: seq<Policy>, n: nat, runs: seq<Run>, now: int, force: bool,
        matches: Matcher)
    requires n <= |policies|
    ensures var made, attempted := Made(policies, n, runs, now, force, matches),
                                   Pick(policies, n, true, runs, now, force, matches);
      && AreAmong(made, policies, n) && AreMadeAt(made, now, force) && |made| == |attempted|
      && forall i :: 0 <= i < |made| ==> made[i].recorded && made[i].policy.slug == attempted[i]
  {
    if n > 0 {
      MadeAre(policies, n - 1, runs, now, force, matches);
      var before := Made(policies, n - 1, runs, now, force, matches);
      AddedAreAmong(policies, n - 1, before, Attempt(policies[n - 1], now, force, true));
      MoreAreAmong(policies, n - 1, before);
    }
  }

  lemma MoreAreAmong(policies: seq<Policy>, n: nat, added: seq<Attempt>)
    requires n < |policies| && AreAmong(added, policies, n)
    ensures AreAmong(added, policies, n + 1)
  {
    forall a | a in added ensures exists k :: 0 <= k < n + 1 && policies[k] == a.policy {
      var k :| 0 <= k < n && policies[k] == a.policy;
    }
  }

  /** What the cycle has put together after the first `n` policies, when it looked at the clock at `now`. */
  ghost predicate Progress(policies: seq<Policy>, n: nat, snapshot: seq<Run>, now: int, force: bool, matches: Matcher,
        attempted: seq<string>, skipped: seq<string>, added: seq<Attempt>, recorded: seq<Run>)
    requires n <= |policies|
  {
    && attempted == Pick(policies, n, true, snapshot, now, force, matches) == SlugsOf(recorded)
    && skipped == Pick(policies, n, false, snapshot, now, force, matches)
    && added == Made(policies, n, snapshot, now, force, matches)
  }

  /** Policy `n` is due, and neither its run nor the run of its failure is stored. */
  ghost predicate FailsAt(policies: seq<Policy>, n: nat, runs: seq<Run>, now: int, force: bool, matches: Matcher,
        executions: string -> Execution)
    requires n < |policies|
  {
    IsDue(policies[n], runs, now, force, matches) && !executions(policies[n].slug).IsRecorded()
  }

  /** The cycle ends at policy `n`, the first whose run cannot be stored, or after the last. */
  ghost predicate EndsAt(policies: seq<Policy>, n: nat, runs: seq<Run>, now: int, force: bool, matches: Matcher,
        executions: string -> Execution)
  {
    && n <= |policies| && (n < |policies| ==> FailsAt(policies, n, runs, now, force, matches, executions))
    && forall k :: 0 <= k < n ==> !FailsAt(policies, k, runs, now, force, matches, executions)
  }

  /** Each run says how its attempt went. */
  ghost predicate SayHowItWent(runs: seq<Run>, executions: string -> Execution) {
    forall r :: r in runs ==> r.succeeded == (executions(r.slug).succeeds && executions(r.slug).stored)
  }

  lemma {:induction false} AddedAreAmong(policies: seq<Policy>, n: nat, added: seq<Attempt>, a: Attempt)
    requires n < |policies| && AreAmong(added, policies, n) && a.policy == policies[n]
    ensures AreAmong(added + [a], policies, n + 1)
  {
    forall b | b in added + [a] ensures exists k :: 0 <= k < n + 1 && policies[k] == b.policy {
      if b in added {
        var k :| 0 <= k < n && policies[k] == b.policy;
      } else {
        assert policies[n] == b.policy;
      }
    }
  }

  lemma {:induction false} AmongFirstIsAmongAll(policies: seq<Policy>, n: nat, added: seq<Attempt>)
    requires n <= |policies| && AreAmong(added, policies, n)
    ensures AreAmong(added, policies, |policies|)
  {
    forall a | a in added ensures exists k :: 0 <= k < |policies| && policies[k] == a.policy {
      var k :| 0 <= k < n && policies[k] == a.policy;
    }
  }

  /** Where the loop ends. */
  lemma CompletedCycle(policies: seq<Policy>, snapshot: seq<Run>, now: int, force: bool, matches: Matcher,
        attempted: seq<string>, skipped: seq<string>, added: seq<Attempt>, recorded: seq<Run>)
    requires Progress(policies, |policies|, snapshot, now, force, matches, attempted, skipped, added, recorded)
    ensures AreAmong(added, policies, |policies|) && AreMadeAt(added, now, force)
    ensures RunsFor(attempted, added, recorded)
  {
    MadeAre(policies, |policies|, snapshot, now, force, matches);
    SlugsOfAre(recorded);
  }

  /** Or where it stops, because the run of policy `n` could not be stored. */
  lemma StoppedCycle(policies: seq<Policy>, n: nat, snapshot: seq<Run>, now: int, force: bool, matches: Matcher)
    requires n < |policies|
    ensures var added := Made(policies, n, snapshot, now, force, matches) + [Attempt(policies[n], now, force, false)];
      AreAmong(added, policies, |policies|) && AreMadeAt(added, now, force)
  {
    MadeAre(policies, n, snapshot, now, force, matches);
    var made := Made(policies, n, snapshot, now, force, matches);
    AddedAreAmong(policies, n, made, Attempt(policies[n], now, force, false));
    AmongFirstIsAmongAll(policies, n + 1, made + [Attempt(policies[n], now, force, false)]);
  }

  ghost predicate AreMadeAt(attempts: seq<Attempt>, now: int, forced: bool) {
    forall a :: a in attempts ==> a.now == now && a.forced == forced
  }

  lemma AreAsAsked(added: seq<Attempt>, policies: seq<Policy>, localNode: string, slugs: seq<string>, now: int,
        force: bool)
    requires DistinctSlugs(policies) && AreMadeAt(added, now, force)
    requires var selected := Selected(policies, localNode, Wanted(slugs)); AreAmong(added, selected, |selected|)
    ensures AreOfCycle(added, policies, localNode, slugs, now, force)
  {
    var selected := Selected(policies, localNode, Wanted(slugs));
    SelectedAre(policies, localNode, Wanted(slugs));
    forall a | a in added
      ensures a.policy in policies && a.policy.targetNode == localNode
      ensures AsksForAll(slugs) || IsRequested(slugs, a.policy.slug)
    {
      var k :| 0 <= k < |selected| && selected[k] == a.policy;
      assert selected[k] in selected;
      SelectionIsAsAsked(a.policy, localNode, slugs);
    }
  }

  /** Who is on one of the two lists of a completed cycle. */
  lemma ListedAreAsked(policies: seq<Policy>, localNode: string, slugs: seq<string>, runs: seq<Run>, now: int,
        force: bool, matches: Matcher, p: Policy)
    requires DistinctSlugs(policies) && p in policies && p.targetNode == localNode
    requires AsksForAll(slugs) || IsRequested(slugs, p.slug)
    ensures var selected := Selected(policies, localNode, Wanted(slugs));
      p.slug in Pick(selected, |selected|, IsDue(p, runs, now, force, matches), runs, now, force, matches)
  {
    var selected := Selected(policies, localNode, Wanted(slugs));
    SelectedAre(policies, localNode, Wanted(slugs));
    SelectionIsAsAsked(p, localNode, slugs);
    var i :| 0 <= i < |selected| && selected[i] == p;
    PickPlaces(selected, |selected|, i, IsDue(p, runs, now, force, matches), runs, now, force, matches);
  }

  lemma SkipProgresses(policies: seq<Policy>, n: nat, snapshot: seq<Run>, now: int, force: bool, matches: Matcher,
        attempted: seq<string>, skipped: seq<string>, added: seq<Attempt>, recorded: seq<Run>)
    requires n < |policies| && !IsDue(policies[n], snapshot, now, force, matches)
    requires Progress(policies, n, snapshot, now, force, matches, attempted, skipped, added, recorded)
    ensures Progress(policies, n + 1, snapshot, now, force, matches, attempted, skipped + [policies[n].slug], added,
                     recorded)
  {
  }

  lemma AttemptProgresses(policies: seq<Policy>, n: nat, snapshot: seq<Run>, now: int, force: bool, matches: Matcher,
        attempted: seq<string>, skipped: seq<string>, added: seq<Attempt>, recorded: seq<Run>, run: Run)
    requires n < |policies| && IsDue(policies[n], snapshot, now, force, matches) && run.slug == policies[n].slug
    requires Progress(policies, n, snapshot, now, force, matches, attempted, skipped, added, recorded)
    ensures Progress(policies, n + 1, snapshot, now, force, matches, attempted + [policies[n].slug], skipped,
                     added + [Attempt(policies[n], now, force, true)], recorded + [run])
  {
    SlugsOfGrow(recorded, run);
  }

  /** The policies that took part in a cycle and the attempts it made. */
  ghost predicate AreOfCycle(added: seq<Attempt>, policies: seq<Policy>, localNode: string, slugs: seq<string>,
        now: int, force: bool)
  {
    forall a :: a in added ==>
      && a.policy in policies && a.policy.targetNode == localNode
      && (AsksForAll(slugs) || IsRequested(slugs, a.policy.slug))
      && a.now == now && a.forced == force
  }

  /** An unforced attempt comes at a time that its schedule means, for every schedule that is matched as meant. */
  lemma ScheduledTimeIsMeant(attempts: seq<Attempt>, a: Attempt, s: Cron.Schedule, calendar: int -> Cron.Time)
    requires OnlyWhenScheduled(attempts, CronMatcher(calendar)) && a in attempts && !a.forced
    requires Cron.ScheduleIsValid(s) && Cron.HasFields(s) && a.policy.schedule == Cron.PrintSchedule(s)
    requires Cron.MissesAreCovered(s.dayOfWeek, 0, 7) || Cron.EveryDayIsMeant(s.dayOfMonth)
    requires Cron.IsTime(calendar(a.now))
    ensures Cron.ScheduleMeans(s, calendar(a.now))
  {
    Cron.MatcherIsExact(s);
    assert CronMatcher(calendar)(a.policy.schedule, a.now);
  }

  /** What one cycle on this input does: who is attempted and when, what is recorded, and how it ends. */
  ghost predicate IsCycle(input: Input, before: Ledger, after: Ledger, outcome: Outcome, stop: nat, matches: Matcher) {
    && before.runs <= after.runs && before.attempts <= after.attempts && before.clock <= after.clock
    && (outcome.UnknownPolicy? <==>
          exists slug :: slug in Wanted(input.slugs) && slug !in Slugs(input.Chosen()))
    && AreOfCycle(after.attempts[|before.attempts|..], input.policies, input.localNode, input.slugs, before.clock,
                  input.force)
    && match outcome
       case UnknownPolicy(missing) =>
         && after.runs == before.runs && after.attempts == before.attempts
         && forall slug :: slug in missing <==> slug in Wanted(input.slugs) && slug !in Slugs(input.Chosen())
       case _ => IsPass(input.Chosen(), input.force, input.executions, before, after, outcome, stop, matches)
  }

  /** A pass over the policies that take part: it reports on every one, or throws at the one it stopped at. */
  ghost predicate IsPass(chosen: seq<Policy>, force: bool, executions: string -> Execution, before: Ledger,
        after: Ledger, outcome: Outcome, stop: nat, matches: Matcher)
  {
    && before.runs <= after.runs && before.attempts <= after.attempts
    && EndsAt(chosen, stop, before.runs, before.clock, force, matches, executions)
    && var stored, added := after.runs[|before.runs|..], after.attempts[|before.attempts|..];
    && SlugsOf(stored) == Pick(chosen, stop, true, before.runs, before.clock, force, matches)
    && SayHowItWent(stored, executions)
    && match outcome
       case UnknownPolicy(_) => false
       case StoreFailed =>
         && stop < |chosen|
         && added == Made(chosen, stop, before.runs, before.clock, force, matches)
                       + [Attempt(chosen[stop], before.clock, force, false)]
       case Completed(attempted, skipped, runs) =>
         && stop == |chosen| == |attempted| + |skipped|
         && attempted == Pick(chosen, stop, true, before.runs, before.clock, force, matches)
         && skipped == Pick(chosen, stop, false, before.runs, before.clock, force, matches)
         && stored == runs && RunsFor(attempted, added, runs)
  }

  /** One cycle of many: what it was run on, what it met and left, and how and where it ended. */
  datatype Cycle = Cycle(input: Input, before: Ledger, after: Ledger, outcome: Outcome, stop: nat)

  /** Between cycles only the clock may have gone on. */
  ghost predicate SameRecords(now: Ledger, earlier: Ledger) {
    now.runs == earlier.runs && now.attempts == earlier.attempts && now.clock >= earlier.clock
  }

  ghost predicate IsDone(cycle: Cycle, matches: Matcher) {
    IsCycle(cycle.input, cycle.before, cycle.after, cycle.outcome, cycle.stop, matches)
  }

  /** What cycles that began at `first` leave behind. */
  ghost function Left(log: seq<Cycle>, first: Ledger): Ledger {
    if log == [] then first else log[|log| - 1].after
  }

  /** Each of these inputs has had its cycle, on what the cycle before it left. */
  ghost predicate AreCycles(inputs: seq<Input>, log: seq<Cycle>, first: Ledger, matches: Matcher) {
    && |log| <= |inputs|
    && forall k :: 0 <= k < |log| ==>
         && log[k].input == inputs[k] && IsDone(log[k], matches)
         && SameRecords(log[k].before, Left(log[..k], first))
  }

  lemma CyclesGrow(inputs: seq<Input>, log: seq<Cycle>, first: Ledger, matches: Matcher, cycle: Cycle)
    requires AreCycles(inputs, log, first, matches) && |log| < |inputs| && cycle.input == inputs[|log|]
    requires IsDone(cycle, matches) && SameRecords(cycle.before, Left(log, first))
    ensures AreCycles(inputs, log + [cycle], first, matches)
  {
    var grown := log + [cycle];
    forall k | 0 <= k < |grown|
      ensures grown[k].input == inputs[k] && IsDone(grown[k], matches)
      ensures SameRecords(grown[k].before, Left(grown[..k], first))
    {
      assert k < |log| ==> grown[k] == log[k];
      assert grown[..k] == log[..k];
    }
  }

  class Runner {
    var clock: int
    var runs: seq<Run>
    const matches: Matcher
    ghost var attempts: seq<Attempt>

    constructor (calendar: int -> Cron.Time, clock: int)
      ensures Valid() && runs == [] && attempts == [] && matches == CronMatcher(calendar)
    {
      this.matches := CronMatcher(calendar);
      this.clock := clock;
      this.runs := [];
      this.attempts := [];
    }

    ghost predicate Valid()
      reads this
    {
      History(attempts, runs, clock, matches)
    }

    ghost function Now(): Ledger
      reads this
    {
      Ledger(clock, runs, attempts)
    }

    /** Time passes; by how much is not known. */
    method Tick()
      requires Valid()
      modifies this`clock
      ensures Valid() && clock >= old(clock)
    {
      var elapsed: int := *;
      if elapsed > 0 {
        clock := clock + elapsed;
      }
    }

    /** Stamps and stores one run, or throws and stores nothing. */
    method RecordBackupRun(slug: string, succeeded: bool, stored: bool) returns (r: Result<Run, ()>)
      requires Valid()
      modifies this`clock, this`runs
      ensures Valid() && clock >= old(clock)
      ensures r.Ok? <==> stored
      ensures r.Ok? ==> r.value.slug == slug && r.value.succeeded == succeeded && old(clock) <= r.value.startedAt
      ensures runs == if r.Ok? then old(runs) + [r.value] else old(runs)
    {
      Tick();
      if !stored {
        return Err(());
      }
      var run := Run(slug, clock, succeeded);
      RunJoinsHistory(attempts, runs, run, clock, matches);
      runs := runs + [run];
      r := Ok(run);
    }

    /** Runs one policy and records its outcome; a success that cannot be recorded is recorded as a failure. */
    method AttemptPolicy(p: Policy, now: int, force: bool, execution: Execution, ghost snapshot: seq<Run>)
      returns (r: Result<Run, ()>)
      requires Valid() && now <= clock
      requires IsDue(p, snapshot, now, force, matches) && KnowsAttempts(snapshot, p.slug, attempts)
      requires forall q :: q in snapshot ==> q.startedAt <= now
      modifies this`clock, this`runs, this`attempts
      ensures Valid() && clock >= old(clock)
      ensures attempts == old(attempts) + [Attempt(p, now, force, r.Ok?)]
      ensures runs == if r.Ok? then old(runs) + [r.value] else old(runs)
      ensures r.Ok? <==> execution.IsRecorded()
      ensures r.Ok? ==> r.value.slug == p.slug && r.value.succeeded == (execution.succeeds && execution.stored)
      ensures r.Ok? ==> old(clock) <= r.value.startedAt <= clock
    {
      r := RecordBackupRun(p.slug, execution.succeeds, execution.stored);
      if r.Err? && execution.succeeds {
        r := RecordBackupRun(p.slug, false, execution.failureStored);
      }
      ghost var a := Attempt(p, now, force, r.Ok?);
      if r.Ok? {
        assert r.value in runs && Records(r.value, a);
      }
      AttemptJoinsHistory(attempts, runs, a, snapshot, clock, matches);
      attempts := attempts + [a];
    }

    method RunBackupCycle(input: Input) returns (outcome: Outcome, ghost stop: nat)
      requires Valid() && DistinctSlugs(input.policies)
      modifies this
      ensures Valid() && IsCycle(input, old(Now()), Now(), outcome, stop, matches)
    {
      stop := 0;
      var wanted := Wanted(input.slugs);
      var selected := Selected(input.policies, input.localNode, wanted);
      var missing := set slug | slug in wanted && slug !in Slugs(selected);
      if missing != {} {
        var slug :| slug in missing;
        return UnknownPolicy(missing), 0;
      }
      forall slug | slug in wanted ensures slug in Slugs(selected) {
        assert slug !in missing;
      }
      SelectedAre(input.policies, input.localNode, wanted);
      ghost var before, added := attempts, [];
      outcome, added, stop := RunSelected(selected, input.force, input.executions);
      assert attempts[|before|..] == added;
      AreAsAsked(added, input.policies, input.localNode, input.slugs, old(clock), input.force);
    }

    /** The loop over the policies that take part. */
    method RunSelected(selected: seq<Policy>, force: bool, executions: string -> Execution)
      returns (outcome: Outcome, ghost added: seq<Attempt>, ghost stop: nat)
      requires Valid() && DistinctSlugs(selected)
      modifies this
      ensures Valid() && attempts == old(attempts) + added && old(clock) <= clock
      ensures AreAmong(added, selected, |selected|) && AreMadeAt(added, old(clock), force)
      ensures IsPass(selected, force, executions, old(Now()), Now(), outcome, stop, matches)
    {
      var now, snapshot := clock, runs;
      var attempted, skipped, recorded := [], [], [];
      ghost var before := attempts;
      added := [];
      for i := 0 to |selected|
        invariant Valid() && now <= clock
        invariant attempts == before + added && runs == snapshot + recorded
        invariant Progress(selected, i, snapshot, now, force, matches, attempted, skipped, added, recorded)
        invariant forall k :: 0 <= k < i ==> !FailsAt(selected, k, snapshot, now, force, matches, executions)
        invariant SayHowItWent(recorded, executions)
      {
        var p := selected[i];
        if !ShouldRunPolicyAtTime(p.schedule, NewestRun(snapshot, p.slug), now, force, matches) {
          SkipProgresses(selected, i, snapshot, now, force, matches, attempted, skipped, added, recorded);
          skipped := skipped + [p.slug];
        } else {
          ghost var earlier, made := attempted, added;
          attempted := attempted + [p.slug];
          var r;
          r, added := AttemptNext(selected, i, now, force, executions(p.slug), snapshot, before, added);
          if r.Err? {
            outcome, stop := StoreFailed, i;
            assert runs[|snapshot|..] == recorded && attempts[|before|..] == added;
            return;
          }
          AttemptProgresses(selected, i, snapshot, now, force, matches, earlier, skipped, made, recorded, r.value);
          recorded := recorded + [r.value];
        }
      }
      CompletedCycle(selected, snapshot, now, force, matches, attempted, skipped, added, recorded);
      PickSplits(selected, |selected|, snapshot, now, force, matches);
      assert runs[|snapshot|..] == recorded && attempts[|before|..] == added;
      outcome, stop := Completed(attempted, skipped, recorded), |selected|;
    }

    /** The attempt of the next policy, which is due. */
    method AttemptNext(selected: seq<Policy>, i: nat, now: int, force: bool, execution: Execution, snapshot: seq<Run>,
        ghost before: seq<Attempt>, ghost made: seq<Attempt>)
      returns (r: Result<Run, ()>, ghost added: seq<Attempt>)
      requires Valid() && now <= clock && attempts == before + made
      requires i < |selected| && DistinctSlugs(selected) && IsDue(selected[i], snapshot, now, force, matches)
      requires AllRecorded(before, snapshot) && made == Made(selected, i, snapshot, now, force, matches)
      requires forall q :: q in snapshot ==> q.startedAt <= now
      modifies this`clock, this`runs, this`attempts
      ensures Valid() && clock >= old(clock)
      ensures attempts == before + added && added == made + [Attempt(selected[i], now, force, r.Ok?)]
      ensures runs == if r.Ok? then old(runs) + [r.value] else old(runs)
      ensures r.Ok? <==> execution.IsRecorded()
      ensures r.Ok? ==>
        r.value.slug == selected[i].slug && r.value.succeeded == (execution.succeeds && execution.stored)
      ensures r.Err? ==> AreAmong(added, selected, |selected|) && AreMadeAt(added, now, force)
    {
      MadeAre(selected, i, snapshot, now, force, matches);
      SnapshotKnowsAttempts(selected, i, before, made, snapshot);
      r := AttemptPolicy(selected[i], now, force, execution, snapshot);
      added := made + [Attempt(selected[i], now, force, r.Ok?)];
      StoppedCycle(selected, i, snapshot, now, force, matches);
    }

    /** Cycles one after the other, each on the policies of its time. */
    method RunBackupCycles(inputs: seq<Input>) returns (outcomes: seq<Outcome>, ghost log: seq<Cycle>)
      requires Valid() && forall i :: 0 <= i < |inputs| ==> DistinctSlugs(inputs[i].policies)
      modifies this
      ensures Valid() && NeverTwiceInAMinute(attempts) && OnlyWhenScheduled(attempts, matches)
      ensures |log| == |inputs| && AreCycles(inputs, log, old(Now()), matches)
      ensures SameRecords(Now(), Left(log, old(Now())))
      ensures |outcomes| == |log| && forall k :: 0 <= k < |log| ==> outcomes[k] == log[k].outcome
    {
      ghost var first := Now();
      outcomes, log := [], [];
      for i := 0 to |inputs|
        invariant Valid() && |outcomes| == |log| == i
        invariant AreCycles(inputs, log, first, matches) && SameRecords(Now(), Left(log, first))
        invariant forall k :: 0 <= k < i ==> outcomes[k] == log[k].outcome
      {
        Tick();
        ghost var before := Now();
        ghost var stop;
        var outcome;
        outcome, stop := RunBackupCycle(inputs[i]);
        ghost var cycle := Cycle(inputs[i], before, Now(), outcome, stop);
        assert IsDone(cycle, matches);
        CyclesGrow(inputs, log, first, matches, cycle);
        outcomes, log := outcomes + [outcome], log + [cycle];
      }
      LaterMinutesDiffer(attempts);
    }
  }
}
