/**
 * The per-request authentication gate and its four promise caches.
 *
 * A promise is the outcome it settles with. The only delayed effect is the callback of a loaded dashboard, which
 * overwrites three caches at some later moment; it is an event of its own here.
 */
module AuthGate {
  import opened Prelude

  datatype Error = SessionRequired | Refused(reason: string)

  datatype Session = Anonymous | Authenticated(token: string, user: string)

  datatype Bootstrap = Bootstrap(session: Session, data: string)

  /** The user lookup and the dashboard loaders, as far as one request sees them: the same question, the same answer. */
  datatype Backend = Backend(currentUser: string -> Result<string, Error>, dashboard: string -> Result<string, Error>)

  type Token = Option<string>

  predicate IsAnonymous(token: Token) {
    token == None || token == Some("")
  }

  // ---------------------------------------------------------------------------------------------------------------
  // The uncached operations
  // ---------------------------------------------------------------------------------------------------------------

  function ResolveControlSession(token: Token, backend: Backend): Result<Session, Error> {
    if IsAnonymous(token) then Ok(Anonymous)
    else
      match backend.currentUser(token.value)
      case Ok(user) => Ok(Authenticated(token.value, user))
      case Err(e) => Err(e)
  }

  function RequireControlSession(token: Token, backend: Backend): Result<Session, Error> {
    var session := ResolveControlSession(token, backend);
    if session == Ok(Anonymous) then Err(SessionRequired) else session
  }

  function LoadAuthenticated(token: Token, backend: Backend): Result<Bootstrap, Error> {
    match RequireControlSession(token, backend)
    case Err(e) => Err(e)
    case Ok(session) =>
      match backend.dashboard(if token.Some? then token.value else "")
      case Ok(data) => Ok(Bootstrap(session, data))
      case Err(e) => Err(e)
  }

  function TruthOf(session: Result<Session, Error>): Result<bool, Error> {
    match session
    case Ok(s) => Ok(s.Authenticated?)
    case Err(e) => Err(e)
  }

  datatype Event = Resolve | Require | Dashboard | IsAuthenticated | DashboardSettles

  datatype Answer =
    | OfSession(session: Result<Session, Error>)
    | OfDashboard(bootstrap: Result<Bootstrap, Error>)
    | OfTruth(truth: Result<bool, Error>)
    | Nothing

  function Uncached(token: Token, backend: Backend, e: Event): Answer {
    match e
    case Resolve => OfSession(ResolveControlSession(token, backend))
    case Require => OfSession(RequireControlSession(token, backend))
    case Dashboard => OfDashboard(LoadAuthenticated(token, backend))
    case IsAuthenticated => OfTruth(TruthOf(ResolveControlSession(token, backend)))
    case DashboardSettles => Nothing
  }

  // ---------------------------------------------------------------------------------------------------------------
  // The caches
  // ---------------------------------------------------------------------------------------------------------------

  /** The four cached promises, whether the dashboard's callback has run, and how often each operation was called. */
  datatype Cache = Cache(resolved: Option<Result<Session, Error>>, required: Option<Result<Session, Error>>,
                         dashboard: Option<Result<Bootstrap, Error>>, isAuthenticated: Option<Result<bool, Error>>,
                         settled: bool, resolveCalls: nat, requireCalls: nat, dashboardCalls: nat)

  const EMPTY := Cache(None, None, None, None, false, 0, 0, 0)

  function Resolved(c: Cache, token: Token, backend: Backend): (r: Cache)
    ensures r.resolved.Some?
  {
    if c.resolved.Some? then c
    else c.(resolved := Some(ResolveControlSession(token, backend)), resolveCalls := c.resolveCalls + 1)
  }

  function Step(c: Cache, token: Token, backend: Backend, e: Event): (Cache, Answer) {
    match e
    case Resolve =>
      var next := Resolved(c, token, backend);
      (next, OfSession(next.resolved.value))
    case Require =>
      if c.required.Some? then (c, OfSession(c.required.value))
      else
        var session := RequireControlSession(token, backend);
        var next := c.(required := Some(session), resolved := Some(session), requireCalls := c.requireCalls + 1);
        (next, OfSession(session))
    case Dashboard =>
      if c.dashboard.Some? then (c, OfDashboard(c.dashboard.value))
      else
        var bootstrap := LoadAuthenticated(token, backend);
        (c.(dashboard := Some(bootstrap), dashboardCalls := c.dashboardCalls + 1), OfDashboard(bootstrap))
    case IsAuthenticated =>
      if c.isAuthenticated.Some? then (c, OfTruth(c.isAuthenticated.value))
      else
        var next := Resolved(c, token, backend);
        var truth := TruthOf(next.resolved.value);
        (next.(isAuthenticated := Some(truth)), OfTruth(truth))
    case DashboardSettles =>
      if c.settled || c.dashboard.None? || c.dashboard.value.Err? then (c, Nothing)
      else
        var session := c.dashboard.value.value.session;
        var next := c.(resolved := Some(Ok(session)), required := Some(Ok(session)));
        (next.(isAuthenticated := Some(Ok(true)), settled := true), Nothing)
  }

  function CacheAfter(token: Token, backend: Backend, events: seq<Event>): Cache {
    if events == [] then EMPTY
    else Step(CacheAfter(token, backend, events[..|events| - 1]), token, backend, events[|events| - 1]).0
  }

  /** What event `e` answers after `events`. */
  function AnswerAfter(token: Token, backend: Backend, events: seq<Event>, e: Event): Answer {
    Step(CacheAfter(token, backend, events), token, backend, e).1
  }

  // ---------------------------------------------------------------------------------------------------------------
  // Theorems
  // ---------------------------------------------------------------------------------------------------------------

  /** Each operation is called at most once, whatever the token. */
  lemma {:induction false} OperationsAreCalledOnce(token: Token, backend: Backend, events: seq<Event>)
    ensures var c := CacheAfter(token, backend, events);
      && c.resolveCalls <= (if c.resolved.Some? then 1 else 0)
      && c.requireCalls <= (if c.required.Some? then 1 else 0)
      && c.dashboardCalls == (if c.dashboard.Some? then 1 else 0)
  {
    if events != [] {
      OperationsAreCalledOnce(token, backend, events[..|events| - 1]);
    }
  }

  /** What the caches hold is what the operations answer. */
  ghost predicate Faithful(c: Cache, token: Token, backend: Backend) {
    && (c.resolved.Some? ==> c.resolved.value == ResolveControlSession(token, backend))
    && (c.required.Some? ==> c.required.value == RequireControlSession(token, backend))
    && (c.dashboard.Some? ==> c.dashboard.value == LoadAuthenticated(token, backend))
    && (c.isAuthenticated.Some? ==> c.isAuthenticated.value == TruthOf(ResolveControlSession(token, backend)))
  }

  lemma {:induction false} CachesAreFaithful(token: Token, backend: Backend, events: seq<Event>)
    requires !IsAnonymous(token)
    ensures Faithful(CacheAfter(token, backend, events), token, backend)
  {
    if events != [] {
      CachesAreFaithful(token, backend, events[..|events| - 1]);
    }
  }

  /** With a token, valid or refused, every interleaving gives the uncached answers. */
  lemma GateAnswersLikeTheOperations(token: Token, backend: Backend, events: seq<Event>, e: Event)
    requires !IsAnonymous(token)
    ensures AnswerAfter(token, backend, events, e) == Uncached(token, backend, e)
  {
    CachesAreFaithful(token, backend, events);
  }

  /** What the operations answer, with and without a token; an empty one counts as none. */
  lemma OperationsByToken(token: Token, backend: Backend)
    ensures token == None || token == Some("") ==>
      && Uncached(token, backend, Resolve) == OfSession(Ok(Anonymous))
      && Uncached(token, backend, Require) == OfSession(Err(SessionRequired))
      && Uncached(token, backend, Dashboard) == OfDashboard(Err(SessionRequired))
      && Uncached(token, backend, IsAuthenticated) == OfTruth(Ok(false))
    ensures token.Some? && token != Some("") ==>
      match backend.currentUser(token.value)
      case Err(e) =>
        && Uncached(token, backend, Resolve) == Uncached(token, backend, Require) == OfSession(Err(e))
        && Uncached(token, backend, Dashboard) == OfDashboard(Err(e))
        && Uncached(token, backend, IsAuthenticated) == OfTruth(Err(e))
      case Ok(user) =>
        var session := Authenticated(token.value, user);
        && Uncached(token, backend, Resolve) == Uncached(token, backend, Require) == OfSession(Ok(session))
        && Uncached(token, backend, IsAuthenticated) == OfTruth(Ok(true))
        && Uncached(token, backend, Dashboard) == OfDashboard(
             match backend.dashboard(token.value) case Ok(data) => Ok(Bootstrap(session, data)) case Err(e) => Err(e))
  {
  }

  ghost predicate SettledIsFull(c: Cache) {
    c.settled ==> c.resolved.Some? && c.required.Some? && c.dashboard.Some? && c.isAuthenticated.Some?
  }

  lemma {:induction false} SettledCachesAreFull(token: Token, backend: Backend, events: seq<Event>)
    ensures SettledIsFull(CacheAfter(token, backend, events))
  {
    if events != [] {
      SettledCachesAreFull(token, backend, events[..|events| - 1]);
    }
  }

  /** Once a dashboard has been loaded and its callback has run, no operation is called any more. */
  lemma SettledGateCallsNothing(token: Token, backend: Backend, events: seq<Event>, e: Event)
    ensures CacheAfter(token, backend, events).settled ==>
      Step(CacheAfter(token, backend, events), token, backend, e).0 == CacheAfter(token, backend, events)
    ensures !IsAnonymous(token) && LoadAuthenticated(token, backend).Ok? ==>
      CacheAfter(token, backend, events + [Dashboard] + [DashboardSettles]).settled
  {
    SettledCachesAreFull(token, backend, events);
    CachesAreFaithfulUnlessAnonymous(token, backend, events + [Dashboard]);
    assert (events + [Dashboard])[..|events|] == events;
    assert (events + [Dashboard] + [DashboardSettles])[..|events| + 1] == events + [Dashboard];
  }

  lemma CachesAreFaithfulUnlessAnonymous(token: Token, backend: Backend, events: seq<Event>)
    ensures IsAnonymous(token) || Faithful(CacheAfter(token, backend, events), token, backend)
  {
    if !IsAnonymous(token) {
      CachesAreFaithful(token, backend, events);
    }
  }

  /** A session was required before anybody asked whether there is one. */
  ghost predicate RequiredFirst(events: seq<Event>) {
    exists i :: 0 <= i < |events| && events[i] == Require && IsAuthenticated !in events[..i]
  }

  lemma RequiredFirstGrows(events: seq<Event>, e: Event)
    ensures RequiredFirst(events + [e]) <==> RequiredFirst(events) || (e == Require && IsAuthenticated !in events)
  {
    if RequiredFirst(events + [e]) {
      var i :| 0 <= i < |events + [e]| && (events + [e])[i] == Require && IsAuthenticated !in (events + [e])[..i];
      if i < |events| {
        assert (events + [e])[..i] == events[..i];
      } else {
        assert (events + [e])[..i] == events;
      }
    }
    if RequiredFirst(events) {
      var i :| 0 <= i < |events| && events[i] == Require && IsAuthenticated !in events[..i];
      assert (events + [e])[i] == Require && (events + [e])[..i] == events[..i];
    }
    if e == Require && IsAuthenticated !in events {
      assert (events + [e])[|events|] == Require && (events + [e])[..|events|] == events;
    }
  }

  /** The caches without a token: a required session leaves its rejection as the resolved session. */
  ghost predicate RejectedAsResolved(c: Cache, required: bool, asked: bool, requiredFirst: bool) {
    && (if required then c.resolved == c.required == Some(Err(SessionRequired))
        else c.required == None && (c.resolved == None || c.resolved == Some(Ok(Anonymous))))
    && (c.dashboard == None || c.dashboard == Some(Err(SessionRequired)))
    && c.isAuthenticated ==
         if !asked then None else Some(if requiredFirst then Err(SessionRequired) else Ok(false))
  }

  lemma StepWithoutToken(c: Cache, token: Token, backend: Backend, e: Event, required: bool, asked: bool,
        requiredFirst: bool)
    requires IsAnonymous(token) && RejectedAsResolved(c, required, asked, requiredFirst)
    requires requiredFirst ==> required
    requires !asked ==> (requiredFirst <==> required)
    ensures RejectedAsResolved(Step(c, token, backend, e).0, required || e == Require, asked || e == IsAuthenticated,
              requiredFirst || (e == Require && !asked))
  {
  }

  lemma {:induction false} CachesWithoutToken(token: Token, backend: Backend, events: seq<Event>)
    requires IsAnonymous(token)
    ensures RejectedAsResolved(CacheAfter(token, backend, events), Require in events, IsAuthenticated in events,
              RequiredFirst(events))
  {
    if events != [] {
      var n := |events| - 1;
      var past, e := events[..n], events[n];
      CachesWithoutToken(token, backend, past);
      RequiredFirstGrows(past, e);
      RequiredFirstNeedsRequire(past);
      StepWithoutToken(CacheAfter(token, backend, past), token, backend, e, Require in past, IsAuthenticated in past,
        RequiredFirst(past));
      assert events == past + [e];
    }
  }

  lemma RequiredFirstNeedsRequire(events: seq<Event>)
    ensures RequiredFirst(events) ==> Require in events
    ensures IsAuthenticated !in events && Require in events ==> RequiredFirst(events)
  {
    if Require in events {
      var i :| 0 <= i < |events| && events[i] == Require;
      assert IsAuthenticated in events[..i] ==> IsAuthenticated in events;
    }
  }

  /**
   * Without a token the answers are the uncached ones exactly when no required session came first: before a resolve,
   * or before the first question whether the request is authenticated.
   */
  lemma AnswersWithoutToken(token: Token, backend: Backend, events: seq<Event>, e: Event)
    requires IsAnonymous(token)
    ensures AnswerAfter(token, backend, events, e) == Uncached(token, backend, e) <==>
      match e
      case Resolve => Require !in events
      case IsAuthenticated => !RequiredFirst(events)
      case _ => true
  {
    CachesWithoutToken(token, backend, events);
    RequiredFirstNeedsRequire(events);
  }

  // ---------------------------------------------------------------------------------------------------------------
  // The gate
  // ---------------------------------------------------------------------------------------------------------------

  class Gate {
    const token: Token
    const backend: Backend
    var cache: Cache
    ghost var events: seq<Event>

    constructor (token: Token, backend: Backend)
      ensures Valid() && events == [] && this.token == token && this.backend == backend
    {
      this.token, this.backend, cache, events := token, backend, EMPTY, [];
    }

    ghost predicate Valid()
      reads this
    {
      cache == CacheAfter(token, backend, events)
    }

    /** The event that a method stands for. */
    ghost method Record(e: Event, before: Cache)
      requires before == CacheAfter(token, backend, events) && cache == Step(before, token, backend, e).0
      modifies this`events
      ensures events == old(events) + [e] && Valid()
    {
      assert (events + [e])[..|events|] == events;
      events := events + [e];
    }

    method ResolveSession() returns (session: Result<Session, Error>)
      requires Valid()
      modifies this
      ensures Valid() && events == old(events) + [Resolve]
      ensures OfSession(session) == AnswerAfter(token, backend, old(events), Resolve)
    {
      ghost var before := cache;
      if cache.resolved == None {
        cache := cache.(resolved := Some(ResolveControlSession(token, backend)));
        cache := cache.(resolveCalls := cache.resolveCalls + 1);
      }
      session := cache.resolved.value;
      Record(Resolve, before);
    }

    method RequireSession() returns (session: Result<Session, Error>)
      requires Valid()
      modifies this
      ensures Valid() && events == old(events) + [Require]
      ensures OfSession(session) == AnswerAfter(token, backend, old(events), Require)
    {
      ghost var before := cache;
      if cache.required == None {
        cache := cache.(required := Some(RequireControlSession(token, backend)));
        cache := cache.(requireCalls := cache.requireCalls + 1);
        cache := cache.(resolved := cache.required);
      }
      session := cache.required.value;
      Record(Require, before);
    }

    method LoadAuthenticatedDashboard() returns (bootstrap: Result<Bootstrap, Error>)
      requires Valid()
      modifies this
      ensures Valid() && events == old(events) + [Dashboard]
      ensures OfDashboard(bootstrap) == AnswerAfter(token, backend, old(events), Dashboard)
    {
      ghost var before := cache;
      if cache.dashboard == None {
        cache := cache.(dashboard := Some(LoadAuthenticated(token, backend)));
        cache := cache.(dashboardCalls := cache.dashboardCalls + 1);
      }
      bootstrap := cache.dashboard.value;
      Record(Dashboard, before);
    }

    /** The callback of a dashboard that was loaded. */
    method DashboardCallback()
      requires Valid() && !cache.settled && cache.dashboard.Some? && cache.dashboard.value.Ok?
      modifies this
      ensures Valid() && events == old(events) + [DashboardSettles]
    {
      ghost var before := cache;
      var session := cache.dashboard.value.value.session;
      cache := cache.(resolved := Some(Ok(session)));
      cache := cache.(required := Some(Ok(session)));
      cache := cache.(isAuthenticated := Some(Ok(true)), settled := true);
      Record(DashboardSettles, before);
    }

    method CheckAuthenticated() returns (truth: Result<bool, Error>)
      requires Valid()
      modifies this
      ensures Valid() && events == old(events) + [IsAuthenticated]
      ensures OfTruth(truth) == AnswerAfter(token, backend, old(events), IsAuthenticated)
    {
      ghost var before := cache;
      if cache.isAuthenticated == None {
        cache := Resolved(cache, token, backend);
        cache := cache.(isAuthenticated := Some(TruthOf(cache.resolved.value)));
      }
      truth := cache.isAuthenticated.value;
      Record(IsAuthenticated, before);
    }
  }
}
