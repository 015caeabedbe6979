/** Cached readiness checks under an asynchronous lock.

    A call of `status` is cut at its await points into atomic sections; any interleaving of
    the sections of any number of calls is a run.  `log` is the observable history. */
module Preflight {
  import opened Common

  datatype Readiness =
    | Inactive | IdentityMissing | TrustMissing | SshUnavailable | DnsFailure | ConnectionFailure
    | HostKeyMismatch | AuthenticationFailure | Unavailable | Ready

  datatype Config = Config(enabled: bool, cacheSeconds: real)

  datatype Event =
    | Started(caller: nat, at: real)
    | Stored(caller: nat, result: Readiness, at: real)
    | Abandoned(caller: nat)
    | Published(result: Readiness)
    | ReturnedOwn(caller: nat, result: Readiness)
    | ReturnedCached(caller: nat, result: Readiness, readAt: real)
    | ReturnedInactive(caller: nat)

  datatype State = State(
    cached: Option<Readiness>, cachedAt: real, reported: Option<Readiness>,
    holder: Option<nat>, waiting: set<nat>, log: seq<Event>)

  const INITIAL := State(None, 0.0, None, None, {}, [])

  /** The atomic sections: from the call to its first suspension, with the clock readings before
      and after the lock, which is taken at once only when it is free and no caller waits for it;
      from lock acquisition after waiting; from the end of the check; and an exception or
      cancellation while waiting or checking. */
  datatype Section =
    | Enter(caller: nat, first: real, second: real)
    | Acquire(caller: nat, now: real)
    | Finish(caller: nat, result: Readiness, now: real)
    | Abandon(caller: nat)

  predicate Fresh(c: Config, s: State, now: real) {
    s.cached.Some? && now - s.cachedAt < c.cacheSeconds
  }

  function Note(s: State, e: Event): State { s.(log := s.log + [e]) }

  function Publish(s: State, r: Readiness): State {
    if s.reported == Some(r) then s else Note(s, Published(r)).(reported := Some(r))
  }

  /** The second look at the cache, with the lock just acquired. */
  function Recheck(c: Config, s: State, caller: nat, now: real): State {
    if Fresh(c, s, now) then Note(s, ReturnedCached(caller, s.cached.value, now))
    else Note(s, Started(caller, now)).(holder := Some(caller))
  }

  predicate Possible(s: State, x: Section) {
    match x
    case Enter(id, first, second) => id !in s.waiting && s.holder != Some(id)
    case Acquire(id, _) => id in s.waiting && s.holder.None?
    case Finish(id, _, _) => s.holder == Some(id)
    case Abandon(id) => id in s.waiting || s.holder == Some(id)
  }

  function Step(c: Config, s: State, x: Section): State
    requires Possible(s, x)
  {
    match x
    case Enter(id, first, second) =>
      if !c.enabled then Note(Publish(s, Inactive), ReturnedInactive(id))
      else if Fresh(c, s, first) then Note(s, ReturnedCached(id, s.cached.value, first))
      else if s.holder.Some? || s.waiting != {} then s.(waiting := s.waiting + {id})
      else Recheck(c, s, id, second)
    case Acquire(id, now) => Recheck(c, s.(waiting := s.waiting - {id}), id, now)
    case Finish(id, r, now) =>
      var stored := Note(s, Stored(id, r, now)).(cached := Some(r), cachedAt := now);
      Note(Publish(stored, r), ReturnedOwn(id, r)).(holder := None)
    case Abandon(id) =>
      if s.holder == Some(id) then Note(s, Abandoned(id)).(holder := None) else s.(waiting := s.waiting - {id})
  }

  /** No caller is ever stuck: one outside may call, one that waits may acquire the lock once it is
      free, one that checks may finish, and any that is suspended may be cancelled. */
  lemma NeverStuck(s: State, id: nat, r: Readiness, now: real, later: real)
    ensures Possible(s, Enter(id, now, later)) || id in s.waiting || s.holder == Some(id)
    ensures id in s.waiting ==> Possible(s, Abandon(id)) && (Possible(s, Acquire(id, now)) || s.holder.Some?)
    ensures s.holder == Some(id) ==> Possible(s, Abandon(id)) && Possible(s, Finish(id, r, now))
  {
  }

  function Begins(clock: real, x: Section): real {
    match x
    case Enter(_, first, _) => first
    case Acquire(_, now) => now
    case Finish(_, _, now) => now
    case Abandon(_) => clock
  }

  function Ends(clock: real, x: Section): real {
    match x case Enter(_, _, second) => second case _ => Begins(clock, x)
  }

  // ---------------------------------------------------------------------------
  // Reading a history

  /** Checks started and not yet stored or abandoned. */
  function InFlight(log: seq<Event>): int {
    if log == [] then 0
    else
      var e := log[|log| - 1];
      InFlight(log[..|log| - 1]) + (if e.Started? then 1 else if e.Stored? || e.Abandoned? then -1 else 0)
  }

  function LastStored(log: seq<Event>): (r: Option<Event>)
    ensures r.Some? ==> r.value.Stored?
  {
    if log == [] then None
    else if log[|log| - 1].Stored? then Some(log[|log| - 1]) else LastStored(log[..|log| - 1])
  }

  function LastPublished(log: seq<Event>): Option<Readiness> {
    if log == [] then None
    else if log[|log| - 1].Published? then Some(log[|log| - 1].result) else LastPublished(log[..|log| - 1])
  }

  /** The caller of the check in flight, if any. */
  function Checking(log: seq<Event>): Option<nat> {
    if log == [] then None
    else
      var e := log[|log| - 1];
      if e.Started? then Some(e.caller) else if e.Stored? || e.Abandoned? then None else Checking(log[..|log| - 1])
  }

  ghost predicate StoredBefore(log: seq<Event>, t: real, gap: real) {
    forall i | 0 <= i < |log| && log[i].Stored? :: t - log[i].at >= gap
  }

  /** What must hold of an event, given the events before it. */
  ghost predicate EventOk(c: Config, past: seq<Event>, e: Event) {
    match e
    case Started(_, t) => c.enabled && InFlight(past) == 0 && StoredBefore(past, t, c.cacheSeconds)
    case Stored(id, _, _) => InFlight(past) == 1 && Checking(past) == Some(id)
    case Abandoned(id) => InFlight(past) == 1 && Checking(past) == Some(id)
    case Published(r) => LastPublished(past) != Some(r)
    case ReturnedOwn(id, r) =>
      LastStored(past).Some? && LastStored(past).value.caller == id && LastStored(past).value.result == r
      && LastPublished(past) == Some(r)
    case ReturnedCached(_, r, t) =>
      LastStored(past).Some? && LastStored(past).value.result == r && t - LastStored(past).value.at < c.cacheSeconds
    case ReturnedInactive(_) => !c.enabled && LastPublished(past) == Some(Inactive)
  }

  ghost predicate HistoryOk(c: Config, log: seq<Event>) {
    forall i | 0 <= i < |log| :: EventOk(c, log[..i], log[i])
  }

  ghost predicate CacheIsLast(s: State)
    requires s.cached.Some?
  {
    var last := LastStored(s.log);
    last.Some? && last.value.result == s.cached.value && last.value.at == s.cachedAt
  }

  /** How the service's fields reflect its history. */
  ghost predicate Inv(c: Config, clock: real, s: State) {
    && HistoryOk(c, s.log)
    && InFlight(s.log) == (if s.holder.Some? then 1 else 0) && Checking(s.log) == s.holder
    && LastPublished(s.log) == s.reported
    && (s.cached.None? ==> forall i | 0 <= i < |s.log| :: !s.log[i].Stored?)
    && (s.cached.Some? ==> CacheIsLast(s) && s.cachedAt <= clock && StoredBefore(s.log, s.cachedAt, 0.0))
  }

  lemma Extend(c: Config, log: seq<Event>, e: Event)
    requires HistoryOk(c, log) && EventOk(c, log, e)
    ensures HistoryOk(c, log + [e])
    ensures InFlight(log + [e]) ==
      InFlight(log) + (if e.Started? then 1 else if e.Stored? || e.Abandoned? then -1 else 0)
    ensures LastStored(log + [e]) == (if e.Stored? then Some(e) else LastStored(log))
    ensures LastPublished(log + [e]) == (if e.Published? then Some(e.result) else LastPublished(log))
    ensures Checking(log + [e]) ==
      (if e.Started? then Some(e.caller) else if e.Stored? || e.Abandoned? then None else Checking(log))
  {
    hide EventOk;
    var l := log + [e];
    assert l[..|log|] == log && l[|log|] == e;
    forall i | 0 <= i < |log| ensures EventOk(c, l[..i], l[i]) {
      assert l[..i] == log[..i] && l[i] == log[i];
    }
  }

  lemma ExtendStored(log: seq<Event>, e: Event, t: real, gap: real)
    requires StoredBefore(log, t, gap) && (e.Stored? ==> t - e.at >= gap)
    ensures StoredBefore(log + [e], t, gap)
  {
  }

  lemma PublishKeeps(c: Config, clock: real, s: State, r: Readiness)
    requires Inv(c, clock, s)
    ensures Inv(c, clock, Publish(s, r)) && LastStored(Publish(s, r).log) == LastStored(s.log)
    ensures LastPublished(Publish(s, r).log) == Some(r)
  {
    hide HistoryOk, InFlight, LastStored, LastPublished, Checking, StoredBefore;
    if s.reported != Some(r) {
      Extend(c, s.log, Published(r));
      if s.cached.Some? { ExtendStored(s.log, Published(r), s.cachedAt, 0.0); }
    }
  }

  lemma ReturnKeeps(c: Config, clock: real, s: State, e: Event)
    requires Inv(c, clock, s) && EventOk(c, s.log, e) && (e.ReturnedCached? || e.ReturnedOwn? || e.ReturnedInactive?)
    ensures Inv(c, clock, Note(s, e))
  {
    hide HistoryOk, InFlight, LastStored, LastPublished, Checking, StoredBefore, EventOk;
    Extend(c, s.log, e);
    if s.cached.Some? { ExtendStored(s.log, e, s.cachedAt, 0.0); }
  }

  lemma RecheckKeeps(c: Config, clock: real, s: State, caller: nat, now: real)
    requires Inv(c, clock, s) && clock <= now && s.holder.None? && c.enabled
    ensures Inv(c, now, Recheck(c, s, caller, now))
  {
    hide HistoryOk, InFlight, LastStored, LastPublished, Checking;
    if Fresh(c, s, now) {
      ReturnKeeps(c, clock, s, ReturnedCached(caller, s.cached.value, now));
    } else {
      var e := Started(caller, now);
      assert StoredBefore(s.log, now, c.cacheSeconds);
      Extend(c, s.log, e);
      if s.cached.Some? { ExtendStored(s.log, e, s.cachedAt, 0.0); }
    }
  }

  lemma FinishKeeps(c: Config, clock: real, s: State, id: nat, r: Readiness, now: real)
    requires Inv(c, clock, s) && clock <= now && s.holder == Some(id)
    ensures Inv(c, now, Step(c, s, Finish(id, r, now)))
  {
    hide HistoryOk, InFlight, LastPublished, Checking, LastStored;
    var e := Stored(id, r, now);
    var stored := Note(s, e).(cached := Some(r), cachedAt := now);
    Extend(c, s.log, e);
    assert StoredBefore(s.log, now, 0.0);
    ExtendStored(s.log, e, now, 0.0);
    hide StoredBefore;
    var free := stored.(holder := None);
    assert Inv(c, now, free);
    PublishKeeps(c, now, free, r);
    ReturnKeeps(c, now, Publish(free, r), ReturnedOwn(id, r));
    assert Step(c, s, Finish(id, r, now)) == Note(Publish(free, r), ReturnedOwn(id, r));
  }

  lemma AbandonKeeps(c: Config, clock: real, s: State, id: nat)
    requires Inv(c, clock, s) && Possible(s, Abandon(id))
    ensures Inv(c, clock, Step(c, s, Abandon(id)))
  {
    hide HistoryOk, InFlight, LastPublished, Checking, LastStored, StoredBefore;
    if s.holder == Some(id) {
      Extend(c, s.log, Abandoned(id));
      if s.cached.Some? { ExtendStored(s.log, Abandoned(id), s.cachedAt, 0.0); }
    }
  }

  lemma LaterKeeps(c: Config, clock: real, now: real, s: State)
    requires Inv(c, clock, s) && clock <= now
    ensures Inv(c, now, s)
  {
    hide HistoryOk, InFlight, LastPublished, Checking, LastStored, StoredBefore;
  }

  /** A caller can only be suspended when the service is enabled. */
  ghost predicate OnlyEnabled(c: Config, s: State) {
    !c.enabled ==> s.waiting == {} && s.holder.None?
  }

  /** Every atomic section keeps the invariant. */
  lemma StepKeeps(c: Config, clock: real, s: State, x: Section)
    requires Inv(c, clock, s) && OnlyEnabled(c, s) && Possible(s, x) && clock <= Begins(clock, x) <= Ends(clock, x)
    ensures Inv(c, Ends(clock, x), Step(c, s, x)) && OnlyEnabled(c, Step(c, s, x))
  {
    hide HistoryOk, InFlight, LastPublished, Checking, StoredBefore;
    match x
    case Enter(id, first, second) =>
      LaterKeeps(c, clock, second, s);
      if !c.enabled {
        PublishKeeps(c, second, s, Inactive);
        ReturnKeeps(c, second, Publish(s, Inactive), ReturnedInactive(id));
      } else if Fresh(c, s, first) {
        ReturnKeeps(c, second, s, ReturnedCached(id, s.cached.value, first));
      } else if s.holder.None? && s.waiting == {} {
        RecheckKeeps(c, second, s, id, second);
      }
    case Acquire(id, now) =>
      RecheckKeeps(c, clock, s.(waiting := s.waiting - {id}), id, now);
    case Finish(id, r, now) => FinishKeeps(c, clock, s, id, r, now);
    case Abandon(id) => AbandonKeeps(c, clock, s, id);
  }

  lemma {:induction false} NoneStored(log: seq<Event>)
    requires forall i | 0 <= i < |log| :: !log[i].Stored?
    ensures LastStored(log).None?
  {
    if log != [] { NoneStored(log[..|log| - 1]); }
  }

  /** The cache answers at `t` exactly while the last stored result is younger than the cache time. */
  ghost predicate AnswersAt(c: Config, log: seq<Event>, t: real) {
    LastStored(log).Some? && t - LastStored(log).value.at < c.cacheSeconds
  }

  lemma FreshIff(c: Config, clock: real, s: State, t: real)
    requires Inv(c, clock, s)
    ensures Fresh(c, s, t) <==> AnswersAt(c, s.log, t)
    ensures Fresh(c, s, t) ==> s.cached.value == LastStored(s.log).value.result
  {
    hide HistoryOk, InFlight, LastPublished, Checking, StoredBefore;
    if s.cached.None? { NoneStored(s.log); }
  }

  /** The publication of a state: none when it is the one last published. */
  function News(log: seq<Event>, r: Readiness): seq<Event> {
    if LastPublished(log) == Some(r) then [] else [Published(r)]
  }

  /** What each section adds to the history, read off the history alone.  A state that differs from
      the one last published is published, when a check ends and when a disabled service is asked; an
      enabled call returns the last stored result while that is fresh, and otherwise waits, or starts
      a check when the lock is free and nobody waits for it. */
  lemma SectionMeaning(c: Config, clock: real, s: State, x: Section)
    requires Inv(c, clock, s) && Possible(s, x) && clock <= Begins(clock, x) <= Ends(clock, x)
    ensures var after := Step(c, s, x);
      match x
      case Enter(id, first, second) =>
        if !c.enabled then after.log == s.log + News(s.log, Inactive) + [ReturnedInactive(id)]
        else if AnswersAt(c, s.log, first) then
          after.log == s.log + [ReturnedCached(id, LastStored(s.log).value.result, first)]
        else if s.holder.Some? || s.waiting != {} then after == s.(waiting := s.waiting + {id})
        else after == s.(log := s.log + [Started(id, second)], holder := Some(id))
      case Acquire(id, now) =>
        if AnswersAt(c, s.log, now) then
          after == s.(log := s.log + [ReturnedCached(id, LastStored(s.log).value.result, now)],
                      waiting := s.waiting - {id})
        else after == s.(log := s.log + [Started(id, now)], waiting := s.waiting - {id}, holder := Some(id))
      case Finish(id, r, now) =>
        && after.log == s.log + [Stored(id, r, now)] + News(s.log, r) + [ReturnedOwn(id, r)]
        && after.holder.None? && after.waiting == s.waiting
      case Abandon(id) =>
        if s.holder == Some(id) then after == s.(log := s.log + [Abandoned(id)], holder := None)
        else after == s.(waiting := s.waiting - {id})
  {
    hide HistoryOk, InFlight, LastPublished, Checking, StoredBefore, CacheIsLast, LastStored, AnswersAt;
    match x
    case Enter(id, first, second) =>
      FreshIff(c, clock, s, first);
      FreshIff(c, clock, s, second);
      NoNews(s.log);
    case Acquire(id, now) => FreshIff(c, clock, s, now);
    case Finish(id, r, now) => NoNews(s.log + [Stored(id, r, now)]);
    case Abandon(id) =>
  }

  lemma NoNews(log: seq<Event>)
    ensures log + [] == log
  {
  }

  // ---------------------------------------------------------------------------
  // Runs

  /** The sections can happen in this order, with a clock that never goes back. */
  predicate Runs(c: Config, clock: real, s: State, xs: seq<Section>)
    decreases |xs|
  {
    xs == [] ||
    (Possible(s, xs[0]) && clock <= Begins(clock, xs[0]) <= Ends(clock, xs[0])
     && Runs(c, Ends(clock, xs[0]), Step(c, s, xs[0]), xs[1..]))
  }

  function After(c: Config, clock: real, s: State, xs: seq<Section>): State
    requires Runs(c, clock, s, xs)
    decreases |xs|
  {
    if xs == [] then s else After(c, Ends(clock, xs[0]), Step(c, s, xs[0]), xs[1..])
  }

  lemma {:induction false} RunKeeps(c: Config, clock: real, s: State, xs: seq<Section>)
    requires Inv(c, clock, s) && OnlyEnabled(c, s) && Runs(c, clock, s, xs)
    ensures HistoryOk(c, After(c, clock, s, xs).log)
    decreases |xs|
  {
    if xs != [] {
      hide Inv, Step, OnlyEnabled;
      StepKeeps(c, clock, s, xs[0]);
      RunKeeps(c, Ends(clock, xs[0]), Step(c, s, xs[0]), xs[1..]);
    }
  }

  /** In every interleaving: checks do not overlap; a check starts at least the cache time after
      every stored result; a returned snapshot is the caller's own or was the latest one and
      fresh at the caller's reading; published states never repeat consecutively, and the state of a
      finished check, or of a disabled service, is the last published when its caller gets it. */
  lemma EveryHistoryIsOk(c: Config, clock: real, xs: seq<Section>)
    requires Runs(c, clock, INITIAL, xs)
    ensures HistoryOk(c, After(c, clock, INITIAL, xs).log)
  {
    RunKeeps(c, clock, INITIAL, xs);
  }

  /** Read off a history: at any time at most one check is in flight. */
  lemma {:induction false} AtMostOneInFlight(c: Config, log: seq<Event>, k: nat)
    requires HistoryOk(c, log) && k <= |log|
    ensures 0 <= InFlight(log[..k]) <= 1
  {
    if k > 0 {
      AtMostOneInFlight(c, log, k - 1);
      assert log[..k][..k - 1] == log[..k - 1];
      assert EventOk(c, log[..k - 1], log[k - 1]);
    }
  }

  /** In every interleaving a check starts at least the cache time after any result stored before. */
  lemma StartsAreSpaced(c: Config, clock: real, xs: seq<Section>, i: nat, j: nat)
    requires Runs(c, clock, INITIAL, xs)
    requires var log := After(c, clock, INITIAL, xs).log; i < j < |log| && log[i].Stored? && log[j].Started?
    ensures var log := After(c, clock, INITIAL, xs).log; log[j].at - log[i].at >= c.cacheSeconds
  {
    hide Runs, After;
    EveryHistoryIsOk(c, clock, xs);
    var log := After(c, clock, INITIAL, xs).log;
    assert EventOk(c, log[..j], log[j]);
    assert log[..j][i] == log[i];
  }

  /** What a section returned to its caller, read off the events it added; none if it was suspended. */
  function Answer(before: seq<Event>, after: seq<Event>): Option<Readiness> {
    if |after| <= |before| then None
    else
      match after[|after| - 1]
      case ReturnedOwn(_, r) => Some(r)
      case ReturnedCached(_, r, _) => Some(r)
      case ReturnedInactive(_) => Some(Inactive)
      case _ => None
  }

  class AdvancedShellPreflight {
    const config: Config
    var cached: Option<Readiness>
    var cachedAt: real
    var reported: Option<Readiness>

    // The lock: who holds it, and who waits for it.
    var holder: Option<nat>
    var waiting: set<nat>

    ghost var log: seq<Event>

    ghost function Current(): State
      reads this
    {
      State(cached, cachedAt, reported, holder, waiting, log)
    }

    constructor (c: Config)
      ensures config == c && Current() == INITIAL
    {
      config := c;
      cached, cachedAt, reported := None, 0.0, None;
      holder, waiting := None, {};
      log := [];
    }

    method PublishState(r: Readiness)
      modifies this`reported, this`log
      ensures Current() == Publish(old(Current()), r)
    {
      if reported == Some(r) {
        return;
      }
      reported := Some(r);
      log := log + [Published(r)];
    }

    /** From the call up to its result or its first suspension. */
    method Call(caller: nat, first: real, second: real) returns (snapshot: Option<Readiness>)
      requires Possible(Current(), Enter(caller, first, second))
      modifies this
      ensures Current() == Step(config, old(Current()), Enter(caller, first, second))
      ensures snapshot == Answer(old(log), log)
    {
      if !config.enabled {
        PublishState(Inactive);
        log := log + [ReturnedInactive(caller)];
        return Some(Inactive);
      }
      if cached.Some? && first - cachedAt < config.cacheSeconds {
        log := log + [ReturnedCached(caller, cached.value, first)];
        return cached;
      }
      if holder.Some? || waiting != {} {
        waiting := waiting + {caller};
        return None;
      }
      snapshot := LockAcquired(caller, second);
    }

    /** With the lock just acquired: look again, then return and release it, or start the check. */
    method LockAcquired(caller: nat, now: real) returns (snapshot: Option<Readiness>)
      requires holder.None?
      modifies this
      ensures Current() == Recheck(config, old(Current()), caller, now)
      ensures snapshot == Answer(old(log), log)
    {
      if cached.Some? && now - cachedAt < config.cacheSeconds {
        log := log + [ReturnedCached(caller, cached.value, now)];
        return cached;
      }
      holder := Some(caller);
      log := log + [Started(caller, now)];
      return None;
    }

    method Resume(caller: nat, now: real) returns (snapshot: Option<Readiness>)
      requires Possible(Current(), Acquire(caller, now))
      modifies this
      ensures Current() == Step(config, old(Current()), Acquire(caller, now))
      ensures snapshot == Answer(old(log), log)
    {
      waiting := waiting - {caller};
      snapshot := LockAcquired(caller, now);
    }

    method CheckDone(caller: nat, result: Readiness, now: real) returns (snapshot: Readiness)
      requires Possible(Current(), Finish(caller, result, now))
      modifies this
      ensures Current() == Step(config, old(Current()), Finish(caller, result, now))
      ensures Some(snapshot) == Answer(old(log), log)
    {
      cached, cachedAt := Some(result), now;
      log := log + [Stored(caller, result, now)];
      PublishState(result);
      log := log + [ReturnedOwn(caller, result)];
      holder := None;
      return result;
    }

    /** An exception or cancellation releases the lock, or leaves the queue, and stores nothing. */
    method Stop(caller: nat)
      requires Possible(Current(), Abandon(caller))
      modifies this
      ensures Current() == Step(config, old(Current()), Abandon(caller))
    {
      if holder == Some(caller) {
        log := log + [Abandoned(caller)];
        holder := None;
      } else {
        waiting := waiting - {caller};
      }
    }
  }
}
