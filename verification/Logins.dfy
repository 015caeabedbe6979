/** The login endpoint beside the middleware, on one failure limiter.

    A login asks the limiter, waits for its request body, and only then records a failure or a
    success; other requests and logins run in between.  `flying` holds, for each peer, the logins
    that have asked and not yet ended. */
module Logins {
  import opened Common
  import opened RateLimit
  import opened Middleware

  datatype Event =
    | Served(request: Request)
    | Asked(peer: Peer, now: real)
    | Failed(peer: Peer, now: real, later: real)
    | Succeeded(peer: Peer)
    | Dropped(peer: Peer)

  datatype Reply =
    | Response(outcome: Outcome)
    | LoginRefused
    | LoginOpen
    | LoginFailed(limited: bool)
    | LoginDone
    | LoginDropped

  type Flying = multiset<Peer>

  predicate Limits(a: Answer) { a.Limited? && a.yes }

  /** One section, on the limiter of the program. */
  function Section(c: Config, pol: Policy, st: State, flying: Flying, e: Event): (State, Flying, Reply) {
    match e
    case Served(r) => var (s, o) := Handle(c, pol, st, r); (s, flying, Response(o))
    case Asked(p, now) =>
      var (s, a) := Step(c, st, Lookup(p, now));
      if Limits(a) then (s, flying, LoginRefused) else (s, flying + multiset{p}, LoginOpen)
    case Failed(p, now, later) =>
      var (s, a) := Step(c, Step(c, st, Failure(p, now)).0, Lookup(p, later));
      (s, flying - multiset{p}, LoginFailed(Limits(a)))
    case Succeeded(p) => (Step(c, st, Success(p)).0, flying - multiset{p}, LoginDone)
    case Dropped(p) => (st, flying - multiset{p}, LoginDropped)
  }

  /** The same section, on the naive limiter. */
  function NaiveSection(c: Config, pol: Policy, n: Naive, flying: Flying, e: Event): (Naive, Flying, Reply) {
    match e
    case Served(r) => var (m, o) := NaiveHandle(c, pol, n, r); (m, flying, Response(o))
    case Asked(p, now) =>
      var (m, a) := NaiveStep(c, n, Lookup(p, now));
      if Limits(a) then (m, flying, LoginRefused) else (m, flying + multiset{p}, LoginOpen)
    case Failed(p, now, later) =>
      var (m, a) := NaiveStep(c, NaiveStep(c, n, Failure(p, now)).0, Lookup(p, later));
      (m, flying - multiset{p}, LoginFailed(Limits(a)))
    case Succeeded(p) => (NaiveStep(c, n, Success(p)).0, flying - multiset{p}, LoginDone)
    case Dropped(p) => (n, flying - multiset{p}, LoginDropped)
  }

  function Begins(clock: real, e: Event): real {
    match e
    case Served(r) => r.asked
    case Asked(_, now) => now
    case Failed(_, now, _) => now
    case _ => clock
  }

  function Ends(clock: real, e: Event): real {
    match e
    case Served(r) => r.failed
    case Failed(_, _, later) => later
    case _ => Begins(clock, e)
  }

  predicate Timely(clock: real, e: Event) { clock <= Begins(clock, e) <= Ends(clock, e) }

  /** Only a login that is in flight can end. */
  predicate Possible(flying: Flying, e: Event) {
    (e.Failed? || e.Succeeded? || e.Dropped?) ==> e.peer in flying
  }

  ghost predicate AtMost(flying: Flying, most: nat) { forall p :: flying[p] <= most }

  /** The sections can happen in this order, with at most `most` logins of a peer in flight. */
  ghost predicate Runs(c: Config, pol: Policy, most: nat, clock: real, n: Naive, flying: Flying, es: seq<Event>)
    decreases |es|
  {
    es == [] ||
    (var (m, f, _) := NaiveSection(c, pol, n, flying, es[0]);
     && Timely(clock, es[0]) && Possible(flying, es[0]) && AtMost(f, most)
     && Runs(c, pol, most, Ends(clock, es[0]), m, f, es[1..]))
  }

  function Replies(c: Config, pol: Policy, st: State, flying: Flying, es: seq<Event>): seq<Reply>
    decreases |es|
  {
    if es == [] then []
    else
      var (s, f, r) := Section(c, pol, st, flying, es[0]);
      [r] + Replies(c, pol, s, f, es[1..])
  }

  /** Where the naive limiter ends, and its replies. */
  function NaiveReplies(c: Config, pol: Policy, n: Naive, flying: Flying, es: seq<Event>): (Naive, seq<Reply>)
    decreases |es|
  {
    if es == [] then (n, [])
    else
      var (m, f, r) := NaiveSection(c, pol, n, flying, es[0]);
      var (last, rs) := NaiveReplies(c, pol, m, f, es[1..]);
      (last, [r] + rs)
  }

  // ---------------------------------------------------------------------------
  // The replies are those of the naive limiter

  /** The operation that follows the limiter's answer, if any, at the end of a request. */
  lemma FollowUpRefines(c: Config, asked: real, failed: real, st: State, n: Naive, op: Option<Op>)
    requires c.Valid() && Coupled(c, asked, st, n) && asked <= failed
    requires op.Some? ==> op.value.Success? || (op.value.Failure? && op.value.now == failed)
    ensures Coupled(c, failed,
      if op.Some? then Step(c, st, op.value).0 else st, if op.Some? then NaiveStep(c, n, op.value).0 else n)
  {
    hide Coupled, Step, NaiveStep;
    if op.Some? {
      StepRefines(c, asked, st, n, op.value);
      Later(c, Clock(asked, op.value), failed, Step(c, st, op.value).0, NaiveStep(c, n, op.value).0);
    } else {
      Later(c, asked, failed, st, n);
    }
  }

  lemma SectionRefines(c: Config, pol: Policy, clock: real, st: State, n: Naive, flying: Flying, e: Event)
    requires c.Valid() && Coupled(c, clock, st, n) && Timely(clock, e)
    ensures var (s, f, r) := Section(c, pol, st, flying, e);
      var (m, f', r') := NaiveSection(c, pol, n, flying, e);
      f == f' && r == r' && Coupled(c, Ends(clock, e), s, m)
  {
    hide Coupled, Step, NaiveStep, Gate, Authenticate, CsrfPasses, NeedsCsrf;
    match e
    case Served(r) =>
      Later(c, clock, r.failed, st, n);
      var look := Lookup(PeerOf(r.scope), r.asked);
      StepRefines(c, clock, st, n, look);
      var (s1, a) := Step(c, st, look);
      var op := Middleware.Reply(pol, r.scope, r.wall, a.Limited? && a.yes, r.failed).0;
      FollowUpRefines(c, r.asked, r.failed, s1, NaiveStep(c, n, look).0, op);
    case Asked(p, now) => StepRefines(c, clock, st, n, Lookup(p, now));
    case Failed(p, now, later) =>
      StepRefines(c, clock, st, n, Failure(p, now));
      var s, m := Step(c, st, Failure(p, now)).0, NaiveStep(c, n, Failure(p, now)).0;
      StepRefines(c, now, s, m, Lookup(p, later));
    case Succeeded(p) => StepRefines(c, clock, st, n, Success(p));
    case Dropped(p) =>
  }

  lemma {:induction false} RepliesRefine(
    c: Config, pol: Policy, most: nat, clock: real, st: State, n: Naive, flying: Flying, es: seq<Event>)
    requires c.Valid() && Coupled(c, clock, st, n) && Runs(c, pol, most, clock, n, flying, es)
    ensures Replies(c, pol, st, flying, es) == NaiveReplies(c, pol, n, flying, es).1
    decreases |es|
  {
    hide Coupled, Section, NaiveSection, AtMost;
    if es != [] {
      SectionRefines(c, pol, clock, st, n, flying, es[0]);
      var (s, f, r) := Section(c, pol, st, flying, es[0]);
      var m := NaiveSection(c, pol, n, flying, es[0]).0;
      RepliesRefine(c, pol, most, Ends(clock, es[0]), s, m, f, es[1..]);
    }
  }

  // ---------------------------------------------------------------------------
  // How many failures a window holds

  /** Any `width + 1` recorded failures in a row span at least the window. */
  predicate SpacedBy(c: Config, width: nat, h: seq<real>) {
    forall i, j | 0 <= i && j == i + width < |h| :: h[i] <= h[j] - c.window
  }

  ghost predicate AllSpacedBy(c: Config, width: nat, n: Naive) {
    forall p :: SpacedBy(c, width, History(n, p)) && Nondecreasing(History(n, p))
  }

  /** What holds of one peer: its failures in the window and its logins in flight are together at
      most the limit and the most logins in flight. */
  ghost predicate PeerBounded(c: Config, most: nat, clock: real, h: seq<real>, flying: nat) {
    && flying <= most && CountNewer(h, clock - c.window) + flying <= c.limit + most
    && SpacedBy(c, c.limit + most, h) && Nondecreasing(h) && AllAtMost(h, clock)
  }

  ghost predicate Bounded(c: Config, most: nat, clock: real, n: Naive, flying: Flying) {
    forall p :: PeerBounded(c, most, clock, History(n, p), flying[p])
  }

  lemma {:induction false} CountFalls(h: seq<real>, a: real, b: real)
    requires a <= b
    ensures CountNewer(h, b) <= CountNewer(h, a)
  {
    if h != [] { CountFalls(h[..|h| - 1], a, b); }
  }

  lemma CountOne(h: seq<real>, now: real, cutoff: real)
    requires cutoff < now
    ensures CountNewer(h + [now], cutoff) == CountNewer(h, cutoff) + 1
  {
    assert (h + [now])[..|h|] == h;
  }

  lemma PeerLater(c: Config, most: nat, clock: real, now: real, h: seq<real>, flying: nat)
    requires PeerBounded(c, most, clock, h, flying) && clock <= now
    ensures PeerBounded(c, most, now, h, flying)
  {
    hide CountNewer;
    CountFalls(h, clock - c.window, now - c.window);
  }

  lemma PeerFresh(c: Config, most: nat, clock: real, flying: nat)
    requires flying <= most
    ensures PeerBounded(c, most, clock, [], flying)
  {
  }

  /** A failure keeps the bound when the window has room for it beside the logins in flight. */
  lemma PeerFails(c: Config, most: nat, clock: real, now: real, h: seq<real>, flying: nat)
    requires c.Valid() && clock <= now && SpacedBy(c, c.limit + most, h) && Nondecreasing(h) && AllAtMost(h, clock)
    requires flying <= most && CountNewer(h, now - c.window) + 1 + flying <= c.limit + most
    ensures PeerBounded(c, most, now, h + [now], flying)
  {
    hide CountNewer;
    var width := c.limit + most;
    CountOne(h, now, now - c.window);
    if |h| >= width {
      var k := |h| - width;
      if h[k] > now - c.window { CountAtLeast(h, k, now - c.window); }
      assert h[k] <= now - c.window;
    }
  }

  /** How the history of a peer changes in one operation of the naive limiter. */
  lemma HistoryAfter(c: Config, n: Naive, op: Op, p: Peer)
    ensures var h, h' := History(n, p), History(NaiveStep(c, n, op).0, p);
      && (op.Lookup? ==> h' == h)
      && (op.Failure? ==> h' == [] || h' == if p == op.peer then h + [op.now] else h)
      && (op.Success? ==> h' == if p == op.peer then [] else h)
  {
    hide CountNewer, MoreRecent;
  }

  lemma LookupAnswers(c: Config, n: Naive, p: Peer, now: real)
    ensures Limits(NaiveStep(c, n, Lookup(p, now)).1) <==> CountNewer(History(n, p), now - c.window) >= c.limit
  {
    hide CountNewer;
  }

  lemma LookupKeeps(c: Config, most: nat, clock: real, n: Naive, flying: Flying, p: Peer, now: real)
    requires Bounded(c, most, clock, n, flying) && clock <= now
    ensures Bounded(c, most, now, NaiveStep(c, n, Lookup(p, now)).0, flying)
  {
    hide PeerBounded, NaiveStep, History;
    forall q ensures PeerBounded(c, most, now, History(NaiveStep(c, n, Lookup(p, now)).0, q), flying[q]) {
      HistoryAfter(c, n, Lookup(p, now), q);
      PeerLater(c, most, clock, now, History(n, q), flying[q]);
    }
  }

  lemma SuccessKeeps(c: Config, most: nat, clock: real, n: Naive, flying: Flying, p: Peer)
    requires Bounded(c, most, clock, n, flying) && AtMost(flying, most)
    ensures Bounded(c, most, clock, NaiveStep(c, n, Success(p)).0, flying)
  {
    hide PeerBounded, NaiveStep, History;
    forall q ensures PeerBounded(c, most, clock, History(NaiveStep(c, n, Success(p)).0, q), flying[q]) {
      HistoryAfter(c, n, Success(p), q);
      if q == p { PeerFresh(c, most, clock, flying[q]); }
    }
  }

  /** A failure, with `after` in flight once it is recorded. */
  lemma FailureKeeps(
    c: Config, most: nat, clock: real, n: Naive, flying: Flying, after: Flying, p: Peer, now: real)
    requires c.Valid() && Bounded(c, most, clock, n, flying) && clock <= now && AtMost(after, most)
    requires forall q :: q != p ==> after[q] == flying[q]
    requires CountNewer(History(n, p), now - c.window) + 1 + after[p] <= c.limit + most
    ensures Bounded(c, most, now, NaiveStep(c, n, Failure(p, now)).0, after)
  {
    hide NaiveStep, History, SpacedBy, Nondecreasing, AllAtMost, CountNewer;
    forall q ensures PeerBounded(c, most, now, History(NaiveStep(c, n, Failure(p, now)).0, q), after[q]) {
      HistoryAfter(c, n, Failure(p, now), q);
      PeerFresh(c, most, now, after[q]);
      assert PeerBounded(c, most, clock, History(n, q), flying[q]);
      if q == p {
        PeerFails(c, most, clock, now, History(n, p), after[p]);
      } else {
        PeerLater(c, most, clock, now, History(n, q), flying[q]);
      }
    }
  }

  /** Fewer logins in flight keep the bound. */
  lemma FewerKeeps(c: Config, most: nat, clock: real, n: Naive, flying: Flying, after: Flying)
    requires Bounded(c, most, clock, n, flying) && forall p :: after[p] <= flying[p]
    ensures Bounded(c, most, clock, n, after)
  {
    hide SpacedBy, Nondecreasing, AllAtMost, CountNewer, History;
    forall p ensures PeerBounded(c, most, clock, History(n, p), after[p]) {
      assert PeerBounded(c, most, clock, History(n, p), flying[p]);
    }
  }

  lemma AskedKeeps(c: Config, pol: Policy, most: nat, clock: real, n: Naive, flying: Flying, p: Peer, now: real)
    requires c.Valid() && Bounded(c, most, clock, n, flying) && clock <= now
    requires AtMost(NaiveSection(c, pol, n, flying, Asked(p, now)).1, most)
    ensures var (m, f, _) := NaiveSection(c, pol, n, flying, Asked(p, now)); Bounded(c, most, now, m, f)
  {
    hide NaiveStep, History, SpacedBy, Nondecreasing, AllAtMost, CountNewer, Limits;
    LookupKeeps(c, most, clock, n, flying, p, now);
    LookupAnswers(c, n, p, now);
    HistoryAfter(c, n, Lookup(p, now), p);
    var (m, f, _) := NaiveSection(c, pol, n, flying, Asked(p, now));
    forall q ensures PeerBounded(c, most, now, History(m, q), f[q]) {
      assert PeerBounded(c, most, now, History(m, q), flying[q]);
    }
  }

  lemma FailedKeeps(
    c: Config, pol: Policy, most: nat, clock: real, n: Naive, flying: Flying, p: Peer, now: real, later: real)
    requires c.Valid() && Bounded(c, most, clock, n, flying) && AtMost(flying, most) && clock <= now <= later
    requires p in flying
    ensures var (m, f, _) := NaiveSection(c, pol, n, flying, Failed(p, now, later)); Bounded(c, most, later, m, f)
  {
    hide NaiveStep, History, SpacedBy, Nondecreasing, AllAtMost, CountNewer;
    var after := flying - multiset{p};
    assert PeerBounded(c, most, clock, History(n, p), flying[p]);
    CountFalls(History(n, p), clock - c.window, now - c.window);
    FailureKeeps(c, most, clock, n, flying, after, p, now);
    LookupKeeps(c, most, now, NaiveStep(c, n, Failure(p, now)).0, after, p, later);
  }

  /** A request of the middleware fails only while fewer than the limit are in the window. */
  lemma ServedKeeps(c: Config, pol: Policy, most: nat, clock: real, n: Naive, flying: Flying, r: Request)
    requires c.Valid() && Bounded(c, most, clock, n, flying) && AtMost(flying, most) && clock <= r.asked <= r.failed
    ensures Bounded(c, most, r.failed, NaiveHandle(c, pol, n, r).0, flying)
  {
    hide NaiveStep, History, PeerBounded, CountNewer, Gate, Authenticate, NeedsCsrf, CsrfPasses, Bounded, AtMost;
    var p := PeerOf(r.scope);
    BoundedLater(c, most, clock, r.failed, n, flying);
    if Gate(pol, r.scope).None? {
      var (m, a) := NaiveStep(c, n, Lookup(p, r.asked));
      LookupKeeps(c, most, clock, n, flying, p, r.asked);
      BoundedLater(c, most, r.asked, r.failed, m, flying);
      LookupAnswers(c, n, p, r.asked);
      HistoryAfter(c, n, Lookup(p, r.asked), p);
      var op := Middleware.Reply(pol, r.scope, r.wall, a.Limited? && a.yes, r.failed).0;
      if op.Some? && op.value.Failure? {
        CountFalls(History(n, p), r.asked - c.window, r.failed - c.window);
        assert flying[p] <= most by { AtMostOf(flying, most, p); }
        FailureKeeps(c, most, r.asked, m, flying, flying, p, r.failed);
      } else if op.Some? {
        SuccessKeeps(c, most, r.failed, m, flying, p);
      }
    }
  }

  lemma AtMostOf(flying: Flying, most: nat, p: Peer)
    requires AtMost(flying, most)
    ensures flying[p] <= most
  {
  }

  lemma BoundedLater(c: Config, most: nat, clock: real, now: real, n: Naive, flying: Flying)
    requires Bounded(c, most, clock, n, flying) && clock <= now
    ensures Bounded(c, most, now, n, flying)
  {
    hide PeerBounded, History;
    forall p ensures PeerBounded(c, most, now, History(n, p), flying[p]) {
      PeerLater(c, most, clock, now, History(n, p), flying[p]);
    }
  }

  /** Every section keeps the bound. */
  lemma SectionKeeps(c: Config, pol: Policy, most: nat, clock: real, n: Naive, flying: Flying, e: Event)
    requires c.Valid() && Bounded(c, most, clock, n, flying) && AtMost(flying, most)
    requires Timely(clock, e) && Possible(flying, e) && AtMost(NaiveSection(c, pol, n, flying, e).1, most)
    ensures var (m, f, _) := NaiveSection(c, pol, n, flying, e); Bounded(c, most, Ends(clock, e), m, f)
  {
    hide NaiveStep, NaiveHandle, Bounded, Limits;
    match e
    case Served(r) => ServedKeeps(c, pol, most, clock, n, flying, r);
    case Asked(p, now) => AskedKeeps(c, pol, most, clock, n, flying, p, now);
    case Failed(p, now, later) => FailedKeeps(c, pol, most, clock, n, flying, p, now, later);
    case Succeeded(p) =>
      FewerKeeps(c, most, clock, n, flying, flying - multiset{p});
      SuccessKeeps(c, most, clock, n, flying - multiset{p}, p);
    case Dropped(p) => FewerKeeps(c, most, clock, n, flying, flying - multiset{p});
  }

  lemma {:induction false} RunKeeps(
    c: Config, pol: Policy, most: nat, clock: real, n: Naive, flying: Flying, es: seq<Event>)
    requires c.Valid() && Bounded(c, most, clock, n, flying) && AtMost(flying, most)
    requires Runs(c, pol, most, clock, n, flying, es)
    ensures AllSpacedBy(c, c.limit + most, NaiveReplies(c, pol, n, flying, es).0)
    decreases |es|
  {
    hide NaiveSection, AtMost, SpacedBy, Nondecreasing, History;
    if es != [] {
      hide Bounded, AllSpacedBy;
      SectionKeeps(c, pol, most, clock, n, flying, es[0]);
      var (m, f, _) := NaiveSection(c, pol, n, flying, es[0]);
      RunKeeps(c, pol, most, Ends(clock, es[0]), m, f, es[1..]);
    } else {
      forall p ensures SpacedBy(c, c.limit + most, History(n, p)) && Nondecreasing(History(n, p)) {
        assert PeerBounded(c, most, clock, History(n, p), flying[p]);
      }
    }
  }

  /** Over every run of middleware requests mixed with the sections of logins, from a new limiter:
      the replies are those of the naive limiter, and among each peer's failures since its last
      success or eviction, a window holds at most the limit and the most logins in flight at once. */
  lemma MixedRunGuarantees(c: Config, pol: Policy, most: nat, clock: real, es: seq<Event>)
    requires c.Valid() && Runs(c, pol, most, clock, Naive(map[], 0), multiset{}, es)
    ensures var (m, rs) := NaiveReplies(c, pol, Naive(map[], 0), multiset{}, es);
      && Replies(c, pol, [], multiset{}, es) == rs
      && forall p: Peer, i: nat, j: nat | i + c.limit + most <= j < |History(m, p)| ::
           History(m, p)[j] - History(m, p)[i] >= c.window
  {
    hide Runs, Replies, NaiveReplies, SpacedBy, Nondecreasing, AllSpacedBy;
    var n, none: Flying := Naive(map[], 0), multiset{};
    RepliesRefine(c, pol, most, clock, [], n, none, es);
    forall p ensures PeerBounded(c, most, clock, History(n, p), none[p]) { PeerFresh(c, most, clock, 0); }
    RunKeeps(c, pol, most, clock, n, none, es);
    WindowHoldsAtMost(c, c.limit + most, NaiveReplies(c, pol, n, none, es).0);
  }

  lemma WindowHoldsAtMost(c: Config, width: nat, m: Naive)
    requires AllSpacedBy(c, width, m)
    ensures forall p: Peer, i: nat, j: nat | i + width <= j < |History(m, p)| ::
      History(m, p)[j] - History(m, p)[i] >= c.window
  {
    forall p: Peer, i: nat, j: nat | i + width <= j < |History(m, p)|
      ensures History(m, p)[j] - History(m, p)[i] >= c.window
    {
      var h := History(m, p);
      assert SpacedBy(c, width, h) && Nondecreasing(h);
      var k := i + width;
      assert h[i] <= h[k] - c.window;
    }
  }

  /** Without logins this is the spacing of the middleware alone. */
  lemma NoLoginsIsSpaced(c: Config, h: seq<real>)
    ensures SpacedBy(c, c.limit, h) <==> Spaced(c, h)
  {
  }

  function Only(p: Peer, h: seq<real>, touched: nat, ops: nat): Naive { Naive(map[p := Record(h, touched)], ops) }

  lemma OnlyAsked(c: Config, pol: Policy, p: Peer, n: Naive, ops: nat, flying: Flying)
    requires c.Valid() && n.ops == ops && n.peers.Keys <= {p} && History(n, p) == []
    ensures NaiveSection(c, pol, n, flying, Asked(p, 0.0)) ==
            (Only(p, [], ops, ops + 1), flying + multiset{p}, LoginOpen)
  {
    assert n.peers[p := Record([], ops)] == map[p := Record([], ops)];
  }

  lemma OnlyFailed(c: Config, pol: Policy, p: Peer, h: seq<real>, touched: nat, ops: nat, flying: Flying)
    requires c.Valid()
    ensures var (m, f, _) := NaiveSection(c, pol, Only(p, h, touched, ops), flying, Failed(p, 0.0, 0.0));
      m == Only(p, h + [0.0], ops, ops + 2) && f == flying - multiset{p}
  {
    hide NaiveStep, Only;
    OnlyFails(c, p, h, touched, ops);
    CountOne(h, 0.0, 0.0 - c.window);
    OnlyLookedUp(c, p, h + [0.0], ops, ops + 1);
  }

  lemma OnlyFails(c: Config, p: Peer, h: seq<real>, touched: nat, ops: nat)
    requires c.Valid()
    ensures NaiveStep(c, Only(p, h, touched, ops), Failure(p, 0.0)).0 == Only(p, h + [0.0], ops, ops + 1)
  {
    var n := Only(p, h, touched, ops);
    var failed := Only(p, h + [0.0], ops, ops + 1);
    assert n.peers[p := Record(h + [0.0], ops)] == failed.peers;
    assert MoreRecent(failed, p) == {};
  }

  lemma OnlyLookedUp(c: Config, p: Peer, h: seq<real>, touched: nat, ops: nat)
    requires CountNewer(h, 0.0 - c.window) > 0
    ensures NaiveStep(c, Only(p, h, touched, ops), Lookup(p, 0.0)).0 == Only(p, h, touched, ops + 1)
  {
    hide CountNewer;
    var n := Only(p, h, touched, ops);
    assert n.peers[p := Record(h, touched)] == n.peers;
  }

  /** Two logins of one peer that ask before either ends: with a limit of one failure, both fail
      inside one window. */
  lemma LoginsInFlightExceedTheLimit(pol: Policy, p: Peer)
    ensures var c := Config(1, 60.0, 10);
      var es := [Asked(p, 0.0), Asked(p, 0.0), Failed(p, 0.0, 0.0), Failed(p, 0.0, 0.0)];
      && c.Valid() && Runs(c, pol, 2, 0.0, Naive(map[], 0), multiset{}, es)
      && var m := NaiveReplies(c, pol, Naive(map[], 0), multiset{}, es).0;
         History(m, p) == [0.0, 0.0] && !Spaced(c, History(m, p))
  {
    hide NaiveSection, Runs, NaiveReplies, AtMost;
    var c := Config(1, 60.0, 10);
    var ask, fail := Asked(p, 0.0), Failed(p, 0.0, 0.0);
    var f0: Flying, f1: Flying, f2: Flying := multiset{}, multiset{p}, multiset{p, p};
    assert f0 + multiset{p} == f1 && f1 + multiset{p} == f2;
    FewInFlight(p);
    OnlyAsked(c, pol, p, Naive(map[], 0), 0, f0);
    OnlyAsked(c, pol, p, Only(p, [], 0, 1), 1, f1);
    BothFail(c, pol, p);
    Unroll(c, pol, Only(p, [], 0, 1), Only(p, [], 1, 2), f1, f2, ask, [fail, fail]);
    Unroll(c, pol, Naive(map[], 0), Only(p, [], 0, 1), f0, f1, ask, [ask] + [fail, fail]);
    assert [ask] + ([ask] + [fail, fail]) == [ask, ask, fail, fail];
    OnlyHistory(p, [0.0, 0.0], 4, 6);
    TooClose(c);
  }

  lemma TooClose(c: Config)
    requires c.limit == 1 && c.window > 0.0
    ensures !Spaced(c, [0.0, 0.0])
  {
    var h := [0.0, 0.0];
    assert h[0] > h[1] - c.window;
  }

  lemma FewInFlight(p: Peer)
    ensures AtMost(multiset{}, 2) && AtMost(multiset{p}, 2) && AtMost(multiset{p, p}, 2)
    ensures multiset{p, p} - multiset{p} == multiset{p} && multiset{p} - multiset{p} == multiset{}
  {
  }

  lemma BothFail(c: Config, pol: Policy, p: Peer)
    requires c.Valid()
    ensures var fail := Failed(p, 0.0, 0.0);
      && Runs(c, pol, 2, 0.0, Only(p, [], 1, 2), multiset{p, p}, [fail, fail])
      && NaiveReplies(c, pol, Only(p, [], 1, 2), multiset{p, p}, [fail, fail]).0 == Only(p, [0.0, 0.0], 4, 6)
  {
    hide NaiveSection, Runs, NaiveReplies, Only, AtMost;
    var fail := Failed(p, 0.0, 0.0);
    var f0: Flying, f1: Flying, f2: Flying := multiset{}, multiset{p}, multiset{p, p};
    var n := Only(p, [0.0, 0.0], 4, 6);
    NothingLeft(c, pol, n, f0);
    FewInFlight(p);
    OnlyFailed(c, pol, p, [], 1, 2, f2);
    OnlyFailed(c, pol, p, [0.0], 2, 4, f1);
    OneAfterAnother<real>(0.0);
    OneAfterAnother(fail);
    Unroll(c, pol, Only(p, [0.0], 2, 4), n, f1, f0, fail, []);
    Unroll(c, pol, Only(p, [], 1, 2), Only(p, [0.0], 2, 4), f2, f1, fail, [fail]);
  }

  lemma NothingLeft(c: Config, pol: Policy, n: Naive, flying: Flying)
    ensures Runs(c, pol, 2, 0.0, n, flying, []) && NaiveReplies(c, pol, n, flying, []).0 == n
  {
  }

  lemma OneAfterAnother<T>(x: T)
    ensures [] + [x] == [x] + [] == [x] && [x] + [x] == [x, x]
  {
  }

  lemma OnlyHistory(p: Peer, h: seq<real>, touched: nat, ops: nat)
    ensures History(Only(p, h, touched, ops), p) == h
  {
  }

  lemma Unroll(c: Config, pol: Policy, n: Naive, m: Naive, flying: Flying, f: Flying, e: Event, es: seq<Event>)
    requires NaiveSection(c, pol, n, flying, e).0 == m && NaiveSection(c, pol, n, flying, e).1 == f
    requires Timely(0.0, e) && Ends(0.0, e) == 0.0 && Possible(flying, e) && AtMost(f, 2)
    requires Runs(c, pol, 2, 0.0, m, f, es)
    ensures Runs(c, pol, 2, 0.0, n, flying, [e] + es)
    ensures NaiveReplies(c, pol, n, flying, [e] + es).0 == NaiveReplies(c, pol, m, f, es).0
  {
    hide NaiveSection;
    var all := [e] + es;
    assert all[0] == e && all[1..] == es;
  }
}
