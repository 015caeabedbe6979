/** The sliding-window limiter for failed authentication, and the naive limiter it refines.

    Clock readings are reals; the insertion-ordered dictionary of deques is the sequence of
    its entries, oldest first. */
module RateLimit {

  /** The key under which failures are counted: the host of the immediate peer. */
  datatype Peer = Peer(host: string)

  datatype Config = Config(limit: nat, window: real, maximumPeers: nat) {
    predicate Valid() { limit >= 1 && window > 0.0 && maximumPeers >= 1 }
  }

  datatype Entry = Entry(peer: Peer, failures: seq<real>)

  type State = seq<Entry>

  predicate Has(st: State, p: Peer) {
    exists i | 0 <= i < |st| :: st[i].peer == p
  }

  predicate Distinct(st: State) {
    forall i, j | 0 <= i < j < |st| :: st[i].peer != st[j].peer
  }

  function Find(st: State, p: Peer): (k: nat)
    ensures k <= |st| && (k < |st| <==> Has(st, p)) && (k < |st| ==> st[k].peer == p)
  {
    if st == [] || st[0].peer == p then 0
    else
      var k := Find(st[1..], p);
      assert k < |st| - 1 ==> st[k + 1].peer == p;
      assert forall i | 1 <= i < |st| :: st[i] == st[1..][i - 1];
      k + 1
  }

  function Without(st: State, p: Peer): State {
    if Has(st, p) then st[..Find(st, p)] + st[Find(st, p) + 1..] else st
  }

  function Recorded(st: State, p: Peer): seq<real> {
    if Has(st, p) then st[Find(st, p)].failures else []
  }

  function DropExpired(q: seq<real>, cutoff: real): seq<real> {
    if q != [] && q[0] <= cutoff then DropExpired(q[1..], cutoff) else q
  }

  /** Lookup with pruning: creates the entry, drops expired failures, and counts an entry left
      without failures as just touched. */
  function Prune(c: Config, st: State, p: Peer, now: real): State {
    var q := DropExpired(Recorded(st, p), now - c.window);
    if q == [] || !Has(st, p) then Without(st, p) + [Entry(p, q)] else st[Find(st, p) := Entry(p, q)]
  }

  function Surplus(c: Config, st: State): nat {
    if |st| > c.maximumPeers then |st| - c.maximumPeers else 0
  }

  function AfterFailure(c: Config, st: State, p: Peer, now: real): State {
    var s := Prune(c, st, p, now);
    var full := Without(s, p) + [Entry(p, Recorded(s, p) + [now])];
    full[Surplus(c, full)..]
  }

  /** `now` is the clock reading; a success reads no clock. */
  datatype Op = Lookup(peer: Peer, now: real) | Failure(peer: Peer, now: real) | Success(peer: Peer)

  datatype Answer = Limited(yes: bool) | Done

  function Step(c: Config, st: State, op: Op): (State, Answer) {
    match op
    case Lookup(p, now) =>
      var s := Prune(c, st, p, now);
      (s, Limited(|Recorded(s, p)| >= c.limit))
    case Failure(p, now) => (AfterFailure(c, st, p, now), Done)
    case Success(p) => (Without(st, p), Done)
  }

  function Run(c: Config, st: State, ops: seq<Op>): seq<Answer>
    decreases |ops|
  {
    if ops == [] then []
    else [Step(c, st, ops[0]).1] + Run(c, Step(c, st, ops[0]).0, ops[1..])
  }

  function Clock(clock: real, op: Op): real {
    if op.Success? then clock else op.now
  }

  /** The clock never runs backwards. */
  predicate Timely(clock: real, ops: seq<Op>)
    decreases |ops|
  {
    ops == [] || (clock <= Clock(clock, ops[0]) && Timely(Clock(clock, ops[0]), ops[1..]))
  }

  // ---------------------------------------------------------------------------
  // The naive limiter: whole histories, counting, and eviction by stamp

  /** Every failure since the peer's last success or eviction, and the number of the operation
      that last touched the peer. */
  datatype Record = Record(history: seq<real>, touched: nat)

  datatype Naive = Naive(peers: map<Peer, Record>, ops: nat)

  function CountNewer(h: seq<real>, cutoff: real): nat {
    if h == [] then 0 else CountNewer(h[..|h| - 1], cutoff) + if h[|h| - 1] > cutoff then 1 else 0
  }

  /** It counts the failures after the cutoff. */
  lemma {:induction false} CountNewerMeaning(h: seq<real>, cutoff: real)
    ensures CountNewer(h, cutoff) == |set i | 0 <= i < |h| && h[i] > cutoff|
  {
    if h != [] {
      var n := |h| - 1;
      CountNewerMeaning(h[..n], cutoff);
      NewerLast(h, cutoff);
    }
  }

  lemma NewerLast(h: seq<real>, cutoff: real)
    requires h != []
    ensures var n := |h| - 1;
      NewerAt(h, cutoff) == NewerAt(h[..n], cutoff) + (if h[n] > cutoff then {n} else {}) &&
      n !in NewerAt(h[..n], cutoff)
  {
  }

  function NewerAt(h: seq<real>, cutoff: real): set<int> { set i | 0 <= i < |h| && h[i] > cutoff }

  function History(n: Naive, p: Peer): seq<real> {
    if p in n.peers then n.peers[p].history else []
  }

  function MoreRecent(n: Naive, p: Peer): set<Peer>
    requires p in n.peers
  {
    set q | q in n.peers && n.peers[q].touched > n.peers[p].touched
  }

  /** Keeps the most recently touched peers, as many as fit. */
  function KeepRecent(c: Config, n: Naive): Naive {
    Naive(map p | p in n.peers && |MoreRecent(n, p)| < c.maximumPeers :: n.peers[p], n.ops)
  }

  function NaiveStep(c: Config, n: Naive, op: Op): (Naive, Answer) {
    match op
    case Lookup(p, now) =>
      var h := History(n, p);
      var recent := CountNewer(h, now - c.window);
      var touched := if recent == 0 || p !in n.peers then n.ops else n.peers[p].touched;
      (Naive(n.peers[p := Record(h, touched)], n.ops + 1), Limited(recent >= c.limit))
    case Failure(p, now) =>
      (KeepRecent(c, Naive(n.peers[p := Record(History(n, p) + [now], n.ops)], n.ops + 1)), Done)
    case Success(p) => (Naive(n.peers - {p}, n.ops + 1), Done)
  }

  function NaiveRun(c: Config, n: Naive, ops: seq<Op>): seq<Answer>
    decreases |ops|
  {
    if ops == [] then []
    else [NaiveStep(c, n, ops[0]).1] + NaiveRun(c, NaiveStep(c, n, ops[0]).0, ops[1..])
  }

  // ---------------------------------------------------------------------------
  // Coupling

  predicate Nondecreasing(h: seq<real>) {
    forall i, j | 0 <= i < j < |h| :: h[i] <= h[j]
  }

  predicate AllAtMost(h: seq<real>, bound: real) {
    forall i | 0 <= i < |h| :: h[i] <= bound
  }

  /** `q` is the history `h` with some expired failures dropped from the front. */
  predicate PeerCoupled(c: Config, clock: real, q: seq<real>, h: seq<real>) {
    && Nondecreasing(h) && AllAtMost(h, clock)
    && |q| <= |h| && q == h[|h| - |q|..] && forall i | 0 <= i < |h| - |q| :: h[i] <= clock - c.window
  }

  /** Same peers; entries in the order of their touch stamps; deques are pruned histories. */
  ghost predicate Coupled(c: Config, clock: real, st: State, n: Naive) {
    && (forall i | 0 <= i < |st| :: st[i].peer in n.peers)
    && (forall i | 0 <= i < |st| :: PeerCoupled(c, clock, st[i].failures, n.peers[st[i].peer].history))
    && (forall i, j | 0 <= i < j < |st| :: n.peers[st[i].peer].touched < n.peers[st[j].peer].touched)
    && (forall p | p in n.peers :: Has(st, p) && n.peers[p].touched < n.ops)
  }

  lemma {:induction false} CountOfPruned(h: seq<real>, k: nat, cutoff: real)
    requires k <= |h| && (forall i | 0 <= i < k :: h[i] <= cutoff) && (forall i | k <= i < |h| :: h[i] > cutoff)
    ensures CountNewer(h, cutoff) == |h| - k
  {
    if h != [] {
      CountOfPruned(h[..|h| - 1], if k == |h| then k - 1 else k, cutoff);
    }
  }

  lemma {:induction false} DropIsSuffix(q: seq<real>, cutoff: real) returns (k: nat)
    requires Nondecreasing(q)
    ensures k <= |q| && DropExpired(q, cutoff) == q[k..]
    ensures (forall i | 0 <= i < k :: q[i] <= cutoff) && forall i | k <= i < |q| :: q[i] > cutoff
  {
    if q != [] && q[0] <= cutoff {
      k := DropIsSuffix(q[1..], cutoff);
      assert q[1..][k..] == q[k + 1..];
      assert forall i | 0 < i < |q| :: q[i] == q[1..][i - 1];
      k := k + 1;
    } else {
      k := 0;
    }
  }

  /** Pruning a deque leaves exactly the failures of the whole history inside the window. */
  lemma PruneCounts(c: Config, clock: real, now: real, q: seq<real>, h: seq<real>)
    requires PeerCoupled(c, clock, q, h) && clock <= now
    ensures var r := DropExpired(q, now - c.window);
      && PeerCoupled(c, now, r, h) && |r| == CountNewer(h, now - c.window)
  {
    hide DropExpired, CountNewer;
    var cutoff := now - c.window;
    var skipped := |h| - |q|;
    assert forall i | 0 <= i < |q| :: q[i] == h[skipped + i];
    var k := DropIsSuffix(q, cutoff);
    assert q[k..] == h[skipped + k..];
    forall i | 0 <= i < |h| ensures if i < skipped + k then h[i] <= cutoff else h[i] > cutoff {
      if i >= skipped { assert h[i] == q[i - skipped]; }
    }
    CountOfPruned(h, skipped + k, cutoff);
  }

  lemma HasAt(st: State, i: nat)
    requires i < |st|
    ensures Has(st, st[i].peer)
  {
  }

  /** A coupled state finds each peer at its only position. */
  lemma FindUnique(c: Config, clock: real, st: State, n: Naive, i: nat)
    requires Coupled(c, clock, st, n) && i < |st|
    ensures Find(st, st[i].peer) == i && Has(st, st[i].peer)
  {
    HasAt(st, i);
  }

  lemma RemoveCoupled(c: Config, clock: real, st: State, n: Naive, p: Peer)
    requires Coupled(c, clock, st, n)
    ensures Coupled(c, clock, Without(st, p), Naive(n.peers - {p}, n.ops))
  {
    hide Coupled, Find, Has;
    if Has(st, p) {
      RemoveAtCoupled(c, clock, st, n, Find(st, p));
    } else {
      AbsentCoupled(c, clock, st, n, p);
      assert n.peers - {p} == n.peers;
    }
  }

  lemma AbsentCoupled(c: Config, clock: real, st: State, n: Naive, p: Peer)
    requires Coupled(c, clock, st, n) && !Has(st, p)
    ensures p !in n.peers
  {
    hide PeerCoupled, Has;
  }

  lemma RemoveAtCoupled(c: Config, clock: real, st: State, n: Naive, k: nat)
    requires Coupled(c, clock, st, n) && k < |st|
    ensures Coupled(c, clock, st[..k] + st[k + 1..], Naive(n.peers - {st[k].peer}, n.ops))
  {
    hide PeerCoupled, Has;
    var w := st[..k] + st[k + 1..];
    var m := Naive(n.peers - {st[k].peer}, n.ops);
    assert forall i | 0 <= i < |w| :: w[i] == st[if i < k then i else i + 1];
    forall q | q in m.peers ensures Has(w, q) {
      var i := IndexOf(st, q);
      HasAt(w, if i < k then i else i - 1);
    }
  }

  lemma IndexOf(st: State, p: Peer) returns (i: nat)
    requires Has(st, p)
    ensures i < |st| && st[i].peer == p
  {
    i :| 0 <= i < |st| && st[i].peer == p;
  }

  lemma AppendCoupled(c: Config, clock: real, st: State, n: Naive, p: Peer, q: seq<real>, h: seq<real>)
    requires Coupled(c, clock, st, n) && p !in n.peers && PeerCoupled(c, clock, q, h)
    ensures Coupled(c, clock, st + [Entry(p, q)], Naive(n.peers[p := Record(h, n.ops)], n.ops + 1))
  {
    hide PeerCoupled;
    var s := st + [Entry(p, q)];
    HasAt(s, |st|);
    forall x | x in n.peers ensures Has(s, x) {
      var i :| 0 <= i < |st| && st[i].peer == x;
      assert s[i].peer == x;
    }
  }

  lemma UpdateCoupled(c: Config, clock: real, st: State, n: Naive, p: Peer, q: seq<real>, h: seq<real>)
    requires Coupled(c, clock, st, n) && p in n.peers && PeerCoupled(c, clock, q, h)
    ensures Coupled(c, clock, st[Find(st, p) := Entry(p, q)],
      Naive(n.peers[p := Record(h, n.peers[p].touched)], n.ops + 1))
  {
    hide PeerCoupled, Find, Has;
    var k := Find(st, p);
    var s := st[k := Entry(p, q)];
    assert forall i | 0 <= i < |s| :: s[i].peer == st[i].peer;
    forall x | x in n.peers ensures Has(s, x) {
      var i := IndexOf(st, x);
      HasAt(s, i);
    }
    forall i | 0 <= i < |s| && s[i].peer == p ensures i == k { }
  }

  lemma Later(c: Config, clock: real, now: real, st: State, n: Naive)
    requires Coupled(c, clock, st, n) && clock <= now
    ensures Coupled(c, now, st, n)
  {
    forall i | 0 <= i < |st| ensures PeerCoupled(c, now, st[i].failures, n.peers[st[i].peer].history) {
      assert PeerCoupled(c, clock, st[i].failures, n.peers[st[i].peer].history);
    }
  }

  lemma RecordedCoupled(c: Config, clock: real, st: State, n: Naive, p: Peer)
    requires Coupled(c, clock, st, n)
    ensures PeerCoupled(c, clock, Recorded(st, p), History(n, p)) && (Has(st, p) <==> p in n.peers)
  {
  }

  lemma RecordedLast(st: State, p: Peer, q: seq<real>)
    requires !Has(st, p)
    ensures Recorded(st + [Entry(p, q)], p) == q && Without(st + [Entry(p, q)], p) == st
  {
    var s := st + [Entry(p, q)];
    HasAt(s, |st|);
    assert Find(s, p) == |st| by { assert forall i | 0 <= i < |st| :: s[i].peer != p; }
  }

  /** A lookup prunes and answers as counting the whole history does. */
  lemma LookupRefines(c: Config, clock: real, st: State, n: Naive, p: Peer, now: real)
    requires c.Valid() && Coupled(c, clock, st, n) && clock <= now
    ensures var (n', a') := NaiveStep(c, n, Lookup(p, now));
      var s := Prune(c, st, p, now);
      && Coupled(c, now, s, n') && a' == Limited(|Recorded(s, p)| >= c.limit)
      && PeerCoupled(c, now, Recorded(s, p), History(n, p))
  {
    hide DropExpired, CountNewer, PeerCoupled, Find, Has, Coupled, Without, Recorded, History;
    var q := DropExpired(Recorded(st, p), now - c.window);
    var s := Prune(c, st, p, now);
    var h := History(n, p);
    RecordedCoupled(c, clock, st, n, p);
    PruneCounts(c, clock, now, Recorded(st, p), h);
    Later(c, clock, now, st, n);
    var n' := NaiveStep(c, n, Lookup(p, now)).0;
    if q == [] || !Has(st, p) {
      RemoveCoupled(c, now, st, n, p);
      AppendCoupled(c, now, Without(st, p), Naive(n.peers - {p}, n.ops), p, q, h);
      assert (n.peers - {p})[p := Record(h, n.ops)] == n.peers[p := Record(h, n.ops)];
      assert s[|s| - 1] == Entry(p, q);
    } else {
      UpdateCoupled(c, now, st, n, p, q, h);
      assert s[Find(st, p)] == Entry(p, q);
    }
    LastOrUpdated(c, now, s, n', p, q);
  }

  /** A lookup says limited exactly when at least the limit of the peer's failures, since its last
      success or eviction, lie after the window's start. */
  lemma LimitedIff(c: Config, clock: real, st: State, n: Naive, p: Peer, now: real)
    requires c.Valid() && Coupled(c, clock, st, n) && clock <= now
    ensures var h := History(n, p);
      Step(c, st, Lookup(p, now)).1 == Limited(|set i | 0 <= i < |h| && h[i] > now - c.window| >= c.limit)
  {
    hide Coupled, CountNewer, Prune, Recorded;
    LookupRefines(c, clock, st, n, p, now);
    CountNewerMeaning(History(n, p), now - c.window);
  }

  lemma LastOrUpdated(c: Config, now: real, s: State, n: Naive, p: Peer, q: seq<real>)
    requires Coupled(c, now, s, n) && Entry(p, q) in s
    ensures Recorded(s, p) == q
  {
    var i :| 0 <= i < |s| && s[i] == Entry(p, q);
    FindUnique(c, now, s, n, i);
  }

  lemma {:induction false} DistinctSize(st: State)
    requires Distinct(st)
    ensures |set i | 0 <= i < |st| :: st[i].peer| == |st|
  {
    if st != [] {
      var k := |st| - 1;
      DistinctSize(st[..k]);
      assert (set i | 0 <= i < |st| :: st[i].peer) == (set i | 0 <= i < k :: st[..k][i].peer) + {st[k].peer};
    }
  }

  /** The number of peers touched after the one at a position is the number behind it. */
  lemma RankOf(c: Config, clock: real, st: State, n: Naive, i: nat)
    requires Coupled(c, clock, st, n) && i < |st|
    ensures |MoreRecent(n, st[i].peer)| == |st| - 1 - i
  {
    hide PeerCoupled, Has;
    var behind := st[i + 1..];
    assert forall j | 0 <= j < |behind| :: behind[j] == st[i + 1 + j];
    forall q | q in MoreRecent(n, st[i].peer) ensures exists j | 0 <= j < |behind| :: behind[j].peer == q {
      var j := IndexOf(st, q);
      assert behind[j - i - 1].peer == q;
    }
    assert MoreRecent(n, st[i].peer) == set j | 0 <= j < |behind| :: behind[j].peer;
    DistinctSize(behind);
  }

  /** Dropping entries from the front evicts exactly the least recently touched peers. */
  lemma EvictCoupled(c: Config, clock: real, st: State, n: Naive)
    requires Coupled(c, clock, st, n)
    ensures Coupled(c, clock, st[Surplus(c, st)..], KeepRecent(c, n))
  {
    hide PeerCoupled, Has, MoreRecent;
    var k := Surplus(c, st);
    var e := st[k..];
    assert forall i | 0 <= i < |e| :: e[i] == st[k + i];
    forall i | 0 <= i < |st| ensures st[i].peer in KeepRecent(c, n).peers <==> k <= i {
      RankOf(c, clock, st, n, i);
    }
    forall p | p in KeepRecent(c, n).peers ensures Has(e, p) {
      var i := IndexOf(st, p);
      HasAt(e, i - k);
    }
  }

  /** A recorded failure appends to the whole history and evicts by stamp. */
  lemma FailureRefines(c: Config, clock: real, st: State, n: Naive, p: Peer, now: real)
    requires c.Valid() && Coupled(c, clock, st, n) && clock <= now
    ensures Coupled(c, now, AfterFailure(c, st, p, now), NaiveStep(c, n, Failure(p, now)).0)
  {
    hide PeerCoupled, Has, Coupled, Without, Recorded, Prune, KeepRecent;
    LookupRefines(c, clock, st, n, p, now);
    var s := Prune(c, st, p, now);
    var m := NaiveStep(c, n, Lookup(p, now)).0;
    var q := Recorded(s, p);
    var h := History(n, p);
    RemoveCoupled(c, now, s, m, p);
    FailureAppended(c, now, q, h);
    StampsBelow(c, clock, st, n);
    assert m.peers - {p} == n.peers - {p};
    LowerOps(c, now, Without(s, p), Naive(m.peers - {p}, m.ops), n.ops);
    AppendCoupled(c, now, Without(s, p), Naive(n.peers - {p}, n.ops), p, q + [now], h + [now]);
    assert (n.peers - {p})[p := Record(h + [now], n.ops)] == n.peers[p := Record(h + [now], n.ops)];
    EvictCoupled(c, now, Without(s, p) + [Entry(p, q + [now])],
      Naive(n.peers[p := Record(h + [now], n.ops)], n.ops + 1));
  }

  lemma FailureAppended(c: Config, now: real, q: seq<real>, h: seq<real>)
    requires PeerCoupled(c, now, q, h)
    ensures PeerCoupled(c, now, q + [now], h + [now])
  {
  }

  lemma StampsBelow(c: Config, clock: real, st: State, n: Naive)
    requires Coupled(c, clock, st, n)
    ensures forall p | p in n.peers :: n.peers[p].touched < n.ops
  {
  }

  /** The operation counter only has to exceed the stamps. */
  lemma LowerOps(c: Config, clock: real, st: State, m: Naive, ops: nat)
    requires Coupled(c, clock, st, m)
    requires forall p | p in m.peers :: m.peers[p].touched < ops
    ensures Coupled(c, clock, st, Naive(m.peers, ops))
  {
    hide PeerCoupled, Has;
  }

  /** Every operation keeps the coupling and answers alike. */
  lemma StepRefines(c: Config, clock: real, st: State, n: Naive, op: Op)
    requires c.Valid() && Coupled(c, clock, st, n) && clock <= Clock(clock, op)
    ensures var (s, a) := Step(c, st, op);
      var (n', a') := NaiveStep(c, n, op);
      Coupled(c, Clock(clock, op), s, n') && a == a'
  {
    hide PeerCoupled, Prune, AfterFailure, Has;
    match op
    case Lookup(p, now) => LookupRefines(c, clock, st, n, p, now);
    case Failure(p, now) => FailureRefines(c, clock, st, n, p, now);
    case Success(p) =>
      RemoveCoupled(c, clock, st, n, p);
      LowerOps(c, clock, Without(st, p), Naive(n.peers - {p}, n.ops), n.ops + 1);
  }

  /** Over every run with a clock that never goes back, the bounded, pruning limiter gives
      the answers of the limiter that keeps whole histories. */
  lemma {:induction false} RunRefines(c: Config, clock: real, st: State, n: Naive, ops: seq<Op>)
    requires c.Valid() && Coupled(c, clock, st, n) && Timely(clock, ops)
    ensures Run(c, st, ops) == NaiveRun(c, n, ops)
    decreases |ops|
  {
    if ops != [] {
      hide Coupled, Step, NaiveStep;
      StepRefines(c, clock, st, n, ops[0]);
      RunRefines(c, Clock(clock, ops[0]), Step(c, st, ops[0]).0, NaiveStep(c, n, ops[0]).0, ops[1..]);
    }
  }

  lemma FreshRunRefines(c: Config, clock: real, ops: seq<Op>)
    requires c.Valid() && Timely(clock, ops)
    ensures Run(c, [], ops) == NaiveRun(c, Naive(map[], 0), ops)
  {
    RunRefines(c, clock, [], Naive(map[], 0), ops);
  }

  // ---------------------------------------------------------------------------
  // Bounds and recency of the stored dictionary

  predicate EndsNoLater(f: seq<real>, g: seq<real>) {
    f != [] && g != [] ==> f[|f| - 1] <= g[|g| - 1]
  }

  /** What every operation keeps: distinct keys, deques in time order, and the entries that
      have failures ordered by their last failure. */
  ghost predicate Tidy(clock: real, st: State) {
    && Distinct(st)
    && (forall i, j | 0 <= i < j < |st| :: EndsNoLater(st[i].failures, st[j].failures))
    && forall i | 0 <= i < |st| :: Nondecreasing(st[i].failures) && AllAtMost(st[i].failures, clock)
  }

  lemma RemoveTidy(clock: real, st: State, p: Peer)
    requires Tidy(clock, st)
    ensures var w := Without(st, p); Tidy(clock, w) && !Has(w, p) && |w| == |st| - if Has(st, p) then 1 else 0
  {
    hide Nondecreasing, AllAtMost, EndsNoLater;
    var w := Without(st, p);
    if Has(st, p) {
      var k := Find(st, p);
      assert forall i | 0 <= i < |w| :: w[i] == st[if i < k then i else i + 1];
    }
  }

  /** Touching a peer with a deque that is empty or ends now. */
  lemma AppendTidy(now: real, st: State, p: Peer, q: seq<real>)
    requires Tidy(now, st) && !Has(st, p) && Nondecreasing(q) && AllAtMost(q, now) && (q != [] ==> q[|q| - 1] == now)
    ensures Tidy(now, st + [Entry(p, q)])
  {
    hide Nondecreasing;
    var s := st + [Entry(p, q)];
    assert forall i | 0 <= i < |st| :: s[i] == st[i];
    forall i | 0 <= i < |st| ensures EndsNoLater(st[i].failures, q) { assert AllAtMost(st[i].failures, now); }
  }

  lemma UpdateTidy(clock: real, st: State, k: nat, q: seq<real>)
    requires Tidy(clock, st) && k < |st| && Nondecreasing(q) && AllAtMost(q, clock)
    requires q != [] && st[k].failures != [] && q[|q| - 1] == st[k].failures[|st[k].failures| - 1]
    ensures Tidy(clock, st[k := Entry(st[k].peer, q)])
  {
    hide Nondecreasing, AllAtMost;
  }

  lemma LaterTidy(clock: real, now: real, st: State)
    requires Tidy(clock, st) && clock <= now
    ensures Tidy(now, st)
  {
    forall i | 0 <= i < |st| ensures AllAtMost(st[i].failures, now) { assert AllAtMost(st[i].failures, clock); }
  }

  lemma PruneTidy(c: Config, clock: real, now: real, st: State, p: Peer)
    requires c.Valid() && Tidy(clock, st) && clock <= now
    ensures var s := Prune(c, st, p, now);
      && Tidy(now, s) && Has(s, p) && |s| == |st| + if Has(st, p) then 0 else 1
  {
    hide DropExpired, Find, Tidy, Without, Has;
    LaterTidy(clock, now, st);
    RemoveTidy(now, st, p);
    var f := Recorded(st, p);
    RecordedTidy(now, st, p);
    var k := DropIsSuffix(f, now - c.window);
    var s := Prune(c, st, p, now);
    if k == |f| || !Has(st, p) {
      AppendTidy(now, Without(st, p), p, []);
      HasAt(s, |s| - 1);
    } else {
      UpdateTidy(now, st, Find(st, p), f[k..]);
      HasAt(s, Find(st, p));
    }
  }

  lemma RecordedTidy(clock: real, st: State, p: Peer)
    requires Tidy(clock, st)
    ensures Nondecreasing(Recorded(st, p)) && AllAtMost(Recorded(st, p), clock)
  {
  }

  lemma FailureTidy(c: Config, clock: real, st: State, p: Peer, now: real)
    requires c.Valid() && Tidy(clock, st) && clock <= now
    ensures var s := AfterFailure(c, st, p, now);
      Tidy(now, s) && 0 < |s| <= c.maximumPeers && s[|s| - 1].peer == p
  {
    hide Prune, EndsNoLater, Find;
    PruneTidy(c, clock, now, st, p);
    var s := Prune(c, st, p, now);
    RemoveTidy(now, s, p);
    var q := Recorded(s, p);
    assert Nondecreasing(q + [now]) && AllAtMost(q + [now], now);
    AppendTidy(now, Without(s, p), p, q + [now]);
    var full := Without(s, p) + [Entry(p, q + [now])];
    assert forall i | 0 <= i < |full| - Surplus(c, full) :: full[Surplus(c, full)..][i] == full[Surplus(c, full) + i];
  }

  /** After a failure the dictionary is within its bound and the failing peer is its most
      recent entry; a lookup adds an entry only for an untracked peer; a success removes one. */
  lemma StepTidy(c: Config, clock: real, st: State, op: Op)
    requires c.Valid() && Tidy(clock, st) && clock <= Clock(clock, op)
    ensures var s := Step(c, st, op).0;
      && Tidy(Clock(clock, op), s)
      && (op.Lookup? ==> Has(s, op.peer) && |s| == |st| + if Has(st, op.peer) then 0 else 1)
      && (op.Failure? ==> 0 < |s| <= c.maximumPeers && s[|s| - 1].peer == op.peer)
      && (op.Success? ==> !Has(s, op.peer) && |s| == |st| - if Has(st, op.peer) then 1 else 0)
  {
    hide Prune, AfterFailure, Tidy, Without;
    match op
    case Lookup(p, now) => PruneTidy(c, clock, now, st, p);
    case Failure(p, now) => FailureTidy(c, clock, st, p, now);
    case Success(p) => RemoveTidy(clock, st, p);
  }

  lemma FindAt(st: State, i: nat)
    requires Distinct(st) && i < |st|
    ensures Find(st, st[i].peer) == i && Has(st, st[i].peer)
  {
    HasAt(st, i);
  }

  lemma WithoutDistinct(st: State, p: Peer)
    requires Distinct(st)
    ensures Distinct(Without(st, p)) && !Has(Without(st, p), p)
  {
    var w := Without(st, p);
    if Has(st, p) {
      var k := Find(st, p);
      assert forall i | 0 <= i < |w| :: w[i] == st[if i < k then i else i + 1];
    }
  }

  lemma PruneRecorded(c: Config, st: State, p: Peer, now: real)
    requires Distinct(st)
    ensures var s := Prune(c, st, p, now);
      Distinct(s) && Recorded(s, p) == DropExpired(Recorded(st, p), now - c.window)
  {
    hide Find, DropExpired;
    var s := Prune(c, st, p, now);
    WithoutDistinct(st, p);
    assert |s| > 0;
    FindAt(s, if s[|s| - 1].peer == p then |s| - 1 else Find(st, p));
    if Has(st, p) { FindAt(st, Find(st, p)); }
  }

  class AuthenticationFailureLimiter {
    const config: Config
    var entries: seq<Entry>

    ghost predicate Valid()
      reads this
    {
      config.Valid() && Distinct(entries)
    }

    constructor (c: Config)
      requires c.Valid()
      ensures Valid() && config == c && entries == []
    {
      config := c;
      entries := [];
    }

    method ActiveFailures(peer: Peer, now: real) returns (active: seq<real>)
      requires Valid()
      modifies this
      ensures Valid() && entries == Prune(config, old(entries), peer, now) && active == Recorded(entries, peer)
    {
      hide Distinct;
      PruneRecorded(config, entries, peer, now);
      if !Has(entries, peer) {
        RecordedLast(entries, peer, []);
        entries := entries + [Entry(peer, [])];
      }
      var cutoff := now - config.window;
      active := Recorded(entries, peer);
      while active != [] && active[0] <= cutoff
        invariant DropExpired(active, cutoff) == DropExpired(Recorded(old(entries), peer), cutoff)
        decreases |active|
      {
        active := active[1..];
      }
      if active == [] {
        entries := Without(entries, peer) + [Entry(peer, active)];
      } else {
        entries := entries[Find(entries, peer) := Entry(peer, active)];
      }
    }

    method IsLimited(peer: Peer, now: real) returns (limited: bool)
      requires Valid()
      modifies this
      ensures Valid() && (entries, Limited(limited)) == Step(config, old(entries), Lookup(peer, now))
    {
      var active := ActiveFailures(peer, now);
      limited := |active| >= config.limit;
    }

    /** `while len(...) > maximum: popitem(last=False)`. */
    method EvictOldest()
      requires Valid()
      modifies this
      ensures Valid() && entries == old(entries)[Surplus(config, old(entries))..]
    {
      ghost var popped := 0;
      assert entries[0..] == entries;
      while |entries| > config.maximumPeers
        invariant popped <= Surplus(config, old(entries)) && entries == old(entries)[popped..]
      {
        entries := entries[1..];
        popped := popped + 1;
      }
    }

    method RecordFailure(peer: Peer, now: real)
      requires Valid()
      modifies this
      ensures Valid() && entries == Step(config, old(entries), Failure(peer, now)).0
    {
      var active := ActiveFailures(peer, now);
      WithoutDistinct(entries, peer);
      hide Without;
      entries := Without(entries, peer) + [Entry(peer, active + [now])];
      EvictOldest();
    }

    method RecordSuccess(peer: Peer)
      requires Valid()
      modifies this
      ensures Valid() && entries == Step(config, old(entries), Success(peer)).0
    {
      WithoutDistinct(entries, peer);
      entries := Without(entries, peer);
    }
  }
}
