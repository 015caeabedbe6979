/** Ordered SQLite migrations, each applied and recorded in one atomic transaction. */
module Migrations {
  import opened Common
  import opened Text
  import opened Sorting

  /** Database contents, as an opaque value. */
  type Contents = string

  /** `apply` transforms the database contents; a failure rolls its transaction back. */
  datatype Migration = Migration(version: int, name: string, apply: Contents -> Contents)

  /** Contents, and the recorded (namespace, version) pairs. */
  datatype Database = Database(data: Contents, recorded: set<(string, int)>)

  datatype Outcome = Completed(applied: seq<int>, skipped: seq<int>) | Interrupted | Invalid

  predicate Earlier(a: Migration, b: Migration) { a.version < b.version }

  /** Versions positive and strictly increasing, names present. */
  ghost predicate Ordered(ms: seq<Migration>) {
    && (forall i | 0 <= i < |ms| :: ms[i].version > 0 && Strip(ms[i].name) != "")
    && forall i, j | 0 <= i < j < |ms| :: ms[i].version < ms[j].version
  }

  ghost predicate Acceptable(ms: seq<Migration>) {
    && (forall i | 0 <= i < |ms| :: ms[i].version > 0 && Strip(ms[i].name) != "")
    && forall i, j | 0 <= i < j < |ms| :: ms[i].version != ms[j].version
  }

  /** Declared migrations are accepted exactly when versions are positive and distinct and names
      are not blank; the result is their strictly ordered rearrangement. */
  method ValidateMigrations(ms: seq<Migration>) returns (r: Result<seq<Migration>>)
    ensures r.Ok? <==> Acceptable(ms)
    ensures r.Ok? <==>
      (forall i | 0 <= i < |ms| :: ms[i].version > 0 && Strip(ms[i].name) != "") &&
      forall i, j | 0 <= i < j < |ms| :: ms[i].version != ms[j].version
    ensures r.Ok? ==> Ordered(r.value) && r.value == Sort(ms, Earlier)
    ensures r.Ok? ==> multiset(r.value) == multiset(ms)
    ensures r.Ok? ==> forall i, j | 0 <= i < j < |ms| :: r.value[i].version < r.value[j].version
  {
    assert Acceptable(ms) <==>
      (forall i | 0 <= i < |ms| :: ms[i].version > 0 && Strip(ms[i].name) != "") &&
      forall i, j | 0 <= i < j < |ms| :: ms[i].version != ms[j].version;
    hide Sort, Acceptable, Sorted, Strip;
    var ordered := Sort(ms, Earlier);
    EarlierIsOrder();
    SortCorrect(ms, Earlier);
    AcceptableSorted(ms);
    var ok := CheckVersions(ordered);
    if !ok {
      return Err;
    }
    SortedDistinctIsOrdered(ordered);
    return Ok(ordered);
  }

  method CheckVersions(ordered: seq<Migration>) returns (ok: bool)
    ensures ok <==> Acceptable(ordered)
  {
    hide Strip;
    var seen: set<int> := {};
    for i := 0 to |ordered|
      invariant forall j | 0 <= j < i ::
        ordered[j].version in seen && ordered[j].version > 0 && Strip(ordered[j].name) != ""
      invariant forall v | v in seen :: exists j | 0 <= j < i :: ordered[j].version == v
      invariant forall j, k | 0 <= j < k < i :: ordered[j].version != ordered[k].version
    {
      if ordered[i].version <= 0 || ordered[i].version in seen || Strip(ordered[i].name) == "" {
        return false;
      }
      seen := seen + {ordered[i].version};
    }
    return true;
  }

  lemma EarlierIsOrder()
    ensures WeakOrder<Migration>(Earlier)
  {
  }

  lemma SortedDistinctIsOrdered(ms: seq<Migration>)
    requires Sorted(ms, Earlier) && Acceptable(ms)
    ensures Ordered(ms)
  {
    forall i, j | 0 <= i < j < |ms| ensures ms[i].version < ms[j].version {
      assert !Earlier(ms[j], ms[i]);
    }
  }

  /** Being acceptable does not depend on the order of the list. */
  lemma AcceptableSorted(ms: seq<Migration>)
    ensures Acceptable(ms) <==> Acceptable(Sort(ms, Earlier))
  {
    EarlierIsOrder();
    SortCorrect(ms, Earlier);
    hide Acceptable;
    if Acceptable(ms) { AcceptableMultiset(ms, Sort(ms, Earlier)); }
    if Acceptable(Sort(ms, Earlier)) { AcceptableMultiset(Sort(ms, Earlier), ms); }
  }

  lemma AcceptableMultiset(a: seq<Migration>, b: seq<Migration>)
    requires multiset(a) == multiset(b) && Acceptable(a)
    ensures Acceptable(b)
  {
    forall i | 0 <= i < |b| ensures b[i].version > 0 && Strip(b[i].name) != "" {
      assert b[i] in multiset(b);
      assert b[i] in a;
    }
    forall i, j | 0 <= i < j < |b| ensures b[i].version != b[j].version {
      TwiceInSeq(b, i, j);
      assert b[i] in multiset(b) && b[j] in multiset(b);
      assert b[i] in a && b[j] in a;
      OnceByVersion(a, b[i]);
    }
  }

  lemma {:induction false} OnceByVersion(a: seq<Migration>, m: Migration)
    requires forall i, j | 0 <= i < j < |a| :: a[i].version != a[j].version
    ensures multiset(a)[m] <= 1
    ensures forall x, y | x in a && y in a && x.version == y.version :: x == y
  {
    if a != [] {
      var front := a[..|a| - 1];
      OnceByVersion(front, m);
      assert a == front + [a[|a| - 1]];
      assert a[|a| - 1] !in front;
    }
  }

  // ---------------------------------------------------------------------------
  // Runs

  /** One migration in its own transaction. */
  function ApplyOne(db: Database, ns: string, m: Migration): Database {
    Database(m.apply(db.data), db.recorded + {(ns, m.version)})
  }

  /** A run over ordered migrations: skips recorded ones and stops at the first pending one that
      fails in this run. */
  function Run(db: Database, ns: string, ms: seq<Migration>, fails: int -> bool): (Database, bool)
    decreases |ms|
  {
    if ms == [] then (db, true)
    else if (ns, ms[0].version) in db.recorded then Run(db, ns, ms[1..], fails)
    else if fails(ms[0].version) then (db, false)
    else Run(ApplyOne(db, ns, ms[0]), ns, ms[1..], fails)
  }

  /** The pending versions as the status report computes them. */
  function Pending(recorded: set<(string, int)>, ns: string, ms: seq<Migration>): seq<int> {
    if ms == [] then []
    else (if (ns, ms[0].version) in recorded then [] else [ms[0].version]) + Pending(recorded, ns, ms[1..])
  }

  function Settled(recorded: set<(string, int)>, ns: string, ms: seq<Migration>): seq<int> {
    if ms == [] then []
    else (if (ns, ms[0].version) in recorded then [ms[0].version] else []) + Settled(recorded, ns, ms[1..])
  }

  /** The pending versions are the listed ones that are not recorded, the settled ones the rest. */
  lemma {:induction false} PendingMeaning(recorded: set<(string, int)>, ns: string, ms: seq<Migration>, v: int)
    ensures v in Pending(recorded, ns, ms) <==> (ns, v) !in recorded && exists i | 0 <= i < |ms| :: ms[i].version == v
    ensures v in Settled(recorded, ns, ms) <==> (ns, v) in recorded && exists i | 0 <= i < |ms| :: ms[i].version == v
  {
    if ms != [] {
      var rest := ms[1..];
      PendingMeaning(recorded, ns, rest, v);
      assert forall i | 0 <= i < |rest| :: rest[i] == ms[i + 1];
      assert (exists i | 0 <= i < |ms| :: ms[i].version == v) <==>
        ms[0].version == v || exists i | 0 <= i < |rest| :: rest[i].version == v;
    }
  }

  /** Both are listed in order. */
  lemma {:induction false} PendingInOrder(recorded: set<(string, int)>, ns: string, ms: seq<Migration>)
    requires Ordered(ms)
    ensures Increasing(Pending(recorded, ns, ms)) && Increasing(Settled(recorded, ns, ms))
  {
    hide Ordered, Increasing;
    if ms == [] {
      NothingIncreases();
    } else {
      var first, rest := ms[0].version, ms[1..];
      OrderedRest(recorded, ns, ms);
      PendingInOrder(recorded, ns, rest);
      var p, q := Pending(recorded, ns, rest), Settled(recorded, ns, rest);
      Prepended(first, p);
      Prepended(first, q);
      assert [] + p == p && [] + q == q;
    }
  }

  lemma NothingIncreases()
    ensures Increasing([])
  {
  }

  lemma OrderedRest(recorded: set<(string, int)>, ns: string, ms: seq<Migration>)
    requires Ordered(ms) && ms != []
    ensures Ordered(ms[1..])
    ensures forall v | v in Pending(recorded, ns, ms[1..]) || v in Settled(recorded, ns, ms[1..]) :: ms[0].version < v
  {
    hide Strip, Pending, Settled;
    var rest := ms[1..];
    assert forall i | 0 <= i < |rest| :: rest[i] == ms[i + 1];
    forall v | v in Pending(recorded, ns, rest) || v in Settled(recorded, ns, rest) ensures ms[0].version < v {
      PendingMeaning(recorded, ns, rest, v);
    }
  }

  lemma Prepended(v: int, vs: seq<int>)
    requires Increasing(vs) && forall w | w in vs :: v < w
    ensures Increasing([v] + vs)
  {
    var all := [v] + vs;
    forall i, j | 0 <= i < j < |all| ensures all[i] < all[j] {
      assert all[j] == vs[j - 1] && vs[j - 1] in vs;
    }
  }

  predicate Increasing(vs: seq<int>) { forall i, j | 0 <= i < j < |vs| :: vs[i] < vs[j] }

  /** Recording a version that is not listed changes neither list. */
  lemma {:induction false} UnlistedRecord(recorded: set<(string, int)>, ns: string, ms: seq<Migration>, v: int)
    requires forall i | 0 <= i < |ms| :: ms[i].version != v
    ensures Pending(recorded + {(ns, v)}, ns, ms) == Pending(recorded, ns, ms)
    ensures Settled(recorded + {(ns, v)}, ns, ms) == Settled(recorded, ns, ms)
  {
    if ms != [] { UnlistedRecord(recorded, ns, ms[1..], v); }
  }

  /** All of `ms`, one after the other. */
  function Fold(ms: seq<Migration>, data: Contents): Contents {
    if ms == [] then data else ms[|ms| - 1].apply(Fold(ms[..|ms| - 1], data))
  }

  function Versions(ns: string, ms: seq<Migration>): set<(string, int)> {
    set i | 0 <= i < |ms| :: (ns, ms[i].version)
  }

  /** The database after the first `k` migrations and nothing else in this namespace. */
  function Prefix(start: Database, ns: string, ms: seq<Migration>, k: nat): Database
    requires k <= |ms|
  {
    Database(Fold(ms[..k], start.data), start.recorded + Versions(ns, ms[..k]))
  }

  lemma PrefixNone(start: Database, ns: string, ms: seq<Migration>)
    ensures Prefix(start, ns, ms, 0) == start
  {
    assert ms[..0] == [];
  }

  predicate NeverFails(version: int) { false }

  lemma PrefixStep(start: Database, ns: string, ms: seq<Migration>, k: nat)
    requires k < |ms|
    ensures ApplyOne(Prefix(start, ns, ms, k), ns, ms[k]) == Prefix(start, ns, ms, k + 1)
  {
    assert ms[..k + 1][..k] == ms[..k];
    var a, b := ms[..k], ms[..k + 1];
    assert forall i | 0 <= i < k :: b[i] == a[i];
    assert Versions(ns, b) == Versions(ns, a) + {(ns, ms[k].version)};
  }

  ghost predicate FreshNamespace(start: Database, ns: string) {
    forall v :: (ns, v) !in start.recorded
  }

  lemma PrefixRecords(start: Database, ns: string, ms: seq<Migration>, k: nat, i: nat)
    requires Ordered(ms) && FreshNamespace(start, ns) && k <= |ms| && i < |ms|
    ensures (ns, ms[i].version) in Prefix(start, ns, ms, k).recorded <==> i < k
  {
    if i < k { assert ms[..k][i].version == ms[i].version; }
    assert forall j | 0 <= j < k :: ms[..k][j].version == ms[j].version;
  }

  /** A run over the first `n` migrations, from a state where the first `k` are done, ends in a
      state where the first `done` are done, and a run that nothing stops completes them. */
  lemma {:induction false} RunFromPrefix(start: Database, ns: string, ms: seq<Migration>, n: nat, k: nat, at: nat,
      fails: int -> bool)
    returns (done: nat)
    requires Ordered(ms) && FreshNamespace(start, ns) && at <= n <= |ms| && k <= |ms| && (at <= k || k >= n)
    ensures k <= done <= |ms| && (done <= n || done == k)
    ensures Run(Prefix(start, ns, ms, k), ns, ms[at..n], fails).0 == Prefix(start, ns, ms, done)
    ensures Run(Prefix(start, ns, ms, k), ns, ms[at..n], fails).1 ==> done >= n
    ensures (forall v :: !fails(v)) ==> Run(Prefix(start, ns, ms, k), ns, ms[at..n], fails).1
    decreases n - at
  {
    hide Prefix;
    if at == n {
      done := k;
    } else {
      PrefixRecords(start, ns, ms, k, at);
      assert ms[at..n][1..] == ms[at + 1..n];
      if at < k {
        done := RunFromPrefix(start, ns, ms, n, k, at + 1, fails);
      } else if fails(ms[at].version) {
        done := k;
      } else {
        PrefixStep(start, ns, ms, k);
        done := RunFromPrefix(start, ns, ms, n, k + 1, at + 1, fails);
      }
    }
  }

  /** One earlier run: it declared the first `declared` migrations, and failed where told. */
  datatype Attempt = Attempt(declared: nat, fails: int -> bool)

  function RunAll(db: Database, ns: string, ms: seq<Migration>, attempts: seq<Attempt>): Database
    requires forall i | 0 <= i < |attempts| :: attempts[i].declared <= |ms|
    decreases |attempts|
  {
    if attempts == [] then db
    else RunAll(Run(db, ns, ms[..attempts[0].declared], attempts[0].fails).0, ns, ms, attempts[1..])
  }

  lemma {:induction false} AttemptsLeavePrefix(start: Database, ns: string, ms: seq<Migration>,
      attempts: seq<Attempt>, k: nat)
    returns (done: nat)
    requires Ordered(ms) && FreshNamespace(start, ns) && k <= |ms|
    requires forall i | 0 <= i < |attempts| :: attempts[i].declared <= |ms|
    ensures done <= |ms| && RunAll(Prefix(start, ns, ms, k), ns, ms, attempts) == Prefix(start, ns, ms, done)
    decreases |attempts|
  {
    hide Prefix, Run;
    if attempts == [] {
      done := k;
    } else {
      var n := attempts[0].declared;
      var k' := RunFromPrefix(start, ns, ms, n, k, 0, attempts[0].fails);
      assert ms[0..n] == ms[..n];
      done := AttemptsLeavePrefix(start, ns, ms, attempts[1..], k');
    }
  }

  /** Whatever runs came before, each over an initial part of the migrations and interrupted
      anywhere, a final run that completes gives the database of one uninterrupted run. */
  lemma InterruptedRunsConverge(start: Database, ns: string, ms: seq<Migration>, attempts: seq<Attempt>,
      fails: int -> bool)
    requires Ordered(ms) && FreshNamespace(start, ns)
    requires forall i | 0 <= i < |attempts| :: attempts[i].declared <= |ms|
    ensures var before := RunAll(start, ns, ms, attempts);
      && (exists k | 0 <= k <= |ms| :: before == Prefix(start, ns, ms, k))
      && (Run(before, ns, ms, fails).1 ==> Run(before, ns, ms, fails).0 == Prefix(start, ns, ms, |ms|))
      && Run(start, ns, ms, NeverFails) == (Prefix(start, ns, ms, |ms|), true)
  {
    hide Run, RunAll, Prefix;
    PrefixNone(start, ns, ms);
    var k := AttemptsLeavePrefix(start, ns, ms, attempts, 0);
    assert ms[0..|ms|] == ms;
    var a := RunFromPrefix(start, ns, ms, |ms|, k, 0, fails);
    var b := RunFromPrefix(start, ns, ms, |ms|, 0, 0, NeverFails);
  }

  lemma Unfold(db: Database, ns: string, ms: seq<Migration>, i: nat, fails: int -> bool)
    requires i < |ms|
    ensures var m, rest := ms[i], ms[i + 1..];
      if (ns, m.version) in db.recorded then
        && Run(db, ns, ms[i..], fails) == Run(db, ns, rest, fails)
        && Pending(db.recorded, ns, ms[i..]) == Pending(db.recorded, ns, rest)
        && Settled(db.recorded, ns, ms[i..]) == [m.version] + Settled(db.recorded, ns, rest)
      else
        && Run(db, ns, ms[i..], fails) ==
          (if fails(m.version) then (db, false) else Run(ApplyOne(db, ns, m), ns, rest, fails))
        && Pending(db.recorded, ns, ms[i..]) == [m.version] + Pending(db.recorded, ns, rest)
        && Settled(db.recorded, ns, ms[i..]) == Settled(db.recorded, ns, rest)
  {
    assert ms[i..][1..] == ms[i + 1..];
  }

  lemma Unlisted(recorded: set<(string, int)>, ns: string, ms: seq<Migration>, i: nat)
    requires Ordered(ms) && i < |ms|
    ensures Pending(recorded + {(ns, ms[i].version)}, ns, ms[i + 1..]) == Pending(recorded, ns, ms[i + 1..])
    ensures Settled(recorded + {(ns, ms[i].version)}, ns, ms[i + 1..]) == Settled(recorded, ns, ms[i + 1..])
  {
    UnlistedRecord(recorded, ns, ms[i + 1..], ms[i].version);
  }

  lemma EmptyLists(db: Database, ns: string, fails: int -> bool)
    ensures Run(db, ns, [], fails) == (db, true) && Pending(db.recorded, ns, []) == [] &&
      Settled(db.recorded, ns, []) == []
  {
  }

  class Connection {
    var db: Database

    constructor (d: Database)
      ensures db == d
    {
      db := d;
    }

    /** The apply loop.  What a completed run applies is exactly what the status computed
        beforehand as pending, in order, and nothing is pending afterwards. */
    method ApplyOrdered(ns: string, ms: seq<Migration>, fails: int -> bool) returns (r: Outcome)
      requires Ordered(ms)
      modifies this
      ensures db == Run(old(db), ns, ms, fails).0
      ensures r.Completed? <==> Run(old(db), ns, ms, fails).1
      ensures !r.Invalid?
      ensures r.Completed? ==>
        r.applied == Pending(old(db).recorded, ns, ms) && r.skipped == Settled(old(db).recorded, ns, ms)
    {
      hide Run, Pending, Settled, Ordered;
      var applied, skipped := [], [];
      assert ms[0..] == ms;
      for i := 0 to |ms|
        invariant Run(db, ns, ms[i..], fails) == Run(old(db), ns, ms, fails)
        invariant applied + Pending(db.recorded, ns, ms[i..]) == Pending(old(db).recorded, ns, ms)
        invariant skipped + Settled(db.recorded, ns, ms[i..]) == Settled(old(db).recorded, ns, ms)
      {
        Unfold(db, ns, ms, i, fails);
        if (ns, ms[i].version) in db.recorded {
          skipped := skipped + [ms[i].version];
        } else {
          if fails(ms[i].version) {
            return Interrupted;
          }
          Unlisted(db.recorded, ns, ms, i);
          db := Database(ms[i].apply(db.data), db.recorded + {(ns, ms[i].version)});
          applied := applied + [ms[i].version];
        }
      }
      EmptyLists(db, ns, fails);
      assert ms[|ms|..] == [] && applied + [] == applied && skipped + [] == skipped;
      return Completed(applied, skipped);
    }

    method ApplyMigrations(namespace: string, declared: seq<Migration>, fails: int -> bool) returns (r: Outcome)
      modifies this
      ensures r.Invalid? <==> Strip(namespace) == "" || !Acceptable(declared)
      ensures r.Invalid? ==> db == old(db)
      ensures !r.Invalid? ==> var ns, ms := Strip(namespace), Sort(declared, Earlier);
        && Ordered(ms) && db == Run(old(db), ns, ms, fails).0 && (r.Completed? <==> Run(old(db), ns, ms, fails).1)
        && (r.Completed? ==>
          r.applied == Pending(old(db).recorded, ns, ms) && r.skipped == Settled(old(db).recorded, ns, ms))
    {
      hide Run, Sort, Strip;
      var ns := Strip(namespace);
      if ns == "" {
        return Invalid;
      }
      var ordered := ValidateMigrations(declared);
      if ordered.Err? {
        return Invalid;
      }
      r := ApplyOrdered(ns, ordered.value, fails);
    }
  }

  /** A completed run leaves nothing pending, whatever was recorded before. */
  lemma {:induction false} NothingPendingAfter(db: Database, ns: string, ms: seq<Migration>, fails: int -> bool)
    requires Run(db, ns, ms, fails).1
    ensures Pending(Run(db, ns, ms, fails).0.recorded, ns, ms) == []
    ensures db.recorded <= Run(db, ns, ms, fails).0.recorded
    decreases |ms|
  {
    if ms != [] {
      var next := if (ns, ms[0].version) in db.recorded then db else ApplyOne(db, ns, ms[0]);
      NothingPendingAfter(next, ns, ms[1..], fails);
    }
  }
}
