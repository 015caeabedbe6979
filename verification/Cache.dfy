/** The authoring cache: two definitions of "expired", and the artifact table whose purge
    compares rendered timestamps as text.  Times are naive date-times. */
module Cache {
  import opened Common
  import opened Text
  import opened Calendar

  datatype Mode = Duration | Daily | Weekly | SessionOnly | Unsupported(name: string)

  /** 0001-01-01 was a Monday, and Monday is weekday 0. */
  function Weekday(t: nat): nat { t / DAY % 7 }

  /** Negative when the week began before the first representable date. */
  function StartOfWeek(t: nat, weekStart: int): int {
    (t / DAY - (Weekday(t) - weekStart) % 7) * DAY
  }

  function StartOfDay(t: nat): nat { t / DAY * DAY }

  /** The predicate consulted by lookups. */
  predicate IsValid(created: Option<nat>, mode: Mode, ttl: Option<int>, now: nat, weekStart: int) {
    created.Some? &&
    match mode
    case Duration => ttl.Some? && now - created.value < ttl.value * SECOND
    case Daily => StartOfDay(created.value) == StartOfDay(now)
    case Weekly => StartOfWeek(created.value, weekStart) == StartOfWeek(now, weekStart)
    case SessionOnly => true
    case Unsupported(_) => false
  }

  function InCalendar(t: int): Result<Option<nat>> {
    if 0 <= t < END then Ok(Some(t)) else Err
  }

  /** The expiry stored with an entry; Err when the computation raises. */
  function Expiry(created: nat, mode: Mode, ttl: Option<int>, weekStart: int): Result<Option<nat>> {
    match mode
    case SessionOnly => Ok(None)
    case Duration => if ttl.None? then Err else InCalendar(created + ttl.value * SECOND)
    case Daily => InCalendar(StartOfDay(created + DAY))
    case Weekly =>
      var start := StartOfWeek(created, weekStart);
      if start < 0 then Err else InCalendar(start + 7 * DAY)
    case Unsupported(_) => Err
  }

  /** The start of the day or week that a daily or weekly entry belongs to. */
  function PeriodStart(created: nat, mode: Mode, weekStart: int): int {
    match mode
    case Daily => StartOfDay(created)
    case Weekly => StartOfWeek(created, weekStart)
    case _ => 0
  }

  lemma WeekOf(t: nat, weekStart: int)
    ensures StartOfWeek(t, weekStart) == (weekStart + 7 * ((t / DAY - weekStart) / 7)) * DAY
    ensures StartOfWeek(t, weekStart) <= t < StartOfWeek(t, weekStart) + 7 * DAY
  {
    var d := t / DAY;
    assert (d % 7 - weekStart) % 7 == (d - weekStart) % 7 by { ModShift(d, weekStart); }
    assert d - weekStart == 7 * ((d - weekStart) / 7) + (d - weekStart) % 7;
    assert d * DAY <= t < d * DAY + DAY;
  }

  lemma ModShift(d: int, w: int)
    ensures (d % 7 - w) % 7 == (d - w) % 7
  {
    assert d - w == (d % 7 - w) + 7 * (d / 7);
  }

  /** The two definitions agree in every mode and at every time: an entry is valid exactly from
      the start of its period until its computed expiry. */
  lemma ValidUntilExpiry(created: nat, mode: Mode, ttl: Option<int>, now: nat, weekStart: int)
    requires Expiry(created, mode, ttl, weekStart).Ok?
    ensures var e := Expiry(created, mode, ttl, weekStart).value;
      IsValid(Some(created), mode, ttl, now, weekStart) <==>
      PeriodStart(created, mode, weekStart) <= now && (e.None? || now < e.value)
  {
    if mode.Weekly? {
      WeekOf(created, weekStart);
      WeekOf(now, weekStart);
      var a, b := (created / DAY - weekStart) / 7, (now / DAY - weekStart) / 7;
      SameWeek(a, b, weekStart, now);
    } else if mode.Daily? {
      SameDay(created, now);
    }
  }

  lemma SameWeek(a: int, b: int, w: int, now: nat)
    requires (w + 7 * b) * DAY <= now < (w + 7 * b) * DAY + 7 * DAY
    ensures (w + 7 * a) * DAY == (w + 7 * b) * DAY <==> (w + 7 * a) * DAY <= now < (w + 7 * a) * DAY + 7 * DAY
  {
    var gap := (w + 7 * b) * DAY - (w + 7 * a) * DAY;
    assert gap == (b - a) * (7 * DAY);
    if a < b {
      assert gap >= 7 * DAY;
    } else if b < a {
      assert gap <= -7 * DAY;
    }
  }

  lemma SameDay(created: nat, now: nat)
    ensures StartOfDay(created + DAY) == StartOfDay(created) + DAY
    ensures StartOfDay(created) == StartOfDay(now) <==> StartOfDay(created) <= now < StartOfDay(created) + DAY
  {
  }

  /** Once the clock has passed an entry's creation, validity is just "not yet expired". */
  lemma ValidIffNotExpired(created: nat, mode: Mode, ttl: Option<int>, now: nat, weekStart: int)
    requires Expiry(created, mode, ttl, weekStart).Ok? && created <= now
    ensures var e := Expiry(created, mode, ttl, weekStart).value;
      IsValid(Some(created), mode, ttl, now, weekStart) <==> e.None? || now < e.value
  {
    ValidUntilExpiry(created, mode, ttl, now, weekStart);
    if mode.Weekly? { WeekOf(created, weekStart); }
  }

  // ---------------------------------------------------------------------------
  // The artifact table

  type Key = (string, string)

  datatype Row = Row(
    sessionKey: Option<string>, mode: Mode, ttl: Option<int>, content: string,
    createdAt: string, lastAccessedAt: string, expiresAt: Option<string>)

  datatype Hit = Hit(sessionKey: Option<string>, mode: Mode, ttl: Option<int>, content: string, createdAt: string,
      expiresAt: Option<string>)

  datatype Op =
    | Upsert(key: Key, session: Option<string>, mode: Mode, ttl: Option<int>, content: string, now: nat)
    | Get(key: Key, session: Option<string>, now: nat)
    | Purge(now: nat)

  datatype Reply = Stored | Refused | Found(hit: Hit) | Missing | Purged

  function Iso(t: nat): string { IsoSpace(t, "") }

  function IsoOption(t: Option<nat>): Option<string> {
    match t case None => None case Some(v) => Some(Iso(v))
  }

  function HitOf(r: Row): Hit {
    Hit(r.sessionKey, r.mode, r.ttl, r.content, r.createdAt, r.expiresAt)
  }

  /** `expires_at IS NOT NULL AND expires_at <= now`, on text. */
  predicate TextExpired(r: Row, now: nat) {
    r.expiresAt.Some? && !Less(Iso(now), r.expiresAt.value)
  }

  function Step(weekStart: int, rows: map<Key, Row>, op: Op): (map<Key, Row>, Reply) {
    match op
    case Upsert(k, session, mode, ttl, content, now) =>
      (match Expiry(now, mode, ttl, weekStart)
       case Err => (rows, Refused)
       case Ok(e) => (rows[k := Row(session, mode, ttl, content, Iso(now), Iso(now), IsoOption(e))], Stored))
    case Get(k, session, now) =>
      if k !in rows then (rows, Missing)
      else
        var r := rows[k];
        if r.mode.SessionOnly? && r.sessionKey != session then (rows, Missing)
        else if !IsValid(ParseIso(r.createdAt), r.mode, r.ttl, now, weekStart) then (rows - {k}, Missing)
        else (rows[k := r.(lastAccessedAt := Iso(now))], Found(HitOf(r)))
    case Purge(now) => (map k | k in rows && !TextExpired(rows[k], now) :: rows[k], Purged)
  }

  // ---------------------------------------------------------------------------
  // Reference: a map that never deletes, filtered by validity and session

  datatype Entry = Entry(session: Option<string>, mode: Mode, ttl: Option<int>, content: string, created: nat)

  function EntryHit(weekStart: int, e: Entry): Hit {
    Hit(e.session, e.mode, e.ttl, e.content, Iso(e.created),
        var x := Expiry(e.created, e.mode, e.ttl, weekStart); if x.Ok? then IsoOption(x.value) else None)
  }

  function ReferenceStep(weekStart: int, all: map<Key, Entry>, op: Op): (map<Key, Entry>, Reply) {
    match op
    case Upsert(k, session, mode, ttl, content, now) =>
      if Expiry(now, mode, ttl, weekStart).Err? then (all, Refused)
      else (all[k := Entry(session, mode, ttl, content, now)], Stored)
    case Get(k, session, now) =>
      if k in all && (all[k].mode.SessionOnly? ==> all[k].session == session)
         && IsValid(Some(all[k].created), all[k].mode, all[k].ttl, now, weekStart)
      then (all, Found(EntryHit(weekStart, all[k]))) else (all, Missing)
    case Purge(now) => (all, Purged)
  }

  function Run(weekStart: int, rows: map<Key, Row>, ops: seq<Op>): seq<Reply>
    decreases |ops|
  {
    if ops == [] then []
    else
      var (next, reply) := Step(weekStart, rows, ops[0]);
      [reply] + Run(weekStart, next, ops[1..])
  }

  function ReferenceRun(weekStart: int, all: map<Key, Entry>, ops: seq<Op>): seq<Reply>
    decreases |ops|
  {
    if ops == [] then []
    else
      var (next, reply) := ReferenceStep(weekStart, all, ops[0]);
      [reply] + ReferenceRun(weekStart, next, ops[1..])
  }

  /** Operation times are date-times that never go back. */
  predicate Timely(clock: nat, ops: seq<Op>)
    decreases |ops|
  {
    ops == [] || (clock <= ops[0].now < END && Timely(ops[0].now, ops[1..]))
  }

  ghost predicate EntryOk(weekStart: int, clock: nat, e: Entry) {
    e.created <= clock && e.created < END && Expiry(e.created, e.mode, e.ttl, weekStart).Ok?
  }

  predicate Dead(weekStart: int, clock: nat, e: Entry) {
    var x := Expiry(e.created, e.mode, e.ttl, weekStart);
    x.Ok? && x.value.Some? && x.value.value <= clock
  }

  /** A row holds its entry's rendered times; an entry without a row has expired. */
  ghost predicate Coupled(weekStart: int, clock: nat, rows: map<Key, Row>, all: map<Key, Entry>) {
    && (forall k | k in all :: EntryOk(weekStart, clock, all[k]))
    && (forall k | k in rows :: k in all && HitOf(rows[k]) == EntryHit(weekStart, all[k]))
    && (forall k | k in all :: k in rows || Dead(weekStart, clock, all[k]))
  }

  /** The SQL purge drops exactly the rows whose expiry has passed. */
  lemma PurgeDropsExpired(weekStart: int, e: Entry, r: Row, now: nat)
    requires EntryOk(weekStart, now, e) && now < END && HitOf(r) == EntryHit(weekStart, e)
    ensures TextExpired(r, now) <==> Dead(weekStart, now, e)
  {
    hide IsoSpace, Less, StartOfWeek, StartOfDay;
    var x := Expiry(e.created, e.mode, e.ttl, weekStart).value;
    if x.Some? { IsoSpaceOrder(now, x.value, ""); }
  }

  lemma RowValidity(weekStart: int, e: Entry, r: Row, now: nat)
    requires EntryOk(weekStart, now, e) && HitOf(r) == EntryHit(weekStart, e)
    ensures ParseIso(r.createdAt) == Some(e.created)
    ensures IsValid(Some(e.created), e.mode, e.ttl, now, weekStart) <==> !Dead(weekStart, now, e)
  {
    hide IsoSpace, ParseIso, Expiry, IsValid;
    ParseRendered(e.created);
    ValidIffNotExpired(e.created, e.mode, e.ttl, now, weekStart);
  }

  lemma DeadStays(weekStart: int, clock: nat, now: nat, e: Entry)
    requires EntryOk(weekStart, clock, e) && clock <= now
    ensures EntryOk(weekStart, now, e)
    ensures Dead(weekStart, clock, e) ==>
      Dead(weekStart, now, e) && !IsValid(Some(e.created), e.mode, e.ttl, now, weekStart)
  {
    hide Expiry, IsValid;
    ValidIffNotExpired(e.created, e.mode, e.ttl, now, weekStart);
  }

  lemma Later(weekStart: int, clock: nat, now: nat, rows: map<Key, Row>, all: map<Key, Entry>)
    requires Coupled(weekStart, clock, rows, all) && clock <= now
    ensures Coupled(weekStart, now, rows, all)
  {
    hide Dead, EntryOk, IsValid;
    forall k | k in all
      ensures EntryOk(weekStart, now, all[k]) && (Dead(weekStart, clock, all[k]) ==> Dead(weekStart, now, all[k]))
    {
      DeadStays(weekStart, clock, now, all[k]);
    }
  }

  lemma StepRefines(weekStart: int, clock: nat, rows: map<Key, Row>, all: map<Key, Entry>, op: Op)
    requires Coupled(weekStart, clock, rows, all) && clock <= op.now < END
    ensures var (rows', r) := Step(weekStart, rows, op);
      var (all', r') := ReferenceStep(weekStart, all, op);
      Coupled(weekStart, op.now, rows', all') && r == r'
  {
    hide Dead, EntryOk, IsValid, Iso, TextExpired, Coupled;
    Later(weekStart, clock, op.now, rows, all);
    match op
    case Upsert(_, _, _, _, _, _) => UpsertRefines(weekStart, rows, all, op);
    case Get(_, _, _) => GetRefines(weekStart, rows, all, op);
    case Purge(now) => PurgeRefines(weekStart, rows, all, now);
  }

  lemma UpsertRefines(weekStart: int, rows: map<Key, Row>, all: map<Key, Entry>, op: Op)
    requires op.Upsert? && Coupled(weekStart, op.now, rows, all) && op.now < END
    ensures var (rows', r) := Step(weekStart, rows, op);
      var (all', r') := ReferenceStep(weekStart, all, op);
      Coupled(weekStart, op.now, rows', all') && r == r'
  {
    hide Dead, Iso, Expiry;
  }

  lemma GetRefines(weekStart: int, rows: map<Key, Row>, all: map<Key, Entry>, op: Op)
    requires op.Get? && Coupled(weekStart, op.now, rows, all)
    ensures var (rows', r) := Step(weekStart, rows, op);
      var (all', r') := ReferenceStep(weekStart, all, op);
      Coupled(weekStart, op.now, rows', all') && r == r'
  {
    hide Dead, Iso, Expiry, IsValid, ParseIso, EntryOk;
    var k := op.key;
    if k in rows {
      RowValidity(weekStart, all[k], rows[k], op.now);
    } else if k in all {
      DeadStays(weekStart, op.now, op.now, all[k]);
    }
  }

  lemma PurgeRefines(weekStart: int, rows: map<Key, Row>, all: map<Key, Entry>, now: nat)
    requires Coupled(weekStart, now, rows, all) && now < END
    ensures Coupled(weekStart, now, Step(weekStart, rows, Purge(now)).0, all)
  {
    hide Dead, EntryOk, TextExpired;
    forall k | k in rows ensures TextExpired(rows[k], now) <==> Dead(weekStart, now, all[k]) {
      PurgeDropsExpired(weekStart, all[k], rows[k], now);
    }
  }

  /** Every run of upserts, lookups and purges, at times that never go back, answers as the
      never-deleting map filtered by validity and session key. */
  lemma {:induction false} RunRefines(weekStart: int, clock: nat, rows: map<Key, Row>, all: map<Key, Entry>,
      ops: seq<Op>)
    requires Coupled(weekStart, clock, rows, all) && Timely(clock, ops)
    ensures Run(weekStart, rows, ops) == ReferenceRun(weekStart, all, ops)
    decreases |ops|
  {
    if ops != [] {
      hide Coupled, Step, ReferenceStep;
      StepRefines(weekStart, clock, rows, all, ops[0]);
      RunRefines(weekStart, ops[0].now, Step(weekStart, rows, ops[0]).0, ReferenceStep(weekStart, all, ops[0]).0,
        ops[1..]);
    }
  }

  lemma FreshRunRefines(weekStart: int, clock: nat, ops: seq<Op>)
    requires Timely(clock, ops)
    ensures Run(weekStart, map[], ops) == ReferenceRun(weekStart, map[], ops)
  {
    RunRefines(weekStart, clock, map[], map[], ops);
  }

  // ---------------------------------------------------------------------------
  // What single operations do, in plain numbers

  /** The day of the week's start, by floor division. */
  function WeekDay(day: int, weekStart: int): int { weekStart + 7 * ((day - weekStart) / 7) }

  /** When an upsert is stored, mode by mode: exactly when its expiry is a date-time of the years 1 to
      9999, of which there are 3652059 days.  Otherwise nothing changes. */
  lemma StoredIff(weekStart: int, rows: map<Key, Row>, op: Op)
    requires op.Upsert?
    ensures var (rows', reply) := Step(weekStart, rows, op);
      var day := op.now / 86_400_000_000;
      && (reply.Stored? <==>
          match op.mode
          case SessionOnly => true
          case Duration => op.ttl.Some? && 0 <= op.now + op.ttl.value * 1_000_000 < 3_652_059 * 86_400_000_000
          case Daily => day + 1 < 3_652_059
          case Weekly => 0 <= WeekDay(day, weekStart) && WeekDay(day, weekStart) + 7 < 3_652_059
          case Unsupported(_) => false)
      && (!reply.Stored? ==> reply == Refused && rows' == rows)
      && (reply.Stored? ==>
          && rows'.Keys == rows.Keys + {op.key} && (forall k | k in rows && k != op.key :: rows'[k] == rows[k])
          && var row := rows'[op.key];
             row.content == op.content && row.sessionKey == op.session && row.mode == op.mode && row.ttl == op.ttl)
  {
    hide Iso, IsoOption;
    WeekOf(op.now, weekStart);
    SameDay(op.now, op.now);
    var w := WeekDay(op.now / DAY, weekStart);
    DaysInRange(w);
    DaysInRange(op.now / DAY);
  }

  lemma DaysInRange(d: int)
    ensures 0 <= d * DAY <==> 0 <= d
    ensures d * DAY + DAY < END <==> d + 1 < LAST_DAY
    ensures d * DAY + 7 * DAY < END <==> d + 7 < LAST_DAY
  {
  }

  /** What a lookup finds of an entry just stored: its content, exactly while the entry is valid and,
      for a session entry, in its own session. */
  lemma FoundIff(weekStart: int, rows: map<Key, Row>, op: Op, session: Option<string>, now: nat)
    requires op.Upsert? && op.now < END && Step(weekStart, rows, op).1.Stored?
    ensures var reply := Step(weekStart, Step(weekStart, rows, op).0, Get(op.key, session, now)).1;
      var before, day := op.now / 86_400_000_000, now / 86_400_000_000;
      && (reply.Found? <==>
          match op.mode
          case SessionOnly => session == op.session
          case Duration => now - op.now < op.ttl.value * 1_000_000
          case Daily => day == before
          case Weekly => WeekDay(day, weekStart) == WeekDay(before, weekStart)
          case Unsupported(_) => false)
      && (!reply.Found? ==> reply == Missing)
      && (reply.Found? ==> reply.hit.content == op.content && reply.hit.sessionKey == op.session)
  {
    hide IsoSpace, ParseIso, IsoOption;
    ParseRendered(op.now);
    StoredIff(weekStart, rows, op);
    WeekOf(op.now, weekStart);
    WeekOf(now, weekStart);
    SameMultiple(WeekDay(op.now / DAY, weekStart), WeekDay(now / DAY, weekStart));
    SameMultiple(op.now / DAY, now / DAY);
  }

  lemma SameMultiple(a: int, b: int)
    ensures a * DAY == b * DAY <==> a == b
  {
  }

  /** Storing or looking up another key leaves an entry as it is. */
  lemma OthersUnaffected(weekStart: int, rows: map<Key, Row>, k: Key, op: Op)
    requires k in rows && (op.Get? || op.Upsert?) && op.key != k
    ensures var rows' := Step(weekStart, rows, op).0; k in rows' && rows'[k] == rows[k]
  {
    hide IsValid, Expiry, Iso, IsoOption;
  }

  class ArtifactTable {
    var rows: map<Key, Row>

    constructor ()
      ensures rows == map[]
    {
      rows := map[];
    }

    method UpsertArtifact(key: Key, session: Option<string>, mode: Mode, ttl: Option<int>, content: string, now: nat,
        weekStart: int)
      returns (reply: Reply)
      modifies this
      ensures (rows, reply) == Step(weekStart, old(rows), Upsert(key, session, mode, ttl, content, now))
    {
      hide Expiry, Iso;
      var expires := Expiry(now, mode, ttl, weekStart);
      if expires.Err? {
        return Refused;
      }
      rows := rows - {key};
      rows := rows[key := Row(session, mode, ttl, content, Iso(now), Iso(now), IsoOption(expires.value))];
      assert rows == old(rows)[key := rows[key]];
      return Stored;
    }

    method GetArtifact(key: Key, session: Option<string>, now: nat, weekStart: int) returns (reply: Reply)
      modifies this
      ensures (rows, reply) == Step(weekStart, old(rows), Get(key, session, now))
    {
      hide IsValid, Iso;
      if key !in rows {
        return Missing;
      }
      var row := rows[key];
      if row.mode.SessionOnly? && row.sessionKey != session {
        return Missing;
      }
      if !IsValid(ParseIso(row.createdAt), row.mode, row.ttl, now, weekStart) {
        rows := rows - {key};
        return Missing;
      }
      rows := rows[key := row.(lastAccessedAt := Iso(now))];
      return Found(HitOf(row));
    }

    method PurgeExpired(now: nat, ghost weekStart: int) returns (removed: nat)
      modifies this
      ensures rows == Step(weekStart, old(rows), Purge(now)).0
      ensures |rows| + removed == |old(rows)|
    {
      hide TextExpired;
      var kept := map k | k in rows && !TextExpired(rows[k], now) :: rows[k];
      assert kept.Keys <= rows.Keys;
      SubsetSize(kept.Keys, rows.Keys);
      removed := |rows| - |kept|;
      rows := kept;
    }
  }
}
