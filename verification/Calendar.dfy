/** Naive date-times as microseconds since 0001-01-01 00:00, the proleptic Gregorian calendar,
    and the ISO 8601 texts rendered from them. */
module Calendar {
  import opened Common
  import opened Text

  const SECOND: nat := 1_000_000
  const DAY: nat := 86_400 * SECOND

  /** Days before year 10000: date-times lie before day `LAST_DAY`. */
  const LAST_DAY: nat := 3_652_059
  const END: nat := LAST_DAY * DAY

  predicate IsLeap(y: nat) { y % 4 == 0 && (y % 100 != 0 || y % 400 == 0) }

  function DaysInYear(y: nat): nat { if IsLeap(y) then 366 else 365 }

  function DaysInMonth(y: nat, m: nat): nat {
    if m == 2 then (if IsLeap(y) then 29 else 28)
    else if m == 4 || m == 6 || m == 9 || m == 11 then 30 else 31
  }

  function DaysBeforeYear(y: nat): nat
    requires y >= 1
  {
    var k := y - 1;
    k * 365 + k / 4 - k / 100 + k / 400
  }

  function DaysBeforeMonth(y: nat, m: nat): nat
    requires 1 <= m <= 13
  {
    if m == 1 then 0 else DaysBeforeMonth(y, m - 1) + DaysInMonth(y, m - 1)
  }

  lemma YearStep(y: nat)
    requires y >= 1
    ensures DaysBeforeYear(y + 1) == DaysBeforeYear(y) + DaysInYear(y)
  {
    Every4(y);
    Every100(y);
    Every400(y);
    Divides100(y);
    Divides4(y);
  }

  lemma Every4(y: nat)
    requires y >= 1
    ensures y / 4 == (y - 1) / 4 + if y % 4 == 0 then 1 else 0
  {
  }

  lemma Every100(y: nat)
    requires y >= 1
    ensures y / 100 == (y - 1) / 100 + if y % 100 == 0 then 1 else 0
  {
  }

  lemma Every400(y: nat)
    requires y >= 1
    ensures y / 400 == (y - 1) / 400 + if y % 400 == 0 then 1 else 0
  {
  }

  lemma FourTimes(k: nat)
    ensures 4 * k % 4 == 0
  {
  }

  lemma HundredTimes(k: nat)
    ensures 100 * k % 100 == 0
  {
  }

  lemma Divides100(y: nat)
    ensures y % 400 == 0 ==> y % 100 == 0
  {
    var q := y / 400;
    if y % 400 == 0 {
      assert y == 100 * (4 * q);
      HundredTimes(4 * q);
    }
  }

  lemma Divides4(y: nat)
    ensures y % 100 == 0 ==> y % 4 == 0
  {
    var q := y / 100;
    if y % 100 == 0 {
      assert y == 4 * (25 * q);
      FourTimes(25 * q);
    }
  }

  lemma {:induction false} YearMonotone(y: nat, z: nat)
    requires 1 <= y <= z
    ensures DaysBeforeYear(y) <= DaysBeforeYear(z)
    decreases z - y
  {
    if y < z {
      YearStep(z - 1);
      YearMonotone(y, z - 1);
    }
  }

  lemma MonthTotal(y: nat)
    ensures DaysBeforeMonth(y, 13) == DaysInYear(y)
  {
    var feb := DaysInMonth(y, 2);
    assert DaysBeforeMonth(y, 1) == 0 && DaysBeforeMonth(y, 2) == 31;
    assert DaysBeforeMonth(y, 3) == 31 + feb;
    assert DaysBeforeMonth(y, 5) == 92 + feb;
    assert DaysBeforeMonth(y, 7) == 153 + feb;
    assert DaysBeforeMonth(y, 9) == 215 + feb;
    assert DaysBeforeMonth(y, 11) == 276 + feb;
  }

  lemma {:induction false} MonthMonotone(y: nat, m: nat, k: nat)
    requires 1 <= m <= k <= 13
    ensures DaysBeforeMonth(y, m) <= DaysBeforeMonth(y, k)
    decreases k - m
  {
    if m < k { MonthMonotone(y, m, k - 1); }
  }

  /** The year holding the day that lies `days` after the start of year `y`. */
  function YearFrom(days: nat, y: nat): (r: (nat, nat))
    requires y >= 1
    ensures r.0 >= y && r.1 < DaysInYear(r.0) && DaysBeforeYear(r.0) + r.1 == DaysBeforeYear(y) + days
    decreases days
  {
    YearStep(y);
    if days < DaysInYear(y) then (y, days) else YearFrom(days - DaysInYear(y), y + 1)
  }

  function MonthFrom(y: nat, day: nat, m: nat): (r: (nat, nat))
    requires 1 <= m <= 12 && DaysBeforeMonth(y, m) + day < DaysInYear(y)
    ensures m <= r.0 <= 12 && 1 <= r.1 <= DaysInMonth(y, r.0)
    ensures DaysBeforeMonth(y, r.0) + r.1 == DaysBeforeMonth(y, m) + day + 1
    decreases 12 - m
  {
    MonthTotal(y);
    if day < DaysInMonth(y, m) then (m, day + 1) else MonthFrom(y, day - DaysInMonth(y, m), m + 1)
  }

  /** Year, month and day of a day number. */
  function DateFields(days: nat): (f: seq<nat>)
    ensures |f| == 3 && f[0] >= 1 && 1 <= f[1] <= 12 && 1 <= f[2] <= DaysInMonth(f[0], f[1])
  {
    var (y, rest) := YearFrom(days, 1);
    var (m, d) := MonthFrom(y, rest, 1);
    [y, m, d]
  }

  predicate ValidDate(f: seq<nat>) {
    |f| == 3 && f[0] >= 1 && 1 <= f[1] <= 12 && 1 <= f[2] <= DaysInMonth(f[0], f[1])
  }

  /** The day number of a date. */
  function DayOf(f: seq<nat>): nat
    requires ValidDate(f)
  {
    DaysBeforeYear(f[0]) + DaysBeforeMonth(f[0], f[1]) + f[2] - 1
  }

  lemma DateRoundTrip(days: nat)
    ensures DayOf(DateFields(days)) == days
  {
    assert DaysBeforeYear(1) == 0;
  }

  predicate LexLess(a: seq<nat>, b: seq<nat>)
    requires |a| == |b|
  {
    a != [] && (a[0] < b[0] || (a[0] == b[0] && LexLess(a[1..], b[1..])))
  }

  lemma LexLess3(a: seq<nat>, b: seq<nat>)
    requires |a| == |b| == 3
    ensures LexLess(a, b) <==> a[0] < b[0] || (a[0] == b[0] && (a[1] < b[1] || (a[1] == b[1] && a[2] < b[2])))
  {
    assert a[1..][1..] == [a[2]] && b[1..][1..] == [b[2]];
    assert LexLess([a[2]], [b[2]]) <==> a[2] < b[2];
  }

  lemma {:induction false} LexTotal(a: seq<nat>, b: seq<nat>)
    requires |a| == |b|
    ensures LexLess(a, b) || a == b || LexLess(b, a)
  {
    if a != [] && a[0] == b[0] {
      LexTotal(a[1..], b[1..]);
      assert a == [a[0]] + a[1..] && b == [b[0]] + b[1..];
    }
  }

  lemma DayMonotone(a: seq<nat>, b: seq<nat>)
    requires ValidDate(a) && ValidDate(b) && LexLess(a, b)
    ensures DayOf(a) < DayOf(b)
  {
    hide DaysBeforeYear, DaysInMonth;
    LexLess3(a, b);
    if a[0] < b[0] {
      MonthMonotone(a[0], a[1] + 1, 13);
      MonthTotal(a[0]);
      YearStep(a[0]);
      YearMonotone(a[0] + 1, b[0]);
    } else if a[1] < b[1] {
      MonthMonotone(a[0], a[1] + 1, b[1]);
    }
  }

  /** Dates compare field by field exactly as day numbers do. */
  lemma DateOrder(m: nat, n: nat)
    ensures LexLess(DateFields(m), DateFields(n)) <==> m < n
    ensures DateFields(m) == DateFields(n) <==> m == n
  {
    hide DateFields, DayOf;
    var a, b := DateFields(m), DateFields(n);
    DateRoundTrip(m);
    DateRoundTrip(n);
    LexTotal(a, b);
    if LexLess(a, b) { DayMonotone(a, b); }
    if LexLess(b, a) { DayMonotone(b, a); }
  }

  lemma YearInRange(days: nat)
    requires days < LAST_DAY
    ensures DateFields(days)[0] < 10_000
  {
    DateRoundTrip(days);
  }

  function ClockFields(s: nat): (f: seq<nat>)
    requires s < 86_400
    ensures |f| == 3 && f[0] < 24 && f[1] < 60 && f[2] < 60
  {
    [s / 3600, s / 60 % 60, s % 60]
  }

  lemma ClockOrder(m: nat, n: nat)
    requires m < 86_400 && n < 86_400
    ensures LexLess(ClockFields(m), ClockFields(n)) <==> m < n
    ensures ClockFields(m) == ClockFields(n) <==> m == n
    ensures ClockFields(m)[0] * 3600 + ClockFields(m)[1] * 60 + ClockFields(m)[2] == m
  {
    LexLess3(ClockFields(m), ClockFields(n));
    assert m / 3600 == m / 60 / 60 && n / 3600 == n / 60 / 60;
    assert m == m / 60 * 60 + m % 60 && n == n / 60 * 60 + n % 60;
    assert m / 60 == m / 60 / 60 * 60 + m / 60 % 60 && n / 60 == n / 60 / 60 * 60 + n / 60 % 60;
  }

  /** The six calendar and clock fields of a second. */
  function Fields(second: nat): (f: seq<nat>)
    ensures |f| == 6
  {
    DateFields(second / 86_400) + ClockFields(second % 86_400)
  }

  lemma {:induction false} LexAppend(a: seq<nat>, b: seq<nat>, x: seq<nat>, y: seq<nat>)
    requires |a| == |b| && |x| == |y|
    ensures LexLess(a + x, b + y) <==> LexLess(a, b) || (a == b && LexLess(x, y))
  {
    if a == [] {
      assert a + x == x && b + y == y;
    } else {
      LexAppend(a[1..], b[1..], x, y);
      assert (a + x)[1..] == a[1..] + x && (b + y)[1..] == b[1..] + y;
      assert a == b <==> a[0] == b[0] && a[1..] == b[1..];
    }
  }

  lemma FieldsOrder(m: nat, n: nat)
    ensures LexLess(Fields(m), Fields(n)) <==> m < n
    ensures Fields(m) == Fields(n) <==> m == n
  {
    hide DateFields, ClockFields;
    DateOrder(m / 86_400, n / 86_400);
    ClockOrder(m % 86_400, n % 86_400);
    var a, b := DateFields(m / 86_400), DateFields(n / 86_400);
    var x, y := ClockFields(m % 86_400), ClockFields(n % 86_400);
    LexAppend(a, b, x, y);
    assert a + x == b + y <==> a == b && x == y by {
      assert (a + x)[..3] == a && (a + x)[3..] == x && (b + y)[..3] == b && (b + y)[3..] == y;
    }
  }

  // ---------------------------------------------------------------------------
  // Rendering

  const WIDTHS: seq<nat> := [4, 2, 2, 2, 2, 2]

  predicate InRange(f: seq<nat>, widths: seq<nat>) {
    |f| == |widths| && forall i | 0 <= i < |f| :: f[i] < Power10(widths[i])
  }

  /** Fixed-width numerals, each followed by its separator, then a tail. */
  function Render(f: seq<nat>, widths: seq<nat>, seps: seq<string>, tail: string): string
    requires |f| == |widths| == |seps|
  {
    if f == [] then tail
    else Padded(f[0], widths[0]) + (seps[0] + Render(f[1..], widths[1..], seps[1..], tail))
  }

  /** Rendered fields compare as the fields do, and before the tails. */
  lemma {:induction false} RenderOrder(f: seq<nat>, g: seq<nat>, widths: seq<nat>, seps: seq<string>, x: string,
      y: string)
    requires InRange(f, widths) && InRange(g, widths) && |seps| == |widths|
    ensures Less(Render(f, widths, seps, x), Render(g, widths, seps, y)) <==> LexLess(f, g) || (f == g && Less(x, y))
  {
    if f != [] {
      RenderOrder(f[1..], g[1..], widths[1..], seps[1..], x, y);
      PaddedOrder(f[0], g[0], widths[0]);
      var u, v := Render(f[1..], widths[1..], seps[1..], x), Render(g[1..], widths[1..], seps[1..], y);
      LessIrreflexive(seps[0]);
      LessField(seps[0], seps[0], u, v);
      LessField(Padded(f[0], widths[0]), Padded(g[0], widths[0]), seps[0] + u, seps[0] + v);
      assert f == g <==> f[0] == g[0] && f[1..] == g[1..];
    }
  }

  lemma FieldsInRange(second: nat)
    requires second < LAST_DAY * 86_400
    ensures InRange(Fields(second), WIDTHS)
  {
    hide DateFields;
    YearInRange(second / 86_400);
    Powers();
    var d, c := DateFields(second / 86_400), ClockFields(second % 86_400);
    assert forall i | 0 <= i < 3 :: Fields(second)[i] == d[i] && Fields(second)[i + 3] == c[i];
  }

  function Fraction(micros: nat): string {
    if micros == 0 then "" else "." + Padded(micros, 6)
  }

  /** `isoformat(sep=" ")`: microseconds only when there are any; `zone` is the rendered offset,
      empty for a naive date-time. */
  function IsoSpace(t: nat, zone: string): string {
    Render(Fields(t / SECOND), WIDTHS, ["-", "-", " ", ":", ":", ""], Fraction(t % SECOND) + zone)
  }

  /** `isoformat(timespec="milliseconds")` of a UTC date-time. */
  function IsoMillis(t: nat): string {
    Render(Fields(t / SECOND), WIDTHS, ["-", "-", "T", ":", ":", "."], Padded(t % SECOND / 1000, 3) + "+00:00")
  }

  lemma FractionOrder(m: nat, n: nat, zone: string)
    requires m < SECOND && n < SECOND && (zone == "" || zone[0] < '.')
    ensures Less(Fraction(m) + zone, Fraction(n) + zone) <==> m < n
  {
    hide Padded, Less, Power10;
    Powers();
    PaddedOrder(m, n, 6);
    LessIrreflexive(zone);
    LessIrreflexive(".");
    FractionText(m, zone);
    FractionText(n, zone);
    var a, b := Padded(m, 6) + zone, Padded(n, 6) + zone;
    if m > 0 && n > 0 {
      LessField(Padded(m, 6), Padded(n, 6), zone, zone);
      LessField(".", ".", a, b);
    } else if m == 0 && n > 0 {
      LessHead(zone, "." + b);
    } else if m > 0 {
      LessHead(zone, "." + a);
    }
  }

  lemma FractionText(m: nat, zone: string)
    ensures Fraction(m) + zone == if m == 0 then zone else "." + (Padded(m, 6) + zone)
  {
    hide Padded;
  }

  lemma Powers()
    ensures Power10(2) == 100 && Power10(3) == 1000 && Power10(4) == 10_000 && Power10(6) == SECOND
  {
    assert Power10(2) == 100;
    assert Power10(4) == 10_000;
  }

  lemma LessHead(a: string, b: string)
    requires b != "" && (a == "" || a[0] < b[0])
    ensures Less(a, b) && !Less(b, a)
  {
  }

  /** Text order of the space-separated form is chronological order, whether or not the
      microsecond suffix is present, for any two date-times rendered with one offset. */
  lemma IsoSpaceOrder(s: nat, t: nat, zone: string)
    requires s < END && t < END && (zone == "" || zone[0] < '.')
    ensures Less(IsoSpace(s, zone), IsoSpace(t, zone)) <==> s < t
    ensures IsoSpace(s, zone) == IsoSpace(t, zone) <==> s == t
  {
    hide Render, Fields, Fraction, Less;
    FieldsInRange(s / SECOND);
    FieldsInRange(t / SECOND);
    FieldsOrder(s / SECOND, t / SECOND);
    FieldsOrder(t / SECOND, s / SECOND);
    FractionOrder(s % SECOND, t % SECOND, zone);
    FractionOrder(t % SECOND, s % SECOND, zone);
    var seps := ["-", "-", " ", ":", ":", ""];
    RenderOrder(Fields(s / SECOND), Fields(t / SECOND), WIDTHS, seps, Fraction(s % SECOND) + zone,
      Fraction(t % SECOND) + zone);
    RenderOrder(Fields(t / SECOND), Fields(s / SECOND), WIDTHS, seps, Fraction(t % SECOND) + zone,
      Fraction(s % SECOND) + zone);
    LessIrreflexive(IsoSpace(s, zone));
  }

  /** Text order of the millisecond form is the order of whole milliseconds. */
  lemma IsoMillisOrder(s: nat, t: nat)
    requires s < END && t < END
    ensures Less(IsoMillis(s), IsoMillis(t)) <==> s / 1000 < t / 1000
  {
    hide Render, Fields, Padded;
    FieldsInRange(s / SECOND);
    FieldsInRange(t / SECOND);
    FieldsOrder(s / SECOND, t / SECOND);
    var m, n := s % SECOND / 1000, t % SECOND / 1000;
    assert s / 1000 == s / SECOND * 1000 + m && t / 1000 == t / SECOND * 1000 + n;
    Powers();
    PaddedOrder(m, n, 3);
    var zone := "+00:00";
    LessIrreflexive(zone);
    LessField(Padded(m, 3), Padded(n, 3), zone, zone);
    RenderOrder(Fields(s / SECOND), Fields(t / SECOND), WIDTHS, ["-", "-", "T", ":", ":", "."], Padded(m, 3) + zone,
      Padded(n, 3) + zone);
  }

  // ---------------------------------------------------------------------------
  // Reading back

  /** Reads fixed-width numerals and their separators off the front of a text. */
  function ReadFields(s: string, widths: seq<nat>, seps: seq<string>): Option<(seq<nat>, string)>
    requires |widths| == |seps|
    decreases |widths|
  {
    if widths == [] then Some(([], s))
    else
      var w, sep := widths[0], seps[0];
      if |s| < w + |sep| || !AllDigits(s[..w]) || s[w..w + |sep|] != sep then None
      else
        match ReadFields(s[w + |sep|..], widths[1..], seps[1..])
        case None => None
        case Some((f, rest)) => Some(([NatOf(s[..w])] + f, rest))
  }

  lemma {:induction false} ReadRendered(f: seq<nat>, widths: seq<nat>, seps: seq<string>, tail: string)
    requires InRange(f, widths) && |seps| == |widths|
    ensures ReadFields(Render(f, widths, seps, tail), widths, seps) == Some((f, tail))
  {
    if f != [] {
      hide Padded, Power10, AllDigits, NatOf;
      ReadRendered(f[1..], widths[1..], seps[1..], tail);
      PaddedRoundTrip(f[0], widths[0]);
      var p, sep, rest := Padded(f[0], widths[0]), seps[0], Render(f[1..], widths[1..], seps[1..], tail);
      ReadOne(p, sep, rest, widths, seps, f[1..], tail);
      assert [f[0]] + f[1..] == f;
    }
  }

  lemma ReadOne(p: string, sep: string, rest: string, widths: seq<nat>, seps: seq<string>, f: seq<nat>, tail: string)
    requires widths != [] && |widths| == |seps| && widths[0] == |p| && seps[0] == sep && AllDigits(p)
    requires ReadFields(rest, widths[1..], seps[1..]) == Some((f, tail))
    ensures ReadFields(p + (sep + rest), widths, seps) == Some(([NatOf(p)] + f, tail))
  {
    hide AllDigits, NatOf;
    var s := p + (sep + rest);
    assert s[..|p|] == p && s[|p|..|p| + |sep|] == sep && s[|p| + |sep|..] == rest;
  }

  /** `datetime.fromisoformat` on the space-separated naive form. */
  function ParseIso(s: string): Option<nat> {
    match ReadFields(s, WIDTHS, ["-", "-", " ", ":", ":", ""])
    case None => None
    case Some((f, tail)) =>
      if |f| != 6 || !ValidDate(f[..3]) || f[3] >= 24 || f[4] >= 60 || f[5] >= 60 then None
      else
        var second := DayOf(f[..3]) * 86_400 + f[3] * 3600 + f[4] * 60 + f[5];
        if tail == "" then Some(second * SECOND)
        else if |tail| == 7 && tail[0] == '.' && AllDigits(tail[1..]) then Some(second * SECOND + NatOf(tail[1..]))
        else None
  }

  /** Reading back a rendered date-time gives it again. */
  lemma ParseRendered(t: nat)
    requires t < END
    ensures ParseIso(IsoSpace(t, "")) == Some(t)
  {
    hide Render, ReadFields, DateFields, ClockFields, DayOf, Padded, NatOf, Power10;
    var second := t / SECOND;
    var f := Fields(second);
    var tail := Fraction(t % SECOND);
    assert tail + "" == tail;
    FieldsInRange(second);
    ReadRendered(f, WIDTHS, ["-", "-", " ", ":", ":", ""], tail);
    var d, c := DateFields(second / 86_400), ClockFields(second % 86_400);
    assert f[..3] == d && f[3] == c[0] && f[4] == c[1] && f[5] == c[2];
    DateRoundTrip(second / 86_400);
    ClockOrder(second % 86_400, 0);
    Powers();
    PaddedRoundTrip(t % SECOND, 6);
    assert t % SECOND != 0 ==> tail[1..] == Padded(t % SECOND, 6);
  }

  // ---------------------------------------------------------------------------
  // Fixed points

  /** The calendar on known days: the epoch, the leap day of 2000, the end of February 1900, and the
      days of the years 1 to 9999. */
  lemma KnownDays()
    ensures ValidDate([1970, 1, 1]) && DayOf([1970, 1, 1]) == 719_162
    ensures ValidDate([2000, 2, 29]) && ValidDate([2024, 2, 29])
    ensures !ValidDate([1900, 2, 29]) && !ValidDate([2023, 2, 29])
    ensures DayOf([1, 1, 1]) == 0 && DayOf([9999, 12, 31]) == 3_652_058
    ensures END == 3_652_059 * 86_400_000_000
  {
    var y := 9999;
    MonthTotal(y);
    assert DaysBeforeMonth(y, 13) == DaysBeforeMonth(y, 12) + 31;
  }

  /** A day number is that of one date only. */
  lemma DateIs(days: nat, f: seq<nat>)
    requires ValidDate(f) && DayOf(f) == days
    ensures DateFields(days) == f
  {
    hide DateFields, DayOf;
    DateRoundTrip(days);
    var g := DateFields(days);
    LexTotal(f, g);
    if LexLess(f, g) { DayMonotone(f, g); }
    if LexLess(g, f) { DayMonotone(g, f); }
  }

  /** The epoch, and three minutes and a bit after one o'clock on its day. */
  lemma KnownFields()
    ensures Fields(62_135_596_800) == [1970, 1, 1, 0, 0, 0]
    ensures Fields(62_135_596_800 + 3783) == [1970, 1, 1, 1, 3, 3]
  {
    KnownDays();
    hide DateFields, DayOf;
    DateIs(719_162, [1970, 1, 1]);
  }

  /** The two texts, field by field. */
  lemma IsoTexts(t: nat, zone: string)
    requires t < END
    ensures var f := Fields(t / 1_000_000);
      var micros := t % 1_000_000;
      && IsoSpace(t, zone) ==
         Padded(f[0], 4) + "-" + Padded(f[1], 2) + "-" + Padded(f[2], 2) + " "
         + Padded(f[3], 2) + ":" + Padded(f[4], 2) + ":" + Padded(f[5], 2)
         + ((if micros == 0 then "" else "." + Padded(micros, 6)) + zone)
      && IsoMillis(t) ==
         Padded(f[0], 4) + "-" + Padded(f[1], 2) + "-" + Padded(f[2], 2) + "T"
         + Padded(f[3], 2) + ":" + Padded(f[4], 2) + ":" + Padded(f[5], 2) + "." + (Padded(micros / 1000, 3) + "+00:00")
  {
    hide Fields, Padded, Render;
    var f := Fields(t / SECOND);
    SixFields(f, ["-", "-", " ", ":", ":", ""], Fraction(t % SECOND) + zone);
    SixFields(f, ["-", "-", "T", ":", ":", "."], Padded(t % SECOND / 1000, 3) + "+00:00");
    var space := Padded(f[0], 4) + "-" + Padded(f[1], 2) + "-" + Padded(f[2], 2) + " "
      + Padded(f[3], 2) + ":" + Padded(f[4], 2) + ":" + Padded(f[5], 2);
    assert space + "" == space;
  }

  lemma SixFields(f: seq<nat>, seps: seq<string>, tail: string)
    requires |f| == |seps| == 6
    ensures Render(f, WIDTHS, seps, tail) ==
            Padded(f[0], 4) + seps[0] + Padded(f[1], 2) + seps[1] + Padded(f[2], 2) + seps[2]
            + Padded(f[3], 2) + seps[3] + Padded(f[4], 2) + seps[4] + Padded(f[5], 2) + seps[5] + tail
  {
    hide Padded, Render;
    TwoFields(f, WIDTHS, seps, tail);
    TwoFields(f[2..], WIDTHS[2..], seps[2..], tail);
    TwoFields(f[4..], WIDTHS[4..], seps[4..], tail);
    assert f[2..][2..] == f[4..] && WIDTHS[2..][2..] == WIDTHS[4..] && seps[2..][2..] == seps[4..];
    assert f[4..][2..] == [] && Render(f[4..][2..], WIDTHS[4..][2..], seps[4..][2..], tail) == tail by {
      NoFields(f[4..][2..], WIDTHS[4..][2..], seps[4..][2..], tail);
    }
  }

  lemma NoFields(f: seq<nat>, widths: seq<nat>, seps: seq<string>, tail: string)
    requires |f| == |widths| == |seps| == 0
    ensures Render(f, widths, seps, tail) == tail
  {
  }

  lemma TwoFields(f: seq<nat>, widths: seq<nat>, seps: seq<string>, tail: string)
    requires |f| == |widths| == |seps| >= 2
    ensures Render(f, widths, seps, tail) ==
            Padded(f[0], widths[0]) + seps[0] + Padded(f[1], widths[1]) + seps[1]
            + Render(f[2..], widths[2..], seps[2..], tail)
  {
    hide Padded;
    assert f[1..][1..] == f[2..] && widths[1..][1..] == widths[2..] && seps[1..][1..] == seps[2..];
  }
}
