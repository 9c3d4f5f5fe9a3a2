/** GetIncrementDateFunc: the step from one reporting period to the next.
    A DateTimeOffset is modelled as its UTC tick count and its offset from
    UTC in ticks; its clock reading is their sum. The calendar view of a
    clock reading is the one of System.DateTime (module Calendar). */
module PeriodStep {
  import opened Wrappers
  import opened Numeric
  import opened Calendar

  /** 14 hours: the largest offset a DateTimeOffset accepts. */
  const MaxOffset: int := 504_000_000_000

  /** A DateTimeOffset: UTC ticks and the offset, both in 100 ns ticks. */
  datatype Instant = Instant(utc: int, offset: int)

  /** DateTimeOffset.ClockDateTime, in ticks. */
  function Clock(d: Instant): int {
    d.utc + d.offset
  }

  /** The tick counts a DateTime holds. */
  predicate InRange(t: int) {
    0 <= t <= MaxTicks
  }

  /** Offsets a DateTimeOffset accepts: whole minutes, at most 14 hours. */
  predicate ValidOffset(o: int) {
    o % 600_000_000 == 0 && -MaxOffset <= o <= MaxOffset
  }

  /** Every DateTimeOffset value: a valid offset, and both its UTC time
      and its clock time inside the DateTime range. */
  predicate ValidInstant(d: Instant) {
    ValidOffset(d.offset) && InRange(d.utc) && InRange(Clock(d))
  }

  /** new DateTimeOffset(new DateTime(clock), offset): the DateTime rejects
      a clock outside its range, then the offset is validated (whole
      minutes first, then the 14-hour bound), then the UTC time. */
  function FromClock(clock: int, offset: int): (r: Result<Instant>)
    ensures r.Ok? <==> InRange(clock) && ValidOffset(offset) && InRange(clock - offset)
    ensures r.Ok? ==> ValidInstant(r.value) && Clock(r.value) == clock && r.value.offset == offset
    ensures r.Err? ==> r.error == (if InRange(clock) && offset % 600_000_000 != 0 then Argument else ArgumentOutOfRange)
  {
    if !InRange(clock) then Err(ArgumentOutOfRange)
    else if offset % 600_000_000 != 0 then Err(Argument)
    else if offset < -MaxOffset || offset > MaxOffset then Err(ArgumentOutOfRange)
    else if !InRange(clock - offset) then Err(ArgumentOutOfRange)
    else Ok(Instant(clock - offset, offset))
  }

  /** d + s: the clock moves by s ticks, the offset stays. */
  function AddSpan(d: Instant, s: int): (r: Result<Instant>)
    requires ValidInstant(d)
    ensures r.Ok? <==> InRange(Clock(d) + s) && InRange(d.utc + s)
    ensures r.Ok? ==> r.value == Instant(d.utc + s, d.offset)
  {
    FromClock(Clock(d) + s, d.offset)
  }

  /** DateTimeOffset.AddDays for a whole number of days. */
  function AddDays(d: Instant, k: int): (r: Result<Instant>)
    requires ValidInstant(d)
    ensures r.Ok? <==> InRange(Clock(d) + k * 864_000_000_000) && InRange(d.utc + k * 864_000_000_000)
    ensures r.Ok? ==> r.value == Instant(d.utc + k * 864_000_000_000, d.offset)
  {
    FromClock(Clock(d) + k * 864_000_000_000, d.offset)
  }

  /** DateTimeOffset.ToOffset: the same instant seen from offset tz. */
  function ToOffset(d: Instant, tz: int): (r: Result<Instant>)
    requires ValidInstant(d)
    ensures r.Ok? <==> ValidOffset(tz) && InRange(d.utc + tz)
    ensures r.Ok? ==> r.value == Instant(d.utc, tz)
  {
    FromClock(d.utc + tz, tz)
  }

  // ---------------------------------------------------------------------
  // The calendar view of a clock reading

  /** The civil date of a clock reading (DateTime.Year, Month, Day). */
  function DateOf(c: int): (dt: Date)
    requires InRange(c)
  {
    DayInRange(c);
    CivilFromDays(c / 864_000_000_000)
  }

  lemma DayInRange(c: int)
    requires InRange(c)
    ensures 0 <= c / 864_000_000_000 < 3652059
  {
  }

  /** DateTime.Hour, Minute, Second and Millisecond. */
  function Hour(c: int): int { (c / 36_000_000_000) % 24 }
  function Minute(c: int): int { (c / 600_000_000) % 60 }
  function Second(c: int): int { (c / 10_000_000) % 60 }
  function Millisecond(c: int): int { (c / 10_000) % 1000 }

  /** TimeSpan.TimeToTicks */
  function TimeToTicks(h: int, m: int, s: int): int {
    (h * 3600 + m * 60 + s) * 10_000_000
  }

  /** new DateTimeOffset(y, M, 1, h, m, s, ms, tz) with the year, month and
      time fields read off the clock of d2: midnight on the first of the
      month plus the time of day to the millisecond. */
  function StartOfMonth(d2: Instant, tz: int): (r: Result<Instant>)
    requires ValidInstant(d2)
  {
    var c := Clock(d2);
    var dt := DateOf(c);
    DaysRoundTrip(c / 864_000_000_000);
    var ticks := DateToDays(Date(dt.year, dt.month, 1)) * 864_000_000_000
      + TimeToTicks(Hour(c), Minute(c), Second(c)) + Millisecond(c) * 10_000;
    FromClock(ticks, tz)
  }

  /** The year and month `months` months after (y, m), computed the way
      DateTime.AddMonths does, with C# division and remainder. */
  function ShiftMonth(y: int, m: int, months: int): (r: (int, int))
    requires 1 <= m <= 12
    ensures 1 <= r.1 <= 12
    ensures r.0 * 12 + r.1 - 1 == y * 12 + m - 1 + months
  {
    var i := m - 1 + months;
    if i >= 0 then (y + Quot(i, 12), Rem(i, 12) + 1)
    else (y + Quot(i - 11, 12), 12 + Rem(i + 1, 12))
  }

  /** DateTimeOffset.AddMonths: the clock's date moves by whole months,
      the day is clamped to the length of the new month, the time of day
      and the offset stay. */
  function AddMonths(d: Instant, months: int): (r: Result<Instant>)
    requires ValidInstant(d)
  {
    if months < -120000 || months > 120000 then Err(ArgumentOutOfRange)
    else
      var c := Clock(d);
      var dt := DateOf(c);
      DaysRoundTrip(c / 864_000_000_000);
      var (y, m) := ShiftMonth(dt.year, dt.month, months);
      if y < 1 || y > 9999 then Err(ArgumentOutOfRange)
      else
        var day := if dt.day > DaysInMonth(y, m) then DaysInMonth(y, m) else dt.day;
        FromClock(DateToDays(Date(y, m, day)) * 864_000_000_000 + c % 864_000_000_000, d.offset)
  }

  // ---------------------------------------------------------------------
  // GetIncrementDateFunc

  /** The stepping rules GetIncrementDateFunc chooses between. */
  datatype Period = Fixed | Weekly | Monthly | Quarterly | HalfYearly

  /** The rule for a step of `step` ticks: a non-negative step is added as
      it is; a negative one is read as (int) TotalDays, truncated toward
      zero, and must be -7, -30, -90 or -180. */
  function IncrementKind(step: int): (r: Result<Period>)
    ensures r == Ok(Fixed) <==> step >= 0
    ensures r == Ok(Weekly) <==> -8 * 864_000_000_000 < step <= -7 * 864_000_000_000
    ensures r == Ok(Monthly) <==> -31 * 864_000_000_000 < step <= -30 * 864_000_000_000
    ensures r == Ok(Quarterly) <==> -91 * 864_000_000_000 < step <= -90 * 864_000_000_000
    ensures r == Ok(HalfYearly) <==> -181 * 864_000_000_000 < step <= -180 * 864_000_000_000
    ensures r.Err? ==> r.error == ArgumentOutOfRange
  {
    if step >= 0 then Ok(Fixed)
    else
      var days := Quot(step, 864_000_000_000);
      if days == -7 then Ok(Weekly)
      else if days == -30 then Ok(Monthly)
      else if days == -90 then Ok(Quarterly)
      else if days == -180 then Ok(HalfYearly)
      else Err(ArgumentOutOfRange)
  }

  /** The days from a day of week w (0 = Sunday) to the next Sunday. */
  function WeekGap(w: int): int {
    if w == 0 then 7
    else if w == 1 then 6
    else if w == 2 then 5
    else if w == 3 then 4
    else if w == 4 then 3
    else if w == 5 then 2
    else if w == 6 then 1
    else 7
  }

  /** The months from the first of month m to the next period start. */
  function MonthGap(p: Period, m: int): int
    requires p.Monthly? || p.Quarterly? || p.HalfYearly?
    requires 1 <= m <= 12
  {
    match p
    case Monthly => 1
    case Quarterly =>
      var q := m % 3;
      if q == 0 then 1 else if q == 1 then 3 else 2
    case HalfYearly =>
      var h := m % 6;
      if h == 0 then 1 else if h == 1 then 6 else if h == 2 then 5
      else if h == 3 then 4 else if h == 4 then 3 else 2
  }

  /** The length in months of a calendar period. */
  function PeriodMonths(p: Period): int
    requires p.Monthly? || p.Quarterly? || p.HalfYearly?
  {
    if p.Monthly? then 1 else if p.Quarterly? then 3 else 6
  }

  /** Month index i (MonthIndex: 12 per year, January 0) opens a period of
      p: any month, January, April, July, October, or January and July. */
  predicate IsPeriodStart(p: Period, i: int)
    requires p.Monthly? || p.Quarterly? || p.HalfYearly?
  {
    i % PeriodMonths(p) == 0
  }

  /** The function GetIncrementDateFunc returns, applied to d and s; tz is
      the time zone it was created with. */
  function Increment(p: Period, tz: int, d: Instant, s: int): (r: Result<Instant>)
    requires ValidInstant(d)
  {
    match p
    case Fixed => AddSpan(d, s)
    case Weekly => AddDays(d, WeekGap(DayOfWeek(Clock(d) / 864_000_000_000)))
    case _ =>
      var d2 :- ToOffset(d, tz);
      var first :- StartOfMonth(d2, tz);
      var next :- AddMonths(first, MonthGap(p, DateOf(Clock(first)).month));
      ToOffset(next, d.offset)
  }

  // ---------------------------------------------------------------------
  // The time of day

  /** The hour, minute, second and millisecond fields put back together
      give the time of day truncated to the millisecond. */
  lemma TimeFields(c: int)
    requires c >= 0
    ensures TimeToTicks(Hour(c), Minute(c), Second(c)) + Millisecond(c) * 10_000
      == (c % 864_000_000_000) / 10_000 * 10_000
  {
    var D, v := c / 864_000_000_000, (c % 864_000_000_000) / 10_000;
    var e := (c % 864_000_000_000) % 10_000;
    var ms, secs := v % 1000, v / 1000;
    var s, mins := secs % 60, secs / 60;
    var mi, h := mins % 60, mins / 60;
    assert v == ((h * 60 + mi) * 60 + s) * 1000 + ms;
    TimeFieldsOf(c, D, h, mi, s, ms, e);
  }

  /** The fields of a clock reading given as day, hour, minute, second,
      millisecond and sub-millisecond ticks. */
  lemma TimeFieldsOf(c: int, D: int, h: int, mi: int, s: int, ms: int, e: int)
    requires 0 <= h < 24 && 0 <= mi < 60 && 0 <= s < 60 && 0 <= ms < 1000 && 0 <= e < 10_000
    requires c == ((((D * 24 + h) * 60 + mi) * 60 + s) * 1000 + ms) * 10_000 + e
    ensures Hour(c) == h && Minute(c) == mi && Second(c) == s && Millisecond(c) == ms
  {
    var hs := D * 24 + h;
    DivMulAdd(hs, ((mi * 60 + s) * 1000 + ms) * 10_000 + e, 36_000_000_000);
    DivMulAdd(D, h, 24);
    var mm := hs * 60 + mi;
    DivMulAdd(mm, (s * 1000 + ms) * 10_000 + e, 600_000_000);
    DivMulAdd(hs, mi, 60);
    var ss := mm * 60 + s;
    DivMulAdd(ss, ms * 10_000 + e, 10_000_000);
    DivMulAdd(mm, s, 60);
    DivMulAdd(ss * 1000 + ms, e, 10_000);
    DivMulAdd(ss, ms, 1000);
  }

  // ---------------------------------------------------------------------
  // The building blocks

  /** A clock reading on day dt at t ticks past midnight. */
  lemma DateAt(c: int, dt: Date, t: int)
    requires ValidDate(dt) && 0 <= t < 864_000_000_000
    requires c == DateToDays(dt) * 864_000_000_000 + t
    ensures InRange(c) && DateOf(c) == dt
    ensures c / 864_000_000_000 == DateToDays(dt) && c % 864_000_000_000 == t
  {
    DivMulAddAt(c, DateToDays(dt), t, 864_000_000_000);
    DateRoundTrip(dt);
  }

  /** The clock reading's date is valid and counts back to its day number. */
  lemma DateOfValid(c: int)
    requires InRange(c)
    ensures ValidDate(DateOf(c)) && DateToDays(DateOf(c)) == c / 864_000_000_000
  {
    DaysRoundTrip(c / 864_000_000_000);
  }

  /** The first of the month of d2's clock, at d2's time of day to the
      millisecond, read in offset tz. */
  lemma StartOfMonthSpec(d2: Instant, tz: int)
    requires ValidInstant(d2)
    ensures var r := StartOfMonth(d2, tz); var dt := DateOf(Clock(d2));
      (!ValidOffset(tz) ==> r.Err?)
      && (r.Ok? ==>
        r.value.offset == tz && DateOf(Clock(r.value)) == Date(dt.year, dt.month, 1)
        && Clock(r.value) % 864_000_000_000 == Clock(d2) % 864_000_000_000 / 10_000 * 10_000)
  {
    var c := Clock(d2);
    var dt := DateOf(c);
    DateOfValid(c);
    var r := StartOfMonth(d2, tz);
    if r.Ok? {
      TimeFields(c);
      DateAt(Clock(r.value), Date(dt.year, dt.month, 1), c % 864_000_000_000 / 10_000 * 10_000);
    }
  }

  /** AddMonths moves the month index by `months`, keeps the day unless the
      new month is shorter, and keeps the time of day and the offset. */
  lemma AddMonthsSpec(d: Instant, months: int)
    requires ValidInstant(d)
    ensures var r := AddMonths(d, months); var dt := DateOf(Clock(d));
      (months < -120000 || months > 120000 ==> r == Err(ArgumentOutOfRange))
      && (r.Ok? ==>
        var nd := DateOf(Clock(r.value));
        r.value.offset == d.offset
        && MonthIndex(nd) == MonthIndex(dt) + months
        && nd.day == (if dt.day > DaysInMonth(nd.year, nd.month) then DaysInMonth(nd.year, nd.month) else dt.day)
        && Clock(r.value) % 864_000_000_000 == Clock(d) % 864_000_000_000)
  {
    if -120000 <= months <= 120000 {
      var c := Clock(d);
      var dt := DateOf(c);
      DateOfValid(c);
      var (y, m) := ShiftMonth(dt.year, dt.month, months);
      var r := AddMonths(d, months);
      if r.Ok? {
        var day := if dt.day > DaysInMonth(y, m) then DaysInMonth(y, m) else dt.day;
        DateAt(Clock(r.value), Date(y, m, day), c % 864_000_000_000);
      }
    }
  }

  // ---------------------------------------------------------------------
  // What each rule does

  /** A non-negative step is added to d as it is. */
  lemma FixedStep(step: int, tz: int, d: Instant, s: int)
    requires ValidInstant(d) && IncrementKind(step) == Ok(Fixed)
    ensures var r := Increment(Fixed, tz, d, s);
      (r.Ok? <==> InRange(Clock(d) + s) && InRange(d.utc + s))
      && (r.Ok? ==> r.value == Instant(d.utc + s, d.offset))
  {
  }

  /** The weekly rule moves to the next Sunday of d's own clock, 1 to 7
      whole days on, keeping the time of day and the offset; a Sunday
      moves a full week. */
  lemma WeeklyNextSunday(tz: int, d: Instant, s: int) returns (k: int)
    requires ValidInstant(d)
    ensures var n := Clock(d) / 864_000_000_000; var r := Increment(Weekly, tz, d, s);
      1 <= k <= 7 && DayOfWeek(n + k) == 0
      && (forall j | n < j < n + k :: DayOfWeek(j) != 0)
      && (DayOfWeek(n) == 0 ==> k == 7)
      && (r.Ok? <==> InRange(Clock(d) + k * 864_000_000_000) && InRange(d.utc + k * 864_000_000_000))
      && (r.Ok? ==> r.value == Instant(d.utc + k * 864_000_000_000, d.offset)
                    && Clock(r.value) / 864_000_000_000 == n + k
                    && Clock(r.value) % 864_000_000_000 == Clock(d) % 864_000_000_000)
  {
    var n := Clock(d) / 864_000_000_000;
    var w := DayOfWeek(n);
    k := WeekGap(w);
    NextWeekday(n, k);
    forall j | n < j < n + k
      ensures DayOfWeek(j) != 0
    {
      NextWeekday(n, j - n);
    }
    var r := Increment(Weekly, tz, d, s);
    if r.Ok? {
      DivMulAddAt(Clock(r.value), n + k, Clock(d) % 864_000_000_000, 864_000_000_000);
    }
  }

  /** The calendar rules, seen in offset tz: the result falls on the first
      of the month MonthGap months after d's month (the year rolls over),
      at d's time of day cut to the millisecond, later than d, and is given
      in d's own offset. An invalid tz fails. */
  lemma CalendarStep(p: Period, tz: int, d: Instant, s: int)
    requires ValidInstant(d) && (p.Monthly? || p.Quarterly? || p.HalfYearly?)
    ensures var r := Increment(p, tz, d, s);
      (!ValidOffset(tz) ==> r.Err?)
      && (r.Ok? ==>
        var here, there := Instant(d.utc, tz), Instant(r.value.utc, tz);
        InRange(Clock(here)) && InRange(Clock(there))
        && r.value.offset == d.offset && r.value.utc > d.utc
        && var a := DateOf(Clock(here)); var b := DateOf(Clock(there));
        b.day == 1 && MonthIndex(b) == MonthIndex(a) + MonthGap(p, a.month)
        && Clock(there) % 864_000_000_000 == Clock(here) % 864_000_000_000 / 10_000 * 10_000)
  {
    var r := Increment(p, tz, d, s);
    if r.Ok? {
      var first, next := CalendarParts(p, tz, d, s);
      CalendarFacts(p, tz, Instant(d.utc, tz), first, next);
      assert Instant(r.value.utc, tz) == next;
    }
  }

  /** The first of the month and the period start after it, for an
      instant d2 already moved to offset tz. */
  lemma CalendarFacts(p: Period, tz: int, d2: Instant, first: Instant, next: Instant)
    requires ValidInstant(d2) && d2.offset == tz && (p.Monthly? || p.Quarterly? || p.HalfYearly?)
    requires StartOfMonth(d2, tz) == Ok(first) && ValidInstant(first)
    requires AddMonths(first, MonthGap(p, DateOf(Clock(first)).month)) == Ok(next)
    ensures next.offset == tz && Clock(d2) < Clock(next)
    ensures var a := DateOf(Clock(d2)); var b := DateOf(Clock(next));
      b.day == 1 && MonthIndex(b) == MonthIndex(a) + MonthGap(p, a.month)
    ensures Clock(next) % 864_000_000_000 == Clock(d2) % 864_000_000_000 / 10_000 * 10_000
  {
    StartOfMonthSpec(d2, tz);
    var k := MonthGap(p, DateOf(Clock(first)).month);
    AddMonthsSpec(first, k);
    DateOfValid(Clock(next));
    CalendarChain(p, Clock(d2), Clock(first), Clock(next), k);
  }

  /** The same facts for the three clock readings alone: d2's (c), the
      first of its month (cf) and the period start (cn). */
  lemma CalendarChain(p: Period, c: int, cf: int, cn: int, k: int)
    requires InRange(c) && InRange(cf) && InRange(cn) && (p.Monthly? || p.Quarterly? || p.HalfYearly?)
    requires var a := DateOf(c); DateOf(cf) == Date(a.year, a.month, 1)
    requires cf % 864_000_000_000 == c % 864_000_000_000 / 10_000 * 10_000
    requires k == MonthGap(p, DateOf(cf).month)
    requires MonthIndex(DateOf(cn)) == MonthIndex(DateOf(cf)) + k
    requires cn % 864_000_000_000 == cf % 864_000_000_000
    ensures c < cn
    ensures MonthIndex(DateOf(cn)) == MonthIndex(DateOf(c)) + MonthGap(p, DateOf(c).month)
    ensures cn % 864_000_000_000 == c % 864_000_000_000 / 10_000 * 10_000
  {
    DateOfValid(c);
    MonthsOn(p, DateOf(c), DateOf(cf), DateOf(cn), k);
    StepIsLater(c, cn, k);
  }

  /** The first of a's month, moved k = MonthGap months on, is MonthGap
      months after a's month. */
  lemma MonthsOn(p: Period, a: Date, fd: Date, nd: Date, k: int)
    requires 1 <= a.month <= 12 && (p.Monthly? || p.Quarterly? || p.HalfYearly?)
    requires fd == Date(a.year, a.month, 1) && k == MonthGap(p, fd.month)
    requires MonthIndex(nd) == MonthIndex(fd) + k
    ensures k >= 1 && MonthIndex(nd) == MonthIndex(a) + k
    ensures MonthIndex(nd) == MonthIndex(a) + MonthGap(p, a.month)
  {
  }

  /** The intermediate values of a calendar rule that succeeds. */
  lemma CalendarParts(p: Period, tz: int, d: Instant, s: int) returns (first: Instant, next: Instant)
    requires ValidInstant(d) && (p.Monthly? || p.Quarterly? || p.HalfYearly?)
    requires Increment(p, tz, d, s).Ok?
    ensures ValidOffset(tz) && InRange(d.utc + tz) && ValidInstant(Instant(d.utc, tz))
    ensures StartOfMonth(Instant(d.utc, tz), tz) == Ok(first) && ValidInstant(first)
    ensures AddMonths(first, MonthGap(p, DateOf(Clock(first)).month)) == Ok(next) && ValidInstant(next)
    ensures Increment(p, tz, d, s) == Ok(Instant(next.utc, d.offset))
  {
    var d2 := ToOffset(d, tz).value;
    first := StartOfMonth(d2, tz).value;
    next := AddMonths(first, MonthGap(p, DateOf(Clock(first)).month)).value;
  }

  /** Equal clock readings have equal dates and times of day. */
  lemma SameClock(c1: int, c2: int)
    requires c1 == c2 && InRange(c2)
    ensures InRange(c1) && DateOf(c1) == DateOf(c2)
    ensures c1 % 864_000_000_000 == c2 % 864_000_000_000
  {
  }

  /** A clock reading k >= 1 months on, at a time of day no later, is later. */
  lemma StepIsLater(c: int, c2: int, k: int)
    requires InRange(c) && InRange(c2) && k >= 1
    requires MonthIndex(DateOf(c2)) == MonthIndex(DateOf(c)) + k
    requires c2 % 864_000_000_000 <= c % 864_000_000_000
    ensures c < c2
  {
    DateOfValid(c);
    DateOfValid(c2);
    LaterMonthLaterDay(DateOf(c), DateOf(c2));
  }

  // ---------------------------------------------------------------------
  // The period starts

  /** MonthGap leads from month index i to the first period start after
      it, at most one period on. */
  lemma MonthGapNextStart(p: Period, y: int, m: int)
    requires (p.Monthly? || p.Quarterly? || p.HalfYearly?) && 1 <= m <= 12
    ensures var i, k := y * 12 + m - 1, MonthGap(p, m);
      1 <= k <= PeriodMonths(p) && IsPeriodStart(p, i + k)
      && forall j | i < j < i + k :: !IsPeriodStart(p, j)
  {
    var n := PeriodMonths(p);
    var i := y * 12 + m - 1;
    if p.Quarterly? {
      DivMulAddAt(i, y * 4 + (m - 1) / 3, (m - 1) % 3, 3);
    } else if p.HalfYearly? {
      DivMulAddAt(i, y * 2 + (m - 1) / 6, (m - 1) % 6, 6);
    }
    assert MonthGap(p, m) == n - i % n;
    NextMultiple(i, n);
  }

  /** n - i % n is the distance from i to the next multiple of n. */
  lemma NextMultiple(i: int, n: int)
    requires n > 0
    ensures var k := n - i % n;
      1 <= k <= n && (i + k) % n == 0 && forall j | i < j < i + k :: j % n != 0
  {
    var q, k := i / n, n - i % n;
    DivMulAddAt(i + k, q + 1, 0, n);
    forall j | i < j < i + k
      ensures j % n != 0
    {
      DivMulAddAt(j, q, j - q * n, n);
    }
  }

  /** The calendar rules land on the first day of the first period start
      after d's month, seen in offset tz: the next month, the next of
      January, April, July and October, or the next of January and July. */
  lemma CalendarNextStart(p: Period, tz: int, d: Instant, s: int)
    requires ValidInstant(d) && (p.Monthly? || p.Quarterly? || p.HalfYearly?)
    ensures var r := Increment(p, tz, d, s);
      r.Ok? ==>
        var here, there := Instant(d.utc, tz), Instant(r.value.utc, tz);
        InRange(Clock(here)) && InRange(Clock(there))
        && var a := DateOf(Clock(here)); var b := DateOf(Clock(there));
        b.day == 1 && IsPeriodStart(p, MonthIndex(b))
        && MonthIndex(a) < MonthIndex(b) <= MonthIndex(a) + PeriodMonths(p)
        && forall j | MonthIndex(a) < j < MonthIndex(b) :: !IsPeriodStart(p, j)
  {
    CalendarStep(p, tz, d, s);
    var r := Increment(p, tz, d, s);
    if r.Ok? {
      var c := Clock(Instant(d.utc, tz));
      DateOfValid(c);
      PeriodStartAfter(p, DateOf(c), DateOf(Clock(Instant(r.value.utc, tz))));
    }
  }

  /** A date MonthGap months after date a is in the first period start
      after a's month. */
  lemma PeriodStartAfter(p: Period, a: Date, b: Date)
    requires (p.Monthly? || p.Quarterly? || p.HalfYearly?) && 1 <= a.month <= 12
    requires MonthIndex(b) == MonthIndex(a) + MonthGap(p, a.month)
    ensures IsPeriodStart(p, MonthIndex(b))
    ensures MonthIndex(a) < MonthIndex(b) <= MonthIndex(a) + PeriodMonths(p)
    ensures forall j | MonthIndex(a) < j < MonthIndex(b) :: !IsPeriodStart(p, j)
  {
    MonthGapNextStart(p, a.year, a.month);
  }
}
