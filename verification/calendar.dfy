/** The proleptic Gregorian calendar as System.DateTime counts it: a day
    number (days since 0001-01-01, a Monday) and its civil date, computed the
    way DateTime.GetDatePart and DateTime.DateToTicks do, with 400-, 100-,
    4- and 1-year cycles and the cumulative month tables. Ticks are 100 ns. */
module Calendar {
  import opened Numeric

  /** Days from 0001-01-01 to 10000-01-01: the day numbers DateTime covers. */
  const DaysTo10000: int := 3652059

  /** 10 000 ticks per millisecond, 864 000 000 000 per day. */
  const TicksPerMillisecond: int := 10_000
  const TicksPerDay: int := 864_000_000_000

  /** The largest tick count a DateTime holds (9999-12-31 23:59:59.9999999). */
  const MaxTicks: int := 3652059 * 864_000_000_000 - 1

  predicate IsLeapYear(y: int) {
    y % 4 == 0 && (y % 100 != 0 || y % 400 == 0)
  }

  /** DaysToMonth365 / DaysToMonth366: the days of the year before month
      m + 1 (m = 0 gives 0, m = 12 the length of the year). */
  function DaysToMonth(leap: bool, m: int): (r: int)
    requires 0 <= m <= 12
    ensures 0 <= r <= 366
  {
    if leap then [0, 31, 60, 91, 121, 152, 182, 213, 244, 274, 305, 335, 366][m]
    else [0, 31, 59, 90, 120, 151, 181, 212, 243, 273, 304, 334, 365][m]
  }

  function DaysInYear(y: int): int {
    if IsLeapYear(y) then 366 else 365
  }

  /** DateTime.DaysInMonth */
  function DaysInMonth(y: int, m: int): (r: int)
    requires 1 <= m <= 12
    ensures 28 <= r <= 31
  {
    DaysToMonth(IsLeapYear(y), m) - DaysToMonth(IsLeapYear(y), m - 1)
  }

  datatype Date = Date(year: int, month: int, day: int)

  /** The dates DateTime can represent. */
  predicate ValidDate(dt: Date) {
    1 <= dt.year <= 9999 && 1 <= dt.month <= 12 && 1 <= dt.day <= DaysInMonth(dt.year, dt.month)
  }

  /** The day number of January 1 of year y. */
  function YearStart(y: int): int
    requires y >= 1
  {
    var k := y - 1;
    k * 365 + k / 4 - k / 100 + k / 400
  }

  /** DateTime.DateToTicks, in days: the day number of a valid date. */
  function DateToDays(dt: Date): int
    requires ValidDate(dt)
  {
    YearStart(dt.year) + DaysToMonth(IsLeapYear(dt.year), dt.month - 1) + dt.day - 1
  }

  // ---------------------------------------------------------------------
  // From a day number to a date

  /** A year, the zero-based day within it, and whether it is a leap year. */
  datatype YearDay = YearDay(year: int, dayOfYear: int, leap: bool)

  /** The 100-year cycles within a 400-year cycle: n1 / 36524, with the
      fourth cycle's extra day counted in the third; and the days left. */
  function Centuries(n1: int): (r: (int, int))
    requires 0 <= n1 < 146097
    ensures 0 <= r.0 <= 3 && n1 == r.0 * 36524 + r.1 && 0 <= r.1 <= 36524
    ensures r.0 < 3 ==> r.1 < 36524
  {
    var k := n1 / 36524;
    var a := if k == 4 then 3 else k;
    (a, n1 - a * 36524)
  }

  /** The years within a 4-year cycle: n3 / 365, with the leap day of the
      fourth year counted in the third; and the day of the year. */
  function Years(n3: int): (r: (int, int))
    requires 0 <= n3 < 1461
    ensures 0 <= r.0 <= 3 && n3 == r.0 * 365 + r.1 && 0 <= r.1 <= 365
    ensures r.0 < 3 ==> r.1 < 365
  {
    var k := n3 / 365;
    var c := if k == 4 then 3 else k;
    (c, n3 - c * 365)
  }

  /** The year part of GetDatePart: whole 400-, 100-, 4- and 1-year cycles;
      the leap flag is read off the cycle position. */
  function YearSplit(n: int): (r: YearDay)
    requires 0 <= n < 3652059
  {
    var y400 := n / 146097;
    var (y100, n2) := Centuries(n % 146097);
    var y4 := n2 / 1461;
    var (y1, n4) := Years(n2 % 1461);
    YearDay(y400 * 400 + y100 * 100 + y4 * 4 + y1 + 1, n4, y1 == 3 && (y4 != 24 || y100 == 3))
  }

  /** The month loop of GetDatePart: from month m, step on while the day of
      the year is at or past the start of the next month. */
  function MonthSearch(leap: bool, r: int, m: int): (k: int)
    requires 1 <= m <= 12 && DaysToMonth(leap, m - 1) <= r < DaysToMonth(leap, 12)
    ensures m <= k <= 12 && DaysToMonth(leap, k - 1) <= r < DaysToMonth(leap, k)
    decreases 12 - m
  {
    if r >= DaysToMonth(leap, m) then MonthSearch(leap, r, m + 1) else m
  }

  /** The first month GetDatePart tries: r >> 5, plus one. */
  lemma MonthGuess(leap: bool, r: int)
    requires 0 <= r < DaysToMonth(leap, 12)
    ensures 1 <= r / 32 + 1 <= 12 && DaysToMonth(leap, r / 32) <= r
  {
    var m := r / 32;
    assert m * 32 <= r;
    assert DaysToMonth(leap, m) <= m * 31;
  }

  /** The month and day part of GetDatePart: the civil date of day
      yd.dayOfYear of year yd.year. */
  function DateInYear(yd: YearDay): (dt: Date)
    requires 0 <= yd.dayOfYear < DaysToMonth(yd.leap, 12)
  {
    var r := yd.dayOfYear;
    MonthGuess(yd.leap, r);
    var m := MonthSearch(yd.leap, r, r / 32 + 1);
    Date(yd.year, m, DayOfMonth(yd.leap, r, m))
  }

  /** The day of the month of day r of the year, when r falls in month m. */
  function DayOfMonth(leap: bool, r: int, m: int): int
    requires 1 <= m <= 12
  {
    r - DaysToMonth(leap, m - 1) + 1
  }

  /** DateTime.GetDatePart: the civil date of a day number. */
  function CivilFromDays(n: int): (dt: Date)
    requires 0 <= n < 3652059
  {
    YearSplitBounds(n);
    DateInYear(YearSplit(n))
  }

  /** DateTime.DayOfWeek: 0 is Sunday; day 0 was a Monday. */
  function DayOfWeek(n: int): (w: int)
    ensures 0 <= w < 7
  {
    (n + 1) % 7
  }

  // ---------------------------------------------------------------------
  // The year cycles

  /** Cycle counts that GetDatePart can produce: whole 400-year cycles, at
      most three more 100-year cycles, 24 more 4-year cycles and 3 years. */
  predicate CycleCounts(q: int, a: int, b: int, c: int) {
    q >= 0 && 0 <= a < 4 && 0 <= b < 25 && 0 <= c < 4
  }

  /** The year after q 400-year, a 100-year, b 4-year cycles and c years
      starts at the sum of the cycles' lengths. */
  lemma CycleStart(q: int, a: int, b: int, c: int)
    requires CycleCounts(q, a, b, c)
    ensures YearStart(q * 400 + a * 100 + b * 4 + c + 1) == q * 146097 + a * 36524 + b * 1461 + c * 365
  {
    var k := q * 400 + a * 100 + b * 4 + c;
    assert k == (q * 100 + a * 25 + b) * 4 + c;
    DivMulAdd(q * 100 + a * 25 + b, c, 4);
    assert k == (q * 4 + a) * 100 + (b * 4 + c);
    DivMulAdd(q * 4 + a, b * 4 + c, 100);
    assert k == q * 400 + (a * 100 + b * 4 + c);
    DivMulAdd(q, a * 100 + b * 4 + c, 400);
  }

  /** The Gregorian leap rule in terms of the cycle position: the last year
      of a 4-year cycle, unless that cycle ends a century that does not end
      a 400-year cycle. */
  lemma CycleLeap(q: int, a: int, b: int, c: int)
    requires CycleCounts(q, a, b, c)
    ensures IsLeapYear(q * 400 + a * 100 + b * 4 + c + 1) == (c == 3 && (b != 24 || a == 3))
  {
    var y := q * 400 + a * 100 + b * 4 + c + 1;
    if c < 3 {
      assert y == (q * 100 + a * 25 + b) * 4 + (c + 1);
      DivMulAdd(q * 100 + a * 25 + b, c + 1, 4);
    } else {
      assert y == (q * 100 + a * 25 + b + 1) * 4;
      DivMulAdd(q * 100 + a * 25 + b + 1, 0, 4);
      if b < 24 {
        assert y == (q * 4 + a) * 100 + (b * 4 + 4);
        DivMulAdd(q * 4 + a, b * 4 + 4, 100);
      } else if a < 3 {
        assert y == (q * 4 + a + 1) * 100;
        DivMulAdd(q * 4 + a + 1, 0, 100);
        assert y == q * 400 + (a + 1) * 100;
        DivMulAdd(q, (a + 1) * 100, 400);
      } else {
        assert y == (q + 1) * 400;
        DivMulAdd(q + 1, 0, 400);
        DivMulAdd((q + 1) * 4, 0, 100);
      }
    }
  }

  /** The cycle counts YearSplit computes. */
  lemma YearSplitCycles(n: int) returns (q: int, a: int, b: int, c: int)
    requires 0 <= n < 3652059
    ensures CycleCounts(q, a, b, c)
    ensures var yd := YearSplit(n);
      yd.year == q * 400 + a * 100 + b * 4 + c + 1
      && n == q * 146097 + a * 36524 + b * 1461 + c * 365 + yd.dayOfYear
      && 0 <= yd.dayOfYear && yd.leap == (c == 3 && (b != 24 || a == 3))
      && yd.dayOfYear < (if yd.leap then 366 else 365)
  {
    q := n / 146097;
    var n2;
    a, n2 := Centuries(n % 146097).0, Centuries(n % 146097).1;
    b := n2 / 1461;
    var n4;
    c, n4 := Years(n2 % 1461).0, Years(n2 % 1461).1;
    assert b <= 24;
    assert b == 24 && a < 3 ==> n2 % 1461 < 1460;
  }

  lemma CenturiesOf(a: int, n2: int)
    requires 0 <= a <= 3 && 0 <= n2 <= 36524 && (a < 3 ==> n2 < 36524)
    ensures Centuries(a * 36524 + n2) == (a, n2)
  {
    if a < 3 || n2 < 36524 {
      DivMulAdd(a, n2, 36524);
    } else {
      DivMulAdd(4, 0, 36524);
    }
  }

  lemma YearsOf(c: int, r: int)
    requires 0 <= c <= 3 && 0 <= r <= 365 && (c < 3 ==> r < 365)
    ensures Years(c * 365 + r) == (c, r)
  {
    if c < 3 || r < 365 {
      DivMulAdd(c, r, 365);
    } else {
      DivMulAdd(4, 0, 365);
    }
  }

  /** YearSplit gives a year DateTime represents and a day within it. */
  lemma YearSplitBounds(n: int)
    requires 0 <= n < 3652059
    ensures var yd := YearSplit(n);
      1 <= yd.year <= 9999 && 0 <= yd.dayOfYear < (if yd.leap then 366 else 365)
  {
    var q, a, b, c := YearSplitCycles(n);
  }

  /** YearSplit cuts n into the start of its year and the day in that year,
      and its leap flag is the Gregorian leap rule. */
  lemma YearSplitCorrect(n: int)
    requires 0 <= n < 3652059
    ensures var yd := YearSplit(n);
      1 <= yd.year <= 9999 && 0 <= yd.dayOfYear < DaysInYear(yd.year)
      && n == YearStart(yd.year) + yd.dayOfYear && yd.leap == IsLeapYear(yd.year)
  {
    var q, a, b, c := YearSplitCycles(n);
    CycleStart(q, a, b, c);
    CycleLeap(q, a, b, c);
  }

  /** Year y - 1 as cycle counts. */
  lemma CyclesOfYear(y: int) returns (q: int, a: int, b: int, c: int)
    requires y >= 1
    ensures CycleCounts(q, a, b, c) && y == q * 400 + a * 100 + b * 4 + c + 1
  {
    var k := y - 1;
    var k1 := k % 400;
    var k2 := k1 % 100;
    q, a, b, c := k / 400, k1 / 100, k2 / 4, k2 % 4;
  }

  /** YearSplit of a day counted from the cycle starts recovers the counts. */
  lemma SplitOfCycles(q: int, a: int, b: int, c: int, r: int, n: int)
    requires CycleCounts(q, a, b, c) && 0 <= r
    requires r < (if c == 3 && (b != 24 || a == 3) then 366 else 365)
    requires n == q * 146097 + a * 36524 + b * 1461 + c * 365 + r && n < 3652059
    ensures YearSplit(n) == YearDay(q * 400 + a * 100 + b * 4 + c + 1, r, c == 3 && (b != 24 || a == 3))
  {
    var n3 := c * 365 + r;
    var n2 := b * 1461 + n3;
    CenturyBounds(a, b, n3);
    DivMulAdd(q, a * 36524 + n2, 146097);
    CenturiesOf(a, n2);
    DivMulAdd(b, n3, 1461);
    YearsOf(c, r);
  }

  /** The days within a 100-year cycle fit it (the last one holds a leap day more). */
  lemma CenturyBounds(a: int, b: int, n3: int)
    requires 0 <= a < 4 && 0 <= b < 25 && 0 <= n3 < 1461
    requires b == 24 && a < 3 ==> n3 < 1460
    ensures 0 <= b * 1461 + n3 <= 36524 && (a < 3 ==> b * 1461 + n3 < 36524)
    ensures a * 36524 + b * 1461 + n3 < 146097
  {
  }

  /** The start of year y plus a day inside it splits back into y and the day. */
  lemma YearSplitOf(y: int, r: int, n: int)
    requires 1 <= y <= 9999 && 0 <= r < DaysInYear(y) && n == YearStart(y) + r
    ensures 0 <= n < 3652059
    ensures YearSplit(n) == YearDay(y, r, IsLeapYear(y))
  {
    var q, a, b, c := CyclesOfYear(y);
    CycleStart(q, a, b, c);
    CycleLeap(q, a, b, c);
    SplitOfCycles(q, a, b, c, r, n);
  }

  // ---------------------------------------------------------------------
  // Round trips

  /** The month tables grow strictly month by month. */
  lemma {:induction false} DaysToMonthGrows(leap: bool, i: int, j: int)
    requires 0 <= i <= j <= 12
    ensures DaysToMonth(leap, i) <= DaysToMonth(leap, j)
    ensures i < j ==> DaysToMonth(leap, i) < DaysToMonth(leap, j)
    decreases j - i
  {
    if i < j {
      assert DaysToMonth(leap, i) < DaysToMonth(leap, i + 1);
      DaysToMonthGrows(leap, i + 1, j);
    }
  }

  /** The month loop stops at the one month whose days hold r. */
  lemma MonthSearchFinds(leap: bool, r: int, m: int, k: int)
    requires 1 <= m <= k <= 12 && DaysToMonth(leap, m - 1) <= r
    requires DaysToMonth(leap, k - 1) <= r < DaysToMonth(leap, k)
    ensures MonthSearch(leap, r, m) == k
  {
    var j := MonthSearch(leap, r, m);
    if j < k {
      DaysToMonthGrows(leap, j, k - 1);
    } else if j > k {
      DaysToMonthGrows(leap, k, j - 1);
    }
  }

  /** The first month tried is never past the month that holds r. */
  lemma GuessBelow(leap: bool, r: int, m: int)
    requires 1 <= m <= 12 && 0 <= r < DaysToMonth(leap, m)
    ensures r / 32 + 1 <= m
  {
    assert DaysToMonth(leap, m) <= 31 * m;
  }

  /** A day of the year in month m is found in month m. */
  lemma MonthOf(leap: bool, m: int, r: int)
    requires 1 <= m <= 12 && DaysToMonth(leap, m - 1) <= r < DaysToMonth(leap, m)
    ensures 0 <= r < DaysToMonth(leap, 12) && 1 <= r / 32 + 1 <= 12 && DaysToMonth(leap, r / 32) <= r
    ensures MonthSearch(leap, r, r / 32 + 1) == m
  {
    DaysToMonthGrows(leap, m, 12);
    MonthGuess(leap, r);
    GuessBelow(leap, r, m);
    MonthSearchFinds(leap, r, r / 32 + 1, m);
  }

  /** DateToTicks after GetDatePart gives back the day number. */
  lemma DaysRoundTrip(n: int)
    requires 0 <= n < 3652059
    ensures ValidDate(CivilFromDays(n)) && DateToDays(CivilFromDays(n)) == n
  {
    YearSplitCorrect(n);
    var yd := YearSplit(n);
    DateInYearValid(yd.year, yd.dayOfYear, yd.leap);
  }

  /** The date of a day inside a year is valid and counts back to that day. */
  lemma DateInYearValid(y: int, r: int, leap: bool)
    requires 1 <= y <= 9999 && 0 <= r < DaysInYear(y) && leap == IsLeapYear(y)
    ensures 0 <= r < DaysToMonth(leap, 12)
    ensures var dt := DateInYear(YearDay(y, r, leap));
      ValidDate(dt) && DateToDays(dt) == YearStart(y) + r
  {
    var m := MonthFound(y, r, leap);
    DayOfMonthValid(y, m, r, leap);
  }

  /** DateInYear picks the month whose days hold r. */
  lemma MonthFound(y: int, r: int, leap: bool) returns (m: int)
    requires 0 <= r < DaysToMonth(leap, 12)
    ensures 1 <= m <= 12 && DaysToMonth(leap, m - 1) <= r < DaysToMonth(leap, m)
    ensures DateInYear(YearDay(y, r, leap)) == Date(y, m, DayOfMonth(leap, r, m))
  {
    MonthGuess(leap, r);
    m := MonthSearch(leap, r, r / 32 + 1);
  }

  /** A day of the year inside month m gives a valid date in month m. */
  lemma DayOfMonthValid(y: int, m: int, r: int, leap: bool)
    requires 1 <= y <= 9999 && 1 <= m <= 12 && leap == IsLeapYear(y)
    requires DaysToMonth(leap, m - 1) <= r < DaysToMonth(leap, m)
    ensures var dt := Date(y, m, DayOfMonth(leap, r, m));
      ValidDate(dt) && DateToDays(dt) == YearStart(y) + r
  {
  }

  /** GetDatePart after DateToTicks gives back the date. */
  lemma DateRoundTrip(dt: Date)
    requires ValidDate(dt)
    ensures 0 <= DateToDays(dt) < 3652059 && CivilFromDays(DateToDays(dt)) == dt
  {
    var leap := IsLeapYear(dt.year);
    var r := DaysToMonth(leap, dt.month - 1) + dt.day - 1;
    var n := DateToDays(dt);
    DaysToMonthGrows(leap, dt.month, 12);
    YearSplitOf(dt.year, r, n);
    DateInYearOf(dt.year, r, leap, dt.month, dt.day);
  }

  /** The date of the day r of a year that falls on day d of month m. */
  lemma DateInYearOf(y: int, r: int, leap: bool, m: int, d: int)
    requires 1 <= m <= 12 && DaysToMonth(leap, m - 1) <= r < DaysToMonth(leap, m)
    requires r == DaysToMonth(leap, m - 1) + d - 1
    ensures 0 <= r < DaysToMonth(leap, 12)
    ensures DateInYear(YearDay(y, r, leap)) == Date(y, m, d)
  {
    MonthOf(leap, m, r);
  }

  /** Consecutive day numbers fall on consecutive days of the week. */
  lemma NextWeekday(n: int, k: int)
    ensures DayOfWeek(n + k) == (DayOfWeek(n) + k) % 7
  {
  }

  // ---------------------------------------------------------------------
  // Months in order

  /** Months counted from January of year 0. */
  function MonthIndex(dt: Date): int {
    dt.year * 12 + dt.month - 1
  }

  /** A year is as long as the gap between its start and the next one's. */
  lemma YearStartNext(y: int)
    requires y >= 1
    ensures YearStart(y + 1) == YearStart(y) + DaysInYear(y)
  {
    var k := y - 1;
    assert y / 4 - k / 4 == (if y % 4 == 0 then 1 else 0);
    assert y / 100 - k / 100 == (if y % 100 == 0 then 1 else 0);
    assert y / 400 - k / 400 == (if y % 400 == 0 then 1 else 0);
  }

  /** Every later year starts after the whole of year y1. */
  lemma {:induction false} YearStartGrows(y1: int, y2: int)
    requires 1 <= y1 < y2
    ensures YearStart(y1) + DaysInYear(y1) <= YearStart(y2)
    decreases y2 - y1
  {
    YearStartNext(y1);
    if y1 + 1 < y2 {
      YearStartGrows(y1 + 1, y2);
    }
  }

  /** A valid date lies inside its year. */
  lemma DayInYear(dt: Date)
    requires ValidDate(dt)
    ensures YearStart(dt.year) <= DateToDays(dt) < YearStart(dt.year) + DaysInYear(dt.year)
  {
    DaysToMonthGrows(IsLeapYear(dt.year), dt.month, 12);
  }

  /** A date in a later month has a larger day number. */
  lemma LaterMonthLaterDay(a: Date, b: Date)
    requires ValidDate(a) && ValidDate(b) && MonthIndex(a) < MonthIndex(b)
    ensures DateToDays(a) < DateToDays(b)
  {
    if a.year == b.year {
      LaterMonthSameYear(a, b);
    } else {
      DayInYear(a);
      DayInYear(b);
      YearStartGrows(a.year, b.year);
    }
  }

  lemma LaterMonthSameYear(a: Date, b: Date)
    requires ValidDate(a) && ValidDate(b) && a.year == b.year && a.month < b.month
    ensures DateToDays(a) < DateToDays(b)
  {
    var leap := IsLeapYear(a.year);
    DaysToMonthGrows(leap, a.month, b.month - 1);
    assert DaysToMonth(leap, a.month - 1) + a.day <= DaysToMonth(leap, a.month);
  }
}
