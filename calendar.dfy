/**
 * Calendar arithmetic of the planner (app.js): local-midnight `Date` values are
 * modelled as civil dates, with a day number that plays the role of the
 * millisecond timestamp when dates are compared or subtracted.
 */
module Calendar {
  import opened Text

  /** A calendar date; `month` is 1-based (JavaScript's `getMonth() + 1`). */
  datatype Date = Date(year: int, month: int, day: int)

  predicate IsLeapYear(y: int) {
    y % 4 == 0 && (y % 100 != 0 || y % 400 == 0)
  }

  function DaysInMonth(y: int, m: int): (n: int)
    requires 1 <= m <= 12
    ensures 28 <= n <= 31
    ensures n == 29 <==> m == 2 && IsLeapYear(y)
  {
    if m == 2 then (if IsLeapYear(y) then 29 else 28)
    else if m == 4 || m == 6 || m == 9 || m == 11 then 30
    else 31
  }

  predicate ValidDate(d: Date) {
    1 <= d.month <= 12 && 1 <= d.day <= DaysInMonth(d.year, d.month)
  }

  type CivilDate = d: Date | ValidDate(d) witness Date(1970, 1, 1)

  function YearLength(y: int): int {
    if IsLeapYear(y) then 366 else 365
  }

  /** Days from 0000-01-01 (proleptic Gregorian) to January 1st of year `y`. */
  function DaysBeforeYear(y: int): int {
    365 * y + (y + 3) / 4 - (y + 99) / 100 + (y + 399) / 400
  }

  /** Days from January 1st to the first day of month `m` of year `y`. */
  function DaysBeforeMonth(y: int, m: int): int
    requires 1 <= m <= 12
  {
    var leap := if IsLeapYear(y) then 1 else 0;
    if m == 1 then 0 else if m == 2 then 31 else if m == 3 then 59 + leap
    else if m == 4 then 90 + leap else if m == 5 then 120 + leap else if m == 6 then 151 + leap
    else if m == 7 then 181 + leap else if m == 8 then 212 + leap else if m == 9 then 243 + leap
    else if m == 10 then 273 + leap else if m == 11 then 304 + leap else 334 + leap
  }

  lemma DaysBeforeNextYear(y: int)
    ensures DaysBeforeYear(y + 1) == DaysBeforeYear(y) + YearLength(y)
  {
    CycleStep4(y);
    CycleStep100(y);
    CycleStep400(y);
    LeapDivisibility(y);
  }

  /** A year divisible by 400 is divisible by 100, and one divisible by 100 is divisible by 4. */
  lemma LeapDivisibility(y: int)
    ensures y % 400 == 0 ==> y % 100 == 0
    ensures y % 100 == 0 ==> y % 4 == 0
  {
    var k, j := y / 400, y / 100;
    if y % 400 == 0 {
      assert y == 400 * k;
      assert j == 4 * k;
    }
    if y % 100 == 0 {
      assert y == 100 * j;
      assert y / 4 == 25 * j;
    }
  }

  lemma CycleStep4(y: int)
    ensures ((y + 1) + 3) / 4 - (y + 3) / 4 == if y % 4 == 0 then 1 else 0
  {
  }

  lemma CycleStep100(y: int)
    ensures ((y + 1) + 99) / 100 - (y + 99) / 100 == if y % 100 == 0 then 1 else 0
  {
  }

  lemma CycleStep400(y: int)
    ensures ((y + 1) + 399) / 400 - (y + 399) / 400 == if y % 400 == 0 then 1 else 0
  {
  }

  lemma {:induction false} DaysBeforeYearIncreasing(a: int, b: int)
    requires a < b
    ensures DaysBeforeYear(a) + YearLength(a) <= DaysBeforeYear(b)
    decreases b - a
  {
    DaysBeforeNextYear(a);
    if a + 1 < b {
      DaysBeforeYearIncreasing(a + 1, b);
    }
  }

  lemma DaysBeforeMonthIncreasing(y: int, a: int, b: int)
    requires 1 <= a < b <= 12
    ensures DaysBeforeMonth(y, a) + DaysInMonth(y, a) <= DaysBeforeMonth(y, b)
  {
  }

  lemma DaysBeforeMonthStep(y: int, m: int)
    requires 1 <= m <= 12
    ensures m < 12 ==> DaysBeforeMonth(y, m + 1) == DaysBeforeMonth(y, m) + DaysInMonth(y, m)
    ensures m == 12 ==> DaysBeforeMonth(y, m) + DaysInMonth(y, m) == YearLength(y)
  {
  }

  /** Days from 0000-01-01 to `d`: the model of a local-midnight timestamp. */
  function DayNumber(d: CivilDate): int {
    DaysBeforeYear(d.year) + DaysBeforeMonth(d.year, d.month) + d.day - 1
  }

  lemma DayNumberInYear(d: CivilDate)
    ensures DaysBeforeYear(d.year) <= DayNumber(d) < DaysBeforeYear(d.year + 1)
  {
    DaysBeforeNextYear(d.year);
    DaysBeforeMonthStep(d.year, d.month);
    if d.month < 12 {
      DaysBeforeMonthIncreasing(d.year, d.month, 12);
      DaysBeforeMonthStep(d.year, 12);
    }
  }

  /** Later dates have larger day numbers, in the order (year, month, day). */
  lemma DayNumberOrdersDates(a: CivilDate, b: CivilDate)
    requires a.year < b.year
      || (a.year == b.year && a.month < b.month)
      || (a.year == b.year && a.month == b.month && a.day < b.day)
    ensures DayNumber(a) < DayNumber(b)
  {
    DayNumberInYear(a);
    DayNumberInYear(b);
    if a.year < b.year {
      DaysBeforeNextYear(a.year);
      if a.year + 1 < b.year {
        DaysBeforeYearIncreasing(a.year + 1, b.year);
      }
    } else if a.month < b.month {
      DaysBeforeMonthIncreasing(a.year, a.month, b.month);
    }
  }

  lemma DayNumberInjective(a: CivilDate, b: CivilDate)
    ensures DayNumber(a) == DayNumber(b) ==> a == b
  {
    if a.year < b.year || (a.year == b.year && a.month < b.month)
      || (a.year == b.year && a.month == b.month && a.day < b.day) {
      DayNumberOrdersDates(a, b);
    } else if b.year < a.year || (a.year == b.year && b.month < a.month)
      || (a.year == b.year && a.month == b.month && b.day < a.day) {
      DayNumberOrdersDates(b, a);
    }
  }

  function YearAtOrBelow(n: int, y: int): (r: int)
    ensures DaysBeforeYear(r) <= n
    decreases if DaysBeforeYear(y) <= n then 0 else DaysBeforeYear(y) - n
  {
    if DaysBeforeYear(y) <= n then y
    else
      DaysBeforeNextYear(y - 1);
      YearAtOrBelow(n, y - 1)
  }

  function YearFrom(n: int, y: int): (r: int)
    requires DaysBeforeYear(y) <= n
    ensures DaysBeforeYear(r) <= n < DaysBeforeYear(r + 1)
    decreases n - DaysBeforeYear(y)
  {
    DaysBeforeNextYear(y);
    if n < DaysBeforeYear(y + 1) then y else YearFrom(n, y + 1)
  }

  function MonthOf(y: int, r: int): (m: int)
    requires 0 <= r < YearLength(y)
    ensures 1 <= m <= 12
    ensures DaysBeforeMonth(y, m) <= r < DaysBeforeMonth(y, m) + DaysInMonth(y, m)
  {
    if r >= DaysBeforeMonth(y, 12) then 12
    else if r >= DaysBeforeMonth(y, 11) then 11
    else if r >= DaysBeforeMonth(y, 10) then 10
    else if r >= DaysBeforeMonth(y, 9) then 9
    else if r >= DaysBeforeMonth(y, 8) then 8
    else if r >= DaysBeforeMonth(y, 7) then 7
    else if r >= DaysBeforeMonth(y, 6) then 6
    else if r >= DaysBeforeMonth(y, 5) then 5
    else if r >= DaysBeforeMonth(y, 4) then 4
    else if r >= DaysBeforeMonth(y, 3) then 3
    else if r >= DaysBeforeMonth(y, 2) then 2
    else 1
  }

  /** The date with day number `n`: the inverse of `DayNumber`. */
  function FromDayNumber(n: int): (d: CivilDate)
    ensures DayNumber(d) == n
  {
    var y := YearFrom(n, YearAtOrBelow(n, n / 366));
    DaysBeforeNextYear(y);
    var m := MonthOf(y, n - DaysBeforeYear(y));
    Date(y, m, n - DaysBeforeYear(y) - DaysBeforeMonth(y, m) + 1)
  }

  lemma FromDayNumberOfDate(d: CivilDate)
    ensures FromDayNumber(DayNumber(d)) == d
  {
    DayNumberInjective(FromDayNumber(DayNumber(d)), d);
  }

  /** `d` moved by `k` days (negative `k` moves back), as `setDate(getDate() + k)` does. */
  function AddDays(d: CivilDate, k: int): (r: CivilDate)
    ensures DayNumber(r) == DayNumber(d) + k
  {
    FromDayNumber(DayNumber(d) + k)
  }

  /** Signed number of days from `a` to `b`. */
  function DaysBetween(a: CivilDate, b: CivilDate): int {
    DayNumber(b) - DayNumber(a)
  }

  /** Day of the week of a day number, 0 = Sunday .. 6 = Saturday (0000-01-01 was a Saturday). */
  function WeekdayOfNumber(n: int): (w: int)
    ensures 0 <= w < 7
  {
    (n + 6) % 7
  }

  lemma MondayOffset(n: int)
    ensures WeekdayOfNumber(n - (WeekdayOfNumber(n) + 6) % 7) == 1
  {
    var w := WeekdayOfNumber(n);
    var q := (n + 6) / 7;
    assert n + 6 == 7 * q + w;
    if w == 0 {
      assert n - 6 + 6 == 7 * (q - 1) + 1;
    } else {
      assert n - (w - 1) + 6 == 7 * q + 1;
    }
  }

  lemma SameWeekdayClose(a: int, b: int)
    requires WeekdayOfNumber(a) == WeekdayOfNumber(b) && -7 < a - b < 7
    ensures a == b
  {
    var qa, qb := (a + 6) / 7, (b + 6) / 7;
    assert a - b == 7 * (qa - qb);
  }

  /** `d.getDay()`. */
  function Weekday(d: CivilDate): (w: int)
    ensures 0 <= w < 7
  {
    WeekdayOfNumber(DayNumber(d))
  }

  // ----- ISO strings: isoDate / fromISO (app.js:82-83) -----

  /** `isoDate(d)`: `YYYY-MM-DD` with the year printed as `String(year)`. */
  function IsoDate(d: CivilDate): string {
    IntToString(d.year) + "-" + Pad2(d.month) + "-" + Pad2(d.day)
  }

  /** The year `new Date(y, ...)` means: 0..99 stand for 1900..1999. */
  function FullYear(y: int): int {
    if 0 <= y <= 99 then 1900 + y else y
  }

  /** `new Date(y, monthIndex, 1)`: the month index overflows into the neighbouring years. */
  function FirstOfMonth(y: int, monthIndex: int): CivilDate {
    Date(FullYear(y) + monthIndex / 12, monthIndex % 12 + 1, 1)
  }

  /**
   * `new Date(y, monthIndex, day)`: `day - 1` days after the first of the month,
   * so a day outside the month overflows into the neighbouring months.
   */
  function MakeDate(y: int, monthIndex: int, day: int): (r: CivilDate)
    ensures DayNumber(r) == DayNumber(FirstOfMonth(y, monthIndex)) + day - 1
  {
    AddDays(FirstOfMonth(y, monthIndex), day - 1)
  }

  /** Arguments that name a real date, outside the years 0..99, give that date. */
  lemma MakeDateInRange(y: int, monthIndex: int, day: int)
    requires !(0 <= y <= 99) && 0 <= monthIndex < 12 && 1 <= day <= DaysInMonth(y, monthIndex + 1)
    ensures MakeDate(y, monthIndex, day) == Date(y, monthIndex + 1, day)
  {
    assert FirstOfMonth(y, monthIndex) == Date(y, monthIndex + 1, 1);
    DayNumberInjective(MakeDate(y, monthIndex, day), Date(y, monthIndex + 1, day));
  }

  /** `new Date(y, monthIndex + 1, 0)`: day 0 of the next month is the last day of the month. */
  lemma MakeDateDayZero(y: int, monthIndex: int)
    requires !(0 <= y <= 99) && 0 <= monthIndex < 12
    ensures MakeDate(y, monthIndex + 1, 0) == Date(y, monthIndex + 1, DaysInMonth(y, monthIndex + 1))
  {
    var m := monthIndex + 1;
    var last: CivilDate := Date(y, m, DaysInMonth(y, m));
    FirstOfNextMonth(y, m);
    DayNumberInjective(MakeDate(y, m, 0), last);
  }

  /** The first of the month after month `m` directly follows the last day of month `m`. */
  lemma FirstOfNextMonth(y: int, m: int)
    requires !(0 <= y <= 99) && 1 <= m <= 12
    ensures DayNumber(FirstOfMonth(y, m)) == DayNumber(Date(y, m, DaysInMonth(y, m))) + 1
  {
    DaysBeforeMonthStep(y, m);
    if m < 12 {
      assert FirstOfMonth(y, m) == Date(y, m + 1, 1);
    } else {
      assert FirstOfMonth(y, m) == Date(y + 1, 1, 1);
      DaysBeforeNextYear(y);
    }
  }

  /**
   * `fromISO(s)`: split on `-`, `Number` each of the first three parts, build the
   * date with `new Date(y, m - 1, d)`. None stands for an Invalid Date (a part that
   * is not a number, or fewer than three parts).
   */
  function FromIso(s: string): Option<CivilDate> {
    var parts := Split(s, '-');
    if |parts| < 3 then None
    else
      match (ParseNumber(parts[0]), ParseNumber(parts[1]), ParseNumber(parts[2]))
      case (Some(y), Some(m), Some(d)) => Some(MakeDate(y, m - 1, d))
      case _ => None
  }

  lemma IsoParts(d: CivilDate)
    requires d.year >= 0
    ensures Split(IsoDate(d), '-') == [IntToString(d.year), Pad2(d.month), Pad2(d.day)]
  {
    var y, m, dd := IntToString(d.year), Pad2(d.month), Pad2(d.day);
    assert forall i :: 0 <= i < |y| ==> IsDigit(y[i]);
    assert '-' !in y && '-' !in m && '-' !in dd;
    assert IsoDate(d) == y + ['-'] + (m + ['-'] + dd);
    SplitConcat(y, '-', m + ['-'] + dd);
    SplitConcat(m, '-', dd);
    SplitNoSeparator(dd, '-');
  }

  /** Reading back what `isoDate` wrote gives the same date, from year 100 on. */
  lemma IsoDateRoundTrip(d: CivilDate)
    requires d.year >= 100
    ensures FromIso(IsoDate(d)) == Some(d)
  {
    IsoParts(d);
    ParseNatToString(d.year);
    MakeDateInRange(d.year, d.month - 1, d.day);
  }

  /** Two different dates never share an `isoDate` key. */
  lemma IsoDateInjective(a: CivilDate, b: CivilDate)
    ensures IsoDate(a) == IsoDate(b) ==> a == b
  {
    if IsoDate(a) == IsoDate(b) {
      var ya, yb := IntToString(a.year), IntToString(b.year);
      var ma, mb := Pad2(a.month), Pad2(b.month);
      var da, db := Pad2(a.day), Pad2(b.day);
      ConcatCancel(ya + "-" + ma + "-", da, yb + "-" + mb + "-", db);
      ConcatCancel(ya + "-" + ma, "-", yb + "-" + mb, "-");
      ConcatCancel(ya + "-", ma, yb + "-", mb);
      ConcatCancel(ya, "-", yb, "-");
      IntToStringInjective(a.year, b.year);
      Pad2Injective(a.month, b.month);
      Pad2Injective(a.day, b.day);
    }
  }

  // ----- getMonday (app.js:97-102) -----

  /** `getMonday(d)`: the Monday on or before `d`. */
  function GetMonday(d: CivilDate): (r: CivilDate)
    ensures Weekday(r) == 1
    ensures 0 <= DaysBetween(r, d) < 7
  {
    MondayOffset(DayNumber(d));
    AddDays(d, -((Weekday(d) + 6) % 7))
  }

  /** Only one Monday lies in the week ending on `d`: `GetMonday` is that one. */
  lemma GetMondayUnique(d: CivilDate, m: CivilDate)
    requires Weekday(m) == 1 && 0 <= DaysBetween(m, d) < 7
    ensures m == GetMonday(d)
  {
    var g := GetMonday(d);
    SameWeekdayClose(DayNumber(m), DayNumber(g));
    DayNumberInjective(m, g);
  }

  // ----- monthDaysGrid (app.js:1824-1833) -----

  /**
   * `monthDaysGrid(firstDay)`: 42 consecutive days starting on the Monday on or
   * before the 1st of `firstDay`'s month; every day of that month is in the grid.
   */
  method MonthDaysGrid(firstDay: CivilDate) returns (days: seq<CivilDate>)
    ensures |days| == 42
    ensures Weekday(days[0]) == 1
    ensures 0 <= DaysBetween(days[0], Date(firstDay.year, firstDay.month, 1)) < 7
    ensures forall i :: 0 <= i < 42 ==> DayNumber(days[i]) == DayNumber(days[0]) + i
    ensures forall dd :: 1 <= dd <= DaysInMonth(firstDay.year, firstDay.month) ==>
              Date(firstDay.year, firstDay.month, dd) in days
  {
    var first: CivilDate := Date(firstDay.year, firstDay.month, 1);
    var start := GetMonday(first);
    days := [];
    for i := 0 to 42
      invariant |days| == i
      invariant forall j :: 0 <= j < i ==> DayNumber(days[j]) == DayNumber(start) + j
    {
      days := days + [AddDays(start, i)];
    }
    GridCoversMonth(firstDay.year, firstDay.month, start, days);
  }

  lemma GridCoversMonth(y: int, m: int, start: CivilDate, days: seq<CivilDate>)
    requires 1 <= m <= 12
    requires start == GetMonday(Date(y, m, 1))
    requires |days| == 42 && forall j :: 0 <= j < 42 ==> DayNumber(days[j]) == DayNumber(start) + j
    ensures forall dd :: 1 <= dd <= DaysInMonth(y, m) ==> Date(y, m, dd) in days
  {
    forall dd | 1 <= dd <= DaysInMonth(y, m) ensures Date(y, m, dd) in days {
      var x: CivilDate := Date(y, m, dd);
      var k := DaysBetween(start, x);
      assert 0 <= k < 42;
      DayNumberInjective(days[k], x);
    }
  }

  // ----- countDowBetween (app.js:1125-1137) -----

  /** How many day numbers in `a..b` (inclusive) fall on weekday `w`. */
  function CountWeekdayIn(a: int, b: int, w: int): nat
    decreases b - a + 1
  {
    if a > b then 0
    else (if WeekdayOfNumber(a) == w then 1 else 0) + CountWeekdayIn(a + 1, b, w)
  }

  /**
   * The arithmetic of `countDowBetween` once both ends are read: jump to the first
   * `day` on or after the start, then count whole weeks up to the end.
   */
  function CountDowInRange(day: int, s: CivilDate, e: CivilDate): int {
    if DayNumber(e) < DayNumber(s) then 0
    else
      var first := DayNumber(s) + JsRem(day - Weekday(s) + 7, 7);
      if first > DayNumber(e) then 0 else 1 + (DayNumber(e) - first) / 7
  }

  /** `countDowBetween(day, startISO, endISO)`: 0 when either end is unreadable. */
  function CountDowBetween(day: int, startIso: string, endIso: string): int {
    match (FromIso(startIso), FromIso(endIso))
    case (Some(s), Some(e)) => CountDowInRange(day, s, e)
    case _ => 0
  }

  /** The first day number on or after `a` that falls on weekday `w`. */
  function FirstOnOrAfter(a: int, w: int): int {
    a + (w - WeekdayOfNumber(a) + 7) % 7
  }

  /** The number of days `first`, `first + 7`, ... up to `b`. */
  function WeeksFrom(first: int, b: int): int {
    if first > b then 0 else 1 + (b - first) / 7
  }

  /** Counting weekday `w` one day at a time agrees with jumping to its first occurrence and counting weeks. */
  lemma {:induction false} CountWeekdayClosedForm(a: int, b: int, w: int)
    requires 0 <= w < 7
    ensures CountWeekdayIn(a, b, w) == WeeksFrom(FirstOnOrAfter(a, w), b)
    decreases b - a + 1
  {
    if a <= b {
      CountWeekdayClosedForm(a + 1, b, w);
      if WeekdayOfNumber(a) == w {
        FirstOnOrAfterMatch(a, w);
        WeeksFromStep(a, b);
      } else {
        FirstOnOrAfterMiss(a, w);
      }
    }
  }

  /** The weekday after a Saturday is a Sunday; otherwise the weekday number goes up by one. */
  lemma WeekdayNext(a: int)
    ensures WeekdayOfNumber(a + 1) == if WeekdayOfNumber(a) == 6 then 0 else WeekdayOfNumber(a) + 1
  {
    var q, r := (a + 6) / 7, (a + 6) % 7;
    assert a + 1 + 6 == 7 * q + (r + 1);
    if r == 6 {
      assert a + 1 + 6 == 7 * (q + 1) + 0;
    }
  }

  /** `x % 7` for `x` in 0..13. */
  lemma ModSevenSmall(x: int)
    requires 0 <= x < 14
    ensures x % 7 == if x >= 7 then x - 7 else x
  {
    if x >= 7 {
      assert x == 7 * 1 + (x - 7);
    } else {
      assert x == 7 * 0 + x;
    }
  }

  lemma FirstOnOrAfterMatch(a: int, w: int)
    requires WeekdayOfNumber(a) == w
    ensures FirstOnOrAfter(a, w) == a && FirstOnOrAfter(a + 1, w) == a + 7
  {
    WeekdayNext(a);
    ModSevenSmall(w - w + 7);
    ModSevenSmall(w - WeekdayOfNumber(a + 1) + 7);
  }

  lemma FirstOnOrAfterMiss(a: int, w: int)
    requires 0 <= w < 7 && WeekdayOfNumber(a) != w
    ensures FirstOnOrAfter(a + 1, w) == FirstOnOrAfter(a, w)
  {
    WeekdayNext(a);
    ModSevenSmall(w - WeekdayOfNumber(a) + 7);
    ModSevenSmall(w - WeekdayOfNumber(a + 1) + 7);
  }

  lemma WeeksFromStep(a: int, b: int)
    requires a <= b
    ensures WeeksFrom(a, b) == 1 + WeeksFrom(a + 7, b)
  {
    assert b - a == (b - (a + 7)) + 7;
  }

  /** For a weekday 0..6 the closed form counts exactly the matching dates of the range. */
  lemma CountDowInRangeCounts(day: int, s: CivilDate, e: CivilDate)
    requires 0 <= day < 7
    ensures CountDowInRange(day, s, e) == CountWeekdayIn(DayNumber(s), DayNumber(e), day)
  {
    CountWeekdayClosedForm(DayNumber(s), DayNumber(e), day);
    assert FirstOnOrAfter(DayNumber(s), day) == DayNumber(s) + JsRem(day - Weekday(s) + 7, 7);
  }

  /** An unreadable end gives 0, readable ends give the number of matching dates. */
  lemma CountDowBetweenCounts(day: int, startIso: string, endIso: string)
    requires 0 <= day < 7
    ensures FromIso(startIso).None? || FromIso(endIso).None? ==> CountDowBetween(day, startIso, endIso) == 0
    ensures FromIso(startIso).Some? && FromIso(endIso).Some? ==>
              CountDowBetween(day, startIso, endIso)
              == CountWeekdayIn(DayNumber(FromIso(startIso).value), DayNumber(FromIso(endIso).value), day)
  {
    if FromIso(startIso).Some? && FromIso(endIso).Some? {
      CountDowInRangeCounts(day, FromIso(startIso).value, FromIso(endIso).value);
    }
  }

  // ----- timeAddHM (app.js:541-551) -----

  /** Minutes since midnight of an `H:M` string, as `tm.split(':').map(Number)` reads it. */
  function ParseHM(tm: string): Option<int> {
    MinutesOfParts(Split(tm, ':'))
  }

  /** Hours and minutes from the first two parts of `HH:MM`; None when either is NaN or a part is missing. */
  function MinutesOfParts(parts: seq<string>): Option<int> {
    if |parts| < 2 then None
    else
      match (ParseNumber(parts[0]), ParseNumber(parts[1]))
      case (Some(h), Some(m)) => Some(h * 60 + m)
      case _ => None
  }

  /** `HH:MM` of a minute of the day. */
  function FormatHM(t: int): string
    requires 0 <= t < 24 * 60
  {
    Pad2(t / 60) + ":" + Pad2(t % 60)
  }

  /** The last minute of the day, 23:59. */
  const LastMinute := 23 * 60 + 59

  function ClampToDay(t: int): (r: int)
    ensures 0 <= r <= LastMinute
    ensures 0 <= t <= LastMinute ==> r == t
  {
    if t < 0 then 0 else if t > LastMinute then LastMinute else t
  }

  /**
   * `timeAddHM(tm, minutes)`: "" stays "", an unreadable time comes back
   * unchanged, otherwise the sum clamped to 00:00..23:59.
   */
  function TimeAddHM(tm: string, minutes: int): (r: string)
    ensures r == "" <==> tm == ""
  {
    if tm == "" then "" else ShiftParsed(tm, ParseHM(tm), minutes)
  }

  /** The non-empty case of `timeAddHM`: an unreadable time is returned as it is. */
  function ShiftParsed(tm: string, parsed: Option<int>, minutes: int): (r: string)
    requires tm != ""
    ensures r != ""
  {
    match parsed
    case None => tm
    case Some(p) => FormatHM(ClampToDay(p + minutes))
  }

  lemma FormatHMRoundTrip(t: int)
    requires 0 <= t < 24 * 60
    ensures ParseHM(FormatHM(t)) == Some(t)
  {
    var hh, mm := t / 60, t % 60;
    FormatHMSplits(t);
    MinutesOfTwoParts(Pad2(hh), Pad2(mm), hh, mm);
    assert hh * 60 + mm == t;
  }

  /** `HH:MM` splits on `:` into its two fields. */
  lemma FormatHMSplits(t: int)
    requires 0 <= t < 24 * 60
    ensures Split(FormatHM(t), ':') == [Pad2(t / 60), Pad2(t % 60)]
  {
    var h, m := Pad2(t / 60), Pad2(t % 60);
    assert AllDigits(h) && AllDigits(m);
    assert ':' !in h && ':' !in m;
    SplitConcat(h, ':', m);
    SplitNoSeparator(m, ':');
  }

  lemma MinutesOfTwoParts(h: string, m: string, hh: int, mm: int)
    requires 0 <= hh < 100 && 0 <= mm < 100 && h == Pad2(hh) && m == Pad2(mm)
    ensures MinutesOfParts([h, m]) == Some(hh * 60 + mm)
  {
    assert ParseNumber(h) == Some(hh) && ParseNumber(m) == Some(mm);
  }

  /** A non-empty time that reads as `p` moves to the clamped sum. */
  lemma TimeAddHMValue(tm: string, minutes: int, p: int)
    requires tm != "" && ParseHM(tm) == Some(p)
    ensures TimeAddHM(tm, minutes) == FormatHM(ClampToDay(p + minutes))
  {
  }

  /** A readable time plus `minutes` reads back as the clamped sum. */
  lemma TimeAddHMReadsBack(tm: string, minutes: int)
    requires tm != "" && ParseHM(tm).Some?
    ensures ParseHM(TimeAddHM(tm, minutes)) == Some(ClampToDay(ParseHM(tm).value + minutes))
  {
    var p := ParseHM(tm).value;
    TimeAddHMValue(tm, minutes, p);
    FormatHMRoundTrip(ClampToDay(p + minutes));
  }

  lemma SameClampedTime(x: int, y: int)
    requires x == y
    ensures FormatHM(ClampToDay(x)) == FormatHM(ClampToDay(y))
  {
  }

  /** Adding in two steps is adding once, as long as the first step stays inside the day. */
  lemma TimeAddHMCompose(tm: string, a: int, b: int)
    requires tm != "" && ParseHM(tm).Some?
    requires 0 <= ParseHM(tm).value + a <= LastMinute
    ensures TimeAddHM(TimeAddHM(tm, a), b) == TimeAddHM(tm, a + b)
  {
    var p := ParseHM(tm).value;
    var q := p + a;
    var once := TimeAddHM(tm, a);
    assert ParseHM(once) == Some(q) by {
      TimeAddHMReadsBack(tm, a);
    }
    assert TimeAddHM(once, b) == FormatHM(ClampToDay(q + b)) by {
      TimeAddHMValue(once, b, q);
    }
    assert TimeAddHM(tm, a + b) == FormatHM(ClampToDay(p + (a + b))) by {
      TimeAddHMValue(tm, a + b, p);
    }
    SameClampedTime(q + b, p + (a + b));
  }
}
