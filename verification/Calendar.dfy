/** Civil dates as day and second counts (core/src/vfs.rs, forensic/src/analysis.rs). */
module Calendar {
  import opened Bytes

  /** A date and time as stored on the disc; the zone is in quarter hours east of Greenwich. */
  datatype IsoDateTime = IsoDateTime(
    year: nat, month: u8, day: u8, hour: u8, minute: u8, second: u8, centisecond: u8, tzOffset15Min: int)

  /** Integer division that rounds toward zero. */
  function TruncDiv(a: int, b: int): int
    requires b > 0
  {
    if a >= 0 then a / b else -(-a / b)
  }

  function Max(a: int, b: int): int {
    if a > b then a else b
  }

  function CivilToUnix(year: int, month: int, day: int, hh: int, mm: int, ss: int): int {
    var y := if month <= 2 then year - 1 else year;
    var era := TruncDiv(if y >= 0 then y else y - 399, 400);
    var yoe := y - era * 400;
    var mp := if month > 2 then month - 3 else month + 9;
    var doy := TruncDiv(153 * mp + 2, 5) + day - 1;
    var doe := yoe * 365 + TruncDiv(yoe, 4) - TruncDiv(yoe, 100) + doy;
    var days := era * 146097 + doe - 719468;
    days * 86400 + hh * 3600 + mm * 60 + ss
  }

  /** The audits' comparison key: months and days below one count as one, and the zone is
      taken off. */
  function UtcKey(dt: IsoDateTime): int {
    var m := Max(dt.month, 1);
    var d := Max(dt.day, 1);
    var y := if m <= 2 then dt.year - 1 else dt.year;
    var era := TruncDiv(if y >= 0 then y else y - 399, 400);
    var yoe := y - era * 400;
    var doy := TruncDiv(153 * (if m > 2 then m - 3 else m + 9) + 2, 5) + d - 1;
    var doe := yoe * 365 + TruncDiv(yoe, 4) - TruncDiv(yoe, 100) + doy;
    var days := era * 146097 + doe - 719468;
    var local := days * 86400 + dt.hour * 3600 + dt.minute * 60 + dt.second;
    local - dt.tzOffset15Min * 15 * 60
  }

  // ---- the Gregorian calendar by counting ------------------------------------------

  predicate IsLeap(y: int) {
    y % 4 == 0 && (y % 100 != 0 || y % 400 == 0)
  }

  function DaysInYear(y: int): int {
    if IsLeap(y) then 366 else 365
  }

  function DaysInMonth(y: int, m: int): int {
    if m == 2 then (if IsLeap(y) then 29 else 28)
    else if m in {4, 6, 9, 11} then 30
    else 31
  }

  /** Days from 1 January 1970 to 1 January of year y, year by year. */
  function YearStart(y: int): int
    decreases if y > 1970 then y - 1970 else 1970 - y
  {
    if y == 1970 then 0
    else if y > 1970 then YearStart(y - 1) + DaysInYear(y - 1)
    else YearStart(y + 1) - DaysInYear(y)
  }

  /** Days from 1 January to the first of month m, month by month. */
  function MonthStart(y: int, m: nat): int {
    if m <= 1 then 0 else MonthStart(y, m - 1) + DaysInMonth(y, m - 1)
  }

  function NaiveDays(y: int, m: nat, d: int): int {
    YearStart(y) + MonthStart(y, m) + d - 1
  }

  predicate ValidDate(y: int, m: int, d: int) {
    1 <= m <= 12 && 1 <= d <= DaysInMonth(y, m)
  }

  predicate ValidTime(hh: int, mm: int, ss: int) {
    0 <= hh < 24 && 0 <= mm < 60 && 0 <= ss < 60
  }

  // ---- closed form and count agree ---------------------------------------------------

  /** Days before 1 March of year y, up to a constant. */
  function Linear(y: int): int {
    365 * y + y / 4 - y / 100 + y / 400
  }

  lemma EraIsFloor(y: int)
    ensures TruncDiv(if y >= 0 then y else y - 399, 400) == y / 400
  {
  }

  lemma EraSums(y: int)
    ensures var era := y / 400;
      var yoe := y - era * 400;
      0 <= yoe < 400
      && era * 146097 + yoe * 365 + yoe / 4 - yoe / 100 == Linear(y)
  {
    var era := y / 400;
    var yoe := y - era * 400;
    assert y / 4 == era * 100 + yoe / 4;
    assert y / 100 == era * 4 + yoe / 100;
  }

  lemma LinearStep(y: int)
    ensures Linear(y) - Linear(y - 1) == DaysInYear(y)
  {
    FloorStep4(y);
    FloorStep100(y);
    FloorStep400(y);
    LeapNesting(y);
  }

  lemma FloorStep4(y: int)
    ensures y / 4 - (y - 1) / 4 == if y % 4 == 0 then 1 else 0
  {
  }

  lemma FloorStep100(y: int)
    ensures y / 100 - (y - 1) / 100 == if y % 100 == 0 then 1 else 0
  {
  }

  lemma FloorStep400(y: int)
    ensures y / 400 - (y - 1) / 400 == if y % 400 == 0 then 1 else 0
  {
  }

  lemma LeapNesting(y: int)
    ensures y % 400 == 0 ==> y % 100 == 0
    ensures y % 100 == 0 ==> y % 4 == 0
  {
  }

  lemma {:induction false} YearStartLinear(y: int)
    ensures YearStart(y) == Linear(y - 1) - 719162
    decreases if y > 1970 then y - 1970 else 1970 - y
  {
    if y > 1970 {
      YearStartLinear(y - 1);
      LinearStep(y - 1);
    } else if y < 1970 {
      YearStartLinear(y + 1);
      LinearStep(y);
    }
  }

  /** The month term of the closed form, for months counted from March. */
  function MarchDays(m: int): int
    requires 1 <= m <= 12
  {
    TruncDiv(153 * (if m > 2 then m - 3 else m + 9) + 2, 5)
  }

  lemma MonthTerms(y: int, m: nat)
    requires 1 <= m <= 12
    ensures MonthStart(y, m) == if m <= 2 then MarchDays(m) - 306 else MarchDays(m) + DaysInYear(y) - 306
  {
    assert MonthStart(y, 2) == 31;
    assert MonthStart(y, 3) == DaysInYear(y) - 306;
    assert MonthStart(y, 4) == MonthStart(y, 3) + 31;
    assert MonthStart(y, 5) == MonthStart(y, 3) + 61;
    assert MonthStart(y, 6) == MonthStart(y, 3) + 92;
    assert MonthStart(y, 7) == MonthStart(y, 3) + 122;
    assert MonthStart(y, 8) == MonthStart(y, 3) + 153;
    assert MonthStart(y, 9) == MonthStart(y, 3) + 184;
    assert MonthStart(y, 10) == MonthStart(y, 3) + 214;
    assert MonthStart(y, 11) == MonthStart(y, 3) + 245;
    assert MonthStart(y, 12) == MonthStart(y, 3) + 275;
  }

  /** The closed form is the count by years, months and days, for every year. */
  lemma ClosedFormIsCount(y: int, m: nat, d: int, hh: int, mm: int, ss: int)
    requires 1 <= m <= 12
    ensures CivilToUnix(y, m, d, hh, mm, ss) == NaiveDays(y, m, d) * 86400 + hh * 3600 + mm * 60 + ss
  {
    var my := if m <= 2 then y - 1 else y;
    EraIsFloor(my);
    EraSums(my);
    YearStartLinear(y);
    LinearStep(y);
    MonthTerms(y, m);
  }

  // ---- order ---------------------------------------------------------------------------

  /** The date that follows a valid one. */
  function NextDay(y: int, m: int, d: int): (int, int, int) {
    if d < DaysInMonth(y, m) then (y, m, d + 1)
    else if m < 12 then (y, m + 1, 1)
    else (y + 1, 1, 1)
  }

  lemma YearLength(y: int)
    ensures YearStart(y + 1) == YearStart(y) + DaysInYear(y)
  {
  }

  lemma MonthsFillYear(y: int)
    ensures MonthStart(y, 12) + 31 == DaysInYear(y)
  {
    MonthTerms(y, 12);
  }

  /** Consecutive days are one apart. */
  lemma NextDayCountsOne(y: int, m: nat, d: int)
    requires ValidDate(y, m, d)
    ensures var (y', m', d') := NextDay(y, m, d);
      ValidDate(y', m', d') && NaiveDays(y', m', d') == NaiveDays(y, m, d) + 1
  {
    YearLength(y);
    MonthsFillYear(y);
  }

  predicate DateBefore(y1: int, m1: int, d1: int, y2: int, m2: int, d2: int) {
    y1 < y2 || (y1 == y2 && (m1 < m2 || (m1 == m2 && d1 < d2)))
  }

  lemma {:induction false} YearStartMonotone(y1: int, y2: int)
    requires y1 < y2
    ensures YearStart(y1) + DaysInYear(y1) <= YearStart(y2)
    decreases y2 - y1
  {
    YearLength(y2 - 1);
    if y1 < y2 - 1 {
      YearStartMonotone(y1, y2 - 1);
    }
  }

  lemma {:induction false} MonthStartMonotone(y: int, m1: nat, m2: nat)
    requires 1 <= m1 < m2
    ensures MonthStart(y, m1) + DaysInMonth(y, m1) <= MonthStart(y, m2)
    decreases m2
  {
    if m1 < m2 - 1 {
      MonthStartMonotone(y, m1, m2 - 1);
    }
  }

  lemma DateFitsYear(y: int, m: nat, d: int)
    requires ValidDate(y, m, d)
    ensures 0 <= MonthStart(y, m) && MonthStart(y, m) + d <= DaysInYear(y)
  {
    MonthsFillYear(y);
    if m < 12 {
      MonthStartMonotone(y, m, 12);
    }
    if m > 1 {
      MonthStartMonotone(y, 1, m);
    }
  }

  lemma DaysIncrease(y1: int, m1: nat, d1: int, y2: int, m2: nat, d2: int)
    requires ValidDate(y1, m1, d1) && ValidDate(y2, m2, d2)
    requires DateBefore(y1, m1, d1, y2, m2, d2)
    ensures NaiveDays(y1, m1, d1) < NaiveDays(y2, m2, d2)
  {
    DateFitsYear(y1, m1, d1);
    DateFitsYear(y2, m2, d2);
    if y1 < y2 {
      YearStartMonotone(y1, y2);
    } else if m1 < m2 {
      MonthStartMonotone(y1, m1, m2);
    }
  }

  predicate ValidMoment(t: IsoDateTime) {
    ValidDate(t.year, t.month, t.day) && ValidTime(t.hour, t.minute, t.second)
  }

  /** The wall-clock order: by date, then by time of day. */
  predicate MomentBefore(a: IsoDateTime, b: IsoDateTime) {
    || DateBefore(a.year, a.month, a.day, b.year, b.month, b.day)
    || (a.year == b.year && a.month == b.month && a.day == b.day
        && a.hour * 3600 + a.minute * 60 + a.second < b.hour * 3600 + b.minute * 60 + b.second)
  }

  function WallClock(t: IsoDateTime): int {
    CivilToUnix(t.year, t.month, t.day, t.hour, t.minute, t.second)
  }

  /** The seconds count orders valid moments exactly as the calendar and the clock do. */
  lemma WallClockOrders(a: IsoDateTime, b: IsoDateTime)
    requires ValidMoment(a) && ValidMoment(b)
    ensures WallClock(a) < WallClock(b) <==> MomentBefore(a, b)
  {
    ClosedFormIsCount(a.year, a.month, a.day, a.hour, a.minute, a.second);
    ClosedFormIsCount(b.year, b.month, b.day, b.hour, b.minute, b.second);
    hide CivilToUnix, NaiveDays, DaysInMonth;
    if DateBefore(a.year, a.month, a.day, b.year, b.month, b.day) {
      DaysIncrease(a.year, a.month, a.day, b.year, b.month, b.day);
    } else if DateBefore(b.year, b.month, b.day, a.year, a.month, a.day) {
      DaysIncrease(b.year, b.month, b.day, a.year, a.month, a.day);
    }
  }

  /** The key takes the zone off the wall clock, for every stored time, exactly when neither
      the month nor the day is zero: only then do both count from the same date. */
  lemma KeyIsUtc(t: IsoDateTime)
    ensures UtcKey(t) == WallClock(t) - 900 * t.tzOffset15Min <==> t.month >= 1 && t.day >= 1
  {
    var y1 := if t.month <= 2 then t.year - 1 else t.year;
    EraIsFloor(y1);
  }

  /** Two valid moments, each in its own zone, are ordered by their keys as their UTC times are. */
  lemma KeysOrderUtc(a: IsoDateTime, b: IsoDateTime)
    requires ValidMoment(a) && ValidMoment(b)
    ensures UtcKey(a) < UtcKey(b) <==>
            NaiveDays(a.year, a.month, a.day) * 86400 + a.hour * 3600 + a.minute * 60 + a.second - 900 * a.tzOffset15Min
            < NaiveDays(b.year, b.month, b.day) * 86400 + b.hour * 3600 + b.minute * 60 + b.second
              - 900 * b.tzOffset15Min
  {
    KeyIsUtc(a);
    KeyIsUtc(b);
    hide UtcKey, CivilToUnix, NaiveDays;
    ClosedFormIsCount(a.year, a.month, a.day, a.hour, a.minute, a.second);
    ClosedFormIsCount(b.year, b.month, b.day, b.hour, b.minute, b.second);
  }
}
