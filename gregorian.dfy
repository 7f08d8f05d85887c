/** Proleptic Gregorian calendar arithmetic, and the part of JavaScript's
    local-time `Date` that the calendar relies on: the constructor
    `new Date(y, m, d)` and `setMonth`, which both accept out-of-range months
    and days and normalise them (ECMA-262, section 21.4.1, MakeDay). */
module Gregorian {

  /** A date as the `Date` getters report it: `getFullYear()`, the 0-based
      `getMonth()` (0 = January) and `getDate()`. */
  datatype CivilDate = CivilDate(year: int, month: int, day: int)

  predicate IsLeapYear(y: int)
  {
    y % 4 == 0 && (y % 100 != 0 || y % 400 == 0)
  }

  /** Length of month `m` (0-based) of year `y`: the Gregorian table. */
  function DaysInMonth(y: int, m: int): (n: int)
    requires 0 <= m < 12
    ensures 28 <= n <= 31
  {
    if m == 1 then (if IsLeapYear(y) then 29 else 28)
    else if m == 3 || m == 5 || m == 8 || m == 10 then 30
    else 31
  }

  predicate ValidDate(d: CivilDate)
  {
    0 <= d.month < 12 && 1 <= d.day <= DaysInMonth(d.year, d.month)
  }

  /** The month `m` of year `y`, with any integer `m`, as an in-range
      (year, month) pair: the year carry of MakeDay. */
  function NormalizeMonth(y: int, m: int): (r: (int, int))
    ensures 0 <= r.1 < 12
    ensures 12 * r.0 + r.1 == 12 * y + m
  {
    (y + m / 12, m % 12)
  }

  /** Two (year, month) pairs that count the same number of months are the
      same pair once normalised. */
  lemma NormalizeMonthUnique(y1: int, m1: int, y2: int, m2: int)
    requires 12 * y1 + m1 == 12 * y2 + m2
    ensures NormalizeMonth(y1, m1) == NormalizeMonth(y2, m2)
  {
    var a, b := NormalizeMonth(y1, m1), NormalizeMonth(y2, m2);
    assert 12 * (a.0 - b.0) == b.1 - a.1;
  }

  /** Two (year, month) steps used everywhere: the month after and the
      month before an in-range month. */
  lemma NextMonthOf(y: int, m: int)
    requires 0 <= m < 12
    ensures NormalizeMonth(y, m + 1) == if m == 11 then (y + 1, 0) else (y, m + 1)
  {
  }

  lemma PrevMonthOf(y: int, m: int)
    requires 0 <= m < 12
    ensures NormalizeMonth(y, m - 1) == if m == 0 then (y - 1, 11) else (y, m - 1)
  {
  }

  /** Length of year `y` of the March-based count (1 March of `y - 1` to the
      last day of February of `y`): it ends in February of `y`. */
  function CountYearLength(y: int): int
  {
    if IsLeapYear(y) then 366 else 365
  }

  /** Days in the years before year `y` of the March-based count, from
      1 March of year 0 (negative for negative `y`). */
  function DaysBeforeYear(y: int): int
    decreases if y >= 0 then y else -y
  {
    if y == 0 then 0
    else if y > 0 then DaysBeforeYear(y - 1) + CountYearLength(y)
    else DaysBeforeYear(y + 1) - CountYearLength(y + 1)
  }

  /** Each counting year adds its length, whatever the sign of `y`. */
  lemma DaysBeforeYearStep(y: int)
    ensures DaysBeforeYear(y) == DaysBeforeYear(y - 1) + CountYearLength(y)
  {
    if y <= 0 {
      assert DaysBeforeYear(y - 1) == DaysBeforeYear(y) - CountYearLength(y);
    }
  }

  /** The closed form of the year count: 365 days a year plus one for every
      fourth year, less the centuries, plus the fourth centuries. */
  lemma {:induction false} DaysBeforeYearFormula(y: int)
    ensures DaysBeforeYear(y) == 365 * y + y / 4 - y / 100 + y / 400
    decreases if y >= 0 then y else -y
  {
    if y > 0 {
      DaysBeforeYearFormula(y - 1);
      LeapDivisions(y);
    } else if y < 0 {
      DaysBeforeYearFormula(y + 1);
      LeapDivisions(y + 1);
    }
  }

  lemma LeapDivisions(y: int)
    ensures (365 * y + y / 4 - y / 100 + y / 400)
            - (365 * (y - 1) + (y - 1) / 4 - (y - 1) / 100 + (y - 1) / 400) == CountYearLength(y)
  {
    StepFour(y);
    StepHundred(y);
    StepFourHundred(y);
    if y % 400 == 0 {
      FourHundredIsHundred(y);
    }
    if y % 100 == 0 {
      HundredIsFour(y);
    }
  }

  // Going from `y - 1` to `y`, a quotient grows by one exactly when the
  // divisor divides `y`.

  lemma StepFour(y: int)
    ensures y / 4 - (y - 1) / 4 == if y % 4 == 0 then 1 else 0
  {
    var q, r := (y - 1) / 4, (y - 1) % 4;
    if r == 3 {
      assert y == 4 * (q + 1);
    } else {
      assert y == 4 * q + (r + 1);
    }
  }

  lemma StepHundred(y: int)
    ensures y / 100 - (y - 1) / 100 == if y % 100 == 0 then 1 else 0
  {
    var q, r := (y - 1) / 100, (y - 1) % 100;
    if r == 99 {
      assert y == 100 * (q + 1);
    } else {
      assert y == 100 * q + (r + 1);
    }
  }

  lemma StepFourHundred(y: int)
    ensures y / 400 - (y - 1) / 400 == if y % 400 == 0 then 1 else 0
  {
    var q, r := (y - 1) / 400, (y - 1) % 400;
    if r == 399 {
      assert y == 400 * (q + 1);
    } else {
      assert y == 400 * q + (r + 1);
    }
  }

  lemma HundredIsFour(y: int)
    requires y % 100 == 0
    ensures y % 4 == 0
  {
    assert y == 4 * (25 * (y / 100));
  }

  lemma FourHundredIsHundred(y: int)
    requires y % 400 == 0
    ensures y % 100 == 0
  {
    assert y == 100 * (4 * (y / 400));
  }

  /** Days from 1 March of the counting year to the first of month `m`
      (0 = January, which falls in the counting year that began the March
      before). */
  function MonthStart(m: int): int
    requires 0 <= m < 12
  {
    if m == 0 then 306 else if m == 1 then 337 else if m == 2 then 0
    else if m == 3 then 31 else if m == 4 then 61 else if m == 5 then 92
    else if m == 6 then 122 else if m == 7 then 153 else if m == 8 then 184
    else if m == 9 then 214 else if m == 10 then 245 else 275
  }

  /** Days from 1970-01-01 to `d` in the proleptic Gregorian calendar
      (negative before it). Months are counted from March so that the leap
      day is the last day of the counting year. */
  function DayNumber(d: CivilDate): int
    requires 0 <= d.month < 12
  {
    var y := if d.month < 2 then d.year - 1 else d.year;
    DaysBeforeYear(y) + MonthStart(d.month) + d.day - 1 - 719468
  }

  /** 1 January 1970 is day 0. */
  lemma Epoch()
    ensures DayNumber(CivilDate(1970, 0, 1)) == 0
  {
    DaysBeforeYearFormula(1969);
  }

  /** Within a month, day numbers count the days from the first. */
  lemma DayNumberInMonth(y: int, m: int, d: int)
    requires 0 <= m < 12
    ensures DayNumber(CivilDate(y, m, d)) == DayNumber(CivilDate(y, m, 1)) + d - 1
  {
  }

  /** `getDay()`: 0 = Sunday; 1970-01-01 was a Thursday. */
  function Weekday(d: CivilDate): (w: int)
    requires 0 <= d.month < 12
    ensures 0 <= w < 7
  {
    (DayNumber(d) + 4) % 7
  }

  /** ECMA-262's MakeDay as a day count: the first day of the normalised
      month, plus `d - 1` days. */
  function EcmaMakeDay(y: int, m: int, d: int): int
  {
    var n := NormalizeMonth(y, m);
    DayNumber(CivilDate(n.0, n.1, 1)) + d - 1
  }

  /** The day after the last day of a month is the first day of the next
      month: day numbers run on without a gap across month ends. */
  lemma DayNumberNextMonth(y: int, m: int)
    requires 0 <= m < 12
    ensures var n := NormalizeMonth(y, m + 1);
            DayNumber(CivilDate(y, m, DaysInMonth(y, m))) + 1 == DayNumber(CivilDate(n.0, n.1, 1))
  {
    NextMonthOf(y, m);
    var dim := DaysInMonth(y, m);
    var last := DayNumber(CivilDate(y, m, dim));
    if m == 11 {
      assert last == DaysBeforeYear(y) + 305 - 719468;
      assert DayNumber(CivilDate(y + 1, 0, 1)) == DaysBeforeYear(y) + 306 - 719468;
    } else if m == 1 {
      assert last == DaysBeforeYear(y - 1) + 336 + dim - 719468;
      DaysBeforeYearStep(y);
      assert DayNumber(CivilDate(y, 2, 1)) == DaysBeforeYear(y) - 719468;
    } else if m == 0 {
      assert last == DaysBeforeYear(y - 1) + 336 - 719468;
      assert DayNumber(CivilDate(y, 1, 1)) == DaysBeforeYear(y - 1) + 337 - 719468;
    } else {
      MonthStartStep(y, m);
      assert last == DaysBeforeYear(y) + MonthStart(m) + dim - 1 - 719468;
      assert DayNumber(CivilDate(y, m + 1, 1)) == DaysBeforeYear(y) + MonthStart(m + 1) - 719468;
    }
  }

  /** From March to November, each month starts one month length after the
      previous one in the counting year. */
  lemma MonthStartStep(y: int, m: int)
    requires 2 <= m < 11
    ensures MonthStart(m + 1) == MonthStart(m) + DaysInMonth(y, m)
  {
  }

  /** Moves a day past the end of its month into the following months. */
  function RollForward(y: int, m: int, d: int): (r: CivilDate)
    requires 0 <= m < 12 && 1 <= d
    ensures ValidDate(r)
    decreases d
  {
    var n := DaysInMonth(y, m);
    if d <= n then CivilDate(y, m, d)
    else
      var next := NormalizeMonth(y, m + 1);
      RollForward(next.0, next.1, d - n)
  }

  /** Rolling forward keeps the day count: day `d` of month `m` is `d - 1`
      days after its first. */
  lemma {:induction false} RollForwardDayNumber(y: int, m: int, d: int)
    requires 0 <= m < 12 && 1 <= d
    ensures DayNumber(RollForward(y, m, d)) == DayNumber(CivilDate(y, m, 1)) + d - 1
    decreases d
  {
    var n := DaysInMonth(y, m);
    if d > n {
      var next := NormalizeMonth(y, m + 1);
      RollForwardDayNumber(next.0, next.1, d - n);
      DayNumberNextMonth(y, m);
      DayNumberInMonth(y, m, n);
    }
  }

  /** Moves a day before the start of its month (0, -1, ...) into the
      preceding months. */
  function RollBack(y: int, m: int, d: int): (r: CivilDate)
    requires 0 <= m < 12 && d <= DaysInMonth(y, m)
    ensures ValidDate(r)
    decreases 1 - d
  {
    if 1 <= d then CivilDate(y, m, d)
    else
      var prev := NormalizeMonth(y, m - 1);
      RollBack(prev.0, prev.1, d + DaysInMonth(prev.0, prev.1))
  }

  /** Rolling back keeps the day count too. */
  lemma {:induction false} RollBackDayNumber(y: int, m: int, d: int)
    requires 0 <= m < 12 && d <= DaysInMonth(y, m)
    ensures DayNumber(RollBack(y, m, d)) == DayNumber(CivilDate(y, m, 1)) + d - 1
    decreases 1 - d
  {
    if d < 1 {
      var prev := NormalizeMonth(y, m - 1);
      var pn := DaysInMonth(prev.0, prev.1);
      assert RollBack(y, m, d) == RollBack(prev.0, prev.1, d + pn);
      RollBackDayNumber(prev.0, prev.1, d + pn);
      assert DayNumber(CivilDate(prev.0, prev.1, pn)) + 1 == DayNumber(CivilDate(y, m, 1)) by {
        PrevMonthOf(y, m);
        NextMonthOf(prev.0, prev.1);
        DayNumberNextMonth(prev.0, prev.1);
      }
      DayNumberInMonth(prev.0, prev.1, pn);
    }
  }

  /** `new Date(y, m, d)` read back through its getters: the month is
      normalised with a year carry, then the day overflows into the
      neighbouring months. */
  function MakeDate(y: int, m: int, d: int): (r: CivilDate)
    ensures ValidDate(r)
  {
    var n := NormalizeMonth(y, m);
    if 1 <= d then RollForward(n.0, n.1, d) else RollBack(n.0, n.1, d)
  }

  /** MakeDate agrees with ECMA-262's MakeDay: the result is the valid date
      whose day number is MakeDay(y, m, d). */
  lemma MakeDateIsMakeDay(y: int, m: int, d: int)
    ensures DayNumber(MakeDate(y, m, d)) == EcmaMakeDay(y, m, d)
  {
    var n := NormalizeMonth(y, m);
    if 1 <= d {
      RollForwardDayNumber(n.0, n.1, d);
    } else {
      RollBackDayNumber(n.0, n.1, d);
    }
  }

  /** A date that is already valid is rebuilt unchanged. */
  lemma MakeDateOfValid(d: CivilDate)
    requires ValidDate(d)
    ensures MakeDate(d.year, d.month, d.day) == d
  {
    assert NormalizeMonth(d.year, d.month) == (d.year, d.month);
  }

  /** MakeDate depends on year and month only through the month count
      12 * y + m. */
  lemma MakeDateMonthCount(y1: int, m1: int, y2: int, m2: int, d: int)
    requires 12 * y1 + m1 == 12 * y2 + m2
    ensures MakeDate(y1, m1, d) == MakeDate(y2, m2, d)
  {
    NormalizeMonthUnique(y1, m1, y2, m2);
  }

  /** A day the normalised month has is kept. */
  lemma MakeDateFits(y: int, m: int, d: int)
    requires var t := NormalizeMonth(y, m); 1 <= d <= DaysInMonth(t.0, t.1)
    ensures var t := NormalizeMonth(y, m);
            MakeDate(y, m, d) == CivilDate(t.0, t.1, d)
  {
  }

  /** A day of 29..31 past the end of the normalised month runs into the
      month after it. */
  lemma MakeDateOverflows(y: int, m: int, d: int)
    requires var t := NormalizeMonth(y, m); DaysInMonth(t.0, t.1) < d <= 31
    ensures var t := NormalizeMonth(y, m);
            var after := NormalizeMonth(y, m + 1);
            MakeDate(y, m, d) == CivilDate(after.0, after.1, d - DaysInMonth(t.0, t.1))
  {
    var t := NormalizeMonth(y, m);
    var after := NormalizeMonth(y, m + 1);
    NormalizeMonthUnique(t.0, t.1 + 1, y, m + 1);
    assert NormalizeMonth(t.0, t.1 + 1) == after;
    assert RollForward(t.0, t.1, d) == RollForward(after.0, after.1, d - DaysInMonth(t.0, t.1));
  }

  /** The "day 0 of the next month" trick: `new Date(y, m + 1, 0)` is the
      last day of month m (normalised). */
  lemma DayZeroIsLastDay(y: int, m: int)
    ensures var n := NormalizeMonth(y, m);
            MakeDate(y, m + 1, 0) == CivilDate(n.0, n.1, DaysInMonth(n.0, n.1))
  {
    var n := NormalizeMonth(y, m);
    var next := NormalizeMonth(y, m + 1);
    NormalizeMonthUnique(next.0, next.1 - 1, n.0, n.1);
    assert MakeDate(y, m + 1, 0) == RollBack(next.0, next.1, 0);
    assert RollBack(next.0, next.1, 0) == RollBack(n.0, n.1, DaysInMonth(n.0, n.1));
  }

  /** The first of the month after month `j` (any integer) comes one
      month length after the first of month `j`. */
  lemma FirstDayStep(y: int, j: int)
    ensures var n := NormalizeMonth(y, j);
            EcmaMakeDay(y, j + 1, 1) == EcmaMakeDay(y, j, 1) + DaysInMonth(n.0, n.1)
  {
    var n := NormalizeMonth(y, j);
    NormalizeMonthUnique(n.0, n.1 + 1, y, j + 1);
    DayNumberNextMonth(n.0, n.1);
    DayNumberInMonth(n.0, n.1, DaysInMonth(n.0, n.1));
  }
}
