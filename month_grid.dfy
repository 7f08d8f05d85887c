/** The month grid of the calendar (`buildMonthArray`): one cell per grid
    position in a Sunday-first, seven-column layout, blanks before the first
    day and no padding after the last. */
module MonthGrid {
  import opened Gregorian

  /** A grid cell: the `null` padding `buildMonthArray` puts before day 1, or a day number. */
  datatype Cell = Blank | Day(n: int)

  /** `new Date(y, m, 1).getDay()`, the blanks before day 1: WeekDay of
      MakeDay(y, m, 1) (ECMA-262, section 21.4.1.6), 0 = Sunday. */
  function LeadingBlanks(y: int, m: int): (lead: int)
    ensures 0 <= lead < 7
  {
    (EcmaMakeDay(y, m, 1) + 4) % 7
  }

  /** `new Date(y, m + 1, 0).getDate()`: the length of month m, read off the
      day before the first of the next month. It is the Gregorian length of
      the normalised month. */
  function GridDays(y: int, m: int): (n: int)
    ensures var c := NormalizeMonth(y, m); n == DaysInMonth(c.0, c.1)
    ensures 28 <= n <= 31
  {
    DayZeroIsLastDay(y, m);
    MakeDate(y, m + 1, 0).day
  }

  /** The grid `buildMonthArray` builds for year `y`, month `m` (any integer). */
  function Grid(y: int, m: int): seq<Cell>
  {
    var lead := LeadingBlanks(y, m);
    seq(lead + GridDays(y, m), i => if i < lead then Blank else Day(i - lead + 1))
  }

  /** `buildMonthArray`: `primeiroDia` blanks, then the days pushed one by
      one. */
  method BuildMonthArray(y: int, m: int) returns (arr: seq<Cell>)
    ensures arr == Grid(y, m)
    ensures var c := NormalizeMonth(y, m);
            |arr| == LeadingBlanks(y, m) + DaysInMonth(c.0, c.1)
    ensures forall i :: 0 <= i < LeadingBlanks(y, m) ==> arr[i] == Blank
    ensures forall i :: LeadingBlanks(y, m) <= i < |arr| ==> arr[i] == Day(i - LeadingBlanks(y, m) + 1)
  {
    var primeiroDia := (EcmaMakeDay(y, m, 1) + 4) % 7;
    var diasMes := MakeDate(y, m + 1, 0).day;
    assert primeiroDia == LeadingBlanks(y, m) && diasMes == GridDays(y, m);
    arr := seq(primeiroDia, _ => Blank);
    for d := 1 to diasMes + 1
      invariant |arr| == primeiroDia + d - 1
      invariant forall i :: 0 <= i < primeiroDia ==> arr[i] == Blank
      invariant forall i :: primeiroDia <= i < |arr| ==> arr[i] == Day(i - primeiroDia + 1)
    {
      arr := arr + [Day(d)];
    }
    var g := Grid(y, m);
    assert |arr| == |g|;
    assert forall i :: 0 <= i < |arr| ==> arr[i] == g[i];
  }

  /** The day cells are exactly 1..n, in order, and each sits in the column
      of its weekday (column 0 = Sunday). */
  lemma GridColumnIsWeekday(y: int, m: int, i: int)
    requires 0 <= i < |Grid(y, m)| && Grid(y, m)[i].Day?
    ensures var d := Grid(y, m)[i].n;
            1 <= d <= GridDays(y, m) && i % 7 == Weekday(MakeDate(y, m, d))
  {
    var d := Grid(y, m)[i].n;
    var c := NormalizeMonth(y, m);
    MakeDateFits(y, m, d);
    DayNumberInMonth(c.0, c.1, d);
    WeekdayAfter(EcmaMakeDay(y, m, 1) + 4, DayNumber(CivilDate(c.0, c.1, d)) + 4,
                 LeadingBlanks(y, m), Weekday(MakeDate(y, m, d)), d - 1, i);
  }

  lemma AddMod7(a: int, r: int, b: int)
    requires r == a % 7
    ensures (r + b) % 7 == (a + b) % 7
  {
    var q := a / 7;
    assert r + b == (a + b) - 7 * q;
  }

  /** The grid depends on year and month only through the month count, so an
      out-of-range month is the adjacent year's month. */
  lemma GridMonthCount(y1: int, m1: int, y2: int, m2: int)
    requires 12 * y1 + m1 == 12 * y2 + m2
    ensures Grid(y1, m1) == Grid(y2, m2)
  {
    MakeDateMonthCount(y1, m1, y2, m2, 1);
    MakeDateMonthCount(y1, m1 + 1, y2, m2 + 1, 0);
  }

  /** The previous-month and next-month grids of January and December. */
  lemma GridWrapsYear(y: int)
    ensures Grid(y, -1) == Grid(y - 1, 11)
    ensures Grid(y, 12) == Grid(y + 1, 0)
    ensures Grid(y, 13) == Grid(y + 1, 1)
  {
    GridMonthCount(y, -1, y - 1, 11);
    GridMonthCount(y, 12, y + 1, 0);
    GridMonthCount(y, 13, y + 1, 1);
  }

  /** February has 29 days in the grid exactly in Gregorian leap years. */
  lemma FebruaryLength(y: int)
    ensures GridDays(y, 1) == 29 <==> IsLeapYear(y)
    ensures GridDays(y, 1) == (if IsLeapYear(y) then 29 else 28)
  {
    assert NormalizeMonth(y, 1) == (y, 1);
  }

  /** Consecutive grids chain: the next month's first day falls in the
      column after this month's last day. */
  lemma NextGridContinues(y: int, m: int)
    ensures LeadingBlanks(y, m + 1) == (LeadingBlanks(y, m) + GridDays(y, m)) % 7
  {
    FirstDayStep(y, m);
    WeekdayAfter(EcmaMakeDay(y, m, 1) + 4, EcmaMakeDay(y, m + 1, 1) + 4,
                 LeadingBlanks(y, m), LeadingBlanks(y, m + 1), GridDays(y, m),
                 LeadingBlanks(y, m) + GridDays(y, m));
  }

  /** The blanks are the weekday the `Date` getters report for the first of
      the month. */
  lemma LeadingBlanksIsWeekday(y: int, m: int)
    ensures LeadingBlanks(y, m) == Weekday(MakeDate(y, m, 1))
  {
    MakeDateFits(y, m, 1);
  }

  /** Column arithmetic: the day `n` days after a day in column `c0` is in
      column `(c0 + n) % 7`. */
  lemma WeekdayAfter(a0: int, a1: int, c0: int, c1: int, n: int, i: int)
    requires a1 == a0 + n && c0 == a0 % 7 && c1 == a1 % 7 && i == c0 + n
    ensures c1 == i % 7
  {
    AddMod7(a0, c0, n);
  }

  /** February 2024: the 1st is a Thursday (four blanks) and the month has 29
      days. */
  lemma February2024()
    ensures LeadingBlanks(2024, 1) == 4
    ensures GridDays(2024, 1) == 29
    ensures |Grid(2024, 1)| == 33
  {
    MakeDateFits(2024, 1, 1);
    DaysBeforeYearFormula(2023);
    assert DayNumber(CivilDate(2024, 1, 1)) == 19754;
    FebruaryLength(2024);
  }

  /** Title index of the left mini-month: `(m - 1 + 12) % 12`. */
  function PrevTitleIndex(m: int): (i: int)
    requires 0 <= m < 12
    ensures 0 <= i < 12
    ensures i == if m == 0 then 11 else m - 1
  {
    (m - 1 + 12) % 12
  }

  /** Title index of the right mini-month: `(m + 1) % 12`. */
  function NextTitleIndex(m: int): (i: int)
    requires 0 <= m < 12
    ensures 0 <= i < 12
    ensures i == if m == 11 then 0 else m + 1
  {
    (m + 1) % 12
  }

  /** The wrapped titles stay in 0..11 and name the months whose grids
      `buildMonthArray(y, m - 1)` and `buildMonthArray(y, m + 1)` draw under
      them. */
  lemma MiniTitlesMatchGrids(y: int, m: int)
    requires 0 <= m < 12
    ensures 0 <= PrevTitleIndex(m) < 12 && 0 <= NextTitleIndex(m) < 12
    ensures PrevTitleIndex(m) == NormalizeMonth(y, m - 1).1
    ensures NextTitleIndex(m) == NormalizeMonth(y, m + 1).1
    ensures Grid(y, m - 1) == Grid(NormalizeMonth(y, m - 1).0, PrevTitleIndex(m))
    ensures Grid(y, m + 1) == Grid(NormalizeMonth(y, m + 1).0, NextTitleIndex(m))
  {
    var p, n := NormalizeMonth(y, m - 1), NormalizeMonth(y, m + 1);
    if m == 0 {
      assert p == (y - 1, 11) && PrevTitleIndex(m) == 11;
    } else {
      assert p == (y, m - 1) && PrevTitleIndex(m) == m - 1;
    }
    if m == 11 {
      assert n == (y + 1, 0) && NextTitleIndex(m) == 0;
    } else {
      assert n == (y, m + 1) && NextTitleIndex(m) == m + 1;
    }
    GridMonthCount(y, m - 1, p.0, p.1);
    GridMonthCount(y, m + 1, n.0, n.1);
  }
}
