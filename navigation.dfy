/** Month navigation: the ❮ and ❯ buttons call `changeMonth(-1)` and
    `changeMonth(1)`, which copy the current `Date` and move the copy with
    `setMonth(getMonth() + offset)`. `setMonth` keeps the day of the month,
    so a day the target month does not have runs on into the month after. */
module Navigation {
  import opened Gregorian

  /** The fields of a local-time `Date` that `setMonth` reads and writes;
      the time of day is kept by `setMonth` and plays no part here. */
  class JsDate {
    var year: int
    var month: int
    var day: int

    predicate Valid()
      reads this
    {
      ValidDate(CivilDate(year, month, day))
    }

    function Value(): CivilDate
      reads this
    {
      CivilDate(year, month, day)
    }

    /** `new Date(date)`: a copy of a valid date. */
    constructor (d: CivilDate)
      requires ValidDate(d)
      ensures Valid() && Value() == d
    {
      year, month, day := d.year, d.month, d.day;
    }

    /** `setMonth(m)`: MakeDay(year, m, day) of ECMA-262 (section 21.4.4.28),
        with the day of the month kept and any overflow rolled forward. */
    method SetMonth(m: int)
      requires Valid()
      modifies this
      ensures Valid()
      ensures Value() == MakeDate(old(year), m, old(day))
    {
      var r := MakeDate(year, m, day);
      year, month, day := r.year, r.month, r.day;
    }
  }

  /** The date `changeMonth(offset)` moves to. */
  function ShiftMonth(d: CivilDate, offset: int): (r: CivilDate)
    ensures ValidDate(r)
  {
    MakeDate(d.year, d.month + offset, d.day)
  }

  /** `changeMonth(offset)`: the new current date. The target is month
      `month + offset` with a year carry; the day is kept when the target
      month has it, and otherwise the surplus days are counted into the
      month after the target. */
  method ChangeMonth(date: CivilDate, offset: int) returns (newDate: CivilDate)
    requires ValidDate(date)
    ensures newDate == ShiftMonth(date, offset)
    ensures ValidDate(newDate)
    ensures var t := NormalizeMonth(date.year, date.month + offset);
            var dim := DaysInMonth(t.0, t.1);
            var after := NormalizeMonth(date.year, date.month + offset + 1);
            if date.day <= dim then newDate == CivilDate(t.0, t.1, date.day)
            else newDate == CivilDate(after.0, after.1, date.day - dim)
  {
    var copy := new JsDate(date);
    copy.SetMonth(copy.month + offset);
    newDate := copy.Value();
    assert newDate == MakeDate(date.year, date.month + offset, date.day);
    ShiftMonthCases(date, offset);
  }

  /** ShiftMonth lands in the target month, on the same day when the target
      month has it, and otherwise in the month after, on the day the surplus
      reaches (at most the 3rd). */
  lemma ShiftMonthCases(d: CivilDate, offset: int)
    requires ValidDate(d)
    ensures var t := NormalizeMonth(d.year, d.month + offset);
            var dim := DaysInMonth(t.0, t.1);
            var after := NormalizeMonth(d.year, d.month + offset + 1);
            if d.day <= dim then ShiftMonth(d, offset) == CivilDate(t.0, t.1, d.day)
            else ShiftMonth(d, offset) == CivilDate(after.0, after.1, d.day - dim) && d.day - dim <= 3
  {
    var t := NormalizeMonth(d.year, d.month + offset);
    if d.day <= DaysInMonth(t.0, t.1) {
      MakeDateFits(d.year, d.month + offset, d.day);
    } else {
      MakeDateOverflows(d.year, d.month + offset, d.day);
    }
  }

  /** 31 January, one month on, is 3 March in 2025 and 2 March in the leap
      year 2024. */
  lemma JanuaryThirtyFirstForward()
    ensures ShiftMonth(CivilDate(2025, 0, 31), 1) == CivilDate(2025, 2, 3)
    ensures ShiftMonth(CivilDate(2024, 0, 31), 1) == CivilDate(2024, 2, 2)
  {
    assert NormalizeMonth(2025, 1) == (2025, 1) && NormalizeMonth(2025, 2) == (2025, 2);
    assert DaysInMonth(2025, 1) == 28;
    MakeDateOverflows(2025, 1, 31);
    assert NormalizeMonth(2024, 1) == (2024, 1) && NormalizeMonth(2024, 2) == (2024, 2);
    assert DaysInMonth(2024, 1) == 29;
    MakeDateOverflows(2024, 1, 31);
  }

  /** December moves to January of the next year, and January back to
      December of the previous year. */
  lemma YearCarry(y: int, d: int)
    requires 1 <= d <= 31
    ensures ShiftMonth(CivilDate(y, 11, d), 1) == CivilDate(y + 1, 0, d)
    ensures ShiftMonth(CivilDate(y, 0, d), -1) == CivilDate(y - 1, 11, d)
  {
    ShiftMonthCases(CivilDate(y, 11, d), 1);
    ShiftMonthCases(CivilDate(y, 0, d), -1);
    assert NormalizeMonth(y, 12) == (y + 1, 0);
    assert NormalizeMonth(y, -1) == (y - 1, 11);
  }

  /** Days up to the 28th exist in every month: the shift then only changes
      the month count, so shifts compose and a shift is undone by the
      opposite shift. */
  lemma ShiftMonthCompose(d: CivilDate, a: int, b: int)
    requires ValidDate(d) && d.day <= 28
    ensures ShiftMonth(ShiftMonth(d, a), b) == ShiftMonth(d, a + b)
    ensures ShiftMonth(ShiftMonth(d, a), -a) == d
  {
    var t := NormalizeMonth(d.year, d.month + a);
    ShiftMonthCases(d, a);
    var e := ShiftMonth(d, a);
    assert e == CivilDate(t.0, t.1, d.day);
    MakeDateMonthCount(e.year, e.month + b, d.year, d.month + a + b, d.day);
    MakeDateMonthCount(e.year, e.month - a, d.year, d.month, d.day);
    MakeDateOfValid(d);
  }

  /** When the day does not exist in the target month, `changeMonth` lands
      one month past the target: the calendar shows month `month + offset + 1`
      instead of `month + offset`. */
  lemma ShiftMonthMissesTarget(d: CivilDate, offset: int)
    requires ValidDate(d)
    requires var t := NormalizeMonth(d.year, d.month + offset); DaysInMonth(t.0, t.1) < d.day
    ensures var r := ShiftMonth(d, offset);
            12 * r.year + r.month == 12 * d.year + d.month + offset + 1
  {
    ShiftMonthCases(d, offset);
  }

  /** The ❮ button on 31 March 2025 stays in March: one month back is
      "31 February", which rolls on to 3 March. */
  lemma BackFromMarchThirtyFirst()
    ensures ShiftMonth(CivilDate(2025, 2, 31), -1) == CivilDate(2025, 2, 3)
  {
    assert NormalizeMonth(2025, 1) == (2025, 1) && NormalizeMonth(2025, 2) == (2025, 2);
    assert DaysInMonth(2025, 1) == 28;
    MakeDateOverflows(2025, 1, 31);
  }

  /** The intended move: to month `month + offset`, keeping the day when the
      target month has it and otherwise taking the target's last day. */
  function ClampedShift(d: CivilDate, offset: int): (r: CivilDate)
    requires ValidDate(d)
    ensures ValidDate(r)
    ensures 12 * r.year + r.month == 12 * d.year + d.month + offset
    ensures 1 <= r.day <= d.day
  {
    var t := NormalizeMonth(d.year, d.month + offset);
    var dim := DaysInMonth(t.0, t.1);
    CivilDate(t.0, t.1, if d.day <= dim then d.day else dim)
  }

  /** The clamped move agrees with `changeMonth` whenever the day exists in
      the target month, takes the target's last day otherwise, and never
      repeats or skips a month: `n` single steps move `n` months. */
  lemma ClampedShiftAgrees(d: CivilDate, offset: int)
    requires ValidDate(d)
    ensures var t := NormalizeMonth(d.year, d.month + offset);
            var dim := DaysInMonth(t.0, t.1);
            (d.day <= dim ==> ClampedShift(d, offset) == ShiftMonth(d, offset)) &&
            (dim < d.day ==> ClampedShift(d, offset).day == dim)
    ensures ClampedShift(d, offset).month != d.month <==> offset % 12 != 0
  {
    var t := NormalizeMonth(d.year, d.month + offset);
    if d.day <= DaysInMonth(t.0, t.1) {
      ShiftMonthCases(d, offset);
    }
    var r := ClampedShift(d, offset);
    assert 12 * (r.year - d.year) + (r.month - d.month) == offset;
  }
}
