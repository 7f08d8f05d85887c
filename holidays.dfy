/** Holiday annotation of a month: the records of the yearly holiday list
    whose date falls in the month, the day set used to highlight compact
    grids, and the `find` used to highlight full grids. */
module Holidays {
  import opened Gregorian
  import opened Options
  import opened MonthGrid

  /** One record of the fetched list: `{date: "YYYY-MM-DD", name}`. */
  datatype HolidayRecord = HolidayRecord(date: string, name: string)

  /** One item of the holiday line: `${day}. ${name}`. */
  datatype Holiday = Holiday(day: int, name: string)

  predicate IsDigit(c: char)
  {
    '0' <= c <= '9'
  }

  predicate AllDigits(s: string)
  {
    forall i :: 0 <= i < |s| ==> IsDigit(s[i])
  }

  function Pow10(k: nat): nat
  {
    if k == 0 then 1 else 10 * Pow10(k - 1)
  }

  /** The decimal value of a digit string, less than 10 to the power of its
      length. */
  function Number(s: string): (n: nat)
    requires AllDigits(s)
    ensures n < Pow10(|s|)
  {
    if |s| == 0 then 0 else 10 * Number(s[..|s| - 1]) + (s[|s| - 1] as int - '0' as int)
  }

  /** `new Date(date + "T00:00:00")`, read back through `getFullYear`,
      `getMonth` and `getDate`; `None` is the invalid date, whose getters
      give NaN. The fixed suffix makes the string a local date-time of the
      date-time string format of ECMA-262 (section 21.4.1.32) exactly when
      `date` is one of its date-only forms `YYYY`, `YYYY-MM` or
      `YYYY-MM-DD`; missing fields default to 01, and out-of-range fields
      make the string invalid. */
  function ParseHolidayDate(date: string): (r: Option<CivilDate>)
    ensures r.Some? ==> ValidDate(r.value) && 0 <= r.value.year <= 9999
  {
    if |date| == 4 && AllDigits(date) then
      Some(CivilDate(Number(date), 0, 1))
    else if |date| == 7 && AllDigits(date[..4]) && date[4] == '-' && AllDigits(date[5..])
            && 1 <= Number(date[5..]) <= 12 then
      Some(CivilDate(Number(date[..4]), Number(date[5..]) - 1, 1))
    else if |date| == 10 && AllDigits(date[..4]) && date[4] == '-' && AllDigits(date[5..7])
            && date[7] == '-' && AllDigits(date[8..])
            && 1 <= Number(date[5..7]) <= 12
            && 1 <= Number(date[8..]) <= DaysInMonth(Number(date[..4]), Number(date[5..7]) - 1) then
      Some(CivilDate(Number(date[..4]), Number(date[5..7]) - 1, Number(date[8..])))
    else
      None
  }

  function Digit(k: int): char
    requires 0 <= k < 10
  {
    ('0' as int + k) as char
  }

  function TwoDigits(n: int): string
    requires 0 <= n < 100
  {
    [Digit(n / 10), Digit(n % 10)]
  }

  /** The `"YYYY-MM-DD"` form the holiday list uses. */
  function FormatDate(d: CivilDate): string
    requires ValidDate(d) && 0 <= d.year <= 9999
  {
    TwoDigits(d.year / 100) + TwoDigits(d.year % 100) + "-" + TwoDigits(d.month + 1) + "-" + TwoDigits(d.day)
  }

  lemma NumberTwoDigits(n: int)
    requires 0 <= n < 100
    ensures AllDigits(TwoDigits(n)) && Number(TwoDigits(n)) == n
  {
    var s := TwoDigits(n);
    assert s[..1][..0] == [];
    assert s[0] as int - '0' as int == n / 10 && s[1] as int - '0' as int == n % 10;
    assert Number(s[..1]) == n / 10;
  }

  lemma {:induction false} NumberAppendTwo(s: string, t: string)
    requires AllDigits(s) && AllDigits(t) && |t| == 2
    ensures AllDigits(s + t) && Number(s + t) == 100 * Number(s) + Number(t)
  {
    var st := s + t;
    var s1 := s + [t[0]];
    assert st[..|st| - 1] == s1 && st[|st| - 1] == t[1];
    assert s1[..|s|] == s && s1[|s|] == t[0];
    assert t[..1] == [t[0]] && t[..1][..0] == [];
    assert Number(st) == 10 * Number(s1) + (t[1] as int - '0' as int);
    assert Number(s1) == 10 * Number(s) + (t[0] as int - '0' as int);
    assert Number(t) == 10 * Number(t[..1]) + (t[1] as int - '0' as int);
    assert Number(t[..1]) == t[0] as int - '0' as int;
  }

  /** Every date of years 0..9999, written as `YYYY-MM-DD`, parses back to
      itself. */
  lemma ParseFormatted(d: CivilDate)
    requires ValidDate(d) && 0 <= d.year <= 9999
    ensures ParseHolidayDate(FormatDate(d)) == Some(d)
  {
    var hi, lo := TwoDigits(d.year / 100), TwoDigits(d.year % 100);
    var mm, dd := TwoDigits(d.month + 1), TwoDigits(d.day);
    NumberTwoDigits(d.year / 100);
    NumberTwoDigits(d.year % 100);
    NumberTwoDigits(d.month + 1);
    NumberTwoDigits(d.day);
    NumberAppendTwo(hi, lo);
    var s := FormatDate(d);
    assert s == hi + lo + "-" + mm + "-" + dd;
    assert s[..4] == hi + lo && s[5..7] == mm && s[8..] == dd;
    assert s[4] == '-' && s[7] == '-';
  }

  lemma TwoDigitsOfNumber(s: string)
    requires |s| == 2 && AllDigits(s)
    ensures Number(s) < 100 && TwoDigits(Number(s)) == s
  {
    assert s[..1][..0] == [];
    assert Number(s[..1]) == s[0] as int - '0' as int;
    assert Number(s) == 10 * (s[0] as int - '0' as int) + (s[1] as int - '0' as int);
  }

  /** A ten-character date that parses is in the `YYYY-MM-DD` form, and its
      fields are the parsed date's. */
  lemma ParsedFields(s: string)
    requires |s| == 10 && ParseHolidayDate(s).Some?
    ensures AllDigits(s[..4]) && s[4] == '-' && AllDigits(s[5..7]) && s[7] == '-' && AllDigits(s[8..])
    ensures ParseHolidayDate(s).value == CivilDate(Number(s[..4]), Number(s[5..7]) - 1, Number(s[8..]))
  {
  }

  /** A `YYYY-MM-DD` string that parses is the formatted form of its date:
      parsing loses nothing. */
  lemma FormatParsed(s: string)
    requires |s| == 10 && ParseHolidayDate(s).Some?
    ensures FormatDate(ParseHolidayDate(s).value) == s
  {
    ParsedFields(s);
    var d := ParseHolidayDate(s).value;
    var y := s[..4];
    assert y[..2] + y[2..] == y;
    NumberAppendTwo(y[..2], y[2..]);
    TwoDigitsOfNumber(y[..2]);
    TwoDigitsOfNumber(y[2..]);
    TwoDigitsOfNumber(s[5..7]);
    TwoDigitsOfNumber(s[8..]);
    assert d.year / 100 == Number(y[..2]) && d.year % 100 == Number(y[2..]);
    assert FormatDate(d) == y[..2] + y[2..] + "-" + s[5..7] + "-" + s[8..];
    assert s == y[..2] + y[2..] + "-" + s[5..7] + "-" + s[8..];
  }

  /** The filter of the three holiday chains: the record's date parses and
      falls in year `y`, month `m`. */
  predicate InMonth(r: HolidayRecord, y: int, m: int)
  {
    var d := ParseHolidayDate(r.date);
    d.Some? && d.value.year == y && d.value.month == m
  }

  /** The `find` predicate: the record falls on day `dia` of month `m` of
      year `y`. */
  predicate OnDay(r: HolidayRecord, y: int, m: int, dia: int)
  {
    ParseHolidayDate(r.date) == Some(CivilDate(y, m, dia))
  }

  /** `feriadosLista` / `feriadosDoMes` / `feriadosMes`: the records of the
      month, in input order, as (day, name). Each day is a day of that
      month. */
  function MonthHolidays(rs: seq<HolidayRecord>, y: int, m: int): (hs: seq<Holiday>)
    ensures |hs| <= |rs|
    ensures forall k :: 0 <= k < |hs| ==> 0 <= m < 12 && 1 <= hs[k].day <= DaysInMonth(y, m)
  {
    if |rs| == 0 then []
    else
      var head := if InMonth(rs[0], y, m) then [Holiday(ParseHolidayDate(rs[0].date).value.day, rs[0].name)] else [];
      var tail := MonthHolidays(rs[1..], y, m);
      assert forall k :: 0 <= k < |head| ==> 0 <= m < 12 && 1 <= head[k].day <= DaysInMonth(y, m);
      assert forall k :: |head| <= k < |head| + |tail| ==> (head + tail)[k] == tail[k - |head|];
      head + tail
  }

  /** The `filter(...).map(h => ...getDate())` list behind `feriadosSet`. */
  function MonthHolidayDays(rs: seq<HolidayRecord>, y: int, m: int): seq<int>
  {
    if |rs| == 0 then []
    else
      (if InMonth(rs[0], y, m) then [ParseHolidayDate(rs[0].date).value.day] else [])
      + MonthHolidayDays(rs[1..], y, m)
  }

  /** `feriadosSet`. */
  function HolidayDaySet(rs: seq<HolidayRecord>, y: int, m: int): set<int>
  {
    set d | d in MonthHolidayDays(rs, y, m)
  }

  /** `holidays.find(...)`, as the index of the record found. */
  function FindHoliday(rs: seq<HolidayRecord>, y: int, m: int, dia: int): (r: Option<nat>)
    ensures r.Some? ==> r.value < |rs| && OnDay(rs[r.value], y, m, dia)
    ensures r.Some? ==> forall j :: 0 <= j < r.value ==> !OnDay(rs[j], y, m, dia)
    ensures r.None? ==> forall j :: 0 <= j < |rs| ==> !OnDay(rs[j], y, m, dia)
  {
    if |rs| == 0 then None
    else if OnDay(rs[0], y, m, dia) then Some(0)
    else
      match FindHoliday(rs[1..], y, m, dia)
      case None => None
      case Some(k) => Some(k + 1)
  }

  /** The full-page and interactive grids: a day cell is a holiday when
      `find` returns a record. */
  predicate FoundHighlight(rs: seq<HolidayRecord>, y: int, m: int, c: Cell)
  {
    c.Day? && FindHoliday(rs, y, m, c.n).Some?
  }

  /** The compact grid: `d && feriadosSet.has(d)`. */
  predicate SetHighlight(rs: seq<HolidayRecord>, y: int, m: int, c: Cell)
  {
    c.Day? && c.n in HolidayDaySet(rs, y, m)
  }

  /** The holiday list preserves input order: it maps concatenation to
      concatenation. */
  lemma {:induction false} MonthHolidaysAppend(a: seq<HolidayRecord>, b: seq<HolidayRecord>, y: int, m: int)
    ensures MonthHolidays(a + b, y, m) == MonthHolidays(a, y, m) + MonthHolidays(b, y, m)
  {
    if |a| == 0 {
      assert a + b == b;
    } else {
      assert (a + b)[0] == a[0];
      assert (a + b)[1..] == a[1..] + b;
      MonthHolidaysAppend(a[1..], b, y, m);
    }
  }

  /** A record whose date does not parse is dropped without affecting the
      others. */
  lemma MalformedDateSkipped(a: seq<HolidayRecord>, r: HolidayRecord, b: seq<HolidayRecord>, y: int, m: int)
    requires ParseHolidayDate(r.date).None?
    ensures MonthHolidays(a + [r] + b, y, m) == MonthHolidays(a + b, y, m)
  {
    assert !InMonth(r, y, m);
    assert [r][1..] == [];
    assert MonthHolidays([r], y, m) == [];
    MonthHolidaysAppend(a + [r], b, y, m);
    MonthHolidaysAppend(a, [r], y, m);
    MonthHolidaysAppend(a, b, y, m);
  }

  /** An item (d, n) is on the holiday line exactly when some record named n
      is dated day d of the month. */
  lemma {:induction false} MonthHolidaysMembership(rs: seq<HolidayRecord>, y: int, m: int, d: int, n: string)
    ensures Holiday(d, n) in MonthHolidays(rs, y, m) <==>
            exists k :: 0 <= k < |rs| && rs[k].name == n && OnDay(rs[k], y, m, d)
  {
    if |rs| > 0 {
      MonthHolidaysMembership(rs[1..], y, m, d, n);
      if exists k :: 0 <= k < |rs| && rs[k].name == n && OnDay(rs[k], y, m, d) {
        var k :| 0 <= k < |rs| && rs[k].name == n && OnDay(rs[k], y, m, d);
        if k > 0 {
          assert rs[1..][k - 1] == rs[k];
        }
      }
      if exists k :: 0 <= k < |rs[1..]| && rs[1..][k].name == n && OnDay(rs[1..][k], y, m, d) {
        var k :| 0 <= k < |rs[1..]| && rs[1..][k].name == n && OnDay(rs[1..][k], y, m, d);
        assert rs[k + 1] == rs[1..][k];
      }
    }
  }

  /** The days of a holiday line, in order. */
  function DaysOf(hs: seq<Holiday>): (ds: seq<int>)
    ensures |ds| == |hs| && forall i :: 0 <= i < |hs| ==> ds[i] == hs[i].day
  {
    seq(|hs|, i requires 0 <= i < |hs| => hs[i].day)
  }

  /** The day list behind the day set is the list of days on the holiday
      line: the two chains filter the same records in the same order. */
  lemma {:induction false} DayListIsListDays(rs: seq<HolidayRecord>, y: int, m: int)
    ensures MonthHolidayDays(rs, y, m) == DaysOf(MonthHolidays(rs, y, m))
  {
    if |rs| > 0 {
      DayListIsListDays(rs[1..], y, m);
      var hhead := if InMonth(rs[0], y, m) then [Holiday(ParseHolidayDate(rs[0].date).value.day, rs[0].name)] else [];
      var tail := MonthHolidays(rs[1..], y, m);
      assert MonthHolidays(rs, y, m) == hhead + tail;
      assert DaysOf(hhead + tail) == DaysOf(hhead) + DaysOf(tail);
    }
  }

  /** The day set is the set of days on the holiday line. */
  lemma DaySetIsListDays(rs: seq<HolidayRecord>, y: int, m: int)
    ensures HolidayDaySet(rs, y, m) == set h | h in MonthHolidays(rs, y, m) :: h.day
  {
    DayListIsListDays(rs, y, m);
    var hs := MonthHolidays(rs, y, m);
    forall d | d in HolidayDaySet(rs, y, m)
      ensures d in set h | h in hs :: h.day
    {
      var i :| 0 <= i < |hs| && DaysOf(hs)[i] == d;
      assert hs[i] in hs;
    }
    forall d | d in set h | h in hs :: h.day
      ensures d in HolidayDaySet(rs, y, m)
    {
      var h :| h in hs && h.day == d;
      var i :| 0 <= i < |hs| && hs[i] == h;
      assert DaysOf(hs)[i] == d;
    }
  }

  /** A day is in the day set exactly when some record is dated that day of
      the month. */
  lemma {:induction false} DaySetMembership(rs: seq<HolidayRecord>, y: int, m: int, dia: int)
    ensures dia in HolidayDaySet(rs, y, m) <==> exists k :: 0 <= k < |rs| && OnDay(rs[k], y, m, dia)
  {
    if |rs| > 0 {
      DaySetMembership(rs[1..], y, m, dia);
      assert MonthHolidayDays(rs, y, m) ==
             (if InMonth(rs[0], y, m) then [ParseHolidayDate(rs[0].date).value.day] else [])
             + MonthHolidayDays(rs[1..], y, m);
      if exists k :: 0 <= k < |rs| && OnDay(rs[k], y, m, dia) {
        var k :| 0 <= k < |rs| && OnDay(rs[k], y, m, dia);
        if k > 0 {
          assert rs[1..][k - 1] == rs[k];
        }
      }
      if exists k :: 0 <= k < |rs[1..]| && OnDay(rs[1..][k], y, m, dia) {
        var k :| 0 <= k < |rs[1..]| && OnDay(rs[1..][k], y, m, dia);
        assert rs[k + 1] == rs[1..][k];
      }
    }
  }

  /** The two highlight rules agree on every cell: `find` finds a record for
      a day exactly when the day is in the day set. */
  lemma HighlightsAgree(rs: seq<HolidayRecord>, y: int, m: int, c: Cell)
    ensures FoundHighlight(rs, y, m, c) <==> SetHighlight(rs, y, m, c)
    ensures FoundHighlight(rs, y, m, c) <==>
            c.Day? && exists k :: 0 <= k < |rs| && OnDay(rs[k], y, m, c.n)
  {
    if c.Day? {
      DaySetMembership(rs, y, m, c.n);
    }
  }

  /** An empty or failed fetch gives no holidays and no highlights. */
  lemma NoRecords(y: int, m: int, c: Cell)
    ensures MonthHolidays([], y, m) == [] && HolidayDaySet([], y, m) == {}
    ensures !FoundHighlight([], y, m, c) && !SetHighlight([], y, m, c)
  {
  }

  /** Carnaval 2024: the record dated 2024-02-15 gives the line
      "15. Carnaval" and the day set {15} in February. */
  lemma CarnavalExample()
    ensures MonthHolidays([HolidayRecord("2024-02-15", "Carnaval")], 2024, 1) == [Holiday(15, "Carnaval")]
    ensures HolidayDaySet([HolidayRecord("2024-02-15", "Carnaval")], 2024, 1) == {15}
  {
    var d := CivilDate(2024, 1, 15);
    assert FormatDate(d) == "2024-02-15";
    ParseFormatted(d);
    var rs := [HolidayRecord("2024-02-15", "Carnaval")];
    assert MonthHolidayDays(rs, 2024, 1) == [15];
  }
}
