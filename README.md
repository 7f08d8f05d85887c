# Calendar grid and annotations

A Dafny model of the logic inside the React calendar component
`src/components/Calendar.js`: the month grid it draws (`buildMonthArray`),
the lunar-phase line under each month (`calcLunarPhasesForMonth`,
`traducaoFases`, `fasesPrincipais` and the transition loop), the holiday line
and the holiday highlights (the `filter`/`map`/`Set` chains and the `find`),
and month navigation (`changeMonth` and the wrapped titles of the two
mini-months).

The component copies the transition loop and the holiday chains into three
render paths (compact card, full printed page, interactive view). Each is
defined once here and every copy cites the same definition.

Modules:

- `Gregorian` (`gregorian.dfy`): the proleptic Gregorian calendar, plus the
  part of the local-time JavaScript `Date` the component relies on.
  - `new Date(y, m, d)` and `setMonth` accept out-of-range months and days.
    `MakeDate` models the normalisation: the month with a year carry, then
    the day rolled forward or back month by month.
  - `MakeDateIsMakeDay` proves that this agrees with the day arithmetic of
    MakeDay in ECMA-262, section 21.4.1.
- `MonthGrid` (`month_grid.dfy`): `buildMonthArray`, the grid's weekday
  columns and the mini-month title indices.
- `LunarPhases` (`lunar.dfy`): the translation table, the per-day phases and
  the moon line of principal transitions. The astronomy library's
  `Moon.lunarPhase` is the function parameter `phaseOf`.
- `Holidays` (`holidays.dfy`): parsing of the `date` field, the month's
  holiday list, the day set of the compact grid and the `find` of the full
  grids. The fetched holiday list is the input sequence `rs`.
- `Navigation` (`navigation.dfy`): a `JsDate` class for the copied `Date`
  that `setMonth` updates in place, and `changeMonth`.
- `Options` (`option.dfy`): the `Option` type.

## Model

| member | source | states |
|---|---|---|
| Gregorian.DaysInMonth | src/components/Calendar.js:65 | a month of the Gregorian table has 28 to 31 days |
| Gregorian.NormalizeMonth | src/components/Calendar.js:64-65 | any month index becomes an in-range month (0..11) with a year carry that keeps the month count 12·y + m |
| Gregorian.NormalizeMonthUnique | src/components/Calendar.js:64-65 | equal month counts give the same normalised (year, month) |
| Gregorian.DayNumber | src/components/Calendar.js:64 | the day count behind `Date`; `Gregorian.Epoch`, `Gregorian.DayNumberInMonth`, `Gregorian.DayNumberNextMonth` and `Gregorian.DaysBeforeYearFormula` fix it |
| Gregorian.EcmaMakeDay | src/components/Calendar.js:64-65 | ECMA-262 MakeDay(y, m, d) as a day count; `Gregorian.MakeDateIsMakeDay` and `Gregorian.FirstDayStep` state it |
| Gregorian.Epoch | src/components/Calendar.js:64 | day numbers count from 1 January 1970, the day 0 of `Date` |
| Gregorian.Weekday | src/components/Calendar.js:64 | `getDay()` is in 0..6 |
| Gregorian.MakeDate | src/components/Calendar.js:58-59 | `new Date(y, m, d)` / `setMonth` always yield a valid calendar date, whatever the month and day |
| Gregorian.MakeDateIsMakeDay | src/components/Calendar.js:64-65 | the normalised date has exactly the day number of ECMA-262 MakeDay(y, m, d) |
| Gregorian.MakeDateOfValid | src/components/Calendar.js:59 | `new Date(y, m, d)` or `setMonth` with fields already in range (such as offset 0) leaves the date unchanged |
| Gregorian.MakeDateMonthCount | src/components/Calendar.js:64-65 | the result depends on (y, m) only through the month count |
| Gregorian.MakeDateFits | src/components/Calendar.js:59 | a day the normalised month has is kept, in that month |
| Gregorian.MakeDateOverflows | src/components/Calendar.js:59 | a day past the end of the normalised month lands in the month after, on day d − length |
| Gregorian.DayZeroIsLastDay | src/components/Calendar.js:65 | `new Date(y, m+1, 0)` is the last day of month m, so `getDate()` is its length |
| Gregorian.DayNumberNextMonth | src/components/Calendar.js:64-65 | the day after a month's last day is the next month's first day |
| Gregorian.FirstDayStep | src/components/Calendar.js:64 | the next month starts one month length after this month's first day |
| Gregorian.RollForwardDayNumber | src/components/Calendar.js:59 | rolling a day forward keeps its day number |
| Gregorian.RollBackDayNumber | src/components/Calendar.js:65 | rolling day 0 or earlier back keeps its day number |
| MonthGrid.LeadingBlanks | src/components/Calendar.js:64 | the number of leading blanks is in 0..6 |
| MonthGrid.LeadingBlanksIsWeekday | src/components/Calendar.js:64 | the blanks are the weekday of day 1 of the month (0 = Sunday) |
| MonthGrid.GridDays | src/components/Calendar.js:65 | the day count is the normalised month's Gregorian length, in 28..31 |
| MonthGrid.Grid | src/components/Calendar.js:63-69 | the grid as a value; `MonthGrid.BuildMonthArray`, `MonthGrid.GridColumnIsWeekday` and `MonthGrid.GridWrapsYear` state it |
| MonthGrid.BuildMonthArray | src/components/Calendar.js:63-69 | length is lead + month length, the first lead cells are blank, then cell i is day i − lead + 1, with no trailing padding |
| MonthGrid.GridColumnIsWeekday | src/components/Calendar.js:63-68 | the day cells are 1..n, and each sits in the column of its own weekday |
| MonthGrid.NextGridContinues | src/components/Calendar.js:64-65 | the next month's first day is in the column after this month's last day |
| MonthGrid.GridMonthCount | src/components/Calendar.js:64-65 | the grid depends on (y, m) only through the month count |
| MonthGrid.GridWrapsYear | src/components/Calendar.js:75-76 | the grids of months −1, 12 and 13 are December of the year before and January and February of the year after |
| MonthGrid.FebruaryLength | src/components/Calendar.js:65-67 | February has 29 days exactly in Gregorian leap years, 28 otherwise |
| MonthGrid.February2024 | src/components/Calendar.js:63-68 | February 2024 has four blanks and 29 days, 33 cells |
| MonthGrid.PrevTitleIndex | src/components/Calendar.js:230 | `(m-1+12)%12` is in 0..11: the month before, with January wrapping to December; the same index is at line 351 |
| MonthGrid.NextTitleIndex | src/components/Calendar.js:237 | `(m+1)%12` is in 0..11: the month after, with December wrapping to January; the same index is at line 356 |
| MonthGrid.MiniTitlesMatchGrids | src/components/Calendar.js:230-237 | the titles `(m-1+12)%12` and `(m+1)%12` are in 0..11 and name the months of the grids drawn under them; the same holds at lines 351 and 356 |
| LunarPhases.Translate | src/components/Calendar.js:84 | the table lookup with fallback to the raw name; `LunarPhases.TranslationFolds` and `LunarPhases.TranslationFallback` state it |
| LunarPhases.DailyPhases | src/components/Calendar.js:79-87 | the dictionary as a value; `LunarPhases.CalcLunarPhasesForMonth` states it |
| LunarPhases.TranslationFolds | src/components/Calendar.js:10-19 | the eight names fold onto the four principal labels and the two gibbous labels; the quarters and crescents share "Crescente" and "Minguante" |
| LunarPhases.TranslationFallback | src/components/Calendar.js:84 | a name missing from the table is shown as it is |
| LunarPhases.CalcLunarPhasesForMonth | src/components/Calendar.js:79-87 | exactly one entry per day 1..length of the month, in day order, each the translated phase of that day; from year 0 on each key reads month `m + 1` and the day, for a negative year it reads the negated year and `m + 1` |
| LunarPhases.DailyPhasesKeys | src/components/Calendar.js:84 | the fields `LunarPhases.KeyFields` takes from the key `${y}-${m+1}-${d}`: one entry per day of the month; from year 0 on the fields are month `m + 1` and day `d`, for a negative year they are `-y` and `m + 1` |
| LunarPhases.MonthEntries | src/components/Calendar.js:119 | the key filter never adds entries |
| LunarPhases.MonthEntriesKeepsAll | src/components/Calendar.js:119 | the key filter keeps every entry of the month's own dictionary |
| LunarPhases.MonthEntriesDropsAll | src/components/Calendar.js:119 | when no key names month `m`, the key filter drops every entry |
| LunarPhases.Transitions | src/components/Calendar.js:116-125 | only principal labels are pushed, neighbours never repeat a label, and every item comes from an entry; the same loop is at lines 155-164 and 307-316 |
| LunarPhases.ExtractTransitions | src/components/Calendar.js:116-125 | the loop with its `p` variable computes the month-filtered transitions; the same loop is at lines 155-164 and 307-316 |
| LunarPhases.TransitionsCollapse | src/components/Calendar.js:116-125 | the item labels are the principal daily labels with each run of equal neighbours collapsed to one |
| LunarPhases.PushCollapses | src/components/Calendar.js:120-125 | one loop step keeps the labels equal to the collapsed labels |
| LunarPhases.CollapseFirstLast | src/components/Calendar.js:120-125 | keeping the first item of each run keeps the phase of the last item, and keeps something of a non-empty list |
| LunarPhases.TransitionsAreRunStarts | src/components/Calendar.js:116-125 | the moon line is the principal entries with only the first of each run of equal phases kept: each item carries the day its run starts |
| LunarPhases.TransitionDaysIncrease | src/components/Calendar.js:116-125 | increasing entry days give strictly increasing item days |
| LunarPhases.OneRun | src/components/Calendar.js:120-125 | a run of one principal phase gives one item, on its first day |
| LunarPhases.TwoRuns | src/components/Calendar.js:120-125 | two runs of different principal phases give one item each, on the first day of each run |
| LunarPhases.MoonLineExample | src/components/Calendar.js:79-87 | New Moon on days 1-7 and First Quarter afterwards give "1. Lua Nova" and "8. Crescente" |
| LunarPhases.MoonLine | src/components/Calendar.js:307-316 | the moon line of a month: principal labels only and no repeats; from year 0 on, strictly increasing days within the month, labels equal to the collapsed principal daily labels, and each item the first day of its run of equal principal phases; for a negative year whose negation is not `m + 1`, no moon line at all |
| LunarPhases.MoonLineOf | src/components/Calendar.js:116-125 | the filtered transitions of a month's dictionary: the run starts in day order from year 0 on, empty for a negative year whose negation is not `m + 1` |
| LunarPhases.RunStartsOfMonth | src/components/Calendar.js:116-125 | when every key names month `m` and the days run 1, 2, ..., the filter keeps everything and the line is the run starts of the principal phases, in increasing day order within the month |
| LunarPhases.NegativeYearExample | src/components/Calendar.js:119 | February of year −5 has keys `-5-2-d`, which the filter reads as month 5, so its moon line is empty |
| Holidays.Number | src/components/Calendar.js:97 | a digit string's value is below 10 to the power of its length |
| Holidays.ParseHolidayDate | src/components/Calendar.js:97 | a date that parses is a valid calendar date with a four-digit year |
| Holidays.ParseFormatted | src/components/Calendar.js:97 | every `YYYY-MM-DD` date written out parses back to itself |
| Holidays.FormatParsed | src/components/Calendar.js:97 | a ten-character date that parses is the written form of its date |
| Holidays.InMonth | src/components/Calendar.js:96-99 | the filter predicate; `Holidays.MonthHolidaysMembership` states what it keeps |
| Holidays.OnDay | src/components/Calendar.js:199-202 | the `find` predicate; `Holidays.FindHoliday` and `Holidays.DaySetMembership` state it |
| Holidays.MonthHolidays | src/components/Calendar.js:104-112 | no more items than records, and each item's day is a day of month m; the same chain is at lines 166-174 and 322-330 |
| Holidays.MonthHolidaysMembership | src/components/Calendar.js:104-112 | (d, n) is on the holiday line exactly when a record named n parses to (y, m, d) |
| Holidays.MonthHolidaysAppend | src/components/Calendar.js:104-112 | the holiday line keeps input order: it maps concatenation to concatenation |
| Holidays.MalformedDateSkipped | src/components/Calendar.js:96-97 | a record whose date does not parse is dropped and changes nothing else |
| Holidays.NoRecords | src/components/Calendar.js:42-44 | an empty or failed fetch gives no holiday line, an empty day set and no highlights |
| Holidays.MonthHolidayDays | src/components/Calendar.js:94-100 | the `filter(...).map(getDate)` list behind `feriadosSet`; `Holidays.DayListIsListDays` proves it is the list of days on the holiday line, in order |
| Holidays.HolidayDaySet | src/components/Calendar.js:94-101 | `feriadosSet`; `Holidays.DaySetIsListDays` and `Holidays.DaySetMembership` state its contents |
| Holidays.DayListIsListDays | src/components/Calendar.js:94-101 | the list behind the day set is the list of days on the holiday line |
| Holidays.DaySetIsListDays | src/components/Calendar.js:94-101 | the day set is the set of days on the holiday line |
| Holidays.DaySetMembership | src/components/Calendar.js:94-101 | a day is in the day set exactly when some record parses to that day of the month |
| Holidays.FindHoliday | src/components/Calendar.js:199-202 | `find` returns the first record dated that day, or none when no record is; the same `find` is at lines 296-299 |
| Holidays.SetHighlight | src/components/Calendar.js:137 | the compact grid's highlight; `Holidays.HighlightsAgree` states it |
| Holidays.FoundHighlight | src/components/Calendar.js:199-204 | the full grids' highlight, also at lines 296-300; `Holidays.HighlightsAgree` states it |
| Holidays.HighlightsAgree | src/components/Calendar.js:137 | the compact grid's set test and the full grid's `find` highlight the same cells, exactly the days some record is dated |
| Holidays.CarnavalExample | src/components/Calendar.js:104-112 | the record 2024-02-15 "Carnaval" gives the line "15. Carnaval" and the day set {15} in February 2024 |
| Navigation.JsDate.constructor | src/components/Calendar.js:58 | the copy holds the same date |
| Navigation.JsDate.SetMonth | src/components/Calendar.js:59 | the date becomes `new Date(year, m, day)`, still valid |
| Navigation.ShiftMonth | src/components/Calendar.js:57-60 | the date `changeMonth` moves to is a valid date |
| Navigation.ChangeMonth | src/components/Calendar.js:57-61 | the new date is in month `month + offset` (with year carry) on the same day when that month has it, and otherwise in the month after, on day − length |
| Navigation.ShiftMonthCases | src/components/Calendar.js:59 | the same two cases, with an overflow of at most 3 days |
| Navigation.JanuaryThirtyFirstForward | src/components/Calendar.js:57-60 | 31 January plus one month is 3 March in 2025 and 2 March in 2024 |
| Navigation.YearCarry | src/components/Calendar.js:57-60 | December plus one is January of the next year; January minus one is December of the year before |
| Navigation.ShiftMonthCompose | src/components/Calendar.js:57-60 | for days up to the 28th, shifts compose and a shift is undone by the opposite shift |
| Navigation.ShiftMonthMissesTarget | src/components/Calendar.js:59 | when the day does not exist in the target month, the new date is one month past the target |
| Navigation.BackFromMarchThirtyFirst | src/components/Calendar.js:57-60 | ❮ on 31 March 2025 gives 3 March 2025 |
| Navigation.ClampedShift | src/components/Calendar.js:57-60 | the corrected move is a valid date exactly `offset` months from the start, on a day no later than the original |
| Navigation.ClampedShiftAgrees | src/components/Calendar.js:57-60 | the corrected move equals `changeMonth` whenever the target month has the day, takes the target's last day otherwise, and changes the month exactly when offset is not a multiple of 12 |

## Findings

| source | as written | input that shows it | evidently intended | confidence | as-written member | corrected member |
|---|---|---|---|---|---|---|
| src/components/Calendar.js:57-61 | `changeMonth` calls `setMonth(getMonth() + offset)`, which keeps the day of the month; when the target month is shorter, the date runs into the month after the target | the current date is 31 March 2025 and ❮ is pressed: "31 February" becomes 3 March, so the calendar stays on March (likewise ❯ on 31 January skips February) | the ❮ and ❯ buttons move the displayed month by exactly one, clamping the day to the target month's length | high; not executed | Navigation.BackFromMarchThirtyFirst | Navigation.ClampedShift |

`Navigation.ShiftMonthMissesTarget` states the discrepancy for all inputs.
`Navigation.ClampedShiftAgrees` relates the corrected move to the written one.
`Navigation.ChangeMonth` itself still models the code as written.

## Left out

- The holiday and weather `fetch` calls, the clock timer, the print toggles
  and `window.print`: network I/O, timers and side effects. The holiday list
  is the input sequence of records; a failed fetch or a body that is not
  JSON is the empty sequence. The model assumes the response is an array:
  a JSON body of another shape would be stored as it is, and the `filter`
  calls on it would throw.
- The temperature rounding: floating point.
- JSX, CSS class names and React state hooks: presentation. The `" | "`
  joins and the `"d. label"` strings are (day, label) pairs.
- `Moon.lunarPhase` is a foreign floating-point astronomy routine. It is the
  function parameter `phaseOf` of (year, month, day); its result is taken as
  given.
- `src/components/LunarPhase.js` is a one-line presentational component and
  is not part of this model.
- Time zones, daylight saving and the time of day: every `Date` is a local
  calendar date. `Date.UTC(y, m, d)` in the phase loop is taken as the same
  calendar day.
- Gregorian.MakeDate: does not model the two-digit-year rule of the `Date`
  constructor, which maps years 0..99 to 1900..1999. The component only
  builds dates from years it read from another `Date`.
- Holidays.ParseHolidayDate: follows the date-only forms `YYYY`, `YYYY-MM`
  and `YYYY-MM-DD` of ECMA-262's date-time string format. It rejects days
  past the month's end. It leaves out expanded `±YYYYYY` years and the
  other, implementation-defined formats some engines also accept.
- Holidays.ParseHolidayDate: does not model engines that roll a day such as
  "02-30" over into the next month instead of rejecting it.
- LunarPhases.DailyPhases: requires a month in 0..11, as the component
  only builds the phases of such months. From year 0 on, the key filter
  `Number(dt.split("-")[1]) - 1 === m` reads back the month it wrote. For a
  negative year the key starts with `-`, so the filter reads the negated
  year as the month and the displayed day field holds the month number;
  the model writes those fields as the code does (`LunarPhases.KeyFields`).
- LunarPhases.MoonLine: for a negative year `y` with `y == -(m + 1)` the
  filter keeps every entry and each item shows `m + 1` as its day; there
  the contract gives only the general facts (principal labels, no
  repeats). The model's years are unbounded integers: it does not model
  that a `Date` more than 100,000,000 days from 1970 is invalid, where
  `Array(NaN)` in `buildMonthArray` throws, nor the mapping of years 0..99
  to 1900..1999 described for `Gregorian.MakeDate`.
- LunarPhases.Translate: a name inherited from `Object.prototype` (such as
  "constructor") would be looked up in the table's prototype; the library
  never returns such names, so the table is a plain map.
- Navigation.ChangeMonth: states the new date in calendar terms. Its
  agreement with MakeDay's day arithmetic is stated once, for
  `Gregorian.MakeDate`, by `Gregorian.MakeDateIsMakeDay`.
- The two gibbous labels: the code translates them to labels outside
  `fasesPrincipais`, so they never enter the moon line and never update
  `p`; the model follows the code, not a reading in which gibbous days are
  folded into a neighbouring principal phase.
- Gregorian: no lemma states that distinct valid dates have distinct day
  numbers; the model does not need it.
