/** Lunar-phase annotation of a month: the raw phase of each day, translated
    to Portuguese (`calcLunarPhasesForMonth`, `traducaoFases`), and the line
    of principal-phase transitions shown under the grid. The astronomy
    library's `Moon.lunarPhase` is the parameter `phaseOf`. */
module LunarPhases {
  import opened Gregorian
  import opened Options

  /** `traducaoFases`: the eight raw phase names of the library. */
  const TRANSLATION: map<string, string> := map[
    "New" := "Lua Nova",
    "First Quarter" := "Crescente",
    "Full" := "Lua Cheia",
    "Waxing Crescent" := "Crescente",
    "Waxing Gibbous" := "Gibosa Crescente",
    "Waning Gibbous" := "Gibosa Minguante",
    "Last Quarter" := "Minguante",
    "Waning Crescent" := "Minguante"
  ]

  /** `fasesPrincipais`. */
  const PRINCIPAL: seq<string> := ["Lua Nova", "Crescente", "Lua Cheia", "Minguante"]

  predicate IsPrincipal(phase: string)
  {
    phase in PRINCIPAL
  }

  /** `traducaoFases[F] || F`: every translation is a non-empty string, so
      the fallback to the raw name applies exactly to names missing from the
      table. */
  function Translate(raw: string): string
  {
    if raw in TRANSLATION then TRANSLATION[raw] else raw
  }

  /** The table folds the eight phases onto the four principal labels and
      the two gibbous labels; the gibbous ones are not principal. */
  lemma TranslationFolds(raw: string)
    requires raw in TRANSLATION
    ensures IsPrincipal(Translate(raw)) <==> raw != "Waxing Gibbous" && raw != "Waning Gibbous"
    ensures !IsPrincipal(Translate(raw)) ==> Translate(raw) in {"Gibosa Crescente", "Gibosa Minguante"}
    ensures Translate("First Quarter") == Translate("Waxing Crescent") == "Crescente"
    ensures Translate("Last Quarter") == Translate("Waning Crescent") == "Minguante"
    ensures Translate("New") == "Lua Nova" && Translate("Full") == "Lua Cheia"
  {
  }

  /** A raw name outside the table is shown as it is. */
  lemma TranslationFallback(raw: string)
    requires raw !in TRANSLATION
    ensures Translate(raw) == raw
  {
  }

  /** One entry of the `fases` dictionary, in insertion order: the second
      and third `-`-separated fields of its key `${y}-${m+1}-${d}`, read as
      numbers (the filter tests the first, the moon line shows the second),
      and the translated phase. */
  datatype PhaseEntry = PhaseEntry(month1: int, day: int, phase: string)

  /** The two key fields the render functions read. A year of 0 or more
      gives the month `m + 1` and the day. A negative year writes a leading
      `-`, so the split starts with an empty field and the two fields read
      are `-y` and `m + 1`. */
  function KeyFields(y: int, m: int, d: int): (int, int)
  {
    if 0 <= y then (m + 1, d) else (-y, m + 1)
  }

  /** One item of the moon line: `${day}. ${phase}`. */
  datatype Transition = Transition(day: int, phase: string)

  /** What `calcLunarPhasesForMonth(y, m)` returns, as `Object.entries`
      lists it: day 1..n of the month, each with its translated phase at
      UTC midnight (`Date.UTC(y, m, d)`). */
  function DailyPhases(y: int, m: int, phaseOf: CivilDate -> string): seq<PhaseEntry>
    requires 0 <= m < 12
  {
    seq(DaysInMonth(y, m), i => Entry(y, m, i + 1, phaseOf))
  }

  /** The entry of day `d`: key `${y}-${m+1}-${d}` and the translated phase. */
  function Entry(y: int, m: int, d: int, phaseOf: CivilDate -> string): PhaseEntry
  {
    var k := KeyFields(y, m, d);
    PhaseEntry(k.0, k.1, Translate(phaseOf(CivilDate(y, m, d))))
  }

  /** `calcLunarPhasesForMonth`: fills the dictionary day by day. There is
      exactly one entry per day of the month, in day order. */
  method CalcLunarPhasesForMonth(y: int, m: int, phaseOf: CivilDate -> string)
    returns (fases: seq<PhaseEntry>)
    requires 0 <= m < 12
    ensures fases == DailyPhases(y, m, phaseOf)
    ensures |fases| == DaysInMonth(y, m)
    ensures forall i :: 0 <= i < |fases| ==> fases[i].phase == Translate(phaseOf(CivilDate(y, m, i + 1)))
    ensures 0 <= y ==> forall i :: 0 <= i < |fases| ==> fases[i].month1 == m + 1 && fases[i].day == i + 1
    ensures y < 0 ==> forall i :: 0 <= i < |fases| ==> fases[i].month1 == -y && fases[i].day == m + 1
  {
    DayZeroIsLastDay(y, m);
    assert NormalizeMonth(y, m) == (y, m);
    var diasMes := MakeDate(y, m + 1, 0).day;
    fases := [];
    for d := 1 to diasMes + 1
      invariant |fases| == d - 1
      invariant forall i :: 0 <= i < d - 1 ==>
                  fases[i] == Entry(y, m, i + 1, phaseOf)
    {
      var f := phaseOf(CivilDate(y, m, d));
      var key := KeyFields(y, m, d);
      fases := fases + [PhaseEntry(key.0, key.1, Translate(f))];
    }
  }

  /** `.filter(([dt]) => Number(dt.split("-")[1]) - 1 === m)`. */
  function MonthEntries(es: seq<PhaseEntry>, m: int): (r: seq<PhaseEntry>)
    ensures |r| <= |es|
  {
    if |es| == 0 then []
    else
      var e := es[|es| - 1];
      MonthEntries(es[..|es| - 1], m) + (if e.month1 - 1 == m then [e] else [])
  }

  /** The key filter keeps every entry `calcLunarPhasesForMonth` made. */
  lemma {:induction false} MonthEntriesKeepsAll(es: seq<PhaseEntry>, m: int)
    requires forall i :: 0 <= i < |es| ==> es[i].month1 == m + 1
    ensures MonthEntries(es, m) == es
  {
    if |es| > 0 {
      MonthEntriesKeepsAll(es[..|es| - 1], m);
      assert es[..|es| - 1] + [es[|es| - 1]] == es;
    }
  }

  /** The key filter keeps no entry whose month field is another month. */
  lemma {:induction false} MonthEntriesDropsAll(es: seq<PhaseEntry>, m: int)
    requires forall i :: 0 <= i < |es| ==> es[i].month1 != m + 1
    ensures MonthEntries(es, m) == []
  {
    if |es| > 0 {
      MonthEntriesDropsAll(es[..|es| - 1], m);
    }
  }

  /** `p` / `prevF` / `P`: the phase of the last item pushed, `null` at
      first. */
  function LastLabel(t: seq<Transition>): Option<string>
  {
    if |t| == 0 then None else Some(t[|t| - 1].phase)
  }

  /** The candidate items an entry list can produce. */
  function Items(es: seq<PhaseEntry>): set<Transition>
  {
    set e | e in es :: Transition(e.day, e.phase)
  }

  /** The moon line of a list of entries: an entry is pushed when its phase
      is principal and differs from the last phase pushed. Only principal
      labels are pushed, two neighbours never repeat a phase, and every item
      comes from an entry. */
  function Transitions(es: seq<PhaseEntry>): (t: seq<Transition>)
    ensures forall k :: 0 <= k < |t| ==> IsPrincipal(t[k].phase)
    ensures forall k :: 0 < k < |t| ==> t[k - 1].phase != t[k].phase
    ensures forall k :: 0 <= k < |t| ==> t[k] in Items(es)
  {
    if |es| == 0 then []
    else
      var t0 := Transitions(es[..|es| - 1]);
      var e := es[|es| - 1];
      assert Items(es[..|es| - 1]) <= Items(es) by {
        forall x | x in Items(es[..|es| - 1]) ensures x in Items(es) {
          var e' :| e' in es[..|es| - 1] && x == Transition(e'.day, e'.phase);
          assert e' in es;
        }
      }
      if IsPrincipal(e.phase) && LastLabel(t0) != Some(e.phase) then
        t0 + [Transition(e.day, e.phase)]
      else t0
  }

  lemma MonthEntriesStep(es: seq<PhaseEntry>, i: int, m: int)
    requires 0 <= i < |es|
    ensures MonthEntries(es[..i + 1], m) ==
            MonthEntries(es[..i], m) + (if es[i].month1 - 1 == m then [es[i]] else [])
  {
    assert es[..i + 1][..i] == es[..i];
  }

  lemma TransitionsStep(es: seq<PhaseEntry>, e: PhaseEntry)
    ensures Transitions(es + [e]) ==
            var t0 := Transitions(es);
            if IsPrincipal(e.phase) && LastLabel(t0) != Some(e.phase)
            then t0 + [Transition(e.day, e.phase)] else t0
  {
    assert (es + [e])[..|es|] == es;
  }

  /** The `forEach` loop of the three render functions: it skips entries of
      other months, and pushes an entry when its phase differs from `p` and
      is principal, updating `p` only then. */
  method ExtractTransitions(fases: seq<PhaseEntry>, m: int) returns (luas: seq<Transition>)
    ensures luas == Transitions(MonthEntries(fases, m))
  {
    luas := [];
    var p: Option<string> := None;
    for i := 0 to |fases|
      invariant luas == Transitions(MonthEntries(fases[..i], m))
      invariant p == LastLabel(luas)
    {
      var e := fases[i];
      MonthEntriesStep(fases, i, m);
      TransitionsStep(MonthEntries(fases[..i], m), e);
      if e.month1 - 1 == m {
        if Some(e.phase) != p && IsPrincipal(e.phase) {
          luas := luas + [Transition(e.day, e.phase)];
          p := Some(e.phase);
        }
      } else {
        assert MonthEntries(fases[..i + 1], m) == MonthEntries(fases[..i], m);
      }
    }
    assert fases[..|fases|] == fases;
  }

  // An independent description of the moon line: keep the principal labels,
  // then collapse each run of equal neighbours to one.

  function PrincipalOnly(s: seq<string>): seq<string>
  {
    if |s| == 0 then []
    else (if IsPrincipal(s[0]) then [s[0]] else []) + PrincipalOnly(s[1..])
  }

  function Collapse(s: seq<string>): seq<string>
  {
    if |s| <= 1 then s
    else if s[0] == s[1] then Collapse(s[1..])
    else [s[0]] + Collapse(s[1..])
  }

  function Labels(es: seq<PhaseEntry>): seq<string>
  {
    seq(|es|, i requires 0 <= i < |es| => es[i].phase)
  }

  function ItemLabels(t: seq<Transition>): seq<string>
  {
    seq(|t|, i requires 0 <= i < |t| => t[i].phase)
  }

  lemma {:induction false} PrincipalOnlySnoc(s: seq<string>, x: string)
    ensures PrincipalOnly(s + [x]) == PrincipalOnly(s) + (if IsPrincipal(x) then [x] else [])
  {
    if |s| > 0 {
      assert (s + [x])[1..] == s[1..] + [x];
      PrincipalOnlySnoc(s[1..], x);
    }
  }

  /** A collapsed sequence ends with the same element as the original, and
      is empty only when the original is. */
  lemma {:induction false} CollapseLast(s: seq<string>)
    ensures |Collapse(s)| == 0 <==> |s| == 0
    ensures |s| > 0 ==> Collapse(s)[|Collapse(s)| - 1] == s[|s| - 1]
  {
    if |s| > 1 {
      CollapseLast(s[1..]);
    }
  }

  lemma {:induction false} CollapseSnoc(s: seq<string>, x: string)
    ensures Collapse(s + [x]) ==
            if |s| > 0 && s[|s| - 1] == x then Collapse(s) else Collapse(s) + [x]
  {
    if |s| == 1 {
      assert s + [x] == [s[0], x];
    } else if |s| > 1 {
      assert (s + [x])[1..] == s[1..] + [x];
      CollapseSnoc(s[1..], x);
    }
  }

  /** The moon line's labels are the principal labels of the entries with
      each run of equal neighbours collapsed to one. */
  lemma {:induction false} TransitionsCollapse(es: seq<PhaseEntry>)
    ensures ItemLabels(Transitions(es)) == Collapse(PrincipalOnly(Labels(es)))
  {
    if |es| > 0 {
      var pre, e := es[..|es| - 1], es[|es| - 1];
      TransitionsCollapse(pre);
      assert Labels(es) == Labels(pre) + [e.phase];
      PrincipalOnlySnoc(Labels(pre), e.phase);
      var t0, x := Transitions(pre), Transition(e.day, e.phase);
      if IsPrincipal(e.phase) {
        assert Transitions(es) == if LastLabel(t0) != Some(x.phase) then t0 + [x] else t0;
        PushCollapses(t0, PrincipalOnly(Labels(pre)), x);
      } else {
        assert Transitions(es) == t0;
        assert PrincipalOnly(Labels(es)) == PrincipalOnly(Labels(pre));
      }
    }
  }

  /** One step of the loop keeps the labels equal to the collapsed labels. */
  lemma PushCollapses(t0: seq<Transition>, p: seq<string>, x: Transition)
    requires ItemLabels(t0) == Collapse(p)
    ensures ItemLabels(if LastLabel(t0) != Some(x.phase) then t0 + [x] else t0) == Collapse(p + [x.phase])
  {
    CollapseSnoc(p, x.phase);
    LastLabelOfCollapse(t0, p);
    if LastLabel(t0) != Some(x.phase) {
      ItemLabelsSnoc(t0, x);
    }
  }

  /** The last label pushed is the last principal label seen. */
  lemma LastLabelOfCollapse(t0: seq<Transition>, p: seq<string>)
    requires ItemLabels(t0) == Collapse(p)
    ensures LastLabel(t0) == if |p| == 0 then None else Some(p[|p| - 1])
  {
    CollapseLast(p);
    var c := Collapse(p);
    assert |t0| == |c|;
    if |p| == 0 {
      assert |t0| == 0;
    } else {
      assert t0[|t0| - 1].phase == c[|c| - 1] == p[|p| - 1];
    }
  }

  lemma ItemLabelsSnoc(t0: seq<Transition>, x: Transition)
    ensures ItemLabels(t0 + [x]) == ItemLabels(t0) + [x.phase]
  {
  }

  // The same description on items: keep the principal entries as items,
  // then keep the first item of each run of equal phases.

  function PrincipalItems(es: seq<PhaseEntry>): seq<Transition>
  {
    if |es| == 0 then []
    else
      var e := es[|es| - 1];
      PrincipalItems(es[..|es| - 1]) + (if IsPrincipal(e.phase) then [Transition(e.day, e.phase)] else [])
  }

  /** The first item of each run of neighbours with equal phases: an item is
      kept when it is the first or its predecessor has another phase. */
  function CollapseFirst(s: seq<Transition>): seq<Transition>
  {
    if |s| == 0 then []
    else
      var c := CollapseFirst(s[..|s| - 1]);
      if |s| > 1 && s[|s| - 2].phase == s[|s| - 1].phase then c else c + [s[|s| - 1]]
  }

  /** Collapsing keeps the phase of the last item, and empties nothing
      non-empty. */
  lemma {:induction false} CollapseFirstLast(s: seq<Transition>)
    ensures |CollapseFirst(s)| == 0 <==> |s| == 0
    ensures |s| > 0 ==> CollapseFirst(s)[|CollapseFirst(s)| - 1].phase == s[|s| - 1].phase
  {
    if |s| > 1 {
      CollapseFirstLast(s[..|s| - 1]);
    }
  }

  /** Each item of the moon line is the principal entry that starts a run of
      equal principal phases, carrying that entry's day. */
  lemma {:induction false} TransitionsAreRunStarts(es: seq<PhaseEntry>)
    ensures Transitions(es) == CollapseFirst(PrincipalItems(es))
  {
    if |es| > 0 {
      var pre, e := es[..|es| - 1], es[|es| - 1];
      TransitionsAreRunStarts(pre);
      var p, x := PrincipalItems(pre), Transition(e.day, e.phase);
      CollapseFirstLast(p);
      if IsPrincipal(e.phase) {
        assert PrincipalItems(es) == p + [x];
        assert (p + [x])[..|p|] == p;
        assert LastLabel(Transitions(pre)) == if |p| == 0 then None else Some(p[|p| - 1].phase);
      } else {
        assert PrincipalItems(es) == p;
      }
    }
  }

  /** Entry days that increase give item days that increase. */
  lemma {:induction false} TransitionDaysIncrease(es: seq<PhaseEntry>)
    requires forall i, j :: 0 <= i < j < |es| ==> es[i].day < es[j].day
    ensures forall i, j :: 0 <= i < j < |Transitions(es)| ==>
              Transitions(es)[i].day < Transitions(es)[j].day
  {
    if |es| > 0 {
      var pre, e := es[..|es| - 1], es[|es| - 1];
      assert forall i :: 0 <= i < |pre| ==> pre[i] == es[i];
      TransitionDaysIncrease(pre);
      var t0 := Transitions(pre);
      forall k | 0 <= k < |t0| ensures t0[k].day < e.day {
        assert t0[k] in Items(pre);
        var e' :| e' in pre && t0[k] == Transition(e'.day, e'.phase);
        var j :| 0 <= j < |pre| && pre[j] == e';
        assert es[j].day < es[|es| - 1].day;
      }
      AppendLater(t0, Transition(e.day, e.phase));
    }
  }

  /** Appending an item later than all others keeps the days increasing. */
  lemma AppendLater(t0: seq<Transition>, x: Transition)
    requires forall i, j :: 0 <= i < j < |t0| ==> t0[i].day < t0[j].day
    requires forall k :: 0 <= k < |t0| ==> t0[k].day < x.day
    ensures forall i, j :: 0 <= i < j < |t0 + [x]| ==> (t0 + [x])[i].day < (t0 + [x])[j].day
  {
  }

  /** A run of one principal phase gives a single item, on its first day. */
  lemma {:induction false} OneRun(es: seq<PhaseEntry>, a: string)
    requires |es| > 0 && IsPrincipal(a)
    requires forall i :: 0 <= i < |es| ==> es[i].phase == a
    ensures Transitions(es) == [Transition(es[0].day, a)]
  {
    if |es| > 1 {
      OneRun(es[..|es| - 1], a);
    }
  }

  /** A run of one principal phase followed by a run of another gives one
      item for each, on the first day of each run. */
  lemma {:induction false} TwoRuns(es: seq<PhaseEntry>, k: int, a: string, b: string)
    requires 0 < k < |es| && IsPrincipal(a) && IsPrincipal(b) && a != b
    requires forall i :: 0 <= i < k ==> es[i].phase == a
    requires forall i :: k <= i < |es| ==> es[i].phase == b
    ensures Transitions(es) == [Transition(es[0].day, a), Transition(es[k].day, b)]
  {
    var pre, e := es[..|es| - 1], es[|es| - 1];
    assert es == pre + [e];
    if |es| == k + 1 {
      OneRun(pre, a);
      PushNew(pre, e, [Transition(es[0].day, a)]);
    } else {
      TwoRuns(pre, k, a, b);
      PushRepeat(pre, e, [Transition(es[0].day, a), Transition(es[k].day, b)]);
    }
  }

  /** An entry whose principal phase differs from the last item's is pushed. */
  lemma PushNew(pre: seq<PhaseEntry>, e: PhaseEntry, t0: seq<Transition>)
    requires Transitions(pre) == t0
    requires IsPrincipal(e.phase) && LastLabel(t0) != Some(e.phase)
    ensures Transitions(pre + [e]) == t0 + [Transition(e.day, e.phase)]
  {
    TransitionsStep(pre, e);
  }

  /** An entry repeating the last item's phase is skipped. */
  lemma PushRepeat(pre: seq<PhaseEntry>, e: PhaseEntry, t0: seq<Transition>)
    requires Transitions(pre) == t0
    requires LastLabel(t0) == Some(e.phase)
    ensures Transitions(pre + [e]) == t0
  {
    TransitionsStep(pre, e);
  }


  /** New Moon on days 1-7 and First Quarter from day 8 on. */
  function ExamplePhase(d: CivilDate): string
  {
    if d.day <= 7 then "New" else "First Quarter"
  }

  /** With New Moon on days 1-7 and First Quarter afterwards, the moon line
      of February 2024 is "1. Lua Nova | 8. Crescente". */
  lemma MoonLineExample()
    ensures Transitions(DailyPhases(2024, 1, ExamplePhase))
            == [Transition(1, "Lua Nova"), Transition(8, "Crescente")]
  {
    var es := DailyPhases(2024, 1, ExamplePhase);
    assert |es| == 29;
    TranslationFolds("New");
    forall i | 0 <= i < 7 ensures es[i].phase == "Lua Nova" {
      assert ExamplePhase(CivilDate(2024, 1, i + 1)) == "New";
    }
    forall i | 7 <= i < 29 ensures es[i].phase == "Crescente" {
      assert ExamplePhase(CivilDate(2024, 1, i + 1)) == "First Quarter";
    }
    TwoRuns(es, 7, "Lua Nova", "Crescente");
  }

  /** The moon line of month `m` of year `y` as each render function builds
      it: the daily phases, then the transition loop. For a year of 0 or
      more it is the run starts of the principal daily phases, on their days.
      For a negative year the filter reads `-y` as the month, so the line is
      empty unless `-y` happens to be `m + 1`. */
  method MoonLine(y: int, m: int, phaseOf: CivilDate -> string) returns (luas: seq<Transition>)
    requires 0 <= m < 12
    ensures luas == Transitions(MonthEntries(DailyPhases(y, m, phaseOf), m))
    ensures forall k :: 0 <= k < |luas| ==> IsPrincipal(luas[k].phase)
    ensures forall k :: 0 < k < |luas| ==> luas[k - 1].phase != luas[k].phase
    ensures 0 <= y ==> luas == Transitions(DailyPhases(y, m, phaseOf))
    ensures 0 <= y ==> luas == CollapseFirst(PrincipalItems(DailyPhases(y, m, phaseOf)))
    ensures 0 <= y ==> ItemLabels(luas) == Collapse(PrincipalOnly(Labels(DailyPhases(y, m, phaseOf))))
    ensures 0 <= y ==> forall i, j :: 0 <= i < j < |luas| ==> luas[i].day < luas[j].day
    ensures 0 <= y ==> forall k :: 0 <= k < |luas| ==> 1 <= luas[k].day <= DaysInMonth(y, m)
    ensures y < 0 && y != -(m + 1) ==> luas == []
  {
    var fases := CalcLunarPhasesForMonth(y, m, phaseOf);
    luas := ExtractTransitions(fases, m);
    MoonLineOf(y, m, phaseOf, luas);
  }

  /** The moon line of a month as a value, for years of either sign. */
  lemma MoonLineOf(y: int, m: int, phaseOf: CivilDate -> string, t: seq<Transition>)
    requires 0 <= m < 12
    requires t == Transitions(MonthEntries(DailyPhases(y, m, phaseOf), m))
    ensures 0 <= y ==> t == Transitions(DailyPhases(y, m, phaseOf))
    ensures 0 <= y ==> t == CollapseFirst(PrincipalItems(DailyPhases(y, m, phaseOf)))
    ensures 0 <= y ==> ItemLabels(t) == Collapse(PrincipalOnly(Labels(DailyPhases(y, m, phaseOf))))
    ensures 0 <= y ==> forall i, j :: 0 <= i < j < |t| ==> t[i].day < t[j].day
    ensures 0 <= y ==> forall k :: 0 <= k < |t| ==> 1 <= t[k].day <= DaysInMonth(y, m)
    ensures y < 0 && y != -(m + 1) ==> t == []
  {
    var es := DailyPhases(y, m, phaseOf);
    DailyPhasesKeys(y, m, phaseOf);
    if 0 <= y {
      RunStartsOfMonth(es, m, t);
    } else if y != -(m + 1) {
      MonthEntriesDropsAll(es, m);
    }
  }

  /** The key fields of the month's entries: month and day from year 0 on,
      the negated year and the month below it. */
  lemma DailyPhasesKeys(y: int, m: int, phaseOf: CivilDate -> string)
    requires 0 <= m < 12
    ensures var es := DailyPhases(y, m, phaseOf);
            |es| == DaysInMonth(y, m) &&
            (0 <= y ==> forall i :: 0 <= i < |es| ==> es[i].month1 == m + 1 && es[i].day == i + 1) &&
            (y < 0 ==> forall i :: 0 <= i < |es| ==> es[i].month1 == -y && es[i].day == m + 1)
  {
  }


  /** When every key names month `m` and the days run 1, 2, ..., the key
      filter keeps every entry, and the line is the run starts of the
      principal phases, in day order. */
  lemma RunStartsOfMonth(es: seq<PhaseEntry>, m: int, t: seq<Transition>)
    requires forall i :: 0 <= i < |es| ==> es[i].month1 == m + 1 && es[i].day == i + 1
    requires t == Transitions(MonthEntries(es, m))
    ensures t == Transitions(es)
    ensures t == CollapseFirst(PrincipalItems(es))
    ensures ItemLabels(t) == Collapse(PrincipalOnly(Labels(es)))
    ensures forall i, j :: 0 <= i < j < |t| ==> t[i].day < t[j].day
    ensures forall k :: 0 <= k < |t| ==> 1 <= t[k].day <= |es|
  {
    MonthEntriesKeepsAll(es, m);
    TransitionsCollapse(es);
    TransitionsAreRunStarts(es);
    TransitionDaysIncrease(es);
    forall k | 0 <= k < |t| ensures 1 <= t[k].day <= |es| {
      assert t[k] in Items(es);
    }
  }


  /** With the year -5, February's keys are `-5-2-d`: the filter reads month
      5 - 1 = 4, so the moon line of February of that year is empty. */
  lemma NegativeYearExample(phaseOf: CivilDate -> string)
    ensures Transitions(MonthEntries(DailyPhases(-5, 1, phaseOf), 1)) == []
  {
    MonthEntriesDropsAll(DailyPhases(-5, 1, phaseOf), 1);
  }
}
