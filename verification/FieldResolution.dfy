/** The end of `from_stream` without its order of steps: which trial dates the scanned
    fields lead to, when they contradict each other, and what is resolved otherwise. */
module FieldResolution {
  import opened Options
  import opened MachineIntegers
  import opened CivilCalendar
  import opened Weekdays
  import opened WeekdayInMonth
  import opened WeekOfYear
  import opened DateFields

  /** The dates the ISO week, %U and %W lead to, as far as they are asked for. */
  function WeekTrials(f: Fields): seq<Date>
    requires f.Scanned()
  {
    IsoTrial(f) + WeekTrial(f, f.U, SUNDAY) + WeekTrial(f, f.W, MONDAY)
  }

  function IsoTrial(f: Fields): seq<Date>
    requires f.Scanned()
  {
    if f.HasIsoDay() then [FromDays(ParseIso(f.G, f.V, f.wd))] else []
  }

  function WeekTrial(f: Fields, week: int, firstDay: Nibble): seq<Date>
    requires f.Scanned()
  {
    if YearAsked(f) != NOT_A_YEAR && week != NOT_A_WEEK_NUM && f.HasWd()
    then [FromDays(ParseWeek(YearAsked(f), week, f.wd, firstDay))] else []
  }

  function DayTrial(f: Fields): seq<Date>
    requires f.Scanned()
  {
    if f.HasJ() && YearAsked(f) != NOT_A_YEAR then [FromDays(ParseJ(YearAsked(f), f.j))] else []
  }

  function Trials(f: Fields): seq<Date>
    requires f.Scanned()
  {
    WeekTrials(f) + DayTrial(f)
  }

  /** The trial dates have one month and day, those scanned. */
  predicate SameDay(f: Fields, trials: seq<Date>) {
    forall k :: 0 <= k < |trials| ==>
      && (f.HasM() ==> ToByte(f.m) == trials[k].month)
      && (f.HasD() ==> ToByte(f.d) == trials[k].day)
      && trials[k].month == trials[0].month && trials[k].day == trials[0].day
  }

  predicate SameYear(y: int, trials: seq<Date>) {
    forall k :: 0 <= k < |trials| ==> trials[k].year == y
  }

  /** The dates the weeks lead to lie in the year asked for, and all trial dates agree. */
  predicate Agree(f: Fields)
    requires f.Scanned()
  {
    SameYear(YearAsked(f), WeekTrials(f)) && SameDay(f, Trials(f))
  }

  /** The year asked for, with month and day of the trial dates, else those scanned. */
  function DateAsked(f: Fields): Date
    requires f.Scanned()
  {
    var trials := Trials(f);
    Date(ToShort(YearAsked(f)),
      if trials == [] then ToByte(f.m) else trials[0].month,
      if trials == [] then ToByte(f.d) else trials[0].day)
  }

  // ---------- One trial date after another ----------

  predicate HasDay(trial: Date) {
    trial.month != NOT_A_MONTH && trial.day != NOT_A_DAY
  }

  predicate HaveDays(trials: seq<Date>) {
    forall k :: 0 <= k < |trials| ==> HasDay(trials[k])
  }

  /** What is known after some trial dates that agree. */
  function KnownAfter(f: Fields, y: int, trials: seq<Date>, computed: bool): Known {
    Known(y,
      if f.HasM() || trials == [] then f.m else trials[0].month,
      if f.HasD() || trials == [] then f.d else trials[0].day, computed)
  }

  lemma MergeMonthDayMore(f: Fields, y: int, trials: seq<Date>, trial: Date, computed: bool)
    requires SameDay(f, trials) && HaveDays(trials) && HasDay(trial)
    ensures MergeMonthDay(KnownAfter(f, y, trials, computed), trial)
      == if SameDay(f, trials + [trial]) then Some(KnownAfter(f, y, trials + [trial], computed)) else None
  {
    var all := trials + [trial];
    assert forall k :: 0 <= k < |trials| ==> all[k] == trials[k];
    assert all[|trials|] == trial && (trials == [] ==> all[0] == trial);
    hide SameDay;
    SameDayMore(f, trials, trial);
  }

  lemma SameDayMore(f: Fields, trials: seq<Date>, trial: Date)
    ensures SameDay(f, trials + [trial]) <==> (SameDay(f, trials)
      && (f.HasM() ==> ToByte(f.m) == trial.month) && (f.HasD() ==> ToByte(f.d) == trial.day)
      && (trials != [] ==> trial.month == trials[0].month && trial.day == trials[0].day))
  {
    var all := trials + [trial];
    assert forall k :: 0 <= k < |trials| ==> all[k] == trials[k];
    assert all[|trials|] == trial;
  }

  lemma TrialHasDay(z: int)
    ensures HasDay(FromDays(z))
  {
    hide FromDays;
    TrialIsCivil(z);
  }

  /** The fields after the dates of some weeks, or nothing when those disagree. */
  function AfterTrials(f: Fields, y: int, trials: seq<Date>): Option<Known> {
    if SameYear(y, trials) && SameDay(f, trials) then Some(KnownAfter(f, y, trials, trials != [])) else None
  }

  lemma MergeMore(f: Fields, y: int, trials: seq<Date>, trial: Date)
    requires y != NOT_A_YEAR && ToShort(y) == y
    requires AfterTrials(f, y, trials).Some? && HaveDays(trials) && HasDay(trial)
    ensures Merge(AfterTrials(f, y, trials).value, trial) == AfterTrials(f, y, trials + [trial])
  {
    hide MergeMonthDay, SameDay, ToShort, ToByte;
    var all := trials + [trial];
    assert forall k :: 0 <= k < |trials| ==> all[k] == trials[k];
    assert all[|trials|] == trial;
    MergeMonthDayMore(f, y, trials, trial, true);
    SameDayMore(f, trials, trial);
  }

  /** The year asked for fits, and without one there are no trial dates but that of the
      ISO week. */
  lemma YearAskedFits(f: Fields)
    requires f.Scanned()
    ensures ToShort(YearAsked(f)) == YearAsked(f)
  {
    hide FromDays, ParseIso, ToShort;
    ShortFits(YearAsked(f));
  }

  lemma IsoAfter(f: Fields)
    requires f.Scanned()
    ensures FromIso(f) == AfterTrials(f, YearAsked(f), IsoTrial(f)) && HaveDays(IsoTrial(f))
  {
    hide FromDays, ParseIso, ToShort, ToByte;
    YearAskedFits(f);
    if f.HasIsoDay() {
      var trial := FromDays(ParseIso(f.G, f.V, f.wd));
      TrialHasDay(ParseIso(f.G, f.V, f.wd));
      ShortFits(trial.year);
      SameDayMore(f, [], trial);
      assert [] + [trial] == [trial];
      MergeMonthDayMore(f, YearAsked(f), [], trial, true);
    }
  }

  lemma WeekAfter(f: Fields, trials: seq<Date>, week: int, firstDay: Nibble)
    requires f.Scanned() && AfterTrials(f, YearAsked(f), trials).Some? && HaveDays(trials)
    ensures var all := trials + WeekTrial(f, week, firstDay);
      && MergeWeek(AfterTrials(f, YearAsked(f), trials).value, week, f.wd, firstDay)
        == AfterTrials(f, YearAsked(f), all)
      && HaveDays(all)
  {
    hide FromDays, ParseWeek, Merge, ToShort, SameDay, SameYear;
    var y := YearAsked(f);
    YearAskedFits(f);
    if WeekTrial(f, week, firstDay) == [] {
      assert trials + [] == trials;
    } else {
      var z := ParseWeek(y, week, f.wd, firstDay);
      TrialHasDay(z);
      MergeMore(f, y, trials, FromDays(z));
    }
  }

  /** More trial dates do not mend a disagreement. */
  lemma StaysNone(f: Fields, y: int, trials: seq<Date>, more: seq<Date>)
    requires AfterTrials(f, y, trials).None?
    ensures AfterTrials(f, y, trials + more).None?
  {
    hide ToByte;
    var all := trials + more;
    assert forall k :: 0 <= k < |trials| ==> all[k] == trials[k];
  }

  lemma WeeksAfter(f: Fields)
    requires f.Scanned()
    ensures FromWeeks(f) == AfterTrials(f, YearAsked(f), WeekTrials(f))
    ensures FromWeeks(f).Some? ==> HaveDays(WeekTrials(f))
  {
    hide AfterTrials, WeekTrial, IsoTrial, FromIso, MergeWeek, YearAsked, HaveDays;
    var y := YearAsked(f);
    var t1 := IsoTrial(f);
    var t2 := t1 + WeekTrial(f, f.U, SUNDAY);
    IsoAfter(f);
    if AfterTrials(f, y, t1).None? {
      StaysNone(f, y, t1, WeekTrial(f, f.U, SUNDAY));
      StaysNone(f, y, t2, WeekTrial(f, f.W, MONDAY));
    } else {
      WeekAfter(f, t1, f.U, SUNDAY);
      if AfterTrials(f, y, t2).None? {
        StaysNone(f, y, t2, WeekTrial(f, f.W, MONDAY));
      } else {
        WeekAfter(f, t2, f.W, MONDAY);
      }
    }
  }

  lemma SameDayPrefix(f: Fields, trials: seq<Date>, more: seq<Date>)
    ensures SameDay(f, trials + more) ==> SameDay(f, trials)
  {
    hide ToByte;
    var all := trials + more;
    assert forall k :: 0 <= k < |trials| ==> all[k] == trials[k];
  }

  /** All fields combined: nothing exactly when the trial dates disagree. */
  lemma CombineAfter(f: Fields)
    requires f.Scanned()
    ensures Combine(f)
      == if Agree(f) then Some(KnownAfter(f, YearAsked(f), Trials(f), WeekTrials(f) != [])) else None
  {
    hide FromWeeks, WeekTrials, MergeMonthDay, FromDays, ParseJ, SameDay, SameYear, YearAsked, HaveDays, ToByte;
    WeeksAfter(f);
    SameDayPrefix(f, WeekTrials(f), DayTrial(f));
    if FromWeeks(f).Some? {
      var y, weeks := YearAsked(f), WeekTrials(f);
      if DayTrial(f) == [] {
        assert weeks + [] == weeks;
      } else {
        TrialHasDay(ParseJ(y, f.j));
        MergeMonthDayMore(f, y, weeks, DayTrial(f)[0], weeks != []);
      }
    }
  }

  // ---------- What is resolved ----------

  /** The week numbers scanned are those of the date, in whose year a day before the
      first week is in week 0. */
  predicate WeeksOf(f: Fields, date: Date) {
    && (f.HasG() ==> f.G == FormatG(date)) && (f.HasV() ==> f.V == FormatV(date))
    && (f.HasU() ==> f.U == FormatU(date)) && (f.HasW() ==> f.W == FormatW(date))
  }

  /** The outcome for all fields: trial dates that disagree, a wrong weekday, or week
      numbers that led to nothing and are wrong, are contradictions. What makes no ok date
      is passed on as it is, the day of the year only if no year turned it into a date. */
  lemma ResolveIff(f: Fields)
    requires f.Scanned()
    ensures var date := DateAsked(f);
      Resolve(f) ==
        if !Agree(f) then Broken
        else if !Ok(date) then Resolved(date, f.wd, if YearAsked(f) == NOT_A_YEAR then f.j else NOT_A_DOY)
        else if f.HasWd() && f.wd != FormatWd(date) then Broken
        else if WeekTrials(f) == [] && !WeeksOf(f, date) then Broken
        else Resolved(date, FormatWd(date), NOT_A_DOY)
  {
    hide Combine, Ok, ToDays, FromDays, ParseIso, ParseWeek, ParseJ, FormatWeek, FormatWd, FormatG, FormatV,
      TrialWeek, Between, ToShort, ToByte, YearAsked, WeekTrials, SameDay, SameYear;
    CombineAfter(f);
    if Agree(f) {
      StoredAfter(f);
      var date := DateAsked(f);
      if Ok(date) {
        OkFields(date);
        YearAskedFits(f);
        WeekdayNumber(date);
        TrialWeekIsFormatted(date, SUNDAY);
        TrialWeekIsFormatted(date, MONDAY);
      }
    }
  }

  lemma StoredAfter(f: Fields)
    requires f.Scanned() && Agree(f)
    ensures Stored(KnownAfter(f, YearAsked(f), Trials(f), WeekTrials(f) != [])) == DateAsked(f)
  {
    hide FromDays, ParseIso, ParseWeek, ParseJ, WeekTrials, DayTrial, SameYear, YearAsked, ToShort;
  }

  /** A year that is out of range is as good as none. */
  lemma YearOutOfRange(f: Fields)
    requires f.Scanned() && (f.Y < -32767 || f.Y > 32767)
    ensures Resolve(f) == Resolve(f.(Y := NOT_A_YEAR))
  {
    hide FromDays, ParseIso, ParseWeek, ParseJ, Merge, MergeWeek, MergeMonthDay, Ok, FormatG, FormatV, TrialWeek;
    var f' := f.(Y := NOT_A_YEAR);
    assert Start(f) == Start(f');
    assert FromIso(f) == FromIso(f');
    hide FromIso;
    assert FromWeeks(f) == FromWeeks(f');
    hide FromWeeks;
    assert Combine(f) == Combine(f');
  }

  /** Without a year nothing is a contradiction: month, day, weekday and day of the year
      are passed on, whatever else was scanned. */
  lemma NoYearPassesOn(f: Fields)
    requires f.Scanned() && !f.HasY() && !f.HasIsoDay()
    ensures Resolve(f) == Resolved(Date(NOT_A_YEAR, ToByte(f.m), ToByte(f.d)), f.wd, f.j)
  {
    hide Resolve, ToByte, FromDays;
    ResolveIff(f);
    ShortFits(NOT_A_YEAR);
  }

  /** A year that leads to no date is passed on, with the rest. */
  lemma YearAlonePassesOn(f: Fields)
    requires f.Scanned() && f.HasY() && !f.HasJ() && (!f.HasWd() || (!f.HasU() && !f.HasW() && !(f.HasG() && f.HasV())))
    requires !f.HasM() || !f.HasD()
    ensures Resolve(f) == Resolved(Date(f.Y, ToByte(f.m), ToByte(f.d)), f.wd, NOT_A_DOY)
  {
    hide Resolve, FromDays, ToByte, Ok, ParseIso, ParseWeek, ParseJ, FormatWd, WeeksOf, ToShort;
    ResolveIff(f);
    ShortFits(f.Y);
    assert Trials(f) == [];
    NoDate(f.Y, f.m, f.d);
  }

  lemma NoDate(y: Short, m: int, d: int)
    requires m == NOT_A_MONTH || d == NOT_A_DAY
    ensures !Ok(Date(y, ToByte(m), ToByte(d)))
  {
  }
}
