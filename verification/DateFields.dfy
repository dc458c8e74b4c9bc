/** The end of `from_stream`: the fields scanned from the input are combined into
    one date, or found to contradict each other. */
module DateFields {
  import opened Options
  import opened MachineIntegers
  import opened CivilCalendar
  import opened Weekdays
  import opened WeekdayInMonth
  import opened WeekOfYear

  const NOT_A_YEAR := -0x8000
  const NOT_A_MONTH := 0
  const NOT_A_DAY := 0
  const NOT_A_DOY := -1
  const NOT_A_WEEKDAY := 8
  const NOT_A_WEEK_NUM := 100

  /** The fields scanned, named by their conversion letters. */
  datatype Fields = Fields(Y: int, m: int, d: int, j: int, wd: int, U: int, V: int, W: int, G: int) {

    /** The readers of the weekday accept nothing else. */
    predicate Scanned() {
      0 <= wd <= 6 || wd == NOT_A_WEEKDAY
    }

    predicate HasY() { -0x7fff <= Y <= 0x7fff }
    predicate HasM() { m != NOT_A_MONTH }
    predicate HasD() { d != NOT_A_DAY }
    predicate HasJ() { j != NOT_A_DOY }
    predicate HasWd() { wd != NOT_A_WEEKDAY }
    predicate HasU() { U != NOT_A_WEEK_NUM }
    predicate HasV() { V != NOT_A_WEEK_NUM }
    predicate HasW() { W != NOT_A_WEEK_NUM }
    predicate HasG() { G != NOT_A_YEAR }
    predicate HasIsoDay() { HasG() && HasV() && HasWd() }
  }

  /** What is known of the date while the fields are combined. */
  datatype Known = Known(Y: int, m: int, d: int, computed: bool)

  datatype Resolution = Broken | Resolved(ymd: Date, wd: int, j: int)

  /** Takes month and day from a trial date, or checks them against it. */
  function MergeMonthDay(k: Known, trial: Date): Option<Known> {
    if k.m != NOT_A_MONTH && ToByte(k.m) != trial.month then None
    else if k.d != NOT_A_DAY && ToByte(k.d) != trial.day then None
    else Some(k.(m := if k.m == NOT_A_MONTH then trial.month else k.m,
                 d := if k.d == NOT_A_DAY then trial.day else k.d))
  }

  /** The same with the year. */
  function Merge(k: Known, trial: Date): Option<Known> {
    if k.Y != NOT_A_YEAR && ToShort(k.Y) != trial.year then None
    else MergeMonthDay(k.(Y := if k.Y == NOT_A_YEAR then trial.year else k.Y, computed := true), trial)
  }

  function MergeWeek(k: Known, week: int, wd: int, firstDay: Nibble): Option<Known>
    requires 0 <= wd <= 6 || wd == NOT_A_WEEKDAY
  {
    if k.Y != NOT_A_YEAR && week != NOT_A_WEEK_NUM && wd != NOT_A_WEEKDAY
    then Merge(k, FromDays(ParseWeek(k.Y, week, wd, firstDay)))
    else Some(k)
  }

  function Start(f: Fields): Known {
    Known(if f.HasY() then f.Y else NOT_A_YEAR, f.m, f.d, false)
  }

  function FromIso(f: Fields): Option<Known>
    requires f.Scanned()
  {
    if f.HasIsoDay() then Merge(Start(f), FromDays(ParseIso(f.G, f.V, f.wd))) else Some(Start(f))
  }

  function FromWeeks(f: Fields): Option<Known>
    requires f.Scanned()
  {
    var k1 :- FromIso(f);
    var k2 :- MergeWeek(k1, f.U, f.wd, SUNDAY);
    MergeWeek(k2, f.W, f.wd, MONDAY)
  }

  /** The year, month and day the fields lead to, before any is checked to be a date. */
  function Combine(f: Fields): Option<Known>
    requires f.Scanned()
  {
    var k3 :- FromWeeks(f);
    if f.HasJ() && k3.Y != NOT_A_YEAR
    then MergeMonthDay(k3, FromDays(ParseJ(k3.Y, f.j)))
    else Some(k3)
  }

  /** The week of the year the parser checks a week number against. */
  function TrialWeek(ymd: Date, firstDay: Nibble): int {
    (ToDays(ymd) - FirstOfJanuary(ymd.year, firstDay)) / 7 + 1
  }

  /** The weekday, and the week numbers that led to nothing, checked against a date. */
  predicate Consistent(f: Fields, computed: bool, ymd: Date) {
    && (f.HasWd() ==> f.wd == Between(FormatWd(ymd), SUNDAY))
    && (!computed ==>
      && (f.HasG() ==> f.G == FormatG(ymd))
      && (f.HasV() ==> f.V == FormatV(ymd))
      && (f.HasU() ==> f.U == TrialWeek(ymd, SUNDAY))
      && (f.HasW() ==> f.W == TrialWeek(ymd, MONDAY)))
  }

  function Stored(k: Known): Date {
    Date(ToShort(k.Y), ToByte(k.m), ToByte(k.d))
  }

  function Resolve(f: Fields): Resolution
    requires f.Scanned()
  {
    match Combine(f)
    case None => Broken
    case Some(k) =>
      var ymd := Stored(k);
      var j := if f.HasJ() && k.Y != NOT_A_YEAR then NOT_A_DOY else f.j;
      if !Ok(ymd) then Resolved(ymd, f.wd, j)
      else if Consistent(f, k.computed, ymd) then Resolved(ymd, Between(FormatWd(ymd), SUNDAY), j)
      else Broken
  }

  /** The code of `from_stream` itself: fields are filled in or compared one after
      another, and a contradiction leaves at once. */
  method FromFields(f: Fields) returns (r: Resolution)
    requires f.Scanned()
    ensures r == Resolve(f)
  {
    hide Ok, ToDays, FromDays, ParseIso, ParseWeek, ParseJ, FormatG, FormatV, TrialWeek, ToShort, ToByte,
      Between, WeekdayFromDays, MergeMonthDay;
    var Y, m, d, j, wd := f.Y, f.m, f.d, f.j, f.wd;
    if Y < -0x7fff || Y > 0x7fff {
      Y := NOT_A_YEAR;
    }
    var computed := false;
    if f.G != NOT_A_YEAR && f.V != NOT_A_WEEK_NUM && wd != NOT_A_WEEKDAY {
      var trial := FromDays(ParseIso(f.G, f.V, wd));
      if Y == NOT_A_YEAR {
        Y := trial.year;
      } else if ToShort(Y) != trial.year {
        return Broken;
      }
      var ok;
      ok, m, d := FillMonthDay(m, d, trial);
      if !ok {
        return Broken;
      }
      computed := true;
    }
    assert FromIso(f) == Some(Known(Y, m, d, computed));
    hide FromIso;
    if Y != NOT_A_YEAR && f.U != NOT_A_WEEK_NUM && wd != NOT_A_WEEKDAY {
      var trial := FromDays(ParseWeek(Y, f.U, wd, SUNDAY));
      if ToShort(Y) != trial.year {
        return Broken;
      }
      var ok;
      ok, m, d := FillMonthDay(m, d, trial);
      if !ok {
        return Broken;
      }
      computed := true;
    }
    if Y != NOT_A_YEAR && f.W != NOT_A_WEEK_NUM && wd != NOT_A_WEEKDAY {
      var trial := FromDays(ParseWeek(Y, f.W, wd, MONDAY));
      if ToShort(Y) != trial.year {
        return Broken;
      }
      var ok;
      ok, m, d := FillMonthDay(m, d, trial);
      if !ok {
        return Broken;
      }
      computed := true;
    }
    assert FromWeeks(f) == Some(Known(Y, m, d, computed));
    hide FromWeeks, MergeWeek, Merge;
    if j != NOT_A_DOY && Y != NOT_A_YEAR {
      var trial := FromDays(ParseJ(Y, j));
      var ok;
      ok, m, d := FillMonthDay(m, d, trial);
      if !ok {
        return Broken;
      }
      j := NOT_A_DOY;
    }
    assert Combine(f) == Some(Known(Y, m, d, computed));
    hide Combine;
    var ymd := Date(ToShort(Y), ToByte(m), ToByte(d));
    if Ok(ymd) {
      var weekday := Between(WeekdayFromDays(ToDays(ymd)), SUNDAY);
      if wd == NOT_A_WEEKDAY {
        wd := weekday;
      } else if wd != weekday {
        return Broken;
      }
      if !computed {
        var agree := WeeksAgree(f, ymd);
        if !agree {
          return Broken;
        }
      }
    }
    return Resolved(ymd, wd, j);
  }

  /** Week numbers that did not lead to the date are compared with its own. */
  method WeeksAgree(f: Fields, ymd: Date) returns (agree: bool)
    ensures agree <==>
      && (f.HasG() ==> f.G == FormatG(ymd))
      && (f.HasV() ==> f.V == FormatV(ymd))
      && (f.HasU() ==> f.U == TrialWeek(ymd, SUNDAY))
      && (f.HasW() ==> f.W == TrialWeek(ymd, MONDAY))
  {
    hide ToDays, FromDays, IsoYearStart, TrialWeek, ToShort, TruncDiv;
    if f.G != NOT_A_YEAR || f.V != NOT_A_WEEK_NUM {
      var sd := ToDays(ymd);
      var gTrial: Short := FromDays(sd + 3).year;
      var start := IsoYearStart(gTrial);
      if sd < start {
        gTrial := ToShort(gTrial - 1);
        if f.V != NOT_A_WEEK_NUM {
          start := IsoYearStart(gTrial);
        }
      }
      if f.G != NOT_A_YEAR && f.G != gTrial {
        return false;
      }
      if f.V != NOT_A_WEEK_NUM && f.V != TruncDiv(sd - start, 7) + 1 {
        return false;
      }
    }
    if f.U != NOT_A_WEEK_NUM && f.U != TrialWeek(ymd, SUNDAY) {
      return false;
    }
    if f.W != NOT_A_WEEK_NUM && f.W != TrialWeek(ymd, MONDAY) {
      return false;
    }
    return true;
  }

  /** The month and day part that every trial date goes through. */
  method FillMonthDay(m0: int, d0: int, trial: Date) returns (ok: bool, m: int, d: int)
    ensures forall Y, computed ::
      (MergeMonthDay(Known(Y, m0, d0, computed), trial) == if ok then Some(Known(Y, m, d, computed)) else None)
  {
    m, d := m0, d0;
    if m == NOT_A_MONTH {
      m := trial.month;
    } else if ToByte(m) != trial.month {
      return false, m, d;
    }
    if d == NOT_A_DAY {
      d := trial.day;
    } else if ToByte(d) != trial.day {
      return false, m, d;
    }
    ok := true;
  }

  // ---------- Fields of one date lead to it ----------

  /** Every field scanned is the one the formatter prints for the date. */
  predicate FieldsOf(f: Fields, date: Date) {
    && (f.Y == NOT_A_YEAR || f.Y == date.year)
    && (f.HasM() ==> f.m == date.month)
    && (f.HasD() ==> f.d == date.day)
    && (f.HasJ() ==> f.j == FormatJ(date))
    && (f.HasWd() ==> f.wd == FormatWd(date))
    && (f.HasU() ==> f.U == FormatU(date))
    && (f.HasV() ==> f.V == FormatV(date))
    && (f.HasW() ==> f.W == FormatW(date))
    && (f.HasG() ==> f.G == FormatG(date))
  }

  /** The fields include one of the sets that determine a date. */
  predicate Sufficient(f: Fields) {
    || f.HasIsoDay()
    || (f.HasY() && ((f.HasM() && f.HasD()) || f.HasJ() || (f.HasWd() && (f.HasU() || f.HasW()))))
  }

  predicate KnownOf(k: Known, date: Date) {
    && (k.Y == NOT_A_YEAR || k.Y == date.year)
    && (k.m == NOT_A_MONTH || k.m == date.month)
    && (k.d == NOT_A_DAY || k.d == date.day)
  }

  lemma MergeOwn(k: Known, date: Date)
    requires Ok(date) && KnownOf(k, date)
    ensures Merge(k, date) == Some(Known(date.year, date.month, date.day, true))
    ensures MergeMonthDay(k, date) == Some(Known(k.Y, date.month, date.day, k.computed))
  {
    hide LastDay;
    ShortFits(date.year);
  }

  lemma MergeWeekOwn(k: Known, f: Fields, date: Date, week: int, firstDay: Nibble)
    requires f.Scanned() && Ok(date) && KnownOf(k, date) && firstDay <= 6
    requires f.HasWd() ==> f.wd == FormatWd(date)
    requires week == NOT_A_WEEK_NUM || week == FormatWeek(date, firstDay)
    ensures MergeWeek(k, week, f.wd, firstDay)
      == Some(if k.Y != NOT_A_YEAR && week != NOT_A_WEEK_NUM && f.HasWd()
              then Known(date.year, date.month, date.day, true) else k)
  {
    hide Ok, ParseWeek, FormatWeek, FormatWd, ToDays, FromDays;
    WeekRoundTrip(date, firstDay);
    FromToDays(date);
    MergeOwn(k, date);
  }

  lemma TrialWeekIsFormatted(date: Date, firstDay: Nibble)
    requires Ok(date) && firstDay <= 6
    ensures TrialWeek(date, firstDay) == FormatWeek(date, firstDay)
  {
    hide ToDays, FirstOfJanuary, NewYear, LeapYear, CivilOf;
    DaysOfDate(date);
    FirstOfJanuaryBounds(date.year, firstDay);
  }

  lemma WeekdayNumber(date: Date)
    requires Ok(date)
    ensures Between(FormatWd(date), SUNDAY) == FormatWd(date) <= 6
  {
    hide Between, ToDays, WeekdayFromDays;
    DayRange(date);
    WeekdayIsResidue(ToDays(date));
    BetweenIsResidue(FormatWd(date), SUNDAY);
  }

  /** Any fields printed for a date that suffice to determine it are resolved to that
      date, however many other fields of the date come with them. */
  lemma ResolveFindsDate(f: Fields, date: Date)
    requires f.Scanned() && Ok(date) && FieldsOf(f, date) && Sufficient(f)
    requires f.HasG() || f.HasV() ==> !BeforeIsoYears(date)
    ensures Resolve(f) == Resolved(date, FormatWd(date), NOT_A_DOY)
  {
    hide Ok, ParseIso, ParseWeek, ParseJ, FormatWeek, FormatWd, FormatG, FormatV, FormatJ, ToDays, FromDays,
      Merge, MergeWeek, MergeMonthDay, TrialWeek, BeforeIsoYears, ToShort, ToByte, Between;
    var own := Known(date.year, date.month, date.day, true);
    OkFields(date);
    FromToDays(date);
    if f.HasIsoDay() {
      IsoRoundTrip(date);
    }
    DayOfYearRoundTrip(date);
    var k0 := Known(if f.HasY() then f.Y else NOT_A_YEAR, f.m, f.d, false);
    MergeOwn(k0, date);
    var k1 := if f.HasIsoDay() then own else k0;
    MergeWeekOwn(k1, f, date, f.U, SUNDAY);
    var k2 := MergeWeek(k1, f.U, f.wd, SUNDAY).value;
    MergeWeekOwn(k2, f, date, f.W, MONDAY);
    var k3 := MergeWeek(k2, f.W, f.wd, MONDAY).value;
    MergeOwn(k3, date);
    TrialWeekIsFormatted(date, SUNDAY);
    TrialWeekIsFormatted(date, MONDAY);
    WeekdayNumber(date);
  }

  lemma OkFields(date: Date)
    requires Ok(date)
    ensures date.year != NOT_A_YEAR && date.month != NOT_A_MONTH && date.day != NOT_A_DAY
    ensures forall c :: Stored(Known(date.year, date.month, date.day, c)) == date
  {
    hide LastDay;
    ShortFits(date.year);
  }

  // ---------- What a resolved date is known to agree with ----------

  /** A merge that succeeds leaves fields that are stored as the trial date. */
  lemma MergeAgrees(k: Known, trial: Date)
    ensures Merge(k, trial).Some? ==>
      && Stored(Merge(k, trial).value) == trial && Merge(k, trial).value.computed
      && (k.Y != NOT_A_YEAR ==> Merge(k, trial).value.Y == k.Y)
    ensures MergeMonthDay(k, trial).Some? ==>
      MergeMonthDay(k, trial).value.Y == k.Y && MergeMonthDay(k, trial).value.computed == k.computed
      && Stored(MergeMonthDay(k, trial).value) == Date(ToShort(k.Y), trial.month, trial.day)
  {
    ShortFits(trial.year);
  }

  /** Later merges do not change a field that was known. */
  predicate Extends(k: Known, later: Known) {
    && (k.Y != NOT_A_YEAR ==> later.Y == k.Y)
    && (k.m != NOT_A_MONTH ==> later.m == k.m)
    && (k.d != NOT_A_DAY ==> later.d == k.d)
    && (k.computed ==> later.computed)
  }

  lemma MergeExtends(k: Known, trial: Date)
    ensures Merge(k, trial).Some? ==> Extends(k, Merge(k, trial).value)
    ensures MergeMonthDay(k, trial).Some? ==> Extends(k, MergeMonthDay(k, trial).value)
  {
  }

  /** The day the week formula gives for a week number of at most two digits, when
      it falls in the year asked for, has that week number. */
  lemma ParsedWeek(y: Short, week: int, wd: Byte, firstDay: Nibble)
    requires 0 <= week < 100 && wd <= 6 && firstDay <= 6 && YearOk(y)
    requires FromDays(ParseWeek(y, week, wd, firstDay)).year == y
    ensures var date := FromDays(ParseWeek(y, week, wd, firstDay));
      Ok(date) && FormatWeek(date, firstDay) == week
  {
    hide ToDays, CivilOf, FirstOfJanuary, Between, NewYear, FromDays, LeapYear, WeekdayFromDays, DayNumber;
    var t := ParseWeek(y, week, wd, firstDay);
    var st := FirstOfJanuary(y, firstDay);
    ShortFits(y);
    FirstOfJanuaryBounds(y, firstDay);
    BetweenIsResidue(wd, firstDay);
    NewYearOfStored(y);
    FromDaysFields(t);
    var (cy, cm, cd) := CivilOf(t);
    NearYear(y, t);
    var date := FromDays(t);
    OkIsCivil(date);
    StoredCivilDate(date);
    DayInYear(t, y);
    if st <= t {
      QuotientIsUnique(t - st, 7, week - 1, Between(wd, firstDay));
    }
  }

  /** A day within a few years of a stored year is stored with its own year. */
  lemma NearYear(y: Short, t: int)
    requires NewYear(y) - 1000 < t < NewYear(y) + 2000
    requires FromDays(t).year == y
    ensures CivilOf(t).0 == y
  {
    hide CivilOf, DayNumber, FromDays, NewYear, ToShort, LeapYear;
    FromDaysFields(t);
    var cy := CivilOf(t).0;
    DayInYear(t, cy);
    ShortDistance(cy, y);
    if cy > y {
      NewYearGap(cy, y);
    } else if cy < y {
      NewYearGap(y, cy);
      YearLength(cy);
    }
  }

  lemma NewYearGap(a: int, b: int)
    requires a >= b
    ensures NewYear(a) - NewYear(b) >= 365 * (a - b)
  {
    YearsApart(a - 1, b - 1);
  }

  /** When the fields lead to a date, a trial date merged on the way is that date. */
  lemma TrialStays(k: Known, last: Known, trial: Date)
    requires Extends(k, last) && Stored(k) == trial
    requires trial.month != NOT_A_MONTH && trial.day != NOT_A_DAY && k.Y != NOT_A_YEAR
    ensures Stored(last) == trial
  {
    assert ToByte(0) == 0;
  }

  lemma TrialIsCivil(z: int)
    ensures MonthOk(FromDays(z).month) && 1 <= FromDays(z).day <= 31
  {
    hide FromDays, CivilOf, DayNumber;
    FromDaysFields(z);
    MonthHasDays(CivilOf(z).0, CivilOf(z).1);
  }

  lemma MergeWeekAgrees(k: Known, week: int, wd: int, firstDay: Nibble)
    requires 0 <= wd <= 6 || wd == NOT_A_WEEKDAY
    requires MergeWeek(k, week, wd, firstDay).Some?
    ensures var r := MergeWeek(k, week, wd, firstDay).value;
      && Extends(k, r)
      && (k.Y == NOT_A_YEAR ==> r == k)
      && (k.Y != NOT_A_YEAR && week != NOT_A_WEEK_NUM && wd != NOT_A_WEEKDAY
          ==> r.computed && Stored(r) == FromDays(ParseWeek(k.Y, week, wd, firstDay)))
      && (week == NOT_A_WEEK_NUM || wd == NOT_A_WEEKDAY ==> r == k)
  {
    hide FromDays, ParseWeek, Merge, Stored;
    if k.Y != NOT_A_YEAR && week != NOT_A_WEEK_NUM && wd != NOT_A_WEEKDAY {
      var trial := FromDays(ParseWeek(k.Y, week, wd, firstDay));
      MergeAgrees(k, trial);
      MergeExtends(k, trial);
    }
  }

  lemma FromIsoAgrees(f: Fields)
    requires f.Scanned() && FromIso(f).Some?
    ensures var r := FromIso(f).value;
      && Extends(Start(f), r) && r.computed == f.HasIsoDay() && ToShort(r.Y) == r.Y
      && (f.HasIsoDay() ==> Stored(r) == FromDays(ParseIso(f.G, f.V, f.wd)))
  {
    hide FromDays, ParseIso, ToShort, Stored;
    ShortFits(Start(f).Y);
    if f.HasIsoDay() {
      ShortFits(FromDays(ParseIso(f.G, f.V, f.wd)).year);
      var trial := FromDays(ParseIso(f.G, f.V, f.wd));
      MergeAgrees(Start(f), trial);
      MergeExtends(Start(f), trial);
    }
  }

  /** What the merges leave behind, for fields that lead to a date with a year. */
  lemma CombineAgrees(f: Fields)
    requires f.Scanned() && Combine(f).Some? && YearOk(Stored(Combine(f).value).year)
    ensures var k := Combine(f).value; var date := Stored(k);
      && Extends(Start(f), k)
      && (f.HasIsoDay() ==> date == FromDays(ParseIso(f.G, f.V, f.wd)))
      && (f.HasU() && f.HasWd() ==> date == FromDays(ParseWeek(k.Y, f.U, f.wd, SUNDAY)))
      && (f.HasW() && f.HasWd() ==> date == FromDays(ParseWeek(k.Y, f.W, f.wd, MONDAY)))
      && (f.HasJ() ==> var trial := FromDays(ParseJ(k.Y, f.j)); date == Date(ToShort(k.Y), trial.month, trial.day))
      && k.computed == (f.HasWd() && ((f.HasG() && f.HasV()) || f.HasU() || f.HasW()))
      && ToShort(k.Y) == k.Y != NOT_A_YEAR
  {
    hide FromDays, ParseIso, ParseWeek, ParseJ, Merge, MergeMonthDay, MergeWeek, FromIso, Start, ToShort,
      ToByte, MonthOk;
    var k := Combine(f).value;
    FromIsoAgrees(f);
    var k1 := FromIso(f).value;
    MergeWeekAgrees(k1, f.U, f.wd, SUNDAY);
    var k2 := MergeWeek(k1, f.U, f.wd, SUNDAY).value;
    MergeWeekAgrees(k2, f.W, f.wd, MONDAY);
    var k3 := MergeWeek(k2, f.W, f.wd, MONDAY).value;
    assert k3 == FromWeeks(f).value;
    if f.HasJ() && k3.Y != NOT_A_YEAR {
      MergeAgrees(k3, FromDays(ParseJ(k3.Y, f.j)));
      MergeExtends(k3, FromDays(ParseJ(k3.Y, f.j)));
    }
    YearSettled(k1, k2, k3, k);
    if f.HasIsoDay() {
      TrialMerged(k1, k, ParseIso(f.G, f.V, f.wd));
    }
    if f.HasU() && f.HasWd() {
      TrialMerged(k2, k, ParseWeek(k.Y, f.U, f.wd, SUNDAY));
    }
    if f.HasW() && f.HasWd() {
      TrialMerged(k3, k, ParseWeek(k.Y, f.W, f.wd, MONDAY));
    }
  }

  /** The year is settled before the weeks are looked at. */
  lemma YearSettled(k1: Known, k2: Known, k3: Known, k: Known)
    requires Extends(k1, k2) && Extends(k2, k3) && Extends(k3, k)
    requires k1.Y == NOT_A_YEAR ==> k2 == k1
    requires k2.Y == NOT_A_YEAR ==> k3 == k2
    requires k3.Y == NOT_A_YEAR ==> k == k3
    requires YearOk(ToShort(k.Y)) && ToShort(k1.Y) == k1.Y
    ensures k1.Y == k2.Y == k3.Y == k.Y != NOT_A_YEAR
  {
  }

  lemma TrialMerged(k: Known, last: Known, z: int)
    requires Extends(k, last) && Stored(k) == FromDays(z) && k.Y != NOT_A_YEAR
    ensures Stored(last) == FromDays(z)
  {
    hide FromDays, Stored;
    TrialIsCivil(z);
    TrialStays(k, last, FromDays(z));
  }

  /** A date that is resolved agrees with every year, month, day, weekday, %U and %W
      scanned. %G and %V are compared only when no week number and weekday together
      already led to the date. */
  lemma ResolvedAgrees(f: Fields)
    requires f.Scanned() && Resolve(f).Resolved? && Ok(Resolve(f).ymd)
    ensures var date := Resolve(f).ymd;
      && (f.HasY() ==> f.Y == date.year)
      && (f.HasM() ==> ToByte(f.m) == date.month)
      && (f.HasD() ==> ToByte(f.d) == date.day)
      && Resolve(f).wd == FormatWd(date) && (f.HasWd() ==> f.wd == FormatWd(date))
      && (0 <= f.U < 100 ==> f.U == FormatU(date))
      && (0 <= f.W < 100 ==> f.W == FormatW(date))
      && (!f.HasWd() || (!(f.HasG() && f.HasV()) && !f.HasU() && !f.HasW())
          ==> (f.HasG() ==> f.G == FormatG(date)) && (f.HasV() ==> f.V == FormatV(date)))
  {
    hide Combine, Ok, ToDays, FromDays, ParseIso, ParseWeek, ParseJ, FormatWeek, FormatWd, FormatG, FormatV,
      TrialWeek, Between, ToShort, ToByte;
    var date := Resolve(f).ymd;
    OkFields(date);
    CombineAgrees(f);
    var k := Combine(f).value;
    WeekdayNumber(date);
    TrialWeekIsFormatted(date, SUNDAY);
    TrialWeekIsFormatted(date, MONDAY);
    if f.HasWd() && 0 <= f.U < 100 {
      ParsedWeek(k.Y, f.U, f.wd, SUNDAY);
    }
    if f.HasWd() && 0 <= f.W < 100 {
      ParsedWeek(k.Y, f.W, f.wd, MONDAY);
    }
  }

  /** A date that %U or %W led to is not checked against the one of %G and %V that came
      with them: it makes no difference at all, not even to whether a date is found. */
  lemma IsoFieldIgnored(f: Fields)
    requires f.Scanned() && f.HasY() && f.HasWd() && (f.HasU() || f.HasW())
    requires !(f.HasG() && f.HasV())
    ensures Resolve(f) == Resolve(f.(G := NOT_A_YEAR, V := NOT_A_WEEK_NUM))
  {
    hide Ok, ParseWeek, ParseJ, FormatG, FormatV, TrialWeek, MergeMonthDay, FromDays, ToDays, Between, ToByte, ToShort;
    var f' := f.(G := NOT_A_YEAR, V := NOT_A_WEEK_NUM);
    assert FromIso(f) == FromIso(f') == Some(Start(f));
    assert Combine(f) == Combine(f');
    if Combine(f).Some? {
      WeeksCompute(f);
    }
  }

  lemma WeeksCompute(f: Fields)
    requires f.Scanned() && f.HasY() && f.HasWd() && (f.HasU() || f.HasW()) && Combine(f).Some?
    ensures Combine(f).value.computed
  {
    hide ParseWeek, ParseIso, ParseJ, FromDays, Merge, Start, FromIso, ToShort, ToByte;
    FromIsoAgrees(f);
    var k1 := FromIso(f).value;
    MergeWeekAgrees(k1, f.U, f.wd, SUNDAY);
    var k2 := MergeWeek(k1, f.U, f.wd, SUNDAY).value;
    MergeWeekAgrees(k2, f.W, f.wd, MONDAY);
    hide MergeWeek;
    YearIsStarted(f);
  }

  lemma YearIsStarted(f: Fields)
    ensures f.HasY() ==> Start(f).Y != NOT_A_YEAR
  {
  }

  /** The year the fields ask for: the one scanned, or that of the day of the ISO week. */
  function YearAsked(f: Fields): int
    requires f.Scanned()
  {
    if f.HasY() then f.Y
    else if f.HasIsoDay() then FromDays(ParseIso(f.G, f.V, f.wd)).year
    else NOT_A_YEAR
  }

  lemma YearIsAsked(f: Fields)
    requires f.Scanned() && Combine(f).Some?
    ensures Combine(f).value.Y == YearAsked(f)
  {
    hide FromDays, ParseIso, ParseWeek, ParseJ, MergeMonthDay, ToShort;
    var k := FromIso(f).value;
    if f.HasIsoDay() {
      var trial := FromDays(ParseIso(f.G, f.V, f.wd));
      MergeExtends(Start(f), trial);
      MergeTakesYear(Start(f), trial);
    }
    assert k.Y == YearAsked(f);
    YearStays(f);
  }

  lemma MergeTakesYear(k: Known, trial: Date)
    ensures Merge(k, trial).Some? && k.Y == NOT_A_YEAR ==> Merge(k, trial).value.Y == trial.year
  {
  }

  lemma YearStays(f: Fields)
    requires f.Scanned() && Combine(f).Some?
    ensures Combine(f).value.Y == FromIso(f).value.Y
  {
    hide FromDays, ParseIso, ParseWeek, ParseJ, Merge, FromIso, ToShort, ToByte;
    var k1 := FromIso(f).value;
    MergeWeekAgrees(k1, f.U, f.wd, SUNDAY);
    var k2 := MergeWeek(k1, f.U, f.wd, SUNDAY).value;
    MergeWeekAgrees(k2, f.W, f.wd, MONDAY);
    hide MergeWeek;
  }

  /** A day of the year is not checked against the length of the year: the date that
      is resolved has the day number scanned exactly when the year asked for is long
      enough. */
  lemma DayOfYearAccepted(f: Fields)
    requires f.Scanned() && f.HasJ() && Resolve(f).Resolved? && Ok(Resolve(f).ymd)
    ensures -0x7fff <= YearAsked(f) <= 0x7fff
    ensures FormatJ(Resolve(f).ymd) == f.j <==> 1 <= f.j <= (if IsLeap(YearAsked(f)) then 366 else 365)
  {
    hide Combine, Ok, ToDays, FromDays, CivilOf, Consistent, FormatJ, IsLeap, LeapYear, NewYear, ToShort, DayNumber,
      YearAsked;
    var date := Resolve(f).ymd;
    var k := Combine(f).value;
    YearIsAsked(f);
    OkFields(date);
    CombineAgrees(f);
    DayOfYearRoundTrip(date);
    if 1 <= f.j <= (if IsLeap(date.year) then 366 else 365) {
      var t := ParseJ(k.Y, f.j);
      NewYearOfStored(date.year);
      YearLength(date.year);
      LeapRule(date.year);
      DayInYear(t, date.year);
      FromDaysFields(t);
      assert date == FromDays(t);
      DayOfDate(date, t);
    }
  }

  /** The day a date was made from is the day it converts to. */
  lemma DayOfDate(date: Date, t: int)
    requires Ok(date) && date == FromDays(t) && CivilOf(t).0 == date.year
    ensures ToDays(date) == t
    ensures FormatJ(date) == t - ToDays(Date(date.year, 1, 1)) + 1
  {
    hide ToDays, FromDays, CivilOf, DayNumber;
    FromDaysFields(t);
    StoredCivilDate(date);
  }

  /** A week number of the ISO year is not checked either: the date that is resolved
      has it exactly when the year has that many weeks. */
  lemma IsoWeekAccepted(f: Fields)
    requires f.Scanned() && f.HasIsoDay() && Resolve(f).Resolved? && Ok(Resolve(f).ymd)
    requires -0x7fff <= f.G <= 0x7fff && 0 <= f.V < 100
    ensures var date := Resolve(f).ymd;
      FormatG(date) == f.G && FormatV(date) == f.V <==> 1 <= f.V <= WeeksInYear(f.G)
  {
    hide Combine, Ok, ToDays, FromDays, CivilOf, Consistent, FormatG, FormatV, ParseIso, NewYear, WeeksInYear,
      IsoYear, IsoWeek, BeforeIsoYears;
    var date := Resolve(f).ymd;
    OkFields(date);
    CombineAgrees(f);
    var t := ParseIso(f.G, f.V, f.wd);
    assert date == FromDays(t);
    ParsedIsoDayIsStored(f.G, f.V, f.wd);
    if BeforeIsoYears(date) {
      IsoEdge(date);
    } else {
      ParsedIsoWeek(f.G, f.V, f.wd);
      FormatGIsIsoYear(date);
      IsoRoundTrip(date);
    }
  }

  /** A day of an ISO week that is read as an ok date is that date; when it lies before
      the first ISO year, it was asked for as week 0. */
  lemma ParsedIsoDayIsStored(g: int, v: int, wd: Byte)
    requires -0x7fff <= g <= 0x7fff && 0 <= v < 100 && WeekdayOk(wd)
    requires Ok(FromDays(ParseIso(g, v, wd)))
    ensures var t := ParseIso(g, v, wd);
      ToDays(FromDays(t)) == t && (BeforeIsoYears(FromDays(t)) ==> v < 1)
  {
    hide ToDays, FromDays, CivilOf, NewYear, IsoYearStart, LastToDays, Between, LeapYear, DayNumber, LastDay;
    var t := ParseIso(g, v, wd);
    IsoStartIsParsed(g);
    ShortFits(g);
    IsoYearStartBounds(g);
    BetweenIsResidue(wd, MONDAY);
    ParsedYearFits(g, t);
    ToFromDays(t);
    if BeforeIsoYears(FromDays(t)) {
      BeforeIsoYearsByDay(FromDays(t));
      NewYearGap(g, -0x7fff);
      EdgeYears();
    }
  }

  /** Of the days that can be asked for by a week, those past the stored years are all
      in the first year that wraps, and not ok. */
  lemma ParsedYearFits(g: int, t: int)
    requires -0x7fff <= g <= 0x7fff && NewYear(g) - 10 <= t < NewYear(g) + 730
    requires Ok(FromDays(t))
    ensures FIRST_DAY <= t <= LAST_DAY
  {
    hide ToDays, FromDays, CivilOf, NewYear, LeapYear, DayNumber, LastDay;
    FirstAndLastDay();
    NewYearGap(g, -0x8000);
    NewYearGap(0x7fff, g);
    YearLength(0x7fff);
    YearLength(0x8000);
    DayInYear(t, 0x8000);
    FromDaysFields(t);
    WrappedShorts();
  }

  lemma FirstAndLastDay()
    ensures FIRST_DAY == NewYear(-0x8000) && LAST_DAY == NewYear(0x8000) - 1
  {
  }

  // ---------- Fields of no date ----------

  lemma DayNumbers()
    ensures ToDays(Date(2021, 1, 1)) == 18628
    ensures ToDays(Date(2020, 12, 31)) == 18627
    ensures ToDays(Date(2022, 1, 1)) == 18993
    ensures ToDays(Date(2022, 1, 3)) == 18995
  {
    hide ToDays;
    ToDaysClosedForm(Date(2021, 1, 1));
    ToDaysClosedForm(Date(2020, 12, 31));
    ToDaysClosedForm(Date(2022, 1, 1));
    ToDaysClosedForm(Date(2022, 1, 3));
  }

  lemma DatesOk()
    ensures Ok(Date(2021, 1, 1)) && Ok(Date(2022, 1, 1)) && Ok(Date(2022, 1, 3))
    ensures LastDay(2020, 12) == 31
  {
  }

  /** Day 366 of 2021 is read as the first of January of 2021. */
  lemma Day366Accepted()
    ensures var f := Fields(2021, 0, 0, 366, NOT_A_WEEKDAY, NOT_A_WEEK_NUM, NOT_A_WEEK_NUM, NOT_A_WEEK_NUM, NOT_A_YEAR);
      Resolve(f) == Resolved(Date(2021, 1, 1), 5, NOT_A_DOY)
  {
    hide ToDays, FromDays, Ok, LastDay, WeekdayFromDays, Between;
    DayNumbers();
    DatesOk();
    ShortFits(2021);
    FromToDays(Date(2022, 1, 1));
    assert ParseJ(2021, 366) == 18993;
    WeekdayIsResidue(18628);
    BetweenIsResidue(5, SUNDAY);
  }

  /** Monday of week 53 of 2021, a year of 52 weeks, is read as 2022-01-03. */
  lemma Week53Accepted()
    ensures var f := Fields(NOT_A_YEAR, 0, 0, NOT_A_DOY, MONDAY, NOT_A_WEEK_NUM, 53, NOT_A_WEEK_NUM, 2021);
      Resolve(f) == Resolved(Date(2022, 1, 3), MONDAY, NOT_A_DOY)
    ensures FormatG(Date(2022, 1, 3)) == 2022 && FormatV(Date(2022, 1, 3)) == 1
  {
    hide ToDays, FromDays, Ok, LastDay, WeekdayFromDays, Between, ParseIso, FormatG, FormatV;
    DayNumbers();
    DatesOk();
    ParsedWeek53();
    FromToDays(Date(2022, 1, 3));
    ShortFits(2022);
    WeekdayIsResidue(18995);
    BetweenIsResidue(MONDAY, SUNDAY);
  }

  lemma ParsedWeek53()
    ensures ParseIso(2021, 53, MONDAY) == 18995
    ensures FormatG(Date(2022, 1, 3)) == 2022 && FormatV(Date(2022, 1, 3)) == 1
  {
    hide ToDays, FromDays, Ok, LastDay, WeekdayFromDays, Between, NewYear, IsoYearStart, LastToDays, CivilOf;
    DayNumbers();
    DatesOk();
    IsoStartIsParsed(2021);
    ShortFits(2021);
    ShortFits(2022);
    IsoYearStartBounds(2021);
    IsoYearStartBounds(2022);
    NewYearOfStored(2021);
    NewYearOfStored(2022);
    assert IsoYearStart(2021) == 18631;
    assert IsoYearStart(2022) == 18995;
    BetweenIsResidue(MONDAY, MONDAY);
    FormatGIsIsoYear(Date(2022, 1, 3));
    IsoRoundTrip(Date(2022, 1, 3));
    DayInYear(18998, 2022);
    YearLength(2022);
  }
}
