/** The week-of-year and day-of-year forms of a date: what `to_stream` prints for
    %G, %V, %U, %W and %j, and the day `from_stream` computes back from them. */
module WeekOfYear {
  import opened MachineIntegers
  import opened CivilCalendar
  import opened GregorianCalendar
  import opened Weekdays
  import opened WeekdayInMonth

  // ---------- The formatter ----------

  /** Start of the ISO year y: `(y - years{1}) / December / Thursday[last] + (Monday - Thursday)`. */
  function IsoYearStart(y: Short): int {
    LastToDays(LastWeekday(ToShort(y - 1), 12, THURSDAY)) + Between(MONDAY, THURSDAY)
  }

  /** %G. */
  function FormatG(date: Date): Short {
    var ld := ToDays(date);
    var y := FromDays(ld + 3).year;
    if ld < IsoYearStart(y) then ToShort(y - 1) else y
  }

  /** %V. */
  function FormatV(date: Date): int {
    var ld := ToDays(date);
    TruncDiv(ld - IsoYearStart(FormatG(date)), 7) + 1
  }

  /** First given weekday of January, and %U and %W, which count weeks from it. */
  function FirstOfJanuary(y: Short, wd: Nibble): int {
    NthToDays(NthWeekday(y, 1, wd, 1))
  }

  function FormatWeek(date: Date, firstDay: Nibble): int {
    var ld := ToDays(date);
    var st := FirstOfJanuary(date.year, firstDay);
    if ld < st then 0 else TruncDiv(ld - st, 7) + 1
  }

  function FormatU(date: Date): int {
    FormatWeek(date, SUNDAY)
  }

  function FormatW(date: Date): int {
    FormatWeek(date, MONDAY)
  }

  /** %j. */
  function FormatJ(date: Date): int {
    ToDays(date) - ToDays(Date(date.year, 1, 1)) + 1
  }

  /** %w: Sunday is 0. */
  function FormatWd(date: Date): Byte {
    WeekdayFromDays(ToDays(date))
  }

  // ---------- The parser's formulas ----------

  function ParseIso(g: int, v: int, wd: Byte): int {
    LastToDays(LastWeekday(ToShort(g - 1), 12, THURSDAY)) + Between(MONDAY, THURSDAY)
    + 7 * (v - 1) + Between(wd, MONDAY)
  }

  function ParseWeek(y: int, week: int, wd: Byte, firstDay: Nibble): int {
    FirstOfJanuary(ToShort(y), firstDay) + 7 * (week - 1) + Between(wd, firstDay)
  }

  function ParseJ(y: int, j: int): int {
    ToDays(Date(ToShort(y), 1, 1)) + (j - 1)
  }

  // ---------- Years of days ----------

  function NewYear(y: int): int {
    MonthHasDays(y, 1);
    DayNumber(y, 1, 1)
  }

  lemma YearLength(y: int)
    ensures NewYear(y + 1) == NewYear(y) + (if LeapYear(y) then 366 else 365)
  {
    hide MarchDays, LeapYear;
    MarchYearLength(y);
  }

  /** A date lies between the first day of its year and the next. */
  lemma DateInYear(y: int, m: int, d: int)
    requires Civil(y, m, d)
    ensures NewYear(y) <= DayNumber(y, m, d) < NewYear(y + 1)
  {
    hide LeapYear, MarchDays;
    YearLength(y);
    MarchYearLength(y);
    if m != 2 {
      MonthsFollow(m);
    }
  }

  lemma {:induction false} NewYearsInOrder(a: int, b: int)
    requires a <= b
    ensures NewYear(a) <= NewYear(b)
    decreases b - a
  {
    hide NewYear;
    if a < b {
      NewYearsInOrder(a, b - 1);
      YearLength(b - 1);
    }
  }

  /** A day between two first days of the year belongs to that year. */
  lemma DayInYear(z: int, y: int)
    ensures CivilOf(z).0 == y <==> NewYear(y) <= z < NewYear(y + 1)
  {
    hide CivilOf, NewYear, DayNumber;
    CivilOfDay(z);
    var (cy, cm, cd) := CivilOf(z);
    DateInYear(cy, cm, cd);
    if cy < y {
      NewYearsInOrder(cy + 1, y);
    } else if y < cy {
      NewYearsInOrder(y + 1, cy);
    }
  }

  lemma NewYearOfStored(y: Short)
    ensures ToDays(Date(y, 1, 1)) == NewYear(y)
    ensures -15_000_000 < NewYear(y) < 15_000_000
  {
    hide ToDays, DayNumber;
    MonthHasDays(y, 1);
    FirstOfMonth(y, 1, 1);
  }

  lemma DaysOfDate(date: Date)
    requires Ok(date)
    ensures NewYear(date.year) <= ToDays(date) < NewYear(date.year + 1)
    ensures -20_000_000 < ToDays(date) < 20_000_000
    ensures CivilOf(ToDays(date)) == (date.year, date.month, date.day)
  {
    hide ToDays, DayNumber, CivilOf, NewYear;
    OkIsCivil(date);
    StoredCivilDate(date);
    DateInYear(date.year, date.month, date.day);
    DayRange(date);
    CivilOfDayNumber(date.year, date.month, date.day);
  }

  // ---------- Weeks from the first Sunday or Monday, and days of the year ----------

  lemma FirstOfJanuaryBounds(y: Short, wd: Nibble)
    requires wd <= 6
    ensures NewYear(y) <= FirstOfJanuary(y, wd) <= NewYear(y) + 6
    ensures WeekdayFromDays(FirstOfJanuary(y, wd)) == wd
  {
    hide ToDays, NthToDays, NthDay, NewYear, WeekdayFromDays;
    var x := NthWeekday(y, 1, wd, 1);
    NthByDay(x);
    NewYearOfStored(y);
    NthDayHasWeekday(x);
  }

  /** %U and %W with a weekday determine the day, days of week 0 included. */
  lemma WeekRoundTrip(date: Date, firstDay: Nibble)
    requires Ok(date) && firstDay <= 6
    ensures ParseWeek(date.year, FormatWeek(date, firstDay), FormatWd(date), firstDay) == ToDays(date)
    ensures 0 <= FormatWeek(date, firstDay) <= 53
  {
    hide ToDays, NewYear, WeekdayFromDays, Between, FirstOfJanuary, ToShort, CivilOf, LeapYear;
    var ld, st := ToDays(date), FirstOfJanuary(date.year, firstDay);
    DaysOfDate(date);
    YearLength(date.year);
    NewYearOfStored(date.year);
    FirstOfJanuaryBounds(date.year, firstDay);
    ShortFits(date.year);
    BetweenDays(ld, st);
    WeekOffset(ld, st);
  }

  /** How many of the days from first to last fall on a weekday; day 0 was a Thursday. */
  function DaysOn(wd: int, first: int, last: int): nat
    decreases last - first
  {
    if last < first then 0
    else DaysOn(wd, first, last - 1) + (if (last + THURSDAY) % 7 == wd then 1 else 0)
  }

  lemma OnWeekday(wd: int, st: int, z: int)
    requires (st + THURSDAY) % 7 == wd
    ensures (z + THURSDAY) % 7 == wd <==> (z - st) % 7 == 0
  {
  }

  lemma {:induction false} DaysOnFrom(wd: int, first: int, st: int, last: int)
    requires first <= st <= first + 6 && (st + THURSDAY) % 7 == wd && first - 1 <= last
    ensures DaysOn(wd, first, last) == if last < st then 0 else (last - st) / 7 + 1
    decreases last - first
  {
    if first <= last {
      DaysOnFrom(wd, first, st, last - 1);
      OnWeekday(wd, st, last);
      QuotientStep(last - st, 7);
    }
  }

  /** %U and %W are the number of Sundays or Mondays in the year up to the date. */
  lemma WeekCounts(date: Date, firstDay: Nibble)
    requires Ok(date) && firstDay <= 6
    ensures FormatWeek(date, firstDay) == DaysOn(firstDay, NewYear(date.year), ToDays(date))
  {
    hide ToDays, NewYear, WeekdayFromDays, FirstOfJanuary, CivilOf, LeapYear, DaysOn;
    var ld, st := ToDays(date), FirstOfJanuary(date.year, firstDay);
    DaysOfDate(date);
    YearLength(date.year);
    FirstOfJanuaryBounds(date.year, firstDay);
    WeekdayIsResidue(st);
    DaysOnFrom(firstDay, NewYear(date.year), st, ld);
  }

  lemma WeekOffset(ld: int, st: int)
    ensures st + 7 * ((ld - st) / 7) + (ld - st) % 7 == ld
    ensures st - 7 <= ld < st ==> (ld - st) / 7 == -1
  {
  }

  lemma DayOfYearRoundTrip(date: Date)
    requires Ok(date)
    ensures ParseJ(date.year, FormatJ(date)) == ToDays(date)
    ensures 1 <= FormatJ(date) <= (if IsLeap(date.year) then 366 else 365)
  {
    hide ToDays, NewYear, ToShort, CivilOf, LeapYear;
    DaysOfDate(date);
    YearLength(date.year);
    NewYearOfStored(date.year);
    ShortFits(date.year);
    LeapRule(date.year);
  }

  // ---------- ISO weeks ----------

  /** The Monday that starts ISO year y is within three days of the first of January,
      also where y - 1 or y itself wraps around in a `short`. */
  lemma IsoYearStartBounds(y: int)
    requires -0x7fff <= y <= 0x8000
    ensures var st := IsoYearStart(ToShort(y));
      && NewYear(y) - 3 <= st <= NewYear(y) + 3
      && (st + 4) % 7 == MONDAY
      && -20_000_000 < st < 20_000_000
  {
    hide ToDays, LastToDays, NewYear, WeekdayFromDays, DayNumber, ToShort, CivilOf, FromDays, LeapYear;
    var before: Short := y - 1;
    PreviousShort(y);
    var x := LastWeekday(before, 12, THURSDAY);
    LastToDaysFits(x);
    NewYearOfStored(before);
    FirstOfMonth(before, 12, 31);
    DecemberEnd(before);
    YearLength(before);
    WeekdayIsResidue(LastToDays(x));
    BetweenIsResidue(MONDAY, THURSDAY);
  }

  lemma PreviousShort(y: int)
    requires -0x7fff <= y <= 0x8000
    ensures ToShort(ToShort(y) - 1) == y - 1
  {
  }

  lemma DecemberEnd(y: Short)
    ensures LastDay(y, 12) == 31
    ensures ToDays(Date(y, 12, 31)) == NewYear(y + 1) - 1
  {
    hide ToDays, MarchDays, LeapYear;
    StoredCivilDate(Date(y, 12, 31));
  }

  /** The Thursday of the week, Monday to Sunday, of a day. */
  function ThursdayOf(z: int): int {
    z - (z + 4 - MONDAY) % 7 + 3
  }

  /** ISO 8601, section 3.2.2: the year of a week is the year of its Thursday, and its
      weeks are counted from the one holding the first Thursday. */
  function IsoYear(z: int): int {
    CivilOf(ThursdayOf(z)).0
  }

  /** The only two dates whose ISO year cannot be stored. */
  predicate BeforeIsoYears(date: Date) {
    date.year == -0x7fff && date.month == 1 && date.day <= 2
  }

  /** Which side of the start of its year's first week a day falls on tells the year
      of its Thursday: one step back is always enough. */
  lemma ThursdayDecides(ld: int, y: int, st: int)
    requires NewYear(y) <= ld + 3 < NewYear(y + 1)
    requires NewYear(y) - 3 <= st <= NewYear(y) + 3 && (st + 4) % 7 == MONDAY
    ensures ld < st ==> NewYear(y - 1) <= ThursdayOf(ld) < NewYear(y)
    ensures st <= ld ==> NewYear(y) <= ThursdayOf(ld) < NewYear(y + 1)
  {
    hide NewYear, LeapYear;
    YearLength(y - 1);
    var back := (ld + 4 - MONDAY) % 7;
    MondayOf(ld, st);
  }

  /** Mondays are whole weeks apart. */
  lemma MondayOf(ld: int, st: int)
    requires (st + 4) % 7 == MONDAY
    ensures var monday := ld - (ld + 4 - MONDAY) % 7;
      && (ld - st) % 7 == (ld + 4 - MONDAY) % 7
      && monday == st + 7 * ((ld - st) / 7)
      && (st <= ld <==> st <= monday)
  {
    var q := (st + 4) / 7;
    assert ld + 4 - MONDAY == 7 * q + (ld - st);
    ResiduePeriod(ld - st, q);
  }

  /** The first days of the first and the last-but-one year: Saturday and Monday. */
  lemma EdgeYears()
    ensures (NewYear(-0x7fff) + 4) % 7 == 6
    ensures (NewYear(0x8000) + 4) % 7 == MONDAY
  {
    assert NewYear(-0x7fff) == -12687428;
    assert NewYear(0x8000) == 11248738;
  }

  lemma BeforeIsoYearsByDay(date: Date)
    requires Ok(date) && date.year == -0x7fff
    ensures BeforeIsoYears(date) <==> ToDays(date) < NewYear(-0x7fff) + 2
  {
    hide ToDays;
    var third := Date(-0x7fff, 1, 3);
    OkIsCivil(third);
    StoredCivilDate(third);
    OrderIsDayOrder(date, third);
  }

  /** The day three days on lies in the same year or the next. */
  lemma YearThreeDaysOn(date: Date)
    requires Ok(date)
    ensures var y := CivilOf(ToDays(date) + 3).0;
      && date.year <= y <= date.year + 1
      && FromDays(ToDays(date) + 3).year == ToShort(y)
      && NewYear(y) <= ToDays(date) + 3 < NewYear(y + 1)
  {
    hide ToDays, NewYear, CivilOf, ToShort, LeapYear, FromDays;
    var ld := ToDays(date);
    DaysOfDate(date);
    YearLength(date.year + 1);
    FromDaysFields(ld + 3);
    DayInYear(ld + 3, CivilOf(ld + 3).0);
    DayInYear(ld + 3, if ld + 3 < NewYear(date.year + 1) then date.year else date.year + 1);
  }

  /** %G is the year of the Thursday of the week. */
  lemma FormatGIsIsoYear(date: Date)
    requires Ok(date) && !BeforeIsoYears(date)
    ensures FormatG(date) == IsoYear(ToDays(date))
    ensures -0x7fff <= IsoYear(ToDays(date))
  {
    hide ToDays, NewYear, CivilOf, FromDays, ToShort, IsoYearStart, LeapYear, ThursdayOf;
    var ld := ToDays(date);
    DaysOfDate(date);
    YearThreeDaysOn(date);
    var y := CivilOf(ld + 3).0;
    IsoYearStartBounds(y);
    var st := IsoYearStart(ToShort(y));
    PreviousShort(y);
    ShortFits(y);
    EdgeYears();
    ThursdayDecides(ld, y, st);
    if st <= ld {
      DayInYear(ThursdayOf(ld), y);
    } else {
      DayInYear(ThursdayOf(ld), y - 1);
      if y == -0x7fff {
        BeforeIsoYearsByDay(date);
      }
    }
  }

  /** ISO 8601, section 3.2.2: the number of the week is the number of its Thursday
      among the Thursdays of the year. */
  function IsoWeek(z: int): int {
    (ThursdayOf(z) - NewYear(IsoYear(z))) / 7 + 1
  }

  /** Counting whole weeks from the start of the ISO year gives the week number. */
  lemma WeeksFromStart(z: int, y: int, st: int)
    requires NewYear(y) <= ThursdayOf(z) < NewYear(y + 1)
    requires NewYear(y) - 3 <= st <= NewYear(y) + 3 && (st + 4) % 7 == MONDAY
    ensures IsoYear(z) == y
    ensures st <= z && (z - st) / 7 + 1 == IsoWeek(z)
    ensures 1 <= IsoWeek(z) <= 53
    ensures z == st + 7 * (IsoWeek(z) - 1) + (z + 4 - MONDAY) % 7
  {
    hide NewYear, CivilOf, LeapYear;
    DayInYear(ThursdayOf(z), y);
    YearLength(y);
    MondayOf(z, st);
    var k := (z - st) / 7;
    assert ThursdayOf(z) - NewYear(y) == 7 * k + (3 + st - NewYear(y));
    QuotientIsUnique(ThursdayOf(z) - NewYear(y), 7, k, 3 + st - NewYear(y));
  }

  /** %V is the ISO week number, and %G, %V and the weekday determine the day. */
  lemma IsoRoundTrip(date: Date)
    requires Ok(date) && !BeforeIsoYears(date)
    ensures FormatV(date) == IsoWeek(ToDays(date))
    ensures 1 <= FormatV(date) <= 53
    ensures ParseIso(FormatG(date), FormatV(date), FormatWd(date)) == ToDays(date)
  {
    hide ToDays, NewYear, CivilOf, ToShort, IsoYearStart, LastToDays, LeapYear, ThursdayOf, IsoYear, IsoWeek,
      FormatG, WeekdayFromDays, Between;
    var ld := ToDays(date);
    DaysOfDate(date);
    FormatGIsIsoYear(date);
    var g: Short := IsoYear(ld);
    IsoYearStartBounds(g);
    ShortFits(g);
    IsoYearOfDay(ld);
    WeeksFromStart(ld, g, IsoYearStart(g));
    IsoStartIsParsed(g);
    WeekdayIsResidue(ld);
    BetweenIsResidue(WeekdayFromDays(ld), MONDAY);
    ResidueSum(ld + 4, -MONDAY);
  }

  lemma IsoYearOfDay(z: int)
    ensures NewYear(IsoYear(z)) <= ThursdayOf(z) < NewYear(IsoYear(z) + 1)
  {
    hide NewYear, CivilOf;
    DayInYear(ThursdayOf(z), IsoYear(z));
  }

  lemma IsoStartIsParsed(g: Short)
    ensures forall v: int, wd: Byte ::
      ParseIso(g, v, wd) == IsoYearStart(g) + 7 * (v - 1) + Between(wd, MONDAY)
  {
    hide LastToDays, Between;
  }

  /** On the two dates before the first ISO year a `short` can hold, the formatter
      steps back to a year that wraps around: the week number printed is negative and
      the parser's formula gives another day. */
  lemma IsoEdge(date: Date)
    requires Ok(date) && BeforeIsoYears(date)
    ensures FormatG(date) == -0x8000
    ensures FormatV(date) < 0
    ensures ParseIso(FormatG(date), FormatV(date), FormatWd(date)) == ToDays(date) + 7
  {
    hide ToDays, NewYear, CivilOf, FromDays, IsoYearStart, LastToDays, LeapYear, WeekdayFromDays, Between, ToShort;
    var ld := ToDays(date);
    DaysOfDate(date);
    BeforeIsoYearsByDay(date);
    EdgeYears();
    YearThreeDaysOn(date);
    YearLength(-0x7fff);
    DayInYear(ld + 3, -0x7fff);
    ShortFits(-0x7fff);
    IsoYearStartBounds(-0x7fff);
    WrappedShorts();
    IsoYearStartBounds(0x8000);
    var st := IsoYearStart(-0x8000);
    FarYears();
    IsoStartIsParsed(-0x8000);
    WeekdayIsResidue(ld);
    BetweenIsResidue(WeekdayFromDays(ld), MONDAY);
    TruncatedWeeks(ld, st);
  }

  lemma FarYears()
    ensures NewYear(0x8000) == 11248738
    ensures NewYear(-0x7fff) == -12687428
  {
  }

  lemma WrappedShorts()
    ensures ToShort(-0x7fff - 1) == -0x8000
    ensures ToShort(0x8000) == -0x8000
  {
  }

  /** Rounding the weeks toward zero skips one when the day is in mid-week. */
  lemma TruncatedWeeks(ld: int, st: int)
    requires ld < st && (ld - st) % 7 != 0
    ensures st + 7 * TruncDiv(ld - st, 7) + (ld - st) % 7 == ld + 7
  {
  }

  // ---------- From week numbers to days ----------

  /** A year has 53 ISO weeks when it starts on a Thursday, or is a leap year that
      starts on a Wednesday. */
  function WeeksInYear(y: int): int {
    var firstDay := (NewYear(y) + 4) % 7;
    if firstDay == THURSDAY || (firstDay == THURSDAY - 1 && LeapYear(y)) then 53 else 52
  }

  /** Which Thursdays, counted from that of the first week, still lie in the year. */
  lemma ThursdayInYear(newYear: int, leap: bool, e: int, v: int)
    requires -3 <= e <= 3 && (newYear + e + 4) % 7 == MONDAY
    ensures var firstDay := (newYear + 4) % 7;
      var weeks := if firstDay == THURSDAY || (firstDay == THURSDAY - 1 && leap) then 53 else 52;
      0 <= e + 7 * (v - 1) + 3 < (if leap then 366 else 365) <==> 1 <= v <= weeks
  {
    assert (newYear + 4) % 7 == (MONDAY - e) % 7;
  }

  /** The parser's formula checks nothing: the day it gives has the week number and
      the year it was given exactly when the year has that many weeks. */
  lemma ParsedIsoWeek(g: int, v: int, wd: Byte)
    requires -0x7fff <= g < 0x8000 && WeekdayOk(wd)
    ensures var t := ParseIso(g, v, wd);
      (IsoYear(t) == g && IsoWeek(t) == v) <==> 1 <= v <= WeeksInYear(g)
  {
    hide NewYear, CivilOf, ToShort, IsoYearStart, LastToDays, LeapYear, WeekdayFromDays, Between;
    IsoStartIsParsed(g);
    ShortFits(g);
    IsoYearStartBounds(g);
    var t := ParseIso(g, v, wd);
    var st := IsoYearStart(g);
    BetweenIsResidue(wd, MONDAY);
    assert t == st + 7 * (v - 1) + (wd - MONDAY) % 7;
    MondayOf(t, st);
    QuotientIsUnique(t - st, 7, v - 1, (wd - MONDAY) % 7);
    assert ThursdayOf(t) == st + 7 * (v - 1) + 3;
    DayInYear(ThursdayOf(t), g);
    YearLength(g);
    var e := st - NewYear(g);
    QuotientIsUnique(ThursdayOf(t) - NewYear(g), 7, v - 1, 3 + e);
    ThursdayInYear(NewYear(g), LeapYear(g), e, v);
  }
}
