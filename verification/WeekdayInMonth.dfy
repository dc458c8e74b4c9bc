/** Days named by a weekday of a month: the nth one (`year_month_weekday`) and the
    last one (`year_month_weekday_last`). */
module WeekdayInMonth {
  import opened MachineIntegers
  import opened CivilCalendar
  import opened GregorianCalendar
  import opened Weekdays

  /** The weekday and the index share a byte, four bits each. */
  type Nibble = x: int | 0 <= x < 16 witness 0

  datatype NthWeekday = NthWeekday(year: Short, month: Byte, wd: Nibble, index: Nibble)

  function WeekdayOf(x: NthWeekday): Byte {
    MakeWeekday(x.wd)
  }

  predicate NthOk(x: NthWeekday) {
    if !YearOk(x.year) || !MonthOk(x.month) || !WeekdayOk(WeekdayOf(x)) || x.index < 1 then false
    else if x.index <= 4 then true
    else
      var first := WeekdayFromDays(ToDays(Date(x.year, x.month, 1)));
      var d2 := Between(WeekdayOf(x), first) + ToInt32(ToUint32(ToUint32(x.index - 1) * 7 + 1));
      ToUint32(d2) <= LastDay(x.year, x.month)
  }

  function NthFromDays(z: int): NthWeekday {
    var wd := WeekdayFromDays(z);
    var ymd := FromDays(z);
    NthWeekday(ymd.year, ymd.month, wd % 16, (ToUint32(ymd.day - 1) / 7 + 1) % 16)
  }

  function NthToDays(x: NthWeekday): int {
    var d := ToDays(Date(x.year, x.month, 1));
    d + (Between(WeekdayOf(x), WeekdayFromDays(d)) + ToInt32(ToUint32(ToUint32(x.index - 1) * 7)))
  }

  datatype LastWeekday = LastWeekday(year: Short, month: Byte, wd: Byte)

  function LastToDays(x: LastWeekday): int {
    var d := ToDays(Date(x.year, x.month, LastDay(x.year, x.month)));
    d - Between(WeekdayFromDays(d), x.wd)
  }

  // ---------- Days of one month ----------

  lemma {:induction false} YearsApart(a: int, b: int)
    requires a >= b
    ensures MarchDays(a) - MarchDays(b) >= 365 * (a - b)
    decreases a - b
  {
    if a > b {
      YearsApart(a - 1, b);
      MarchYearLength(a);
    }
  }

  /** Days of the same stored month that are less than a year apart are days of the
      same month. */
  lemma SameStoredMonth(y: Short, m: Byte, d: int, z: int)
    requires Civil(y, m, d)
    requires FromDays(z).year == y && FromDays(z).month == m
    requires -365 < z - DayNumber(y, m, d) < 365
    ensures CivilOf(z).0 == y
  {
    hide MarchDays, CivilOf, FromDays, ToShort, LeapYear, LastDay;
    FromDaysFields(z);
    var (cy, cm, cd) := CivilOf(z);
    var a, b := MarchYear(cy, m), MarchYear(y, m);
    if cy >= y {
      YearsApart(a, b);
    } else {
      YearsApart(b, a);
    }
    ShortDistance(cy, y);
  }

  lemma ShortDistance(a: int, b: Short)
    requires ToShort(a) == b
    ensures a == b || a - b >= 0x1_0000 || b - a >= 0x1_0000
  {
  }

  lemma MonthHasDays(y: int, m: int)
    requires 1 <= m <= 12
    ensures 28 <= MonthLength(y, m) <= 31
  {
    MonthLengthIsDaysInMonth(y, m);
  }

  lemma FirstOfMonth(y: Short, m: Byte, d: int)
    requires Civil(y, m, d)
    ensures Civil(y, m, 1) && 1 <= d <= 31
    ensures DayNumber(y, m, d) == ToDays(Date(y, m, 1)) + d - 1
    ensures FromDays(DayNumber(y, m, d)) == Date(y, m, d)
    ensures -15_000_000 < ToDays(Date(y, m, 1)) < 15_000_000
  {
    hide ToDays, FromDays, CivilOf, ToShort;
    StoredCivilDate(Date(y, m, 1));
    CivilOfDayNumber(y, m, d);
    FromDaysFields(DayNumber(y, m, d));
    ShortFits(y);
    ToDaysInRange(Date(y, m, 1), y);
  }

  // ---------- The nth weekday ----------

  /** Index 0 makes the unsigned offset wrap, to seven days before the first. */
  lemma IndexOffset(index: Nibble)
    ensures ToInt32(ToUint32(ToUint32(index - 1) * 7)) == (index - 1) * 7
    ensures ToInt32(ToUint32(ToUint32(index - 1) * 7 + 1)) == (index - 1) * 7 + 1
  {
    if index == 0 {
      assert ToUint32(0xffff_ffff * 7) == 0xffff_fff9;
      assert ToUint32(0xffff_ffff * 7 + 1) == 0xffff_fffa;
    } else {
      assert ToUint32(index - 1) == index - 1;
    }
  }

  /** The day of the month an nth weekday names; it may lie outside the month. */
  function NthDay(x: NthWeekday): int {
    Between(WeekdayOf(x), WeekdayFromDays(ToDays(Date(x.year, x.month, 1)))) + (x.index - 1) * 7 + 1
  }

  lemma NthByDay(x: NthWeekday)
    requires MonthOk(x.month) && x.wd <= 6
    ensures WeekdayOf(x) == x.wd
    ensures NthToDays(x) == ToDays(Date(x.year, x.month, 1)) + NthDay(x) - 1
    ensures x.index * 7 - 6 <= NthDay(x) <= x.index * 7
  {
    hide ToDays, Between, WeekdayFromDays, MakeWeekday, LastDay, LeapYear, MonthLength, ToInt32, ToUint32;
    var first := ToDays(Date(x.year, x.month, 1));
    MonthHasDays(x.year, x.month);
    FirstOfMonth(x.year, x.month, 1);
    WeekdayIsResidue(first);
    MakeWeekdayKeeps(x.wd);
    BetweenIsResidue(x.wd, WeekdayFromDays(first));
    IndexOffset(x.index);
  }

  /** `ok` asks whether the day of the month exists. */
  lemma NthOkByDay(x: NthWeekday)
    requires YearOk(x.year) && MonthOk(x.month) && x.wd <= 6
    ensures NthOk(x) <==> Civil(x.year, x.month, NthDay(x))
  {
    hide ToDays, Between, WeekdayFromDays, WeekdayOf, LastDay, LeapYear, ToInt32, ToUint32;
    NthByDay(x);
    MonthHasDays(x.year, x.month);
    OkIsCivil(Date(x.year, x.month, 1));
    IndexOffset(x.index);
    if x.index >= 1 {
      Uint32Fits(NthDay(x));
    }
  }

  /** `ok` for all values of the fields: the year and the month are valid, the weekday is
      in 0 to 7, where 7 is a Sunday too, and the day of the month exists. */
  lemma NthOkIff(x: NthWeekday)
    ensures NthOk(x) <==> x.year != -0x8000 && 1 <= x.month <= 12 && x.wd <= 7 && Civil(x.year, x.month, NthDay(x))
  {
    hide ToDays, Between, WeekdayFromDays, LastDay, LeapYear, ToInt32, ToUint32, Civil, NthOk;
    NthOkGuards(x);
    var x' := if x.wd == 7 then x.(wd := 0) else x;
    if x.wd == 7 {
      SundayIsSeven(x);
    }
    if YearOk(x.year) && MonthOk(x.month) && x.wd <= 7 {
      NthOkByDay(x');
    }
  }

  lemma NthOkGuards(x: NthWeekday)
    ensures NthOk(x) ==> YearOk(x.year) && MonthOk(x.month) && x.wd <= 7
  {
    hide ToDays, Between, WeekdayFromDays, LastDay, ToInt32, ToUint32;
  }

  lemma SundayIsSeven(x: NthWeekday)
    requires x.wd == 7
    ensures NthOk(x) == NthOk(x.(wd := 0)) && NthDay(x) == NthDay(x.(wd := 0))
  {
    hide ToDays, Between, WeekdayFromDays, LastDay, ToInt32, ToUint32;
  }

  lemma NthDayHasWeekday(x: NthWeekday)
    requires MonthOk(x.month) && x.wd <= 6
    ensures WeekdayFromDays(NthToDays(x)) == x.wd
  {
    hide ToDays, Between, WeekdayFromDays, NthToDays, WeekdayOf, MonthLength, DayNumber;
    NthByDay(x);
    MonthHasDays(x.year, x.month);
    var first := ToDays(Date(x.year, x.month, 1));
    FirstOfMonth(x.year, x.month, 1);
    WeekdayIsResidue(first);
    BetweenIsResidue(x.wd, WeekdayFromDays(first));
    var ahead := Between(x.wd, WeekdayFromDays(first));
    var t := NthToDays(x);
    assert t + 4 == first + 4 + ahead + 7 * (x.index - 1);
    ResidueLanding(first + 4, x.wd, ahead, x.index - 1);
    WeekdayIsResidue(t);
  }

  lemma ResidueLanding(a: int, wd: int, ahead: int, weeks: int)
    requires 0 <= wd < 7 && ahead == (wd - a % 7) % 7
    ensures (a + ahead + 7 * weeks) % 7 == wd
  {
    var t := wd - a % 7;
    QuotientIsUnique(a + ahead + 7 * weeks, 7, a / 7 - t / 7 + weeks, wd);
  }

  lemma SeventhsOf(day: int, index: int)
    ensures 1 <= day && (day - 1) / 7 + 1 == index <==> 1 <= index && index * 7 - 6 <= day <= index * 7
  {
  }

  lemma NthFields(z: int)
    ensures var x := NthFromDays(z);
      && x.year == FromDays(z).year && x.month == FromDays(z).month
      && x.wd == WeekdayFromDays(z) <= 6
      && (1 <= FromDays(z).day <= 31 ==> x.index == (FromDays(z).day - 1) / 7 + 1)
  {
    hide FromDays;
    if 1 <= FromDays(z).day {
      Uint32Fits(FromDays(z).day - 1);
    }
  }

  /** For a valid year, month and weekday, `ok` tells exactly the indices that
      survive the conversion to a day and back, 0 and those past 5 included. */
  lemma NthRoundTrip(x: NthWeekday)
    requires YearOk(x.year) && MonthOk(x.month) && x.wd <= 6
    ensures NthOk(x) <==> NthFromDays(NthToDays(x)) == x
  {
    hide ToDays, FromDays, NthToDays, NthFromDays, NthOk, NthDay, WeekdayFromDays, CivilOf, DayNumber, LastDay,
      LeapYear;
    NthByDay(x);
    NthOkByDay(x);
    NthDayHasWeekday(x);
    var t := NthToDays(x);
    MonthHasDays(x.year, x.month);
    FirstOfMonth(x.year, x.month, 1);
    if NthOk(x) {
      FirstOfMonth(x.year, x.month, NthDay(x));
      NthFields(t);
      SeventhsOf(NthDay(x), x.index);
    }
    if NthFromDays(t) == x {
      NthFields(t);
      SameStoredMonth(x.year, x.month, 1, t);
      FromDaysFields(t);
      FirstOfMonth(x.year, x.month, CivilOf(t).2);
    }
  }

  /** Every day whose year can be stored comes back from its nth-weekday form, and
      no other day does. */
  lemma NthOfDayRoundTrip(z: Int32)
    ensures NthToDays(NthFromDays(z)) == z <==> FIRST_DAY <= z <= LAST_DAY
  {
    hide ToDays, FromDays, CivilOf, Between, WeekdayFromDays, NthToDays, WeekdayOf, LeapYear, LastDay,
      DayNumber, ToShort;
    FromDaysFields(z);
    var (y, m, d) := CivilOf(z);
    DayNumberBounds(y, m, d);
    MonthHasDays(y, m);
    WeekdayIsResidue(z);
    Uint32Fits(d - 1);
    var x := NthFromDays(z);
    NthByDay(x);
    MonthHasDays(x.year, m);
    FirstOfMonth(x.year, m, 1);
    if -0x8000 <= y < 0x8000 {
      FirstOfMonth(y, m, d);
      BetweenDays(z, ToDays(Date(y, m, 1)));
      assert NthDay(x) == d;
    } else {
      ShortFits(y);
      FarAway(y, x.year, m, d);
    }
  }

  /** A year that does not fit a `short` is stored as a year centuries away. */
  lemma FarAway(y: int, stored: Short, m: int, d: int)
    requires Civil(y, m, d) && stored == ToShort(y) != y
    requires Civil(stored, m, 1)
    ensures DayNumber(y, m, d) > DayNumber(stored, m, 1) + 365 || DayNumber(y, m, d) < DayNumber(stored, m, 1) - 365
  {
    hide MarchDays, LeapYear, LastDay, ToShort;
    ShortDistance(y, stored);
    MonthHasDays(y, m);
    var a, b := MarchYear(y, m), MarchYear(stored, m);
    if y >= stored {
      YearsApart(a, b);
    } else {
      YearsApart(b, a);
    }
  }

  // ---------- The last weekday ----------

  /** The day lies in the month and has the weekday. */
  lemma LastToDaysFits(x: LastWeekday)
    requires MonthOk(x.month) && WeekdayOk(x.wd)
    ensures var t := LastToDays(x);
      && FromDays(t).year == x.year && FromDays(t).month == x.month
      && WeekdayFromDays(t) == x.wd
      && ToDays(Date(x.year, x.month, LastDay(x.year, x.month))) - 7 < t
      && t <= ToDays(Date(x.year, x.month, LastDay(x.year, x.month)))
  {
    hide ToDays, FromDays, WeekdayFromDays, Between, LastDay, LeapYear, DayNumber;
    OkIsCivil(Date(x.year, x.month, 1));
    MonthHasDays(x.year, x.month);
    var length := LastDay(x.year, x.month);
    FirstOfMonth(x.year, x.month, length);
    StoredCivilDate(Date(x.year, x.month, length));
    var d := ToDays(Date(x.year, x.month, length));
    WeekdayIsResidue(d);
    BetweenIsResidue(WeekdayFromDays(d), x.wd);
    var b := Between(WeekdayFromDays(d), x.wd);
    WeekdayIsResidue(d - b);
    SubtractResidue(d + 4, x.wd);
    FirstOfMonth(x.year, x.month, length - b);
  }

  lemma SubtractResidue(a: int, r: int)
    requires 0 <= r < 7
    ensures (a - (a % 7 - r) % 7) % 7 == r
  {
    var t := a % 7 - r;
    QuotientIsUnique(a - t % 7, 7, a / 7 + t / 7, r);
  }

  /** No later day of the month has the weekday. */
  lemma LastToDaysIsLast(x: LastWeekday, z: int)
    requires YearOk(x.year) && MonthOk(x.month) && WeekdayOk(x.wd)
    requires LastToDays(x) < z <= LAST_DAY
    requires FromDays(z).year == x.year && FromDays(z).month == x.month
    ensures WeekdayFromDays(z) != x.wd
  {
    hide ToDays, FromDays, CivilOf, WeekdayFromDays, LastToDays, LastDay, LeapYear, DayNumber, ToShort;
    LastToDaysFits(x);
    var t := LastToDays(x);
    OkIsCivil(Date(x.year, x.month, 1));
    MonthHasDays(x.year, x.month);
    FirstOfMonth(x.year, x.month, LastDay(x.year, x.month));
    StoredCivilDate(Date(x.year, x.month, LastDay(x.year, x.month)));
    FromDaysFields(z);
    var (y, m, d) := CivilOf(z);
    DayNumberBounds(x.year, x.month, 1);
    DayNumberBounds(y, m, d);
    FirstOfMonth(x.year, x.month, 1);
    ShortFits(y);
    MonthHasDays(y, m);
    FirstOfMonth(x.year, x.month, d);
    WeekdayIsResidue(t);
    WeekdayIsResidue(z);
    assert 0 < z - t < 7;
  }

  /** The last weekday is the fifth one if the month has a fifth, else the fourth. */
  lemma LastIsFifthOrFourth(x: LastWeekday)
    requires YearOk(x.year) && MonthOk(x.month) && WeekdayOk(x.wd)
    ensures var fifth := NthWeekday(x.year, x.month, x.wd, 5);
      LastToDays(x) == NthToDays(if NthOk(fifth) then fifth else fifth.(index := 4))
  {
    hide ToDays, FromDays, WeekdayFromDays, Between, LastDay, LeapYear, DayNumber, NthToDays, NthOk, NthDay,
      LastToDays, WeekdayOf;
    var fifth := NthWeekday(x.year, x.month, x.wd, 5);
    var nth := if NthOk(fifth) then fifth else fifth.(index := 4);
    NthByDay(fifth);
    NthOkByDay(fifth);
    NthByDay(nth);
    NthDayHasWeekday(nth);
    LastToDaysFits(x);
    OkIsCivil(Date(x.year, x.month, 1));
    MonthHasDays(x.year, x.month);
    FirstOfMonth(x.year, x.month, LastDay(x.year, x.month));
    StoredCivilDate(Date(x.year, x.month, LastDay(x.year, x.month)));
    NthDaysAreWeeksApart(fifth);
    WeekdayIsResidue(LastToDays(x));
    WeekdayIsResidue(NthToDays(nth));
    SameResidue(LastToDays(x) + 4, NthToDays(nth) + 4);
  }

  lemma NthDaysAreWeeksApart(fifth: NthWeekday)
    requires fifth.index == 5
    ensures NthDay(fifth) == NthDay(fifth.(index := 4)) + 7
  {
    hide ToDays, WeekdayFromDays, Between;
  }

  lemma SameResidue(a: int, b: int)
    requires a % 7 == b % 7 && -7 < a - b < 7
    ensures a == b
  {
  }
}
