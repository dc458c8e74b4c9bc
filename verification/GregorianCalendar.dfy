/** The naive Gregorian calendar, stepped one day at a time from 1970-01-01, and
    the proof that the closed formulas of `year_month_day` compute it. */
module GregorianCalendar {
  import opened MachineIntegers
  import opened CivilCalendar

  type Civilian = c: (int, int, int) | Civil(c.0, c.1, c.2) witness (1970, 1, 1)

  function DaysInMonth(y: int, m: int): int {
    if m == 2 then if LeapYear(y) then 29 else 28
    else if m in {4, 6, 9, 11} then 30
    else 31
  }

  lemma MonthLengthIsDaysInMonth(y: int, m: int)
    requires 1 <= m <= 12
    ensures MonthLength(y, m) == DaysInMonth(y, m)
  {
  }

  function NextDay(c: Civilian): Civilian {
    var (y, m, d) := c;
    MonthLengthIsDaysInMonth(y, m);
    if d < DaysInMonth(y, m) then (y, m, d + 1)
    else if m < 12 then (y, m + 1, 1)
    else (y + 1, 1, 1)
  }

  function PreviousDay(c: Civilian): Civilian {
    var (y, m, d) := c;
    if d > 1 then (y, m, d - 1)
    else if m > 1 then (MonthLengthIsDaysInMonth(y, m - 1); (y, m - 1, DaysInMonth(y, m - 1)))
    else (y - 1, 12, 31)
  }

  /** The date z days after 1970-01-01, counted out day by day. */
  function Counted(z: int): Civilian
    decreases if z < 0 then -z else z
  {
    if z == 0 then (1970, 1, 1)
    else if z > 0 then NextDay(Counted(z - 1))
    else PreviousDay(Counted(z + 1))
  }

  lemma NextOfPrevious(c: Civilian)
    ensures NextDay(PreviousDay(c)) == c
  {
  }

  lemma MarchYearLength(y: int)
    ensures MarchDays(y) == MarchDays(y - 1) + (if LeapYear(y) then 366 else 365)
  {
    QuotientStep(y, 4);
    QuotientStep(y, 100);
    QuotientStep(y, 400);
    LeapNesting(y);
  }

  lemma LeapNesting(y: int)
    ensures y % 400 == 0 ==> y % 100 == 0
    ensures y % 100 == 0 ==> y % 4 == 0
  {
    if y % 400 == 0 {
      QuotientIsUnique(y, 100, 4 * (y / 400), 0);
    }
    if y % 100 == 0 {
      QuotientIsUnique(y, 4, 25 * (y / 100), 0);
    }
  }

  lemma NextDayNumber(c: Civilian)
    ensures DayNumber(NextDay(c).0, NextDay(c).1, NextDay(c).2) == DayNumber(c.0, c.1, c.2) + 1
  {
    hide MarchDays, LastDay, LeapYear;
    var (y, m, d) := c;
    MarchYearLength(y);
    MonthLengthIsDaysInMonth(y, m);
    if m != 2 {
      MonthsFollow(m);
    }
  }

  /** `from_days` follows the calendar: the next day count is the next date. */
  lemma {:induction false} FormulaSteps(z: int)
    ensures var (y, m, d) := CivilOf(z); Civil(y, m, d) && CivilOf(z + 1) == NextDay((y, m, d))
  {
    hide *;
    CivilOfDay(z);
    var (y, m, d) := CivilOf(z);
    var c: Civilian := (y, m, d);
    NextDayNumber(c);
    var next := NextDay(c);
    CivilOfDayNumber(next.0, next.1, next.2);
  }

  /** For every day count, however large, the formula gives the date counted out
      from 1970-01-01 day by day. */
  lemma {:induction false} FormulaCounts(z: int)
    ensures CivilOf(z) == Counted(z)
    decreases if z < 0 then -z else z
  {
    hide CivilOf, NextDay, PreviousDay, DayNumber;
    if z == 0 {
      EpochIsDayZero();
    } else if z > 0 {
      FormulaCounts(z - 1);
      FormulaSteps(z - 1);
    } else {
      FormulaCounts(z + 1);
      FormulaSteps(z);
      var (y, m, d) := CivilOf(z);
      NextIsInjective((y, m, d), PreviousDay(Counted(z + 1)));
      NextOfPrevious(Counted(z + 1));
    }
  }

  lemma EpochIsDayZero()
    ensures DayNumber(1970, 1, 1) == 0
    ensures CivilOf(0) == (1970, 1, 1)
  {
    CivilOfDayNumber(1970, 1, 1);
  }

  lemma NextIsInjective(a: Civilian, b: Civilian)
    ensures NextDay(a) == NextDay(b) ==> a == b
  {
    hide *;
    NextDayNumber(a);
    NextDayNumber(b);
    CivilOfDayNumber(a.0, a.1, a.2);
    CivilOfDayNumber(b.0, b.1, b.2);
  }

  /** `to_days` of a date that is ok is the number of steps from 1970-01-01 to it. */
  lemma ToDaysCounts(date: Date, z: int)
    requires Ok(date)
    ensures ToDays(date) == z <==> Counted(z) == (date.year, date.month, date.day)
  {
    hide ToDays, CivilOf, Counted, DayNumber;
    OkIsCivil(date);
    StoredCivilDate(date);
    CivilOfDayNumber(date.year, date.month, date.day);
    FormulaCounts(ToDays(date));
    FormulaCounts(z);
    CivilOfDay(z);
  }

  // ---------- The order of dates ----------

  predicate CivilBefore(a: (int, int, int), b: (int, int, int)) {
    a.0 < b.0 || (a.0 == b.0 && (a.1 < b.1 || (a.1 == b.1 && a.2 < b.2)))
  }

  lemma {:induction false} CountedInOrder(x: int, y: int)
    requires x < y
    ensures CivilBefore(CivilOf(x), CivilOf(y))
    decreases y - x
  {
    hide CivilOf;
    if x + 1 < y {
      CountedInOrder(x, y - 1);
    }
    FormulaSteps(y - 1);
    var (a, b, c) := CivilOf(y - 1);
    MonthLengthIsDaysInMonth(a, b);
    assert CivilBefore(CivilOf(y - 1), CivilOf(y));
  }

  /** `operator<` compares dates that are ok as their day counts. */
  lemma OrderIsDayOrder(a: Date, b: Date)
    requires Ok(a) && Ok(b)
    ensures Before(a, b) <==> ToDays(a) < ToDays(b)
  {
    hide CivilOf, ToDays, DayNumber;
    OkIsCivil(a);
    OkIsCivil(b);
    StoredCivilDate(a);
    StoredCivilDate(b);
    CivilOfDayNumber(a.year, a.month, a.day);
    CivilOfDayNumber(b.year, b.month, b.day);
    if ToDays(a) < ToDays(b) {
      CountedInOrder(ToDays(a), ToDays(b));
    } else if ToDays(b) < ToDays(a) {
      CountedInOrder(ToDays(b), ToDays(a));
    }
  }
}
