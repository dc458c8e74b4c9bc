/** Weekdays (0 is Sunday) and their cyclic arithmetic: `weekday` of date.h. */
module Weekdays {
  import opened MachineIntegers
  import opened CivilCalendar

  const SUNDAY := 0
  const MONDAY := 1
  const THURSDAY := 4

  predicate WeekdayOk(wd: Byte) {
    wd <= 6
  }

  /** `weekday_from_days`, in 32-bit unsigned arithmetic. */
  function WeekdayFromDays(z: int): Byte {
    var u := ToUint32(z);
    ToByte(if z >= -4 then ToUint32(u + 4) % 7 else u % 7)
  }

  /** The constructor of `weekday`: 7 also means Sunday. */
  function MakeWeekday(wd: Uint32): Byte {
    ToByte(if wd != 7 then wd else 0)
  }

  /** `x - y`: the days from weekday y to the next x. */
  function Between(x: Byte, y: Byte): int {
    var wdu := x - y;
    var wk := TruncDiv(if wdu >= 0 then wdu else wdu - 6, 7);
    wdu - wk * 7
  }

  /** `x + days{n}`. */
  function Plus(x: Byte, n: int): Byte {
    var wdu := x + n;
    var wk := TruncDiv(if wdu >= 0 then wdu else wdu - 6, 7);
    MakeWeekday(ToUint32(wdu - wk * 7))
  }

  /** The two unsigned branches together are the residue of z + 4 modulo 7, for
      every day count an `int` can hold. */
  lemma WeekdayIsResidue(z: Int32)
    ensures WeekdayFromDays(z) == (z + 4) % 7
  {
    if z >= -4 {
      assert ToUint32(ToUint32(z) + 4) == z + 4;
    } else {
      assert ToUint32(z) == (z + 4) + 7 * 0x2492_4924;
      ResiduePeriod(z + 4, 0x2492_4924);
    }
  }

  lemma MakeWeekdayKeeps(wd: Uint32)
    requires wd <= 6
    ensures MakeWeekday(wd) == wd
  {
  }

  lemma BetweenIsResidue(x: Byte, y: Byte)
    ensures Between(x, y) == (x - y) % 7
  {
    CompensatedDivisionIsFloor(x - y, 7);
  }

  lemma PlusIsResidue(x: Byte, n: int)
    ensures Plus(x, n) == (x + n) % 7
  {
    CompensatedDivisionIsFloor(x + n, 7);
  }

  lemma ResidueSum(a: int, b: int)
    ensures (a % 7 + b) % 7 == (a + b) % 7
  {
    var t := a % 7 + b;
    QuotientIsUnique(a + b, 7, a / 7 + t / 7, t % 7);
  }

  /** Weekdays follow the days: the weekday n days later is the weekday plus n. */
  lemma WeekdayOfLaterDay(d: Int32, n: int)
    requires -0x8000_0000 <= d + n < 0x8000_0000
    ensures WeekdayFromDays(d + n) == Plus(WeekdayFromDays(d), n)
  {
    hide *;
    WeekdayIsResidue(d);
    WeekdayIsResidue(d + n);
    PlusIsResidue(WeekdayFromDays(d), n);
    ResidueSum(d + 4, n);
  }

  /** The difference of two weekdays is the number of days, 0 to 6, that leads from
      one to the other. */
  lemma BetweenLeadsBack(x: Byte, y: Byte)
    requires WeekdayOk(x) && WeekdayOk(y)
    ensures 0 <= Between(x, y) <= 6
    ensures Plus(y, Between(x, y)) == x
    ensures forall n :: 0 <= n <= 6 && Plus(y, n) == x ==> n == Between(x, y)
  {
    hide Plus, Between;
    BetweenIsResidue(x, y);
    forall n ensures Plus(y, n) == (y + n) % 7 {
      PlusIsResidue(y, n);
    }
  }

  /** Adding days to a weekday is an action of the integers, whatever the weekday. */
  lemma PlusPlus(x: Byte, a: int, b: int)
    ensures Plus(Plus(x, a), b) == Plus(x, a + b)
  {
    hide *;
    PlusIsResidue(x, a);
    PlusIsResidue(Plus(x, a), b);
    PlusIsResidue(x, a + b);
    ResidueSum(x + a, b);
    assert x + a + b == x + (a + b);
  }

  /** The days between two weekdays of days are the days between the days, modulo 7. */
  lemma BetweenDays(a: Int32, b: Int32)
    ensures Between(WeekdayFromDays(a), WeekdayFromDays(b)) == (a - b) % 7
  {
    hide *;
    WeekdayIsResidue(a);
    WeekdayIsResidue(b);
    BetweenIsResidue(WeekdayFromDays(a), WeekdayFromDays(b));
    ResidueSum(a + 4, -((b + 4) % 7));
    assert (a + 4) - (b + 4) % 7 == (a - b) + 7 * ((b + 4) / 7);
    ResidueSum(a - b, 0);
    ResiduePeriod(a - b, (b + 4) / 7);
  }

  lemma ResiduePeriod(a: int, k: int)
    ensures (a + 7 * k) % 7 == a % 7
  {
    QuotientIsUnique(a + 7 * k, 7, a / 7 + k, a % 7);
  }

  /** Dates 400 years apart fall on the same weekday. */
  lemma WeekdayPeriod(date: Date)
    requires Ok(date) && date.year < 0x8000 - 400
    ensures var later := Date(date.year + 400, date.month, date.day);
      Ok(later) && WeekdayFromDays(ToDays(later)) == WeekdayFromDays(ToDays(date))
  {
    hide ToDays, WeekdayFromDays, MarchDays;
    var later := Date(date.year + 400, date.month, date.day);
    OkIsCivil(date);
    LeapPeriod(date.year);
    OkIsCivil(later);
    ToDaysClosedForm(date);
    ToDaysClosedForm(later);
    MarchPeriod(MarchYear(date.year, date.month));
    DayRange(date);
    WeekdayIsResidue(ToDays(date));
    WeekdayIsResidue(ToDays(date) + DAYS_IN_ERA);
    ResiduePeriod(ToDays(date) + 4, 20871);
  }

  lemma LeapPeriod(y: int)
    ensures LeapYear(y + 400) == LeapYear(y)
  {
    hide LeapYear, EndsLeap;
    var era, yoe := (y - 1) / 400, (y - 1) % 400;
    EndsLeapByEra(era, yoe);
    EndsLeapByEra(era + 1, yoe);
    assert era * 400 + yoe + 1 == y;
    assert (era + 1) * 400 + yoe + 1 == y + 400;
  }

  lemma MarchPeriod(y: int)
    ensures MarchDays(y + 400) == MarchDays(y) + DAYS_IN_ERA
  {
    hide MarchDays, DaysBeforeYear;
    MarchDaysByEra(y / 400, y % 400);
    MarchDaysByEra(y / 400 + 1, y % 400);
    assert y / 400 * 400 + y % 400 == y;
    assert (y / 400 + 1) * 400 + y % 400 == y + 400;
  }

  /** Day counts of dates that are ok are far from the limits of an `int`. */
  lemma DayRange(date: Date)
    requires Ok(date)
    ensures -20_000_000 < FIRST_DAY <= ToDays(date) <= LAST_DAY < 20_000_000
  {
    hide ToDays;
    OkIsCivil(date);
    ToDaysInRange(date, date.year);
  }
}
