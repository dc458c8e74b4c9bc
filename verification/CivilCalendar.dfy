/** Day counts and civil dates: `year_month_day` of date.h. */
module CivilCalendar {
  import opened MachineIntegers

  /** A date as it is stored: a `short` year and `unsigned char` month and day.
      Nothing in the type says that the fields name a day of the calendar. */
  datatype Date = Date(year: Short, month: Byte, day: Byte)

  const EPOCH_SHIFT := 719468
  const DAYS_IN_ERA := 146097

  predicate IsLeap(y: Short) {
    TruncMod(y, 4) == 0 && (TruncMod(y, 100) != 0 || TruncMod(y, 400) == 0)
  }

  predicate YearOk(y: Short) {
    y != -0x8000
  }

  predicate MonthOk(m: Byte) {
    1 <= m <= 12
  }

  /** `year_month_day_last::day`: 29 is also the answer for a month that is not ok. */
  function LastDay(y: Short, m: Byte): Byte {
    if (m != 2 || !IsLeap(y)) && MonthOk(m)
    then [31, 28, 31, 30, 31, 30, 31, 31, 30, 31, 30, 31][m - 1]
    else 29
  }

  predicate Ok(d: Date) {
    YearOk(d.year) && MonthOk(d.month) && 1 <= d.day <= LastDay(d.year, d.month)
  }

  /** Days of a 400-year era before its March-based year yoe. */
  function DaysBeforeYear(yoe: nat): nat {
    yoe * 365 + yoe / 4 - yoe / 100
  }

  /** Days of a March-based year before its month mp. */
  function DaysBeforeMonth(mp: nat): nat {
    (153 * mp + 2) / 5
  }

  function ToDays(date: Date): int {
    var y := date.year - (if date.month <= 2 then 1 else 0);
    var m: Uint32, d: Uint32 := date.month, date.day;
    var era := TruncDiv(if y >= 0 then y else y - 399, 400);
    var yoe := ToUint32(y - era * 400);
    var mp := if m > 2 then m - 3 else m + 9;
    var doy := ToUint32(DaysBeforeMonth(mp) + d - 1);
    var doe := ToUint32(DaysBeforeYear(yoe) + doy);
    era * DAYS_IN_ERA + ToInt32(doe) - EPOCH_SHIFT
  }

  function YearOfEra(doe: Uint32): Uint32 {
    ToUint32(doe - doe / 1460 + doe / 36524 - doe / 146096) / 365
  }

  /** The first part of `from_days`: the 400-year era and the day in it. */
  function EraOf(dp: int): (int, Uint32) {
    var z := dp + EPOCH_SHIFT;
    var era := TruncDiv(if z >= 0 then z else z - 146096, DAYS_IN_ERA);
    (era, ToUint32(z - era * DAYS_IN_ERA))
  }

  /** The last part of `from_days`: month and day of a day of the March-based year. */
  function MonthDayOf(doy: Uint32): (Uint32, Uint32) {
    var mp := ToUint32(5 * doy + 2) / 153;
    var d := ToUint32(doy - DaysBeforeMonth(mp) + 1);
    (if mp < 10 then mp + 3 else ToUint32(mp - 9), d)
  }

  /** `from_days` up to the point where the three fields are stored. */
  function CivilOf(dp: int): (int, Uint32, Uint32) {
    var (era, doe) := EraOf(dp);
    var yoe := YearOfEra(doe);
    var y := yoe + era * 400;
    var doy := ToUint32(doe - DaysBeforeYear(yoe));
    var (m, d) := MonthDayOf(doy);
    (y + (if m <= 2 then 1 else 0), m, d)
  }

  function FromDays(dp: int): Date {
    var (y, m, d) := CivilOf(dp);
    Date(ToShort(y), ToByte(m), ToByte(d))
  }

  /** `operator<` on dates. */
  predicate Before(a: Date, b: Date) {
    if a.year < b.year then true
    else if a.year > b.year then false
    else if a.month < b.month then true
    else if a.month > b.month then false
    else a.day < b.day
  }

  // ---------- Years of an era ----------

  /** A March-based year of an era has 366 days when the February at its end has 29. */
  predicate EndsLeap(yoe: int) {
    (yoe + 1) % 4 == 0 && ((yoe + 1) % 100 != 0 || (yoe + 1) % 400 == 0)
  }

  /** A year of an era by century c, four-year cycle q and year k: the days before it. */
  lemma DaysBeforeSplitYear(c: nat, q: nat, k: nat)
    requires c < 4 && q < 25 && k < 4
    ensures DaysBeforeYear(100 * c + 4 * q + k) == 36524 * c + 1461 * q + 365 * k
  {
    var yoe := 100 * c + 4 * q + k;
    assert yoe / 4 == 25 * c + q && yoe / 100 == c;
  }

  /** Exactly the last year of a cycle has a 366th day, except that the last year of a
      century has it only when the century ends the era. */
  lemma LeapDaySplit(c: nat, q: nat, k: nat)
    requires c < 4 && q < 25 && k < 4
    ensures EndsLeap(100 * c + 4 * q + k) <==> k == 3 && (q < 24 || c == 3)
  {
    var next := 100 * c + 4 * q + k + 1;
    QuotientIsUnique(next, 4, 25 * c + q + (k + 1) / 4, (k + 1) % 4);
    QuotientIsUnique(next, 100, c + (4 * q + k + 1) / 100, (4 * q + k + 1) % 100);
  }

  lemma CenturiesOfDay(c: nat, r: nat)
    requires c < 4 && (r < 36524 || (r == 36524 && c == 3))
    ensures (36524 * c + r) / 36524 - (36524 * c + r) / 146096 == c
  {
    var doe := 36524 * c + r;
    if r < 36524 {
      QuotientIsUnique(doe, 36524, c, r);
      QuotientIsUnique(doe, 146096, 0, doe);
    } else {
      QuotientIsUnique(doe, 36524, 4, 0);
      QuotientIsUnique(doe, 146096, 1, 0);
    }
  }

  /** The quotient by 1460 counts the leap days, the one of the current cycle possibly too
      early: then e is 1. */
  lemma CyclesOfDay(c: nat, q: nat, t: nat)
    requires c < 4 && q < 25 && t <= 1460
    ensures var e := if 24 * c + q + t >= 1460 then 1 else 0;
      (36524 * c + 1461 * q + t) / 1460 == 25 * c + q + e
  {
    var e := if 24 * c + q + t >= 1460 then 1 else 0;
    QuotientIsUnique(36524 * c + 1461 * q + t, 1460, 25 * c + q + e, 24 * c + q + t - 1460 * e);
  }

  lemma YearOfDaysLeft(doe: Uint32, year: nat, left: nat)
    requires doe - doe / 1460 + doe / 36524 - doe / 146096 == 365 * year + left
    requires year < 400 && left < 365
    ensures YearOfEra(doe) == year
  {
    Uint32Fits(365 * year + left);
    QuotientIsUnique(365 * year + left, 365, year, left);
  }

  /** `YearOfEra` reads the year off a day of the era that is split the same way. */
  lemma YearOfSplitDay(c: nat, q: nat, k: nat, u: nat)
    requires c < 4 && q < 25 && k < 4
    requires u <= 364 || (u == 365 && k == 3 && (q < 24 || c == 3))
    ensures 36524 * c + 1461 * q + 365 * k + u < DAYS_IN_ERA
    ensures YearOfEra(36524 * c + 1461 * q + 365 * k + u) == 100 * c + 4 * q + k
  {
    hide YearOfEra;
    var r, t := 1461 * q + 365 * k + u, 365 * k + u;
    var doe := 36524 * c + r;
    CenturiesOfDay(c, r);
    CyclesOfDay(c, q, t);
    var e := if 24 * c + q + t >= 1460 then 1 else 0;
    var year := 100 * c + 4 * q + k;
    assert doe == 365 * year + (24 * c + q + u);
    YearOfDaysLeft(doe, year, u - e);
  }

  lemma YearOfEraBounds(doe: Uint32)
    requires doe < DAYS_IN_ERA
    ensures var yoe := YearOfEra(doe);
      && 0 <= yoe < 400
      && 0 <= doe - DaysBeforeYear(yoe) <= (if EndsLeap(yoe) then 365 else 364)
  {
    hide YearOfEra, DaysBeforeYear, EndsLeap;
    var c := if doe == 146096 then 3 else doe / 36524;
    var r := doe - 36524 * c;
    var q := r / 1461;
    var t := r - 1461 * q;
    var k := if t == 1460 then 3 else t / 365;
    assert k < 4 && q < 25 && c < 4;
    LeapDaySplit(c, q, k);
    DaysBeforeSplitYear(c, q, k);
    YearOfSplitDay(c, q, k, t - 365 * k);
  }

  lemma YearOfEraUnique(yoe: nat, doy: nat)
    requires yoe < 400 && doy <= (if EndsLeap(yoe) then 365 else 364)
    ensures DaysBeforeYear(yoe) + doy < DAYS_IN_ERA
    ensures YearOfEra(DaysBeforeYear(yoe) + doy) == yoe
  {
    hide YearOfEra, DaysBeforeYear, EndsLeap;
    var c, q, k := yoe / 100, yoe % 100 / 4, yoe % 4;
    assert yoe == 100 * c + 4 * q + k;
    DaysBeforeSplitYear(c, q, k);
    LeapDaySplit(c, q, k);
    YearOfSplitDay(c, q, k, doy);
  }

  // ---------- Months and leap years ----------

  lemma LeapRule(y: Short)
    ensures IsLeap(y) <==> LeapYear(y)
  {
    hide TruncMod;
    TruncModZero(y, 4);
    TruncModZero(y, 100);
    TruncModZero(y, 400);
  }

  /** Number of a civil month in the March-based year. */
  function MarchMonth(m: nat): nat {
    if m > 2 then m - 3 else m + 9
  }

  /** The formula for the start of a month adds up the month lengths. */
  lemma MonthsFollow(m: nat)
    requires 1 <= m <= 12 && m != 2
    ensures MarchMonth(m) < 11
    ensures DaysBeforeMonth(MarchMonth(m) + 1) == DaysBeforeMonth(MarchMonth(m)) + LastDay(1, m)
  {
  }

  /** The two month formulas are inverse to each other. */
  lemma MonthFormulas(mp: nat, doy: nat)
    ensures DaysBeforeMonth(mp) <= doy < DaysBeforeMonth(mp + 1) <==> (5 * doy + 2) / 153 == mp
  {
  }

  /** A day of a March-based year lies in the month found for it; only the last
      day of a leap year is the 29th of February. */
  lemma MonthDayOfDay(doy: nat)
    requires doy <= 365
    ensures var (m, d) := MonthDayOf(doy);
      && 1 <= m <= 12
      && 1 <= d <= (if m == 2 then 29 else LastDay(1, m))
      && (m == 2 && d == 29 <==> doy == 365)
      && DaysBeforeMonth(MarchMonth(m)) + d - 1 == doy
  {
    hide LastDay, ToUint32;
    var mp := (5 * doy + 2) / 153;
    assert mp < 12;
    MonthFormulas(mp, doy);
    var m := if mp < 10 then mp + 3 else mp - 9;
    assert MarchMonth(m) == mp;
    Uint32Fits(5 * doy + 2);
    Uint32Fits(doy - DaysBeforeMonth(mp) + 1);
    Uint32Fits(m);
    assert MonthDayOf(doy) == (m, doy - DaysBeforeMonth(mp) + 1);
    if mp < 11 {
      MonthsFollow(m);
    }
  }

  lemma MonthDayOfDate(m: nat, d: nat)
    requires 1 <= m <= 12 && 1 <= d <= (if m == 2 then 29 else LastDay(1, m))
    ensures var doy := DaysBeforeMonth(MarchMonth(m)) + d - 1;
      && 0 <= doy <= 365
      && (doy == 365 <==> m == 2 && d == 29)
      && MonthDayOf(doy) == (m, d)
  {
    hide LastDay, ToUint32;
    if m != 2 {
      MonthsFollow(m);
    }
    var mp := MarchMonth(m);
    var doy := DaysBeforeMonth(mp) + d - 1;
    assert doy < DaysBeforeMonth(mp + 1);
    assert m != 2 ==> DaysBeforeMonth(mp + 1) <= 337;
    MonthFormulas(mp, doy);
    Uint32Fits(5 * doy + 2);
    Uint32Fits(d);
    Uint32Fits(m);
  }

  /** Days from 0000-03-01 to the first of March of year y. */
  function MarchDays(y: int): int {
    365 * y + y / 4 - y / 100 + y / 400
  }

  lemma MarchDaysByEra(era: int, yoe: nat)
    requires yoe < 400
    ensures MarchDays(era * 400 + yoe) == era * DAYS_IN_ERA + DaysBeforeYear(yoe)
  {
    var y := era * 400 + yoe;
    assert y / 4 == era * 100 + yoe / 4;
    assert y / 100 == era * 4 + yoe / 100;
    assert y / 400 == era;
  }

  lemma EndsLeapByEra(era: int, yoe: nat)
    requires yoe < 400
    ensures LeapYear(era * 400 + yoe + 1) == EndsLeap(yoe)
  {
    var next := era * 400 + yoe + 1;
    assert next / 4 == era * 100 + (yoe + 1) / 4;
    assert next / 100 == era * 4 + (yoe + 1) / 100;
    assert next / 400 == era + (yoe + 1) / 400;
  }

  /** March-based year of a civil month. */
  function MarchYear(y: int, m: nat): int {
    if m <= 2 then y - 1 else y
  }

  /** The unsigned additions of `to_days` wrap only when doy is -1, and then the
      conversion back to `int` undoes it. */
  lemma WrappedSum(before: nat, doy: int)
    requires before < DAYS_IN_ERA && -1 <= doy < 0x10000
    ensures ToInt32(ToUint32(before + ToUint32(doy))) == before + doy
  {
  }

  /** Whatever the fields of a date hold, none of the unsigned operations in
      `to_days` disturbs the result: it is the day count of the proleptic
      Gregorian calendar. */
  lemma ToDaysClosedForm(date: Date)
    ensures ToDays(date) == MarchDays(MarchYear(date.year, date.month))
      + DaysBeforeMonth(MarchMonth(date.month)) + date.day - 1 - EPOCH_SHIFT
  {
    hide TruncDiv, MarchDays, ToUint32;
    var y := MarchYear(date.year, date.month);
    var era, yoe := y / 400, y % 400;
    CompensatedDivisionIsFloor(y, 400);
    MarchDaysByEra(era, yoe);
    assert era * 400 + yoe == y;
    Uint32Fits(yoe);
    WrappedSum(DaysBeforeYear(yoe), DaysBeforeMonth(MarchMonth(date.month)) + date.day - 1);
  }

  // ---------- The bijection, before the year is narrowed ----------

  /** The Gregorian leap rule for a year of any size. */
  predicate LeapYear(y: int) {
    y % 4 == 0 && (y % 100 != 0 || y % 400 == 0)
  }

  function MonthLength(y: int, m: nat): nat
    requires 1 <= m <= 12
  {
    if m == 2 then if LeapYear(y) then 29 else 28 else LastDay(1, m)
  }

  predicate Civil(y: int, m: int, d: int) {
    1 <= m <= 12 && 1 <= d <= MonthLength(y, m)
  }

  /** Days from 1970-01-01 to a civil date whose year may have any size. */
  function DayNumber(y: int, m: int, d: int): int
    requires Civil(y, m, d)
  {
    MarchDays(MarchYear(y, m)) + DaysBeforeMonth(MarchMonth(m)) + d - 1 - EPOCH_SHIFT
  }

  /** The era is the floor of the shifted day count over the length of an era. */
  lemma EraOfDay(z: int)
    ensures EraOf(z) == ((z + EPOCH_SHIFT) / DAYS_IN_ERA, (z + EPOCH_SHIFT) % DAYS_IN_ERA)
  {
    CompensatedDivisionIsFloor(z + EPOCH_SHIFT, DAYS_IN_ERA);
  }

  /** Every day count is the day number of the date `from_days` computes. */
  lemma CivilOfDay(z: int)
    ensures var (y, m, d) := CivilOf(z); Civil(y, m, d) && DayNumber(y, m, d) == z
  {
    hide EraOf, YearOfEra, MonthDayOf, MarchDays, DaysBeforeYear, DaysBeforeMonth, LeapYear, EndsLeap, LastDay;
    EraOfDay(z);
    var (era, doe) := EraOf(z);
    YearOfEraBounds(doe);
    var yoe := YearOfEra(doe);
    var doy := doe - DaysBeforeYear(yoe);
    MonthDayOfDay(doy);
    MarchDaysByEra(era, yoe);
    EndsLeapByEra(era, yoe);
  }

  /** The computation of `from_days` finds every civil date from its day number. */
  lemma CivilOfDayNumber(y: int, m: int, d: int)
    requires Civil(y, m, d)
    ensures CivilOf(DayNumber(y, m, d)) == (y, m, d)
  {
    hide EraOf, YearOfEra, MonthDayOf, MarchDays, DaysBeforeYear, DaysBeforeMonth, LeapYear, EndsLeap, LastDay;
    var my := MarchYear(y, m);
    var era, yoe := my / 400, my % 400;
    assert my == era * 400 + yoe;
    MarchDaysByEra(era, yoe);
    EndsLeapByEra(era, yoe);
    MonthDayOfDate(m, d);
    var doy := DaysBeforeMonth(MarchMonth(m)) + d - 1;
    YearOfEraUnique(yoe, doy);
    var s := DayNumber(y, m, d) + EPOCH_SHIFT;
    EraOfDay(DayNumber(y, m, d));
    QuotientIsUnique(s, DAYS_IN_ERA, era, DaysBeforeYear(yoe) + doy);
  }

  // ---------- The bijection on stored dates ----------

  /** The days whose year fits a `short`. */
  const FIRST_DAY := DayNumber(-0x8000, 1, 1)
  const LAST_DAY := DayNumber(0x7fff, 12, 31)

  /** The stored month lengths and the stored leap rule are the Gregorian ones. */
  lemma OkIsCivil(date: Date)
    ensures Ok(date) <==> YearOk(date.year) && Civil(date.year, date.month, date.day)
    ensures MonthOk(date.month) ==> LastDay(date.year, date.month) == MonthLength(date.year, date.month)
  {
    LeapRule(date.year);
  }

  lemma StoredCivilDate(date: Date)
    requires Civil(date.year, date.month, date.day)
    ensures ToDays(date) == DayNumber(date.year, date.month, date.day)
  {
    hide ToDays;
    ToDaysClosedForm(date);
  }

  lemma DayNumberBounds(y: int, m: int, d: int)
    requires Civil(y, m, d)
    ensures FIRST_DAY <= DayNumber(y, m, d) <= LAST_DAY <==> -0x8000 <= y < 0x8000
  {
  }

  /** Month and day always fit their bytes; the year is taken modulo 65536. */
  lemma FromDaysFields(z: int)
    ensures var (y, m, d) := CivilOf(z);
      && Civil(y, m, d) && DayNumber(y, m, d) == z
      && FromDays(z) == Date(ToShort(y), m, d)
      && (-0x8000 <= y < 0x8000 ==> FromDays(z).year == y)
  {
    hide CivilOf, DayNumber;
    CivilOfDay(z);
  }

  /** A stored date whose month and day occur in some year never leaves the range. */
  lemma ToDaysInRange(date: Date, y: int)
    requires Civil(y, date.month, date.day)
    ensures FIRST_DAY <= ToDays(date) <= LAST_DAY
  {
    hide ToDays;
    ToDaysClosedForm(date);
  }

  /** `from_days` after `to_days` is the identity on every date that is ok. */
  lemma FromToDays(date: Date)
    requires Ok(date)
    ensures FromDays(ToDays(date)) == date
  {
    hide CivilOf, ToDays, DayNumber;
    OkIsCivil(date);
    StoredCivilDate(date);
    CivilOfDayNumber(date.year, date.month, date.day);
  }

  /** `to_days` after `from_days` gives the day back exactly when the year of the
      day fits the `short` it is stored in; a later or earlier day comes back
      as another day. */
  lemma ToFromDays(z: int)
    ensures ToDays(FromDays(z)) == z <==> FIRST_DAY <= z <= LAST_DAY
  {
    hide *;
    var (y, m, d) := CivilOf(z);
    FromDaysFields(z);
    DayNumberBounds(y, m, d);
    var date := FromDays(z);
    if -0x8000 <= y < 0x8000 {
      StoredCivilDate(date);
    } else {
      ToDaysInRange(date, y);
    }
  }

  lemma DayNumberFromMinimum(y: int, m: int, d: int)
    requires Civil(y, m, d)
    ensures DayNumber(-0x7fff, 1, 1) <= DayNumber(y, m, d) <==> -0x7fff <= y
  {
  }

  /** Of those days, all from the first of January of the least valid year on give a
      date that is ok. */
  lemma FromDaysOk(z: int)
    ensures FIRST_DAY <= z <= LAST_DAY ==> (Ok(FromDays(z)) <==> DayNumber(-0x7fff, 1, 1) <= z)
  {
    hide ToShort, DayNumber, FromDays, CivilOf, MonthLength;
    FromDaysFields(z);
    var (y, m, d) := CivilOf(z);
    DayNumberBounds(y, m, d);
    DayNumberFromMinimum(y, m, d);
    OkIsCivil(FromDays(z));
  }
}
