/** Months and year-months: adding months carries into the year. */
module MonthArithmetic {
  import opened MachineIntegers
  import opened CivilCalendar

  datatype YearMonth = YearMonth(year: Short, month: Byte)

  /** `ym + months{n}`. */
  function AddMonths(ym: YearMonth, n: int): YearMonth {
    var dmi := ym.month - 1 + n;
    var dy := TruncDiv(if dmi >= 0 then dmi else dmi - 11, 12);
    YearMonth(ToShort(ym.year + dy), ToByte(ToUint32(dmi - dy * 12 + 1)))
  }

  /** `x - y` in months: the month numbers are subtracted as `unsigned`. */
  function MonthsBetween(x: YearMonth, y: YearMonth): int {
    (x.year - y.year) * 12 + ToInt32(ToUint32(x.month - y.month))
  }

  /** `m + months{n}` on a month without a year. */
  function AddToMonth(m: Byte, n: int): Byte {
    var mu := m + n - 1;
    var yr := TruncDiv(if mu >= 0 then mu else mu - 11, 12);
    ToByte(ToUint32(mu - yr * 12 + 1))
  }

  /** `x - y` on months without a year. */
  function MonthDistance(x: Byte, y: Byte): int {
    var d := ToUint32(x - y);
    ToInt32(if d <= 11 then d else ToUint32(d + 12))
  }

  /** Months since January of year 0. */
  function Index(ym: YearMonth): int {
    ym.year * 12 + (ym.month - 1)
  }

  lemma AddMonthsExact(ym: YearMonth, n: int)
    ensures AddMonths(ym, n) == YearMonth(ToShort((Index(ym) + n) / 12), (Index(ym) + n) % 12 + 1)
  {
    hide TruncDiv, ToShort, ToUint32;
    var dmi := ym.month - 1 + n;
    CompensatedDivisionIsFloor(dmi, 12);
    Uint32Fits(dmi % 12 + 1);
    QuotientIsUnique(Index(ym) + n, 12, ym.year + dmi / 12, dmi % 12);
  }

  lemma ToShortSum(x: int, k: int)
    ensures ToShort(ToShort(x) + k) == ToShort(x + k)
  {
  }

  /** The resulting month is a month of the year, whatever the operands were. */
  lemma AddMonthsOk(ym: YearMonth, n: int)
    ensures MonthOk(AddMonths(ym, n).month)
  {
    AddMonthsExact(ym, n);
  }

  /** Adding months is an action of the integers: the wrap of the `short` year does
      not disturb it. */
  lemma AddMonthsTwice(ym: YearMonth, a: int, b: int)
    ensures AddMonths(AddMonths(ym, a), b) == AddMonths(ym, a + b)
  {
    hide AddMonths, ToShort;
    AddMonthsExact(ym, a);
    var mid := AddMonths(ym, a);
    AddMonthsExact(mid, b);
    AddMonthsExact(ym, a + b);
    var i := Index(ym) + a;
    var k := (i % 12 + b) / 12;
    QuotientIsUnique(i + b, 12, i / 12 + k, (i % 12 + b) % 12);
    QuotientIsUnique(Index(mid) + b, 12, ToShort(i / 12) + k, (i % 12 + b) % 12);
    ToShortSum(i / 12, k);
  }

  /** Subtracting what was added to recovers the number of months exactly when the
      year reached still fits a `short`. */
  lemma AddThenSubtract(ym: YearMonth, n: int)
    requires MonthOk(ym.month)
    ensures MonthsBetween(AddMonths(ym, n), ym) == n
       <==> -0x8000 <= ym.year + (ym.month - 1 + n) / 12 < 0x8000
  {
    hide AddMonths, ToShort, ToInt32, ToUint32;
    AddMonthsExact(ym, n);
    var k, r := (ym.month - 1 + n) / 12, (ym.month - 1 + n) % 12;
    QuotientIsUnique(Index(ym) + n, 12, ym.year + k, r);
    assert AddMonths(ym, n) == YearMonth(ToShort(ym.year + k), r + 1);
    UnsignedDifference(r + 1 - ym.month);
    ShortFits(ym.year + k);
  }

  /** The difference leads back: no overflow is possible in this direction. */
  lemma SubtractThenAdd(x: YearMonth, y: YearMonth)
    requires MonthOk(x.month) && MonthOk(y.month)
    ensures AddMonths(y, MonthsBetween(x, y)) == x
  {
    hide AddMonths, ToShort, ToInt32, ToUint32;
    AddMonthsExact(y, MonthsBetween(x, y));
    UnsignedDifference(x.month - y.month);
    ShortFits(x.year);
    assert Index(y) + MonthsBetween(x, y) == Index(x);
    QuotientIsUnique(Index(x), 12, x.year, x.month - 1);
  }

  lemma AddToMonthExact(m: Byte, n: int)
    ensures AddToMonth(m, n) == (m - 1 + n) % 12 + 1
  {
    CompensatedDivisionIsFloor(m + n - 1, 12);
  }

  lemma MonthDistanceExact(x: Byte, y: Byte)
    requires MonthOk(x) && MonthOk(y)
    ensures MonthDistance(x, y) == if y <= x then x - y else x - y + 12
  {
    hide ToInt32, ToUint32;
    if y <= x {
      Uint32Fits(x - y);
      SmallInt32Fits(x - y);
    } else {
      WrapsOnce(x - y);
      SmallInt32Fits(x - y + 12);
    }
  }

  /** A negative difference wraps around, and back again when twelve is added. */
  lemma WrapsOnce(d: int)
    requires -12 < d < 0
    ensures ToUint32(d) == d + 0x1_0000_0000
    ensures ToUint32(d + 0x1_0000_0000 + 12) == d + 12
  {
    QuotientIsUnique(d, 0x1_0000_0000, -1, d + 0x1_0000_0000);
    QuotientIsUnique(d + 0x1_0000_0000 + 12, 0x1_0000_0000, 1, d + 12);
  }

  lemma SmallInt32Fits(x: int)
    requires 0 <= x < 0x8000_0000
    ensures ToInt32(x) == x
  {
    QuotientIsUnique(x + 0x8000_0000, 0x1_0000_0000, 0, x + 0x8000_0000);
  }

  /** Without a year the months form a cycle of twelve. */
  lemma MonthDistanceLeadsBack(x: Byte, y: Byte)
    requires MonthOk(x) && MonthOk(y)
    ensures 0 <= MonthDistance(x, y) <= 11
    ensures AddToMonth(y, MonthDistance(x, y)) == x
  {
    hide AddToMonth, MonthDistance;
    MonthDistanceExact(x, y);
    AddToMonthExact(y, MonthDistance(x, y));
  }

  /** The month of a year-month moves as the month alone does. */
  lemma MonthIgnoresYear(ym: YearMonth, n: int)
    ensures AddMonths(ym, n).month == AddToMonth(ym.month, n)
  {
    hide AddToMonth, AddMonths;
    AddMonthsExact(ym, n);
    AddToMonthExact(ym.month, n);
    YearsDropOut(ym.year, ym.month - 1 + n);
  }

  lemma YearsDropOut(y: int, k: int)
    ensures (y * 12 + k) % 12 == k % 12
  {
    QuotientIsUnique(y * 12 + k, 12, y + k / 12, k % 12);
  }
}
