/** The fixed-width integer operations of C++ that the calendar code relies on. */
module MachineIntegers {

  type Short = x: int | -0x8000 <= x < 0x8000 witness 0
  type Byte = x: int | 0 <= x < 0x100 witness 0
  type Int32 = x: int | -0x8000_0000 <= x < 0x8000_0000 witness 0
  type Uint32 = x: int | 0 <= x < 0x1_0000_0000 witness 0
  type Uint16 = x: int | 0 <= x < 0x1_0000 witness 0

  /** C++ `/`: the quotient is rounded toward zero. */
  function TruncDiv(a: int, b: int): int
    requires 0 < b
  {
    if a >= 0 then a / b else -((-a) / b)
  }

  /** C++ `%`: the remainder takes the sign of the dividend. */
  function TruncMod(a: int, b: int): int
    requires 0 < b
  {
    a - TruncDiv(a, b) * b
  }

  /** Conversion to `unsigned char`. */
  function ToByte(x: int): Byte {
    x % 0x100
  }

  /** Conversion to `short`. */
  function ToShort(x: int): Short {
    (x + 0x8000) % 0x1_0000 - 0x8000
  }

  /** Conversion to a 32-bit `unsigned`. */
  function ToUint32(x: int): Uint32 {
    x % 0x1_0000_0000
  }

  /** Conversion of a 32-bit `unsigned` to `int`. */
  function ToInt32(x: int): Int32 {
    (x + 0x8000_0000) % 0x1_0000_0000 - 0x8000_0000
  }

  /** Conversion to `uint16_t`. */
  function ToUint16(x: int): Uint16 {
    x % 0x1_0000
  }

  lemma Uint32Fits(x: int)
    requires 0 <= x < 0x1_0000_0000
    ensures ToUint32(x) == x
  {
  }

  /** A difference taken as `unsigned` and read back as `int` is the difference. */
  lemma UnsignedDifference(x: int)
    requires -0x8000_0000 <= x < 0x8000_0000
    ensures ToInt32(ToUint32(x)) == x
  {
  }

  lemma ShortFits(x: int)
    ensures ToShort(x) == x <==> -0x8000 <= x < 0x8000
  {
  }

  lemma MultipleIsFar(d: int, b: int)
    requires 0 < b
    ensures d >= 1 ==> d * b >= b
    ensures d <= -1 ==> d * b <= -b
  {
  }

  lemma QuotientIsUnique(a: int, b: int, q: int, r: int)
    requires 0 < b && a == q * b + r && 0 <= r < b
    ensures a / b == q && a % b == r
  {
    var d := a / b - q;
    assert (a / b) * b - q * b == d * b;
    assert a == (a / b) * b + a % b;
    MultipleIsFar(d, b);
  }

  lemma QuotientStep(y: int, n: int)
    requires 0 < n
    ensures y / n == (y - 1) / n + (if y % n == 0 then 1 else 0)
  {
    var q, r := y / n, y % n;
    if r == 0 {
      assert y - 1 == (q - 1) * n + (n - 1);
      QuotientIsUnique(y - 1, n, q - 1, n - 1);
    } else {
      QuotientIsUnique(y - 1, n, q, r - 1);
    }
  }

  /** The hand-written compensation `(a >= 0 ? a : a - (b - 1)) / b` turns the
      truncating division into the floor of a / b. */
  lemma CompensatedDivisionIsFloor(a: int, b: int)
    requires 0 < b
    ensures TruncDiv(if a >= 0 then a else a - (b - 1), b) == a / b
    ensures (a / b) * b <= a < (a / b) * b + b
  {
    var q, r := a / b, a % b;
    assert a == q * b + r;
    if a < 0 {
      assert b - 1 - a == (-q) * b + (b - 1 - r);
      QuotientIsUnique(b - 1 - a, b, -q, b - 1 - r);
    }
  }

  /** The remainder of the truncating division vanishes for multiples, as every other. */
  lemma TruncModZero(a: int, b: int)
    requires 0 < b
    ensures TruncMod(a, b) == 0 <==> a % b == 0
  {
    if a % b == 0 {
      assert -a == -(a / b) * b + 0;
      QuotientIsUnique(-a, b, -(a / b), 0);
    }
    if (-a) % b == 0 {
      assert a == -((-a) / b) * b + 0;
      QuotientIsUnique(a, b, -((-a) / b), 0);
    }
  }
}
