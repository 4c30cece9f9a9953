/**
 Java integer semantics that the client relies on, written out explicitly:
 the signed `byte` returned by `DataInputStream.readByte`, its widening to a
 32-bit `int`, the expression `hi << 8 | lo` on those widened values, and the
 truncating remainder operator `%`.

 A 32-bit Java `int` is represented by its bit pattern (`bv32`); `ToInt`
 reads a bit pattern back as a two's-complement integer.
 */
module JavaInt {

  const Int32Min: int := -0x8000_0000
  const Int32Max: int := 0x7FFF_FFFF

  /** One byte of the stream, as the unsigned value of its eight bits. */
  type Byte = x: int | 0 <= x < 0x100

  /** The value `readByte` returns for a byte: its bits read as a signed byte. */
  function Signed(b: Byte): (r: int)
    ensures -128 <= r < 128
    ensures r == b || r == b - 256
    ensures (r < 0) == (b >= 0x80)
  {
    if b < 0x80 then b else b - 256
  }

  /** The eight bits of a byte, assembled from its two four-bit halves (the value
      of the bits then follows from small facts about each half). */
  function Bits(b: Byte): (v: bv8)
    ensures v as int == b
  {
    var high, low := Nibble(b / 16), Nibble(b % 16);
    JoinNibbles(high, low);
    (high << 4) | low
  }

  /** The bits of a value in [0, 15]. */
  function Nibble(n: int): (v: bv8)
    requires 0 <= n < 16
    ensures v as int == n && v < 16
  {
    if n == 0 then 0
    else if n == 1 then 1
    else if n == 2 then 2
    else if n == 3 then 3
    else if n == 4 then 4
    else if n == 5 then 5
    else if n == 6 then 6
    else if n == 7 then 7
    else if n == 8 then 8
    else if n == 9 then 9
    else if n == 10 then 10
    else if n == 11 then 11
    else if n == 12 then 12
    else if n == 13 then 13
    else if n == 14 then 14
    else 15
  }

  lemma JoinNibbles(high: bv8, low: bv8)
    requires high < 16 && low < 16
    ensures ((high << 4) | low) as int == high as int * 16 + low as int
  {
  }

  lemma BitsSign(v: bv8)
    ensures (v < 0x80) == (v as int < 0x80)
  {
  }

  /** The low eight bits of a 32-bit pattern, as a byte. */
  function Low8(v: bv32): Byte {
    LowBits(v) as int
  }

  function LowBits(v: bv32): bv8 {
    (v & 0xFF) as bv8
  }

  /** The integer a 32-bit Java `int` holds: two's complement, read byte by byte
      (the top byte carries the sign). */
  function ToInt(v: bv32): (r: int)
    ensures Int32Min <= r <= Int32Max
  {
    Signed(Low8(v >> 24)) * 0x100_0000 + Low8(v >> 16) * 0x1_0000
      + Low8(v >> 8) * 0x100 + Low8(v)
  }

  /** Widening of a `byte` to an `int`: sign extension of its bits to 32. */
  function SignExtend(b: Byte): (r: bv32)
    ensures ToInt(r) == Signed(b)
  {
    var r := SignExtendBits(Bits(b));
    SignExtendBytes(Bits(b));
    BitsSign(Bits(b));
    r
  }

  function SignExtendBits(v: bv8): bv32 {
    if v < 0x80 then v as bv32 else (v as bv32) | 0xFFFF_FF00
  }

  lemma SignExtendBytes(v: bv8)
    ensures LowBits(SignExtendBits(v)) == v
    ensures LowBits(SignExtendBits(v) >> 8) == if v < 0x80 then 0 else 0xFF
    ensures LowBits(SignExtendBits(v) >> 16) == if v < 0x80 then 0 else 0xFF
    ensures LowBits(SignExtendBits(v) >> 24) == if v < 0x80 then 0 else 0xFF
  {
  }

  /** The Java expression `hi << 8 | lo` where `hi` and `lo` are `byte`
      values: both operands are widened to `int` before the shift and the or. */
  function ShiftOr(hi: Byte, lo: Byte): bv32 {
    BitsShiftOr(Bits(hi), Bits(lo))
  }

  /** The closed form of `hi << 8 | lo` on bytes: when `lo` has its top bit set,
      its sign extension covers every bit of `hi` and only `lo` survives. */
  function ShiftOrValue(hi: Byte, lo: Byte): (r: int)
    ensures -0x8000 <= r <= 0x7FFF
    ensures lo >= 0x80 ==> -128 <= r < 0
  {
    if lo < 0x80 then Signed(hi) * 0x100 + lo else lo - 0x100
  }

  function BitsShiftOr(h: bv8, l: bv8): bv32 {
    (SignExtendBits(h) << 8) | SignExtendBits(l)
  }

  lemma ShiftOrByte0(h: bv8, l: bv8)
    ensures LowBits(BitsShiftOr(h, l)) == l
  {
  }

  lemma ShiftOrByte1(h: bv8, l: bv8)
    ensures LowBits(BitsShiftOr(h, l) >> 8) == if l < 0x80 then h else 0xFF
  {
  }

  lemma ShiftOrByte2(h: bv8, l: bv8)
    ensures LowBits(BitsShiftOr(h, l) >> 16) == if l < 0x80 && h < 0x80 then 0 else 0xFF
  {
  }

  lemma ShiftOrByte3(h: bv8, l: bv8)
    ensures LowBits(BitsShiftOr(h, l) >> 24) == if l < 0x80 && h < 0x80 then 0 else 0xFF
  {
  }

  lemma ShiftOrLow0(hi: Byte, lo: Byte)
    ensures Low8(ShiftOr(hi, lo)) == lo
  {
    ShiftOrByte0(Bits(hi), Bits(lo));
  }

  lemma ShiftOrLow1(hi: Byte, lo: Byte)
    ensures Low8(ShiftOr(hi, lo) >> 8) == if lo < 0x80 then hi else 0xFF
  {
    ShiftOrByte1(Bits(hi), Bits(lo));
    BitsSign(Bits(lo));
  }

  lemma ShiftOrLow2(hi: Byte, lo: Byte)
    ensures Low8(ShiftOr(hi, lo) >> 16) == if lo < 0x80 && hi < 0x80 then 0 else 0xFF
  {
    ShiftOrByte2(Bits(hi), Bits(lo));
    BitsSign(Bits(hi));
    BitsSign(Bits(lo));
  }

  lemma ShiftOrLow3(hi: Byte, lo: Byte)
    ensures Low8(ShiftOr(hi, lo) >> 24) == if lo < 0x80 && hi < 0x80 then 0 else 0xFF
  {
    ShiftOrByte3(Bits(hi), Bits(lo));
    BitsSign(Bits(hi));
    BitsSign(Bits(lo));
  }

  /** The 32-bit result of `hi << 8 | lo` holds exactly the closed-form value. */
  lemma ShiftOrIsClosedForm(hi: Byte, lo: Byte)
    ensures ToInt(ShiftOr(hi, lo)) == ShiftOrValue(hi, lo)
  {
    ShiftOrLow0(hi, lo);
    ShiftOrLow1(hi, lo);
    ShiftOrLow2(hi, lo);
    ShiftOrLow3(hi, lo);
  }

  /** Java's integer division `/`: the quotient rounded toward zero. */
  function Quot(a: int, n: int): int
    requires n != 0
  {
    var q := (if a < 0 then -a else a) / (if n < 0 then -n else n);
    if (a < 0) == (n < 0) then q else -q
  }

  /** Java's remainder `%` (section 15.17.3 of the Java Language Specification):
      `a == Quot(a, n) * n + r`, the remainder takes the sign of the dividend
      and is smaller in magnitude than the divisor. */
  function Rem(a: int, n: int): (r: int)
    requires n != 0
    ensures a == Quot(a, n) * n + r
    ensures a >= 0 ==> 0 <= r
    ensures a < 0 ==> r <= 0
    ensures n > 0 ==> -n < r < n
    ensures n < 0 ==> n < r < -n
  {
    a - Quot(a, n) * n
  }

  /** For a positive divisor, correcting a negative Java remainder by adding the
      divisor gives Dafny's (Euclidean) `%`. */
  lemma RemCorrectedIsMod(a: int, n: int)
    requires n > 0
    ensures (if Rem(a, n) < 0 then Rem(a, n) + n else Rem(a, n)) == a % n
  {
    var r := Rem(a, n);
    var q := Quot(a, n);
    if r < 0 {
      assert a == (q - 1) * n + (r + n);
      EuclideanUnique(a, n, q - 1, r + n);
    } else {
      EuclideanUnique(a, n, q, r);
    }
  }

  /** Dafny's `%` is the unique remainder in [0, n). */
  lemma EuclideanUnique(a: int, n: int, q: int, r: int)
    requires n > 0 && 0 <= r < n && a == q * n + r
    ensures a % n == r
  {
    var k := q - a / n;
    assert k * n == a % n - r;
    if k > 0 {
      MulAtLeast(k, n);
    } else if k < 0 {
      MulAtLeast(-k, n);
    }
  }

  lemma MulAtLeast(k: int, n: int)
    requires k >= 1 && n > 0
    ensures k * n >= n
  {
    assert k * n == (k - 1) * n + n;
  }
}
