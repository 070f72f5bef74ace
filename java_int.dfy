/**
 * Java `int` and `long` semantics the loader relies on: decimal parsing as
 * Integer.parseInt / Long.parseLong do it, the narrowing `(int)` cast, and the
 * 32-bit two's complement `|` and `<<` used to assemble a tile id from bytes.
 * Integers here are unbounded, so every wrap-around is written out.
 */
module JavaInt {
  import opened Results

  const TWO31: int := 0x8000_0000
  const TWO32: int := 0x1_0000_0000
  const TWO63: int := 0x8000_0000_0000_0000

  predicate IsInt32(v: int) { -TWO31 <= v < TWO31 }
  predicate IsInt64(v: int) { -TWO63 <= v < TWO63 }

  // ---------------------------------------------------------------------------
  // Decimal text

  predicate IsDigit(c: char) { '0' <= c <= '9' }

  predicate AllDigits(s: string) { forall i :: 0 <= i < |s| ==> IsDigit(s[i]) }

  /** Value of a run of decimal digits, most significant first. */
  function DigitsValue(s: string): nat
    requires AllDigits(s)
  {
    if s == [] then 0
    else DigitsValue(s[..|s| - 1]) * 10 + (s[|s| - 1] as int - '0' as int)
  }

  /**
   * Java's parse of a signed decimal: an optional leading '-' or '+', at least
   * one digit, and a value inside [lo, hi]; anything else is rejected
   * (NumberFormatException). Only ASCII digits are modelled.
   */
  function ParseDecimal(s: string, lo: int, hi: int): (r: Option<int>)
    ensures r.Some? ==> lo <= r.value <= hi
    ensures r.Some? ==> |s| > 0 && (IsDigit(s[0]) || s[0] == '-' || s[0] == '+')
  {
    if |s| == 0 then None
    else
      var signed := s[0] == '-' || s[0] == '+';
      var digits := if signed then s[1..] else s;
      if |digits| == 0 || !AllDigits(digits) then None
      else
        var v: int := if s[0] == '-' then -(DigitsValue(digits) as int) else DigitsValue(digits);
        if lo <= v <= hi then Some(v) else None
  }

  /** Integer.parseInt. */
  function ParseInt(s: string): (r: Option<int>)
    ensures r.Some? ==> IsInt32(r.value)
  {
    ParseDecimal(s, -TWO31, TWO31 - 1)
  }

  /** Long.parseLong. */
  function ParseLong(s: string): (r: Option<int>)
    ensures r.Some? ==> IsInt64(r.value)
  {
    ParseDecimal(s, -TWO63, TWO63 - 1)
  }

  /** Digits of a natural number, most significant first, no leading zeros. */
  function Digits(n: nat): string
  {
    if n < 10 then ['0' + n as char] else Digits(n / 10) + ['0' + (n % 10) as char]
  }

  /** Integer.toString: the form a writer of the map format puts in the file. */
  function FormatInt(n: int): string
  {
    if n < 0 then "-" + Digits(-n) else Digits(n)
  }

  lemma {:induction false} DigitsRoundTrip(n: nat)
    ensures |Digits(n)| > 0 && AllDigits(Digits(n))
    ensures DigitsValue(Digits(n)) == n
  {
    if n >= 10 {
      DigitsRoundTrip(n / 10);
      var s := Digits(n);
      assert s[..|s| - 1] == Digits(n / 10);
    }
  }

  /** A value inside the bounds survives being written in decimal and parsed back. */
  lemma ParseDecimalFormatInt(n: int, lo: int, hi: int)
    requires lo <= n <= hi
    ensures ParseDecimal(FormatInt(n), lo, hi) == Some(n)
  {
    var m := if n < 0 then -n else n;
    DigitsRoundTrip(m);
    var s := FormatInt(n);
    if n < 0 {
      assert s[1..] == Digits(m);
    } else {
      assert IsDigit(s[0]);
    }
  }

  /** Every 32-bit value survives being written in decimal and parsed back. */
  lemma ParseIntFormatInt(n: int)
    requires IsInt32(n)
    ensures ParseInt(FormatInt(n)) == Some(n)
  {
    ParseDecimalFormatInt(n, -TWO31, TWO31 - 1);
  }

  /** Every 64-bit value survives being written in decimal and parsed back. */
  lemma ParseLongFormatInt(n: int)
    requires IsInt64(n)
    ensures ParseLong(FormatInt(n)) == Some(n)
  {
    ParseDecimalFormatInt(n, -TWO63, TWO63 - 1);
  }

  /**
   * Long.parseLong reads the same value as Integer.parseInt wherever the
   * latter succeeds, and fails on an int-sized text only where it does too.
   */
  lemma ParseLongWidensParseInt(s: string)
    ensures ParseInt(s).Some? ==> ParseLong(s) == ParseInt(s)
    ensures ParseLong(s).Some? && IsInt32(ParseLong(s).value) ==> ParseInt(s) == ParseLong(s)
  {
  }

  /** A formatted number has no character a CSV splitter or trimmer touches. */
  lemma FormatIntShape(n: int)
    ensures |FormatInt(n)| > 0
    ensures forall i :: 0 <= i < |FormatInt(n)| ==> IsDigit(FormatInt(n)[i]) || FormatInt(n)[i] == '-'
    ensures IsDigit(FormatInt(n)[|FormatInt(n)| - 1])
  {
    var m := if n < 0 then -n else n;
    DigitsRoundTrip(m);
  }

  // ---------------------------------------------------------------------------
  // Narrowing

  /** The `(int)` cast of a long: keep the low 32 bits, read them as signed. */
  function Wrap32(v: int): (r: int)
    ensures IsInt32(r)
    ensures (v - r) % TWO32 == 0
    ensures IsInt32(v) ==> r == v
  {
    (v + TWO31) % TWO32 - TWO31
  }

  // ---------------------------------------------------------------------------
  // Bit patterns

  function Pow2(k: nat): (r: nat)
    ensures r >= 1
  {
    if k == 0 then 1 else 2 * Pow2(k - 1)
  }

  /** The 32-bit pattern of a Java int, as an unsigned number. */
  function Unsigned32(a: int): (u: nat)
    ensures u < TWO32
    ensures IsInt32(a) && a >= 0 ==> u == a
  {
    a % TWO32
  }

  /** The Java int whose bit pattern is `u`. */
  function Signed32(u: nat): (a: int)
    requires u < TWO32
    ensures IsInt32(a)
    ensures a < 0 <==> u >= TWO31
  {
    if u < TWO31 then u else u - TWO32
  }

  /** Bitwise or of the low `n` bits of two naturals, bit by bit. */
  function BitOr(x: nat, y: nat, n: nat): (r: nat)
    ensures r < Pow2(n)
  {
    if n == 0 then 0
    else 2 * BitOr(x / 2, y / 2, n - 1) + (if x % 2 == 1 || y % 2 == 1 then 1 else 0)
  }

  /** Java's `a | b` on int. */
  function Or32(a: int, b: int): int
  {
    Pow2Values();
    Signed32(BitOr(Unsigned32(a), Unsigned32(b), 32))
  }

  /** Java's `a << s` on int, for a shift distance below 32. */
  function Shl32(a: int, s: nat): int
    requires s < 32
  {
    Signed32(Unsigned32(a) * Pow2(s) % TWO32)
  }

  lemma {:induction false} BitOrZero(x: nat, n: nat)
    requires x < Pow2(n)
    ensures BitOr(x, 0, n) == x && BitOr(0, x, n) == x
  {
    if n > 0 {
      BitOrZero(x / 2, n - 1);
    }
  }

  /** Or-ing a value into bits that are all clear is addition. */
  lemma {:induction false} BitOrDisjoint(x: nat, y: nat, k: nat, n: nat)
    requires k <= n && x < Pow2(k) && y * Pow2(k) < Pow2(n)
    ensures BitOr(x, y * Pow2(k), n) == x + y * Pow2(k)
  {
    if k == 0 {
      assert x == 0 && y * Pow2(k) == y;
      BitOrZero(y, n);
    } else {
      var p := Pow2(k - 1);
      var h := y * p;
      assert y * Pow2(k) == 2 * h by { MulTwo(y, p); }
      assert h < Pow2(n - 1);
      assert x / 2 < p;
      BitOrDisjoint(x / 2, y, k - 1, n - 1);
      assert (2 * h) / 2 == h && (2 * h) % 2 == 0;
    }
  }

  lemma MulTwo(y: nat, p: nat)
    ensures y * (2 * p) == 2 * (y * p)
  {
  }

  /** A set top bit stays set in the result of an or. */
  lemma {:induction false} BitOrTopBit(x: nat, y: nat, n: nat)
    requires n >= 1 && x < Pow2(n) && Pow2(n - 1) <= y < Pow2(n)
    ensures BitOr(x, y, n) >= Pow2(n - 1)
  {
    if n > 1 {
      BitOrTopBit(x / 2, y / 2, n - 1);
    }
  }

  lemma Pow2Values()
    ensures Pow2(8) == 0x100 && Pow2(16) == 0x1_0000 && Pow2(24) == 0x100_0000
    ensures Pow2(31) == TWO31 && Pow2(32) == TWO32
  {
    assert Pow2(8) == 0x100;
    assert Pow2(16) == 0x100 * 0x100 by { Pow2Add(8, 8); }
    assert Pow2(24) == 0x1_0000 * 0x100 by { Pow2Add(16, 8); }
    assert Pow2(31) == 0x100_0000 * 0x80 by { Pow2Add(24, 7); }
  }

  lemma {:induction false} Pow2Add(a: nat, b: nat)
    ensures Pow2(a + b) == Pow2(a) * Pow2(b)
  {
    if b > 0 {
      Pow2Add(a, b - 1);
    }
  }

  // ---------------------------------------------------------------------------
  // Four bytes, least significant first

  /** What `InputStream.read()` hands back: a byte 0..255, or -1 at end of stream. */
  predicate IsReadResult(r: int) { -1 <= r <= 255 }

  /**
   * The tile id built by `tileId = 0; tileId |= r0; tileId |= r1 << 8;
   * tileId |= r2 << 16; tileId |= r3 << 24` on Java ints.
   */
  function AssembleWord(r0: int, r1: int, r2: int, r3: int): int
  {
    Or32(Or32(Or32(Or32(0, r0), Shl32(r1, 8)), Shl32(r2, 16)), Shl32(r3, 24))
  }

  lemma UnsignedSigned(u: nat)
    requires u < TWO32
    ensures Unsigned32(Signed32(u)) == u
  {
  }

  /** `b << s` for a byte `b`: the byte moved up by `s` bits, as a bit pattern. */
  lemma ShiftByte(b: int, s: nat)
    requires 0 <= b < 256 && (s == 8 || s == 16 || s == 24)
    ensures b * Pow2(s) < TWO32
    ensures Unsigned32(Shl32(b, s)) == b * Pow2(s)
  {
    Pow2Values();
    var p := Pow2(s);
    assert b * p <= 255 * p by { MulMonotone(b, 255, p); }
    var x := b * p;
    assert Unsigned32(b) * p == x;
    assert x % TWO32 == x;
    UnsignedSigned(x);
  }

  lemma MulMonotone(a: nat, b: nat, p: nat)
    requires a <= b
    ensures a * p <= b * p
  {
  }

  /** One `acc |= b << s` step while the bits from `s` up are still clear. */
  lemma OrByteStep(w: nat, b: int, s: nat, y: nat)
    requires (s == 8 || s == 16 || s == 24) && w < Pow2(s) && 0 <= b < 256
    requires y == b * Pow2(s)
    ensures w + y < TWO32
    ensures Or32(Signed32(w), Shl32(b, s)) == Signed32(w + y)
  {
    Pow2Values();
    ShiftByte(b, s);
    UnsignedSigned(w);
    BitOrDisjoint(w, b, s, 32);
  }

  /** The first step, `0 | b`, of a byte. */
  lemma OrZero(b: int)
    requires 0 <= b < 256
    ensures Or32(0, b) == Signed32(b)
  {
    Pow2Values();
    BitOrZero(b, 32);
  }

  /** `OrByteStep` at the three shifts the loader uses, with the multiplier written out. */
  lemma OrByteAt(w: nat, b: int, s: nat, m: nat)
    requires (s == 8 && m == 0x100) || (s == 16 && m == 0x1_0000) || (s == 24 && m == 0x100_0000)
    requires w < m && 0 <= b < 256
    ensures w + m * b < TWO32
    ensures Or32(Signed32(w), Shl32(b, s)) == Signed32(w + m * b)
  {
    Pow2Values();
    assert Pow2(s) == m;
    OrByteStep(w, b, s, b * m);
  }

  /** Four real bytes give their little-endian value, read as a signed int. */
  lemma AssembleBytes(b0: int, b1: int, b2: int, b3: int)
    requires 0 <= b0 < 256 && 0 <= b1 < 256 && 0 <= b2 < 256 && 0 <= b3 < 256
    ensures AssembleWord(b0, b1, b2, b3)
         == Signed32(b0 + 0x100 * b1 + 0x1_0000 * b2 + 0x100_0000 * b3)
  {
    var w1 := b0 + 0x100 * b1;
    var w2 := w1 + 0x1_0000 * b2;
    OrZero(b0);
    var a0 := Or32(0, b0);
    OrByteAt(b0, b1, 8, 0x100);
    var a1 := Or32(a0, Shl32(b1, 8));
    assert a1 == Signed32(w1);
    OrByteAt(w1, b2, 16, 0x1_0000);
    var a2 := Or32(a1, Shl32(b2, 16));
    assert a2 == Signed32(w2);
    OrByteAt(w2, b3, 24, 0x100_0000);
    assert AssembleWord(b0, b1, b2, b3) == Or32(a2, Shl32(b3, 24));
  }

  /** An or with a negative int is negative: the sign bit stays set. */
  lemma OrNegative(a: int, b: int)
    requires b < 0 && IsInt32(b)
    ensures Or32(a, b) < 0
  {
    Pow2Values();
    assert Unsigned32(b) >= TWO31;
    BitOrTopBit(Unsigned32(a), Unsigned32(b), 32);
  }

  /** `-1 << 24` keeps the sign bit. */
  lemma ShiftMinusOne()
    ensures Shl32(-1, 24) < 0
  {
    Pow2Values();
    assert Unsigned32(-1) == TWO32 - 1;
    assert (TWO32 - 1) * 0x100_0000 % TWO32 == TWO32 - 0x100_0000;
  }

  /** When the fourth read already hit end of stream, the id comes out negative. */
  lemma AssembleTruncated(r0: int, r1: int, r2: int)
    ensures AssembleWord(r0, r1, r2, -1) < 0
  {
    ShiftMinusOne();
    OrNegative(Or32(Or32(Or32(0, r0), Shl32(r1, 8)), Shl32(r2, 16)), Shl32(-1, 24));
  }

  /** Byte `k` (0 = least significant) of the 32-bit pattern of `g`. */
  function ByteOf(g: int, k: nat): (b: int)
    requires k < 4
    ensures 0 <= b < 256
  {
    Unsigned32(g) / Pow2(8 * k) % 256
  }

  /** A 32-bit pattern is the sum of its four bytes. */
  lemma ByteDecomposition(u: nat)
    requires u < TWO32
    ensures u == u % 0x100 + 0x100 * (u / 0x100 % 0x100) + 0x1_0000 * (u / 0x1_0000 % 0x100)
               + 0x100_0000 * (u / 0x100_0000 % 0x100)
  {
    assert u / 0x1_0000 == u / 0x100 / 0x100;
    assert u / 0x100_0000 == u / 0x1_0000 / 0x100;
    assert u / 0x100_0000 < 0x100;
  }

  lemma SignedUnsigned(g: int)
    requires IsInt32(g)
    ensures Signed32(Unsigned32(g)) == g
  {
  }

  /** Writing an int as four little-endian bytes and assembling them gives it back. */
  lemma AssembleRoundTrip(g: int)
    requires IsInt32(g)
    ensures AssembleWord(ByteOf(g, 0), ByteOf(g, 1), ByteOf(g, 2), ByteOf(g, 3)) == g
  {
    Pow2Values();
    var u := Unsigned32(g);
    assert ByteOf(g, 0) == u % 0x100;
    assert ByteOf(g, 1) == u / 0x100 % 0x100;
    assert ByteOf(g, 2) == u / 0x1_0000 % 0x100;
    assert ByteOf(g, 3) == u / 0x100_0000 % 0x100;
    AssembleBytes(ByteOf(g, 0), ByteOf(g, 1), ByteOf(g, 2), ByteOf(g, 3));
    ByteDecomposition(u);
    SignedUnsigned(g);
  }
}
