/** The bit-level remainder of two doubles (IL2C.Runtime/src/Platform/fmod.c). Registers are integers below
    2^64 with explicit wrap-around; masks and ORs of disjoint bit fields are written as arithmetic. */
module Fmod {
  import opened Arithmetic

  const TWO52: nat := 0x10_0000_0000_0000
  const TWO63: nat := 0x8000_0000_0000_0000
  const TWO64: nat := 0x1_0000_0000_0000_0000

  /** A 64-bit register, or the bit pattern of a double in the binary64 format of IEEE 754-2008. */
  type Bits = b: nat | b < TWO64 witness 0

  function Pow2(n: nat): (r: nat)
    ensures r >= 1
  {
    if n == 0 then 1 else 2 * Pow2(n - 1)
  }

  function Shl(b: Bits, n: nat): Bits
    requires n < 64
  {
    b * Pow2(n) % TWO64
  }

  function Shr(b: Bits, n: nat): Bits
    requires n < 64
  {
    ShrBound(b, n);
    b / Pow2(n)
  }

  lemma {:induction false} ShrBound(b: Bits, n: nat)
    ensures 0 <= b / Pow2(n) <= b
  {
    var p := Pow2(n);
    DivBound(b, p);
  }

  lemma DivBound(b: nat, p: nat)
    requires p >= 1
    ensures 0 <= b / p <= b
  {
    assert b == p * (b / p) + b % p;
    if b / p > b {
      MulMonotone(1, p, b / p);
    }
  }

  function Sub(a: Bits, b: Bits): Bits { (a - b) % TWO64 }

  // ---------------------------------------------------------------------------------------------
  // Doubles

  function Sign(b: Bits): nat { b / TWO63 }

  function Exponent(b: Bits): nat { b % TWO63 / TWO52 }

  function Fraction(b: Bits): nat { b % TWO52 }

  predicate IsFinite(b: Bits) { Exponent(b) != 0x7ff }
  predicate IsNaN(b: Bits) { Exponent(b) == 0x7ff && Fraction(b) != 0 }
  predicate IsInfinite(b: Bits) { Exponent(b) == 0x7ff && Fraction(b) == 0 }
  predicate IsZero(b: Bits) { b % TWO63 == 0 }

  function Significand(b: Bits): nat {
    if Exponent(b) == 0 then Fraction(b) else TWO52 + Fraction(b)
  }

  /** Absolute value in units of 2^-1074, the smallest subnormal. */
  function Magnitude(b: Bits): nat {
    Significand(b) * Pow2(if Exponent(b) == 0 then 0 else Exponent(b) - 1)
  }

  function Value(b: Bits): int {
    var m: int := Magnitude(b);
    if Sign(b) == 0 then m else -m
  }

  datatype Double = NaN | Number(bits: Bits)

  // ---------------------------------------------------------------------------------------------
  // Arithmetic

  lemma {:induction false} PowAdd(a: nat, b: nat)
    ensures Pow2(a + b) == Pow2(a) * Pow2(b)
  {
    if a > 0 {
      PowAdd(a - 1, b);
      assert Pow2(a + b) == 2 * Pow2(a - 1 + b);
      assert 2 * (Pow2(a - 1) * Pow2(b)) == (2 * Pow2(a - 1)) * Pow2(b);
    }
  }

  lemma {:induction false} PowMonotone(a: nat, b: nat)
    requires a <= b
    ensures Pow2(a) <= Pow2(b)
  {
    if a < b { PowMonotone(a, b - 1); }
  }

  lemma Powers()
    ensures Pow2(1) == 2 && Pow2(12) == 0x1000 && Pow2(52) == TWO52 && Pow2(53) == 2 * TWO52
    ensures Pow2(63) == TWO63 && Pow2(64) == TWO64 && Pow2(11) == 0x800
  {
    assert Pow2(6) == 64 && Pow2(5) == 32;
    PowAdd(6, 6);
    PowAdd(5, 6);
    PowAdd(12, 12);
    PowAdd(24, 24);
    assert Pow2(4) == 16;
    PowAdd(48, 4);
    PowAdd(52, 11);
  }

  lemma QuotientIsUnique(x: nat, y: nat, q: nat, r: nat)
    requires x == q * y + r && r < y
    ensures x % y == r && x / y == q
  {
    var p, s := x / y, x % y;
    assert x == p * y + s;
    MulGap(p, q, y);
    MulGap(q, p, y);
  }

  lemma ScaledRemainder(a: nat, b: nat, c: nat)
    requires b > 0 && c > 0
    ensures b * c > 0 && (a * c) % (b * c) == (a % b) * c
  {
    MulStrict(0, b, c);
    MulStrict(a % b, b, c);
    assert a == (a / b) * b + a % b;
    assert a * c == ((a / b) * b) * c + (a % b) * c;
    assert ((a / b) * b) * c == (a / b) * (b * c);
    QuotientIsUnique(a * c, b * c, a / b, (a % b) * c);
  }

  lemma Fields(b: Bits)
    ensures Sign(b) <= 1 && Exponent(b) < 0x800 && Fraction(b) < TWO52
    ensures b == Sign(b) * TWO63 + Exponent(b) * TWO52 + Fraction(b)
    ensures b % TWO63 == Exponent(b) * TWO52 + Fraction(b)
  {
  }

  lemma FieldsOf(s: nat, e: nat, f: nat)
    requires s <= 1 && e < 0x800 && f < TWO52
    ensures var b := s * TWO63 + e * TWO52 + f;
            b < TWO64 && Sign(b) == s && Exponent(b) == e && Fraction(b) == f
  {
  }

  // ---------------------------------------------------------------------------------------------
  // Order

  lemma MagnitudeBounds(b: Bits)
    ensures Exponent(b) > 0 ==> TWO52 * Pow2(Exponent(b) - 1) <= Magnitude(b)
    ensures Magnitude(b) < TWO52 * Pow2(Exponent(b))
  {
    Fields(b);
    if Exponent(b) > 0 {
      var p := Pow2(Exponent(b) - 1);
      MulMonotone(TWO52, Significand(b), p);
      MulStrict(Significand(b), 2 * TWO52, p);
      assert 2 * TWO52 * p == TWO52 * Pow2(Exponent(b));
    }
  }

  /** The order of magnitudes is the order of the bit patterns without sign. */
  lemma MagnitudeMonotone(a: Bits, b: Bits)
    requires a % TWO63 < b % TWO63
    ensures Magnitude(a) < Magnitude(b)
  {
    Fields(a);
    Fields(b);
    if Exponent(a) == Exponent(b) {
      MulStrict(Significand(a), Significand(b), Pow2(if Exponent(b) == 0 then 0 else Exponent(b) - 1));
    } else {
      assert Exponent(a) < Exponent(b);
      MagnitudeBounds(a);
      MagnitudeBounds(b);
      PowMonotone(Exponent(a), Exponent(b) - 1);
      MulMonotone(Pow2(Exponent(a)), Pow2(Exponent(b) - 1), TWO52);
    }
  }

  /** A double is determined by its sign and its magnitude. */
  lemma BitsAreDetermined(a: Bits, b: Bits)
    requires Sign(a) == Sign(b) && Magnitude(a) == Magnitude(b)
    ensures a == b
  {
    if a % TWO63 < b % TWO63 { MagnitudeMonotone(a, b); }
    if b % TWO63 < a % TWO63 { MagnitudeMonotone(b, a); }
    Fields(a);
    Fields(b);
  }

  lemma ShlOne(b: Bits)
    ensures Shl(b, 1) == 2 * (b % TWO63)
  {
    assert Pow2(1) == 2;
  }

  // ---------------------------------------------------------------------------------------------
  // Normalization

  /** Significand times 2^exponent, in units of 2^-1126. */
  function Scaled(u: nat, e: int): (r: nat)
    requires e >= -51
    ensures u > 0 ==> r > 0
  {
    if u > 0 then MulStrict(0, u, Pow2(e + 51)); u * Pow2(e + 51) else 0
  }

  /** Moves the top bit of the significand to bit 52, subnormals included. */
  method Normalize(b: Bits) returns (significand: Bits, exponent: int)
    requires IsFinite(b) && !IsZero(b)
    ensures TWO52 <= significand < 2 * TWO52 && -51 <= exponent <= 0x7fe
    ensures Scaled(significand, exponent) == Magnitude(b) * TWO52
  {
    hide Pow2, Shl, Shr, Scaled, Magnitude;
    Fields(b);
    exponent := Exponent(b);
    if exponent == 0 {
      SubnormalStarts(b);
      var i: Bits := Shl(b, 12);
      while Shr(i, 63) == 0
        invariant -51 <= exponent <= 0 && i > 0
        invariant i == Fraction(b) * Pow2(12 - exponent)
        decreases TWO64 - i
      {
        SubnormalStep(Fraction(b), exponent, i);
        exponent := exponent - 1;
        i := Shl(i, 1);
      }
      SubnormalEnds(b, exponent, i);
      significand := Shl(b, -exponent + 1);
    } else {
      NormalScaled(b);
      significand := b % TWO52 + TWO52;
    }
  }

  lemma NormalScaled(b: Bits)
    requires Exponent(b) > 0
    ensures Scaled(TWO52 + Fraction(b), Exponent(b)) == Magnitude(b) * TWO52
  {
    var e, u := Exponent(b), Significand(b);
    Powers();
    PowAdd(e - 1, 52);
    Regroup(u, Pow2(e - 1), TWO52);
  }

  lemma TopBit(i: Bits)
    ensures Shr(i, 63) == 0 <==> i < TWO63
  {
    Powers();
  }

  lemma SubnormalStarts(b: Bits)
    requires Exponent(b) == 0 && !IsZero(b)
    ensures Shl(b, 12) == Fraction(b) * Pow2(12) && Fraction(b) > 0
  {
    Fields(b);
    Powers();
    ShlFraction(b, 12);
  }

  lemma SubnormalStep(f: nat, e: int, i: Bits)
    requires e <= 0 && i == f * Pow2(12 - e) && i > 0 && Shr(i, 63) == 0
    ensures Shl(i, 1) == 2 * i == f * Pow2(12 - (e - 1)) && e > -51
  {
    TopBit(i);
    ShlOne(i);
    StepBound(f, 12 - e, i);
    Regroup(f, 2, Pow2(12 - e));
    Regroup(2, f, Pow2(12 - e));
  }

  lemma SubnormalEnds(b: Bits, e: int, i: Bits)
    requires Exponent(b) == 0 && -51 <= e <= 0 && i == Fraction(b) * Pow2(12 - e) && Shr(i, 63) != 0
    ensures TWO52 <= Shl(b, -e + 1) < 2 * TWO52
    ensures Scaled(Shl(b, -e + 1), e) == Magnitude(b) * TWO52
  {
    hide Shl, Shr;
    var f := Fraction(b);
    TopBit(i);
    Powers();
    PowAdd(11, 1 - e);
    Regroup(f, 0x800, Pow2(1 - e));
    Regroup(0x800, f, Pow2(1 - e));
    assert i == 0x800 * (f * Pow2(1 - e));
    ShlFraction(b, 1 - e);
    PowAdd(1 - e, e + 51);
    Regroup(f, Pow2(1 - e), Pow2(e + 51));
  }

  /** A subnormal shifted left loses its sign and keeps its fraction as long as that fits. */
  lemma {:induction false} ShlFraction(b: Bits, n: nat)
    requires Exponent(b) == 0 && 1 <= n < 64 && Fraction(b) * Pow2(n) < TWO64
    ensures Shl(b, n) == Fraction(b) * Pow2(n)
  {
    Fields(b);
    var f, s := Fraction(b), Sign(b);
    assert Pow2(n) == 2 * Pow2(n - 1);
    assert b * Pow2(n) == (s * TWO63 + f) * Pow2(n) == s * TWO63 * Pow2(n) + f * Pow2(n);
    assert s * TWO63 * (2 * Pow2(n - 1)) == (s * Pow2(n - 1)) * TWO64;
    QuotientIsUnique(b * Pow2(n), TWO64, s * Pow2(n - 1), f * Pow2(n));
  }

  lemma {:induction false} StepBound(f: nat, n: nat, i: nat)
    requires f > 0 && i == f * Pow2(n) && i < TWO63
    ensures n < 63
  {
    if n >= 63 {
      Powers();
      PowMonotone(63, n);
      MulMonotone(1, f, Pow2(n));
    }
  }

  // ---------------------------------------------------------------------------------------------
  // Reduction

  /** The sign bit of a difference of two small registers tells which one is smaller. */
  lemma Difference(a: Bits, b: Bits)
    requires a < TWO63 && b < TWO63
    ensures Shr(Sub(a, b), 63) == 0 <==> a >= b
    ensures a >= b ==> Sub(a, b) == a - b
  {
    TopBit(Sub(a, b));
    if a < b { assert Sub(a, b) == a - b + TWO64; }
  }

  lemma ScaledDouble(u: nat, e: int)
    requires e > -51
    ensures Scaled(u, e) == Scaled(2 * u, e - 1)
  {
    if u > 0 {
      Regroup(u, 2, Pow2(e + 50));
      Regroup(2, u, Pow2(e + 50));
    }
  }

  lemma ScaledLess(u: nat, v: nat, e: int)
    requires e >= -51 && u < v
    ensures Scaled(u, e) < Scaled(v, e)
  {
    MulStrict(u, v, Pow2(e + 51));
  }

  lemma ScaledSplit(u: nat, v: nat, e: int)
    requires e >= -51 && v <= u
    ensures Scaled(u, e) == Scaled(u - v, e) + Scaled(v, e)
  {
    var p := Pow2(e + 51);
    assert u * p == (u - v) * p + v * p;
  }

  lemma {:induction false} ScaledShift(v: nat, e: int, ey: int)
    requires e >= ey >= -51
    ensures Scaled(v, e) == Pow2(e - ey) * Scaled(v, ey)
  {
    PowAdd(e - ey, ey + 51);
    Regroup(v, Pow2(e - ey), Pow2(ey + 51));
    Regroup(Pow2(e - ey), v, Pow2(ey + 51));
    if v == 0 { assert Pow2(e - ey) * 0 == 0; }
  }

  /** One subtraction takes a multiple of the divisor away. */
  lemma {:induction false} Subtracted(x: nat, q: nat, u: nat, e: int, v: nat, ey: int)
    requires e >= ey >= -51 && v <= u && x == q * Scaled(v, ey) + Scaled(u, e)
    ensures x == (q + Pow2(e - ey)) * Scaled(v, ey) + Scaled(u - v, e)
  {
    hide Scaled, Pow2;
    ScaledSplit(u, v, e);
    ScaledShift(v, e, ey);
    Distribute(q, Pow2(e - ey), Scaled(v, ey));
  }

  /** The dividend is q times the divisor and a scaled rest. */
  ghost predicate Splits(dividend: nat, q: nat, divisor: nat, rest: nat) {
    dividend == q * divisor + rest
  }

  /** One subtraction of the loop, and what it means if nothing is left. */
  lemma {:induction false} TakeAway(dividend: nat, q: nat, u: nat, e: int, v: nat, ey: int)
    requires e >= ey >= -51 && 0 < v <= u && Splits(dividend, q, Scaled(v, ey), Scaled(u, e))
    ensures Splits(dividend, q + Pow2(e - ey), Scaled(v, ey), Scaled(u - v, e))
    ensures u == v ==> dividend % Scaled(v, ey) == 0
  {
    hide Scaled, Pow2;
    Subtracted(dividend, q, u, e, v, ey);
    ScaledZero(e);
    if u == v { QuotientIsUnique(dividend, Scaled(v, ey), q + Pow2(e - ey), 0); }
  }

  /** What is left at the end is the remainder. */
  lemma RestIsRemainder(dividend: nat, q: nat, u: nat, v: nat, e: int)
    requires e >= -51 && 0 < u < v && Splits(dividend, q, Scaled(v, e), Scaled(u, e))
    ensures dividend % Scaled(v, e) == Scaled(u, e) > 0
  {
    hide Pow2;
    ScaledLess(u, v, e);
    QuotientIsUnique(dividend, Scaled(v, e), q, Scaled(u, e));
  }

  /** The shift-and-subtract loop: an exact remainder of the scaled magnitudes. */
  method Reduce(x: Bits, xExponent: int, y: Bits, yExponent: int) returns (zero: bool, r: Bits)
    requires TWO52 <= x < 2 * TWO52 && TWO52 <= y < 2 * TWO52
    requires xExponent >= yExponent >= -51
    ensures zero <==> Scaled(x, xExponent) % Scaled(y, yExponent) == 0
    ensures !zero ==> 0 < r < y && Scaled(r, yExponent) == Scaled(x, xExponent) % Scaled(y, yExponent)
  {
    hide Scaled, Shr, Sub, Shl, Pow2, Splits;
    ghost var divisor, dividend := Scaled(y, yExponent), Scaled(x, xExponent);
    var u: Bits, e := x, xExponent;
    ghost var q: nat := 0;
    StartsSplit(dividend, divisor);
    while e > yExponent
      invariant e >= yExponent && 0 < u < 2 * y
      invariant Splits(dividend, q, divisor, Scaled(u, e))
    {
      Difference(u, y);
      var i := Sub(u, y);
      if Shr(i, 63) == 0 {
        TakeAway(dividend, q, u, e, y, yExponent);
        q := q + Pow2(e - yExponent);
        if i == 0 {
          return true, 0;
        }
        u := i;
      }
      ScaledDouble(u, e);
      ShlOne(u);
      u := Shl(u, 1);
      e := e - 1;
    }
    Difference(u, y);
    var i := Sub(u, y);
    if Shr(i, 63) == 0 {
      TakeAway(dividend, q, u, e, y, yExponent);
      q := q + Pow2(e - yExponent);
      if i == 0 {
        return true, 0;
      }
      u := i;
    }
    RestIsRemainder(dividend, q, u, y, e);
    return false, u;
  }

  lemma StartsSplit(dividend: nat, divisor: nat)
    ensures Splits(dividend, 0, divisor, dividend)
  {
  }

  lemma ScaledZero(e: int)
    requires e >= -51
    ensures Scaled(0, e) == 0
  {
  }

  // ---------------------------------------------------------------------------------------------
  // Renormalization

  /** A multiple of the smallest subnormal never needs an exponent below -51. */
  lemma ScaleStep(u: nat, e: int, m: nat)
    requires 0 < u < TWO52 && e >= -51 && Scaled(u, e) == m * TWO52
    ensures e > -51
  {
    ScaledLowest(u);
    MulGap(0, m, TWO52);
  }

  lemma ScaledLowest(u: nat)
    ensures Scaled(u, -51) == u
  {
    assert Pow2(0) == 1;
  }

  lemma Cancel(a: nat, b: nat, p: nat)
    requires p > 0 && a * p == b * p
    ensures a == b
  {
    MulGap(a, b, p);
    MulGap(b, a, p);
  }

  /** The significand of a subnormal result ends in zeros where the shift cuts it off. */
  lemma {:induction false} ShiftedOut(u: nat, e: int, m: nat)
    requires u > 0 && -51 <= e <= 0 && Scaled(u, e) == m * TWO52
    ensures u == m * Pow2(1 - e)
  {
    hide Pow2;
    Powers();
    PowAdd(1 - e, e + 51);
    Regroup(m, Pow2(1 - e), Pow2(e + 51));
    Cancel(u, m * Pow2(1 - e), Pow2(e + 51));
  }

  /** The right shift into the subnormals drops no set bit. */
  lemma {:induction false} ScaleSubnormal(u: Bits, e: int, m: nat)
    requires TWO52 <= u < 2 * TWO52 && -51 <= e <= 0 && Scaled(u, e) == m * TWO52
    ensures Shr(u, -e + 1) == m && m < TWO52 && u == m * Pow2(-e + 1)
  {
    hide Scaled;
    var d := Pow2(1 - e);
    ShiftedOut(u, e, m);
    QuotientIsUnique(u, d, m, 0);
    assert d == 2 * Pow2(-e);
    MulMonotone(2, d, m);
  }

  lemma ScaleNormal(u: Bits, e: int, m: nat, z: Bits)
    requires TWO52 <= u < 2 * TWO52 && e > 0 && Scaled(u, e) == m * TWO52
    requires Exponent(z) == e && Fraction(z) == u - TWO52
    ensures Magnitude(z) == m
  {
    Powers();
    PowAdd(e - 1, 52);
    Regroup(u, Pow2(e - 1), TWO52);
    assert Magnitude(z) * TWO52 == m * TWO52;
  }

  /** Packs a significand, an exponent and a sign into the double with that magnitude. */
  method Scale(significand: Bits, exponent: int, sign: nat, ghost m: nat) returns (z: Bits)
    requires 0 < significand < 2 * TWO52 && -51 <= exponent < 0x7ff && sign <= 1
    requires Scaled(significand, exponent) == m * TWO52
    ensures IsFinite(z) && Sign(z) == sign && Magnitude(z) == m
  {
    hide Scaled, Shr, Shl, Pow2, Magnitude;
    var u: Bits, e := significand, exponent;
    while Shr(u, 52) == 0
      invariant 0 < u < 2 * TWO52 && -51 <= e < 0x7ff
      invariant Scaled(u, e) == m * TWO52
      decreases 2 * TWO52 - u
    {
      Bit52(u);
      ScaleStep(u, e, m);
      ScaledDouble(u, e);
      ShlOne(u);
      u := Shl(u, 1);
      e := e - 1;
    }
    Bit52(u);
    if e > 0 {
      FieldsOf(sign, e, u - TWO52);
      z := sign * TWO63 + e * TWO52 + (u - TWO52);
      ScaleNormal(u, e, m, z);
    } else {
      ScaleSubnormal(u, e, m);
      FieldsOf(sign, 0, m);
      z := sign * TWO63 + Shr(u, -e + 1);
      MagnitudeOfSubnormal(z);
    }
  }

  lemma Bit52(u: Bits)
    requires u < 2 * TWO52
    ensures Shr(u, 52) == 0 <==> u < TWO52
  {
    Powers();
  }

  lemma MagnitudeOfSubnormal(z: Bits)
    requires Exponent(z) == 0
    ensures Magnitude(z) == Fraction(z)
  {
  }

  // ---------------------------------------------------------------------------------------------
  // The whole function

  /** What the function computes for every pair of bit patterns. */
  ghost predicate Computes(x: Bits, y: Bits, r: Double) {
    if IsZero(y) || !IsFinite(x) then r == NaN
    else if !IsFinite(y) then r == Number(x)
    else
      && Magnitude(y) > 0
      && r.Number? && IsFinite(r.bits) && Sign(r.bits) == Sign(x) && Magnitude(r.bits) == Magnitude(x) % Magnitude(y)
  }

  lemma PositiveMagnitude(b: Bits)
    requires !IsZero(b)
    ensures Magnitude(b) > 0
  {
    MagnitudeMonotone(0, b);
  }

  lemma SmallDividend(x: Bits, y: Bits)
    requires IsFinite(x) && IsFinite(y) && !IsZero(y) && x % TWO63 < y % TWO63
    ensures Computes(x, y, Number(x))
  {
    hide Magnitude;
    MagnitudeMonotone(x, y);
    QuotientIsUnique(Magnitude(x), Magnitude(y), 0, Magnitude(x));
  }

  /** Zero times x: a zero with the sign of x. */
  function ZeroLike(x: Bits): (z: Bits)
    ensures IsFinite(z) && Sign(z) == Sign(x) && Magnitude(z) == 0
  {
    Fields(x);
    FieldsOf(Sign(x), 0, 0);
    Sign(x) * TWO63
  }

  lemma EqualOperands(x: Bits, y: Bits)
    requires IsFinite(x) && IsFinite(y) && !IsZero(y) && x % TWO63 == y % TWO63
    ensures Computes(x, y, Number(ZeroLike(x)))
  {
    hide Magnitude;
    PositiveMagnitude(y);
    MagnitudeWithoutSign(x, y);
    QuotientIsUnique(Magnitude(x), Magnitude(y), 1, 0);
  }

  lemma MagnitudeWithoutSign(x: Bits, y: Bits)
    requires x % TWO63 == y % TWO63
    ensures Magnitude(x) == Magnitude(y)
  {
    Fields(x);
    Fields(y);
  }

  /** A larger magnitude has at least the exponent of a smaller one. */
  lemma ExponentsOrdered(u: nat, e: int, v: nat, ey: int)
    requires TWO52 <= u < 2 * TWO52 && TWO52 <= v < 2 * TWO52 && e >= -51 && ey >= -51 && Scaled(u, e) > Scaled(v, ey)
    ensures e >= ey
  {
    if e < ey {
      MulMonotone(u, 2 * TWO52, Pow2(e + 51));
      assert 2 * TWO52 * Pow2(e + 51) == TWO52 * Pow2(e + 52);
      PowMonotone(e + 52, ey + 51);
      MulMonotone(Pow2(e + 52), Pow2(ey + 51), TWO52);
      MulMonotone(TWO52, v, Pow2(ey + 51));
    }
  }

  method Remainder(x: Bits, y: Bits) returns (r: Double)
    ensures Computes(x, y, r)
  {
    hide Pow2, Scaled, Shl, Magnitude, Shr, Sub;
    Fields(x);
    Fields(y);
    if Shl(y, 1) == 0 || Exponent(x) == 0x7ff {
      ShlOne(y);
      return NaN;
    }
    ShlOne(x);
    ShlOne(y);
    if Shl(x, 1) <= Shl(y, 1) {
      if Shl(x, 1) == Shl(y, 1) {
        EqualOperands(x, y);
        return Number(ZeroLike(x));
      }
      if IsFinite(y) { SmallDividend(x, y); }
      return Number(x);
    }
    r := RemainderOfLarger(x, y);
  }

  lemma ScaledZeroIff(x: nat, y: nat)
    requires y > 0
    ensures y * TWO52 > 0 && (x * TWO52) % (y * TWO52) == (x % y) * TWO52
  {
    ScaledRemainder(x, y, TWO52);
  }

  method RemainderOfLarger(x: Bits, y: Bits) returns (r: Double)
    requires IsFinite(x) && IsFinite(y) && !IsZero(y) && x % TWO63 > y % TWO63
    ensures Computes(x, y, r)
  {
    hide Pow2, Scaled, Shl, Magnitude, Shr, Sub;
    PositiveMagnitude(y);
    MagnitudeMonotone(y, x);
    Fields(x);
    var ux, ex := Normalize(x);
    var uy, ey := Normalize(y);
    ScaledZeroIff(Magnitude(x), Magnitude(y));
    ExponentsOrdered(ux, ex, uy, ey);
    var zero, u := Reduce(ux, ex, uy, ey);
    if zero { return Number(ZeroLike(x)); }
    var z := Scale(u, ey, Sign(x), Magnitude(x) % Magnitude(y));
    r := Number(z);
  }

  // ---------------------------------------------------------------------------------------------
  // The C standard

  ghost predicate IsRemainder(z: Bits, x: Bits, y: Bits, n: int) {
    Value(z) == Value(x) - n * Value(y)
  }

  /** The remainder and its special cases, sections 7.12.10.1 and F.9.7.1 of ISO C99. */
  ghost predicate IsFmod(x: Bits, y: Bits, r: Double) {
    if IsNaN(x) || IsNaN(y) || IsInfinite(x) || IsZero(y) then r == NaN
    else if IsInfinite(y) then r == Number(x)
    else
      && r.Number? && IsFinite(r.bits) && Sign(r.bits) == Sign(x) && Magnitude(r.bits) < Magnitude(y)
      && exists n: int :: IsRemainder(r.bits, x, y, n)
  }

  /** The function meets the standard except for a NaN divisor of a finite dividend, where the test is commented out. */
  lemma MeetsStandard(x: Bits, y: Bits, r: Double)
    requires Computes(x, y, r)
    ensures IsFmod(x, y, r) <==> !(IsNaN(y) && IsFinite(x))
  {
    hide Magnitude;
    Fields(x);
    Fields(y);
    if IsFinite(x) && IsFinite(y) && !IsZero(y) {
      var n := Magnitude(x) / Magnitude(y);
      var same := Sign(x) == Sign(y);
      var k: int := if same then n else -n;
      Signed(Magnitude(x), Magnitude(y), Sign(x), Sign(y), r.bits, x, y);
      assert IsRemainder(r.bits, x, y, k);
    }
  }

  lemma Signed(a: nat, b: nat, s: nat, t: nat, z: Bits, x: Bits, y: Bits)
    requires a == Magnitude(x) && b == Magnitude(y) && b > 0 && s == Sign(x) && t == Sign(y)
    requires Sign(z) == Sign(x) && Magnitude(z) == a % b
    ensures IsRemainder(z, x, y, if s == t then a / b else -(a / b))
  {
    hide Magnitude;
    Fields(x);
    Fields(y);
    var n := a / b;
    assert a == n * b + a % b;
    Negated(n, b);
  }

  /** fmod(1.0, NaN) comes out as 1.0. */
  lemma NaNDivisorIsIgnored(r: Double)
    requires Computes(0x3ff0_0000_0000_0000, 0x7ff8_0000_0000_0000, r)
    ensures IsNaN(0x7ff8_0000_0000_0000)
    ensures r == Number(0x3ff0_0000_0000_0000) && !IsFmod(0x3ff0_0000_0000_0000, 0x7ff8_0000_0000_0000, r)
  {
  }

  /** The remainder is the only double that meets the standard. */
  lemma RemainderIsUnique(x: Bits, y: Bits, r: Double, t: Double)
    requires IsFmod(x, y, r) && IsFmod(x, y, t)
    ensures r == t
  {
    hide Magnitude;
    if IsFinite(x) && IsFinite(y) && !IsZero(y) {
      var n: int :| IsRemainder(r.bits, x, y, n);
      var k: int :| IsRemainder(t.bits, x, y, k);
      SameMagnitude(r.bits, t.bits, y, n - k, x, n, k);
      BitsAreDetermined(r.bits, t.bits);
    }
  }

  lemma SameMagnitude(a: Bits, b: Bits, y: Bits, d: int, x: Bits, n: int, k: int)
    requires Sign(a) == Sign(b) && Magnitude(a) < Magnitude(y) && Magnitude(b) < Magnitude(y)
    requires IsRemainder(a, x, y, n) && IsRemainder(b, x, y, k) && d == n - k
    ensures Magnitude(a) == Magnitude(b)
  {
    hide Magnitude;
    var m: int := Magnitude(y);
    Distribute(n, -k, Value(y));
    Negated(k, Value(y));
    Negated(d, m);
    assert Value(b) - Value(a) == d * Value(y);
    assert Value(y) == m || Value(y) == -m;
    if d != 0 { Apart(d, m); }
    assert -m < Value(b) - Value(a) < m by { Fields(a); Fields(b); }
  }

  lemma Apart(d: int, m: int)
    requires d != 0 && m > 0
    ensures d * m >= m || d * m <= -m
  {
    if d > 0 { MulMonotone(1, d, m); } else { MulMonotone(1, -d, m); Negated(d, m); }
  }
}
