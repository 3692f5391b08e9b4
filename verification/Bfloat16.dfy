/**
The host-side float <-> bf16 conversions of server/hip_compat/cuda_bf16.h on bit patterns, against the rounding rule
roundTiesToEven of section 4.3.1 of IEEE 754-2019.
*/
module Bfloat16 {
  const TWO_TO_16: nat := 0x1_0000
  const TWO_TO_23: nat := 0x80_0000
  const TWO_TO_31: nat := 0x8000_0000
  const TWO_TO_32: nat := 0x1_0000_0000
  const INFINITY: nat := 0x7f80_0000

  type uint32 = x: nat | x < TWO_TO_32
  type uint16 = x: nat | x < TWO_TO_16

  // ---- the code

  /** float_to_bf16_bits_trunc: u >> 16. */
  function Truncate(u: uint32): uint16 { u / TWO_TO_16 }

  /** The NaN test: (u & 0x7f800000) == 0x7f800000 and (u & 0x007fffff) != 0. */
  predicate IsNaN(u: uint32) { u / TWO_TO_23 % 256 == 255 && u % TWO_TO_23 != 0 }

  /** The addition inside float_to_bf16_bits_rne, in 32-bit wrap-around arithmetic. */
  function Biased(u: uint32): uint32 {
    var lsb := u / TWO_TO_16 % 2;
    (u + 0x7fff + lsb) % TWO_TO_32
  }

  /** float_to_bf16_bits_rne. */
  function RoundNearestEven(u: uint32): uint16 {
    if IsNaN(u) then u / TWO_TO_16 else Biased(u) / TWO_TO_16
  }

  /** bf16_bits_to_float: b << 16. */
  function Widen(b: uint16): uint32 { b * TWO_TO_16 }

  // ---- the numbers the patterns stand for

  function Magnitude(u: uint32): nat { u % TWO_TO_31 }
  function Negative(u: uint32): bool { u >= TWO_TO_31 }

  function Pow2(k: nat): (r: nat)
    ensures r > 0
  {
    if k == 0 then 1 else 2 * Pow2(k - 1)
  }

  /** The weight of the last significand bit, in units of 2^-149 (subnormals share the smallest exponent). */
  function Ulp(m: nat): (r: nat)
    ensures r > 0
  {
    if m / TWO_TO_23 == 0 then 1 else Pow2(m / TWO_TO_23 - 1)
  }

  /** |x| in units of 2^-149 for the float with magnitude bits m. The infinity pattern stands for 2^128, the value that
      IEEE 754 rounds to before it reports overflow. */
  function Value(m: nat): nat {
    if m / TWO_TO_23 == 0 then m % TWO_TO_23 else (TWO_TO_23 + m % TWO_TO_23) * Ulp(m)
  }

  /** Consecutive patterns are one unit in the last place apart, also across a binade boundary and at infinity. */
  lemma ValueStep(m: nat)
    ensures Value(m + 1) == Value(m) + Ulp(m)
  {
    var e, f := m / TWO_TO_23, m % TWO_TO_23;
    if f + 1 < TWO_TO_23 {
      assert (m + 1) / TWO_TO_23 == e && (m + 1) % TWO_TO_23 == f + 1;
      Distribute(TWO_TO_23 + f, 1, Ulp(m));
    } else {
      assert (m + 1) / TWO_TO_23 == e + 1 && (m + 1) % TWO_TO_23 == 0;
      if e > 0 {
        assert Ulp(m + 1) == 2 * Ulp(m);
        Distribute(TWO_TO_23 + f, 1, Ulp(m));
        assert (TWO_TO_23 + f + 1) * Ulp(m) == TWO_TO_23 * (2 * Ulp(m));
      } else {
        assert Ulp(m + 1) == 1 by { assert Pow2(0) == 1; }
      }
    }
  }

  lemma Distribute(a: nat, b: nat, c: nat)
    ensures (a + b) * c == a * c + b * c
  {}

  /** Larger patterns are larger numbers. */
  lemma {:induction false} ValueIncreases(a: nat, b: nat)
    requires a < b
    ensures Value(a) < Value(b)
    decreases b
  {
    hide Value, Ulp;
    ValueStep(b - 1);
    if a < b - 1 { ValueIncreases(a, b - 1); }
  }

  lemma SameUlp(lo: nat, d: nat)
    requires d < TWO_TO_16
    ensures Ulp(lo * TWO_TO_16 + d) == Ulp(lo * TWO_TO_16)
  {
    assert (lo * TWO_TO_16 + d) / TWO_TO_23 == lo * TWO_TO_16 / TWO_TO_23;
  }

  /** Between two neighbouring bf16 patterns the float values are evenly spaced. */
  lemma {:induction false} ValueInCell(lo: nat, d: nat)
    requires d <= TWO_TO_16
    ensures Value(lo * TWO_TO_16 + d) == Value(lo * TWO_TO_16) + d * Ulp(lo * TWO_TO_16)
  {
    hide Value, Ulp;
    if d > 0 {
      ValueInCell(lo, d - 1);
      ValueStep(lo * TWO_TO_16 + d - 1);
      SameUlp(lo, d - 1);
      Distribute(d - 1, 1, Ulp(lo * TWO_TO_16));
    }
  }

  // ---- the code meets the rule

  function Distance(x: int, y: int): nat { if x < y then y - x else x - y }

  /** A pattern split at the sign bit and at the bf16 boundary. */
  function SignBit(u: uint32): nat { u / TWO_TO_31 }
  function Upper(u: uint32): nat { u / TWO_TO_16 % 0x8000 }
  function Lower(u: uint32): nat { u % TWO_TO_16 }

  lemma Parts(u: uint32)
    ensures SignBit(u) <= 1 && Upper(u) < 0x8000 && Lower(u) < TWO_TO_16
    ensures u / TWO_TO_16 == SignBit(u) * 0x8000 + Upper(u)
    ensures Magnitude(u) == Upper(u) * TWO_TO_16 + Lower(u)
    ensures u == SignBit(u) * TWO_TO_31 + Magnitude(u)
    ensures Negative(u) <==> SignBit(u) == 1
  {}

  lemma NaNParts(u: uint32)
    ensures u / TWO_TO_23 % 256 == Upper(u) / 128
    ensures u % TWO_TO_23 == Upper(u) % 128 * TWO_TO_16 + Lower(u)
    ensures IsNaN(u) <==> Magnitude(u) > INFINITY
  {
    Parts(u);
    var x := u / TWO_TO_16;
    assert u == x * TWO_TO_16 + Lower(u);
    assert x == x / 128 * 128 + x % 128;
    assert u / TWO_TO_23 == x / 128;
  }

  /** 1 when the dropped half is more than half a unit, or exactly half and the kept part is odd. */
  function RoundUp(upper: nat, lower: nat): nat {
    if lower > 0x8000 || (lower == 0x8000 && upper % 2 == 1) then 1 else 0
  }

  /** No pattern makes the 32-bit addition wrap, the sign is untouched, and the result is one of the two neighbours. */
  lemma RoundedParts(u: uint32)
    requires !IsNaN(u)
    ensures Biased(u) == u + 0x7fff + u / TWO_TO_16 % 2
    ensures Upper(u) + RoundUp(Upper(u), Lower(u)) <= 0x7f80
    ensures RoundNearestEven(u) == SignBit(u) * 0x8000 + (Upper(u) + RoundUp(Upper(u), Lower(u)))
    ensures Magnitude(Widen(RoundNearestEven(u))) == (Upper(u) + RoundUp(Upper(u), Lower(u))) * TWO_TO_16
    ensures Negative(Widen(RoundNearestEven(u))) == Negative(u)
  {
    Parts(u);
    NaNParts(u);
    var s, lo, d := SignBit(u), Upper(u), Lower(u);
    hide IsNaN, Upper, Lower, SignBit, Magnitude, RoundUp, Widen, Negative;
    SameParity(s, lo);
    ShiftedSum(s, lo, d);
    RoundUpBound(lo, d);
    MagnitudeOf(s, lo + RoundUp(lo, d));
  }

  lemma RoundUpBound(lo: nat, d: nat)
    requires lo * TWO_TO_16 + d <= INFINITY
    ensures lo + RoundUp(lo, d) <= 0x7f80
  {}

  lemma RoundUpMonotone(lo: nat, d: nat, lo': nat, d': nat)
    requires d < TWO_TO_16 && d' < TWO_TO_16 && lo * TWO_TO_16 + d <= lo' * TWO_TO_16 + d'
    ensures lo + RoundUp(lo, d) <= lo' + RoundUp(lo', d')
  {
    assert lo <= lo';
  }

  lemma ShiftedSum(s: nat, lo: nat, d: nat)
    requires s <= 1 && d < TWO_TO_16 && lo * TWO_TO_16 + d <= INFINITY
    ensures var sum := s * TWO_TO_31 + lo * TWO_TO_16 + d + 0x7fff + lo % 2;
      && sum < TWO_TO_32
      && sum / TWO_TO_16 == s * 0x8000 + lo + RoundUp(lo, d)
  {}

  lemma MagnitudeOf(s: nat, r: nat)
    requires s <= 1 && r < 0x8000
    ensures s * 0x8000 + r < TWO_TO_16
    ensures Magnitude(Widen(s * 0x8000 + r)) == r * TWO_TO_16
    ensures Negative(Widen(s * 0x8000 + r)) <==> s == 1
  {}

  lemma ScaledOrder(a: nat, b: nat, c: nat)
    requires c > 0 && a < b
    ensures a * c < b * c
  {
    Distribute(a, b - a, c);
  }

  /** Inside the cell between two neighbouring bf16 numbers, the choice made by the lower half is the nearest one among
      all bf16 numbers b. */
  lemma NearestInCell(lo: nat, d: nat, b: nat)
    requires d < TWO_TO_16
    ensures var x := Value(lo * TWO_TO_16 + d);
      var r := lo + RoundUp(lo, d);
      && Distance(x, Value(r * TWO_TO_16)) <= Distance(x, Value(b * TWO_TO_16))
      && (Distance(x, Value(r * TWO_TO_16)) == Distance(x, Value(b * TWO_TO_16)) && r != b ==> r % 2 == 0)
  {
    hide Value, Ulp;
    var base := lo * TWO_TO_16;
    ValueInCell(lo, d);
    ValueInCell(lo, TWO_TO_16);
    assert base + TWO_TO_16 == (lo + 1) * TWO_TO_16;
    var ulp := Ulp(base);
    Distribute(d, TWO_TO_16 - d, ulp);
    var below, above := d * ulp, (TWO_TO_16 - d) * ulp;
    assert Value(base + TWO_TO_16) == Value(base + d) + above;
    if d < TWO_TO_16 - d {
      ScaledOrder(d, TWO_TO_16 - d, ulp);
      assert below < above;
    } else if TWO_TO_16 - d < d {
      ScaledOrder(TWO_TO_16 - d, d, ulp);
      assert above < below;
    }
    if b < lo {
      ValueIncreases(b * TWO_TO_16, base);
    } else if b > lo + 1 {
      ValueIncreases((lo + 1) * TWO_TO_16, b * TWO_TO_16);
    }
  }

  lemma SameParity(s: nat, r: nat)
    ensures (s * 0x8000 + r) % 2 == r % 2
  {}

  /** For every non-NaN float and every bf16 number of the same sign (infinity included), the result is at least as
      near, and it has an even last bit whenever another bf16 number is exactly as near. */
  lemma RoundsToNearestEven(u: uint32, b: nat)
    requires !IsNaN(u) && b * TWO_TO_16 <= INFINITY
    ensures var x, r := Value(Magnitude(u)), Magnitude(Widen(RoundNearestEven(u)));
      && Distance(x, Value(r)) <= Distance(x, Value(b * TWO_TO_16))
      && (Distance(x, Value(r)) == Distance(x, Value(b * TWO_TO_16)) && r != b * TWO_TO_16 ==>
            RoundNearestEven(u) % 2 == 0)
  {
    hide Value, RoundNearestEven, Upper, Lower, SignBit, Magnitude, IsNaN, Widen, Distance, RoundUp;
    RoundedParts(u);
    Parts(u);
    NearestInCell(Upper(u), Lower(u), b);
    SameParity(SignBit(u), Upper(u) + RoundUp(Upper(u), Lower(u)));
  }

  /** Rounding keeps the order of magnitudes. */
  lemma Monotone(m: uint32, n: uint32)
    requires m <= n <= INFINITY
    ensures RoundNearestEven(m) <= RoundNearestEven(n)
  {
    hide IsNaN, Upper, Lower, SignBit, Magnitude, RoundUp, Widen, Negative, RoundNearestEven, Biased;
    NaNParts(m);
    NaNParts(n);
    Parts(m);
    Parts(n);
    assert SignBit(m) == 0 && SignBit(n) == 0;
    RoundedParts(m);
    RoundedParts(n);
    RoundUpMonotone(Upper(m), Lower(m), Upper(n), Lower(n));
  }

  /** Flipping the sign bit of the input flips the sign bit of the output and nothing else. */
  lemma SignSymmetric(u: uint32)
    requires u < TWO_TO_31
    ensures RoundNearestEven(u + TWO_TO_31) == RoundNearestEven(u) + 0x8000
    ensures Truncate(u + TWO_TO_31) == Truncate(u) + 0x8000
  {
    FlippedParts(u);
    var v := u + TWO_TO_31;
    Parts(u);
    Parts(v);
    NaNParts(u);
    NaNParts(v);
    hide Upper, Lower, SignBit, Magnitude, IsNaN, RoundUp, Biased;
    if !IsNaN(u) {
      RoundedParts(u);
      RoundedParts(v);
    }
  }

  lemma FlippedParts(u: uint32)
    requires u < TWO_TO_31
    ensures var v := u + TWO_TO_31;
      Upper(v) == Upper(u) && Lower(v) == Lower(u) && SignBit(v) == 1 && SignBit(u) == 0
  {}

  /** Both conversions undo widening, on every bf16 pattern, NaNs included. */
  lemma InvertsWidening(b: uint16)
    ensures RoundNearestEven(Widen(b)) == b && Truncate(Widen(b)) == b
  {}

  /** A NaN stays a NaN exactly when some payload bit lies in the upper half; otherwise it becomes an infinity.
      The header's comment that the NaN mantissa is preserved holds only in the first case. */
  lemma NaNFate(u: uint32)
    requires IsNaN(u)
    ensures IsNaN(Widen(RoundNearestEven(u))) <==> u % TWO_TO_23 >= TWO_TO_16
    ensures u % TWO_TO_23 < TWO_TO_16 ==> Magnitude(Widen(RoundNearestEven(u))) == INFINITY
    ensures Truncate(u) == RoundNearestEven(u)
  {}

  /** A signalling NaN whose payload is 1 is turned into infinity. */
  lemma NaNBecomesInfinity()
    ensures IsNaN(0x7f80_0001) && Widen(RoundNearestEven(0x7f80_0001)) == INFINITY
  {}

  /** The truncating conversion rounds toward zero: the largest bf16 magnitude that does not exceed the input. */
  lemma TruncatesTowardZero(u: uint32, b: nat)
    requires !IsNaN(u) && b * TWO_TO_16 <= INFINITY
    ensures var x, t := Value(Magnitude(u)), Magnitude(Widen(Truncate(u)));
      && Value(t) <= x
      && (Value(b * TWO_TO_16) <= x ==> b * TWO_TO_16 <= t)
      && Negative(Widen(Truncate(u))) == Negative(u)
  {
    hide Value, Magnitude, IsNaN, Upper, Lower, SignBit, Widen, Negative;
    Parts(u);
    var m, t := Magnitude(u), Upper(u) * TWO_TO_16;
    MagnitudeOf(SignBit(u), Upper(u));
    assert Magnitude(Widen(Truncate(u))) == t;
    hide Truncate;
    if t < m { ValueIncreases(t, m); }
    if b > Upper(u) { ValueIncreases(m, b * TWO_TO_16); }
  }
}
