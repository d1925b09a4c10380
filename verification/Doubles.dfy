/**
 Rounding to float64. A double is a pair (m, e) that stands for m * 2^(e - 53),
 with m between 2^52 and 2^53 unless it is zero.
 */
module Doubles {
  import opened Basics
  import opened Powers
  import opened RealPowers
  import opened LimbDivision
  import opened Limbs
  import opened Rounding
  import opened BigNumbers
  import opened FloorLog
  import opened Scaling

  const TWO52 := 0x10_0000_0000_0000
  const TWO53 := 0x20_0000_0000_0000

  /** The exponent of the last place of the doubles between 2^(ex - 1) and 2^ex. */
  function LastPlace(ex: int): int {
    Max(ex - 53, -1074)
  }

  ghost predicate Binade(x: real, ex: int) {
    Exp(2, ex - 1) <= x < Exp(2, ex)
  }

  /** The number a double stands for. */
  ghost function DoubleValue(m: nat, e: int): real {
    m as real * Exp(2, e - 53)
  }

  /** A real in units of the last place of a binade. */
  ghost function Units(x: real, ex: int): real {
    x * Exp(2, -LastPlace(ex))
  }

  /** (m, e) is f units in the last place of the binade of x, and x rounds to f of them. */
  ghost predicate RoundedAtBinade(x: real, ex: int, f: nat, m: nat, e: int, mode: Mode) {
    && Binade(x, ex)
    && Rounds(Units(x, ex), f, mode)
    && m as real * Exp(2, e - 53) == f as real * Exp(2, LastPlace(ex))
    && (m == 0 || TWO52 <= m < TWO53)
  }

  /** The double (m, e) is the positive real x rounded. */
  ghost predicate RoundsToDouble(x: real, m: nat, e: int, mode: Mode) {
    exists ex: int, f: nat :: RoundedAtBinade(x, ex, f, m, e, mode)
  }

  // ----- uniqueness -----

  lemma BinadeUnique(x: real, a: int, b: int)
    requires Binade(x, a) && Binade(x, b)
    ensures a == b
  {
    hide Exp;
    if a < b {
      ExpUp(2, a, b - 1);
    } else if b < a {
      ExpUp(2, b, a - 1);
    }
  }

  lemma MantissaUnique(m: nat, e: int, n: nat, f: int)
    requires TWO52 <= m < TWO53 && TWO52 <= n < TWO53
    requires m as real * Exp(2, e - 53) == n as real * Exp(2, f - 53)
    ensures m == n && e == f
  {
    hide Exp;
    if e < f {
      SmallerExponent(m, e, n, f);
    } else if f < e {
      SmallerExponent(n, f, m, e);
    } else {
      ExpPos(2, e - 53);
      SameScale(m as real, n as real, Exp(2, e - 53), Exp(2, f - 53));
    }
  }

  lemma SameScale(x: real, y: real, a: real, b: real)
    requires a == b && a > 0.0 && x * a == y * b
    ensures x == y
  {
    RCancel(x, y, a);
  }

  lemma SmallerExponent(m: nat, e: int, n: nat, f: int)
    requires m < TWO53 && TWO52 <= n && e < f
    ensures m as real * Exp(2, e - 53) < n as real * Exp(2, f - 53)
  {
    hide Exp;
    var a, b := Exp(2, e - 53), Exp(2, f - 53);
    ExpUp(2, e - 53 + 1, f - 53);
    ExpSucc(2, e - 53);
    ExpPos(2, e - 53);
    RMulStrict(m as real, TWO53 as real, a);
    RMulUp(TWO52 as real, n as real, b);
    assert TWO53 as real * a == TWO52 as real * (2.0 * a);
  }

  /** A positive real rounds to one double only. */
  lemma DoubleUnique(x: real, m: nat, e: int, n: nat, f: int, mode: Mode)
    requires RoundsToDouble(x, m, e, mode) && RoundsToDouble(x, n, f, mode)
    ensures m == n && (m != 0 ==> e == f)
  {
    hide Exp, Rounds, Units;
    var a, i: nat :| RoundedAtBinade(x, a, i, m, e, mode);
    var b, j: nat :| RoundedAtBinade(x, b, j, n, f, mode);
    BinadeUnique(x, a, b);
    RoundsUnique(Units(x, a), i, j, mode);
    ExpPos(2, e - 53);
    ExpPos(2, f - 53);
    if m == 0 || n == 0 {
      ZeroFactor(m as real, Exp(2, e - 53));
      ZeroFactor(n as real, Exp(2, f - 53));
    } else {
      MantissaUnique(m, e, n, f);
    }
  }

  lemma ZeroFactor(x: real, y: real)
    requires y > 0.0
    ensures x * y == 0.0 <==> x == 0.0
  {
  }

  // ----- nearest integer to m * 2^e * radix^f -----

  /** Rounding the number a big number holds, after a shift that leaves at least two bits if it is inexact. */
  lemma HoldsRounded(v: nat, x: real, eOffset: int, n: nat, d: nat, shift: nat, y: real, f: int, mode: Mode)
    requires Holds(v, x, eOffset, n, d) && y * Pow(2, shift) as real == x * Exp(2, eOffset)
    requires d > 1 ==> shift >= 2
    requires IsRounded(v, Pow(2, shift), f, mode)
    ensures Rounds(y, f, mode)
  {
    hide Exp, IsRounded, Rounds, Sticky, Pow;
    var t := Pow(2, shift);
    PowPos(2, shift);
    MulUp(1, d, 1, t);
    var z := x * Exp(2, eOffset);
    ProductOfCasts(d, t);
    SwapScaled(y, t as real, z, d as real, (d * t) as real);
    RoundsFraction(y, n, d * t, f, mode);
    if d == 1 {
      StickyOfOne(n);
    } else {
      var h := Pow(2, shift - 1);
      HalfPower2(shift);
      StickyRounded(n, d, h, f, mode);
    }
  }

  lemma ProductOfCasts(a: nat, b: nat)
    ensures (a * b) as real == a as real * b as real
  {
  }

  lemma SwapScaled(y: real, t: real, z: real, d: real, dt: real)
    requires y * t == z && dt == d * t
    ensures y * dt == z * d
  {
  }

  lemma StickyOfOne(n: nat)
    ensures Sticky(n, 1) == n
  {
  }

  lemma HalfPower2(shift: nat)
    requires shift >= 2
    ensures Pow(2, shift) == 2 * Pow(2, shift - 1) && Pow(2, shift - 1) > 0 && Pow(2, shift - 1) % 2 == 0
  {
    PowPos(2, shift - 1);
    assert Pow(2, shift - 1) == 2 * Pow(2, shift - 2);
  }

  /** A left shift of an exact number stays exact. */
  lemma HoldsShiftedLeft(v: nat, x: real, eOffset: int, n: nat, k: nat, y: real, mode: Mode)
    requires Holds(v, x, eOffset, n, 1) && y * Exp(2, 0 - k) == x * Exp(2, eOffset)
    ensures Rounds(y, v * Pow(2, k), mode)
  {
    hide Exp, Pow;
    StickyOfOne(n);
    ExpIsPow(2, k);
    ExpInverse(2, k);
    var w := v * Pow(2, k);
    ProductOfCasts(v, Pow(2, k));
    ProductTail(v as real, y, Exp(2, 0 - k), Exp(2, k), 1.0);
    RoundsInteger(w, mode);
  }

  /** Rounding after a shift of either sign. */
  lemma HoldsShiftRounded(v: nat, x: real, eOffset: int, n: nat, d: nat, shift: int, y: real, f: nat, mode: Mode)
    requires Holds(v, x, eOffset, n, d) && y * Exp(2, shift) == x * Exp(2, eOffset) && (d > 1 ==> shift >= 2)
    requires if shift >= 0 then IsRounded(v, Pow(2, shift), f, mode) else f == v * Pow(2, -shift)
    ensures Rounds(y, f, mode)
  {
    hide Exp, Pow, Holds, Rounds, IsRounded;
    if shift >= 0 {
      ExpIsPow(2, shift);
      HoldsRounded(v, x, eOffset, n, d, shift, y, f, mode);
    } else {
      HoldsPositive(v, x, eOffset, n, d);
      HoldsShiftedLeft(v, x, eOffset, n, -shift, y, mode);
    }
  }

  /** round(m * 2^e * radix^f), with radix = radix1 * 2^radixShift. */
  method MulPowRound(tmp: Mpb, m: nat, e: int, radix1: nat, radixShift: nat, f: int, mode: Mode, ghost x: real,
                     ghost y: real)
    requires 0 < m < TWO64 && 1 <= radix1 <= 36 && (radix1 == 1 || !IsPow2(radix1))
    requires radix1 * Pow(2, radixShift) > 0 && x == m as real * Exp(radix1 * Pow(2, radixShift), f)
             && y == x * Exp(2, e)
    modifies tmp
    ensures |tmp.tab| >= 1 && Rounds(y, Value(tmp.tab), mode)
    ensures Normal(tmp.tab)
  {
    hide Exp, Pow, Value, Holds, Rounds, IsRounded;
    tmp.SetU64(m);
    var eOffset;
    ghost var n, d;
    eOffset, n, d := MulPow(tmp, radix1, radixShift, f, true, e, x);
    ghost var v := Value(tmp.tab);
    var shift := -e + eOffset;
    ShiftedValue(x, y, e, eOffset, shift);
    tmp.ShrRound(shift, mode);
    HoldsShiftRounded(v, x, eOffset, n, d, shift, y, Value(tmp.tab), mode);
  }

  lemma HoldsPositive(v: nat, x: real, eOffset: int, n: nat, d: nat)
    requires Holds(v, x, eOffset, n, d)
    ensures d > 0
  {
  }

  lemma ShiftedValue(x: real, y: real, e: int, eOffset: int, shift: int)
    requires y == x * Exp(2, e) && shift == eOffset - e
    ensures y * Exp(2, shift) == x * Exp(2, eOffset)
  {
    hide Exp;
    ExpAdd(2, e, shift);
    ProductTail(y, x, Exp(2, e), Exp(2, shift), Exp(2, eOffset));
  }

  // ----- rounding to a double -----

  /** The highest bit of the sticky quotient is that of the fraction. */
  lemma HoldsBinade(v: nat, x: real, eOffset: int, n: nat, d: nat, r: nat)
    requires Holds(v, x, eOffset, n, d) && Pow(2, r) <= v < Pow(2, r + 1) && (d > 1 ==> r > 0)
    ensures Binade(x, r + 1 - eOffset)
  {
    hide Exp, Pow, Sticky;
    if d == 1 {
      StickyOfOne(n);
    } else {
      EvenPower(r);
      EvenPower(r + 1);
      StickyCompare(n, d, Pow(2, r));
      StickyCompare(n, d, Pow(2, r + 1));
    }
    assert Pow(2, r) * d <= n < Pow(2, r + 1) * d;
    CompareHeld(x, eOffset, n, d, r);
    CompareHeld(x, eOffset, n, d, r + 1);
  }

  lemma EvenPower(r: nat)
    requires r > 0
    ensures Pow(2, r) % 2 == 0
  {
    var h := Pow(2, r - 1);
    assert Pow(2, r) == 2 * h;
  }

  lemma CompareHeld(x: real, eOffset: int, n: nat, d: nat, r: nat)
    requires d > 0 && x * Exp(2, eOffset) * d as real == n as real
    ensures Exp(2, r - eOffset) <= x <==> Pow(2, r) * d <= n
  {
    hide Exp, Pow;
    var z, k := x * Exp(2, eOffset), Pow(2, r);
    var s, t := d as real, Exp(2, eOffset);
    ExpPos(2, eOffset);
    ExpIsPow(2, r);
    ExpAdd(2, r - eOffset, eOffset);
    ProductOfCasts(k, d);
    CompareProducts2(k as real, z, s, (k * d) as real, n as real);
    CompareProducts2(Exp(2, r - eOffset), x, t, k as real, z);
  }

  lemma CompareProducts2(a: real, b: real, s: real, as': real, bs: real)
    requires s > 0.0 && as' == a * s && bs == b * s
    ensures a <= b <==> as' <= bs
  {
    if a <= b {
      RMulUp(a, b, s);
    } else {
      RMulStrict(b, a, s);
    }
  }

  /** The number of units is bounded by the precision. */
  lemma UnitsBound(x: real, ex: int, prec: int, f: nat, mode: Mode)
    requires Binade(x, ex) && LastPlace(ex) == ex - prec && Rounds(Units(x, ex), f, mode)
    ensures prec >= 0 ==> f <= Pow(2, prec)
    ensures prec >= 1 ==> f >= Pow(2, prec - 1)
    ensures prec < 0 ==> f == 0
  {
    hide Exp, Pow, Rounds;
    var y, t := Units(x, ex), Exp(2, -LastPlace(ex));
    ExpPos(2, -LastPlace(ex));
    ExpAdd(2, ex, -LastPlace(ex));
    ExpAdd(2, ex - 1, -LastPlace(ex));
    CompareProducts2(Exp(2, ex), x, t, Exp(2, prec), y);
    CompareProducts2(Exp(2, ex - 1), x, t, Exp(2, prec - 1), y);
    assert Exp(2, prec - 1) <= y < Exp(2, prec);
    if prec >= 0 {
      ExpIsPow(2, prec);
      RoundsMonotone(y, f, mode, Pow(2, prec));
      if prec >= 1 {
        ExpIsPow(2, prec - 1);
        RoundsMonotone(y, f, mode, Pow(2, prec - 1));
      }
    } else {
      ExpUp(2, prec, -1);
      ExpSucc(2, -1);
      ExpZero(2);
      ExpPos(2, prec - 1);
      LessThanHalf(y, f, mode);
    }
  }

  lemma LessThanHalf(y: real, f: nat, mode: Mode)
    requires 0.0 <= y < 0.5 && Rounds(y, f, mode)
    ensures f == 0
  {
  }

  /** The mantissa shifted to 53 bits. */
  lemma Normalise(f: nat, prec: int, lp: int, ex: int)
    requires prec <= 53 && lp == ex - prec
    requires (prec >= 0 ==> f <= Pow(2, prec)) && (prec >= 1 ==> f >= Pow(2, prec - 1)) && (prec < 0 ==> f == 0)
    ensures var m := f * Pow(2, 53 - prec);
            && (m == 0 || TWO52 <= m <= TWO53)
            && m as real * Exp(2, ex - 53) == f as real * Exp(2, lp)
  {
    hide Exp, Pow;
    var k := 53 - prec;
    var m := f * Pow(2, k);
    PowPos(2, k);
    TwoPow53();
    if prec >= 0 {
      PowAdd(2, prec, k);
      MulUp(f, Pow(2, prec), Pow(2, k), Pow(2, k));
      if prec >= 1 {
        PowAdd(2, prec - 1, k);
        MulUp(Pow(2, prec - 1), f, Pow(2, k), Pow(2, k));
      } else {
        PowZero();
      }
    }
    ExpIsPow(2, k);
    ProductOfCasts(f, Pow(2, k));
    ExpAdd(2, k, ex - 53);
    ProductTail(m as real, f as real, Exp(2, k), Exp(2, ex - 53), Exp(2, lp));
  }

  lemma TwoPow53()
    ensures Pow(2, 52) == TWO52 && Pow(2, 53) == TWO53
  {
    FastPowIs(2, 52);
    FastPowIs(2, 53);
    assert FastPow(2, 52) == 0x10_0000_0000_0000;
    assert FastPow(2, 53) == 0x20_0000_0000_0000;
  }

  /** Rounds a big number over 2^eOffset to a double, zero to zero. */
  method RoundToD(a: Mpb, eOffset: int, mode: Mode, ghost x: real, ghost n: nat, ghost d: nat) returns (m: nat, e: int)
    requires Normal(a.tab) && Holds(Value(a.tab), x, eOffset, n, d) && (d > 1 ==> Value(a.tab) >= Pow(2, 55))
    modifies a
    ensures old(Value(a.tab)) == 0 ==> m == 0
    ensures old(Value(a.tab)) > 0 ==> RoundsToDouble(x, m, e, mode)
  {
    hide Exp, Pow, Value, Holds, Rounds, IsRounded, RoundsToDouble, Binade, Units;
    ghost var v := Value(a.tab);
    if |a.tab| == 1 && a.tab[0] == 0 {
      assert a.tab == [0];
      ValueOne(0);
      return 0, 0;
    }
    NonZero(a.tab);
    var r := a.FloorLog2();
    assert d > 1 ==> r >= 55 by { if d > 1 { BitsAtLeast(v, r, 55); } }
    e := r + 1 - eOffset;
    ghost var ex := e;
    HoldsBinade(v, x, eOffset, n, d, r);
    var prec := if e < -1021 then 53 - (-1021 - e) else 53;
    ghost var lp := LastPlace(ex);
    var shift := e + eOffset - prec;
    a.ShrRound(shift, mode);
    ghost var f := Value(a.tab);
    ShiftedUnits(v, x, eOffset, n, d, shift, ex, f, mode);
    UnitsBound(x, ex, prec, f, mode);
    FewUnits(f, prec);
    m := a.GetU64();
    assert m == f;
    Normalise(f, prec, lp, ex);
    m := m * Pow(2, 53 - prec);
    FinishDouble(x, ex, f, m, mode);
    if m >= TWO53 {
      m, e := m / 2, e + 1;
    }
  }

  lemma FewUnits(f: nat, prec: int)
    requires prec <= 53 && (prec >= 0 ==> f <= Pow(2, prec)) && (prec < 0 ==> f == 0)
    ensures f <= TWO53
  {
    hide Pow;
    TwoPow53();
    if prec >= 0 {
      PowUp(2, prec, 53);
    }
  }

  /** The shift that drops all bits below the last place. */
  lemma ShiftedUnits(v: nat, x: real, eOffset: int, n: nat, d: nat, shift: int, ex: int, f: nat, mode: Mode)
    requires Holds(v, x, eOffset, n, d) && shift == LastPlace(ex) + eOffset && (d > 1 ==> shift >= 2)
    requires if shift >= 0 then IsRounded(v, Pow(2, shift), f, mode) else f == v * Pow(2, -shift)
    ensures Rounds(Units(x, ex), f, mode)
  {
    hide Exp, Pow, Holds, Rounds, IsRounded, Units;
    UnitsOf(x, ex);
    ShiftedValue(x, Units(x, ex), -LastPlace(ex), eOffset, shift);
    HoldsShiftRounded(v, x, eOffset, n, d, shift, Units(x, ex), f, mode);
  }

  /** The mantissa, halved when the rounding carried out of it. */
  lemma FinishDouble(x: real, ex: int, f: nat, m: nat, mode: Mode)
    requires Binade(x, ex) && Rounds(Units(x, ex), f, mode)
    requires m as real * Exp(2, ex - 53) == f as real * Exp(2, LastPlace(ex)) && (m == 0 || TWO52 <= m <= TWO53)
    ensures if m >= TWO53 then RoundsToDouble(x, m / 2, ex + 1, mode) else RoundsToDouble(x, m, ex, mode)
  {
    hide Exp, Rounds, RoundsToDouble, Units, Binade;
    if m >= TWO53 {
      CarryOut(ex);
      RoundedIntro(x, ex, f, TWO52, ex + 1, mode);
    } else {
      RoundedIntro(x, ex, f, m, ex, mode);
    }
  }

  lemma NonZero(tab: seq<limb>)
    requires Normal(tab) && !(|tab| == 1 && tab[0] == 0)
    ensures Value(tab) > 0
  {
    if |tab| > 1 {
      NormalBound(tab);
      PowPos(BASE, |tab| - 1);
    }
  }

  lemma BitsAtLeast(v: nat, r: nat, k: nat)
    requires Pow(2, k) <= v < Pow(2, r + 1)
    ensures r >= k
  {
    if r < k {
      PowUp(2, r + 1, k);
    }
  }

  lemma UnitsOf(x: real, ex: int)
    ensures Units(x, ex) == x * Exp(2, -LastPlace(ex))
  {
  }

  lemma CarryOut(e: int)
    ensures TWO53 as real * Exp(2, e - 53) == TWO52 as real * Exp(2, e + 1 - 53)
  {
    hide Exp;
    ExpSucc(2, e - 53);
  }

  lemma RoundedIntro(x: real, ex: int, f: nat, m: nat, e: int, mode: Mode)
    requires Binade(x, ex) && Rounds(Units(x, ex), f, mode)
    requires m as real * Exp(2, e - 53) == f as real * Exp(2, LastPlace(ex)) && (m == 0 || TWO52 <= m < TWO53)
    ensures RoundsToDouble(x, m, e, mode)
  {
    assert RoundedAtBinade(x, ex, f, m, e, mode);
  }

  /** a * radix^f rounded to a double. */
  method MulPowRoundToD(a: Mpb, radix1: nat, radixShift: nat, f: int, mode: Mode, ghost x: real)
    returns (m: nat, e: int)
    requires Normal(a.tab) && Value(a.tab) > 0 && 1 <= radix1 <= 36 && (radix1 == 1 || !IsPow2(radix1))
    requires radix1 * Pow(2, radixShift) > 0 && x == Value(a.tab) as real * Exp(radix1 * Pow(2, radixShift), f)
    modifies a
    ensures RoundsToDouble(x, m, e, mode)
  {
    hide Exp, Pow, Value, Holds, RoundsToDouble;
    var eOffset;
    ghost var n, d;
    eOffset, n, d := MulPow(a, radix1, radixShift, f, false, 55, x);
    m, e := RoundToD(a, eOffset, mode, x, n, d);
  }

  // ----- the IEEE 754 reading of the result -----

  ghost function Distance(a: real, b: real): real {
    if a <= b then b - a else a - b
  }

  /** An integer cannot be closer than the nearest one. */
  lemma NearestInteger(y: real, f: int, k: int)
    requires f as real - 0.5 <= y <= f as real + 0.5
    ensures Distance(f as real, y) <= Distance(k as real, y)
  {
    assert k < f ==> k as real + 1.0 <= f as real;
    assert k > f ==> k as real >= f as real + 1.0;
  }

  lemma ScaledNearer(f: real, k: real, y: real, u: real, v: real, w: real, x: real)
    requires u > 0.0 && v == f * u && w == k * u && x == y * u && Distance(f, y) <= Distance(k, y)
    ensures Distance(v, x) <= Distance(w, x)
  {
    CompareProducts2(f, y, u, v, x);
    CompareProducts2(k, y, u, w, x);
    if f <= y && k <= y {
      CompareProducts2(k, f, u, w, v);
    } else if f > y && k > y {
      CompareProducts2(f, k, u, v, w);
    } else if f <= y {
      CompareProducts2(y - f, k - y, u, x - v, w - x);
    } else {
      CompareProducts2(f - y, y - k, u, v - x, x - w);
    }
  }

  /** No double, of any exponent from the smallest on, is closer to x than the one x rounds to. */
  lemma NearestDouble(x: real, m: nat, e: int, mode: Mode, m2: nat, e2: int)
    requires RoundsToDouble(x, m, e, mode) && mode != TowardsZero
    requires m2 < TWO53 && e2 >= -1021
    ensures Distance(DoubleValue(m, e), x) <= Distance(DoubleValue(m2, e2), x)
  {
    hide Exp, Rounds, Units, Binade, Distance;
    var ex, f: nat :| RoundedAtBinade(x, ex, f, m, e, mode);
    var lp, y := LastPlace(ex), Units(x, ex);
    var u, v, v2 := Exp(2, lp), DoubleValue(m, e), DoubleValue(m2, e2);
    ExpPos(2, lp);
    RoundsClose(y, f, mode);
    UnitsBack(x, ex);
    if e2 - 53 >= lp {
      var k := m2 * Pow(2, e2 - 53 - lp);
      OnGrid(m2, e2 - 53, lp, v2);
      NearestInteger(y, f, k);
      ScaledNearer(f as real, k as real, y, u, v, v2, x);
    } else {
      NearestInteger(y, f, TWO52);
      BelowBinade(x, ex, m2, e2);
      ScaledNearer(f as real, TWO52 as real, y, u, v, Exp(2, ex - 1), x);
      FurtherBelow(v2, Exp(2, ex - 1), x);
    }
  }

  lemma UnitsBack(x: real, ex: int)
    ensures x == Units(x, ex) * Exp(2, LastPlace(ex))
  {
    hide Exp;
    ExpInverse(2, LastPlace(ex));
    ProductTail(Units(x, ex), x, Exp(2, -LastPlace(ex)), Exp(2, LastPlace(ex)), 1.0);
  }

  lemma OnGrid(m: nat, a: int, lp: int, v: real)
    requires a >= lp && v == m as real * Exp(2, a)
    ensures v == (m * Pow(2, a - lp)) as real * Exp(2, lp)
  {
    hide Exp, Pow;
    ExpIsPow(2, a - lp);
    var k := m * Pow(2, a - lp);
    ProductOfCasts(m, Pow(2, a - lp));
    ExpAdd(2, a - lp, lp);
    SplitFactor(m as real, Exp(2, a), Exp(2, a - lp), Exp(2, lp), k as real);
  }

  /** Doubles with a finer last place lie at or below the binade. */
  lemma BelowBinade(x: real, ex: int, m: nat, e: int)
    requires Binade(x, ex) && m < TWO53 && -1021 <= e && e - 53 < LastPlace(ex)
    ensures m as real * Exp(2, e - 53) <= Exp(2, ex - 1) <= x
    ensures Exp(2, ex - 1) == TWO52 as real * Exp(2, LastPlace(ex))
  {
    hide Exp, Pow;
    TwoPow53();
    ExpIsPow(2, 53);
    ExpIsPow(2, 52);
    ExpPos(2, e - 53);
    ExpAdd(2, 53, e - 53);
    CompareProducts2(m as real, Exp(2, 53), Exp(2, e - 53), m as real * Exp(2, e - 53), Exp(2, e));
    ExpUp(2, e, ex - 1);
    ExpAdd(2, 52, ex - 53);
    ProductTail(Exp(2, ex - 1), Exp(2, 52), Exp(2, ex - 53), 1.0, Exp(2, ex - 53));
  }

  lemma FurtherBelow(a: real, b: real, x: real)
    requires a <= b <= x
    ensures Distance(b, x) <= Distance(a, x)
  {
  }
}
