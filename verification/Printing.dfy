/**
 Printing of a double: the digits of the fixed format, and the descending search
 of the free format, whose result reads back as the same double.
 */
module Printing {
  import opened Powers
  import opened RealPowers
  import opened LimbDivision
  import opened Limbs
  import opened Rounding
  import opened BigNumbers
  import opened FloorLog
  import opened ConversionTables
  import opened Scaling
  import opened Doubles

  // ----- the radix -----

  /** Trailing zero bits. */
  function Ctz(r: nat): (c: nat)
    requires r > 0
    ensures Pow(2, c) > 0 && r % Pow(2, c) == 0 && r / Pow(2, c) % 2 == 1
    decreases r
  {
    PowZero();
    if r % 2 == 1 then 0
    else
      var c := Ctz(r / 2);
      CtzStep(r, c);
      c + 1
  }

  lemma CtzStep(r: nat, c: nat)
    requires r > 0 && r % 2 == 0 && Pow(2, c) > 0 && (r / 2) % Pow(2, c) == 0 && (r / 2) / Pow(2, c) % 2 == 1
    ensures Pow(2, c + 1) > 0 && r % Pow(2, c + 1) == 0 && r / Pow(2, c + 1) % 2 == 1
  {
    DivDiv(r, 2, Pow(2, c));
  }

  function OddPart(radix: nat): (r: nat)
    requires IsRadix(radix)
    ensures 1 <= r <= 36 && (r == 1 || !IsPow2(r)) && r * Pow(2, Ctz(radix)) == radix
  {
    var c := Ctz(radix);
    DivPositive(radix, Pow(2, c));
    MulUp(radix / Pow(2, c), radix / Pow(2, c), 1, Pow(2, c));
    radix / Pow(2, c)
  }

  // ----- the mantissa for a number of digits -----

  /** The first guess of the exponent: radix^(E0 - 1) <= 2^(e - 1) < radix^E0. */
  ghost predicate Guess(radix: nat, e: int, e0: int)
    requires IsRadix(radix)
  {
    Exp(radix, e0 - 1) <= Exp(2, e - 1) < Exp(radix, e0)
  }

  /** x in units of the last of p digits below radix^ee. */
  ghost function Digits(x: real, radix: nat, p: int, ee: int): real
    requires IsRadix(radix)
  {
    x * Exp(radix, p - ee)
  }

  lemma DigitsLower(x: real, radix: nat, e: int, e0: int, p: nat)
    requires IsRadix(radix) && Guess(radix, e, e0) && Binade(x, e) && p >= 1
    ensures Digits(x, radix, p, e0) >= Pow(radix, p - 1) as real
  {
    hide Exp, Pow;
    var t := Exp(radix, p - e0);
    ExpPos(radix, p - e0);
    ExpAdd(radix, e0 - 1, p - e0);
    ExpIsPow(radix, p - 1);
    CompareProducts2(Exp(radix, e0 - 1), x, t, Exp(radix, p - 1), Digits(x, radix, p, e0));
  }

  /** One more digit before the point. */
  lemma DigitsNext(x: real, radix: nat, p: int, ee: int)
    requires IsRadix(radix)
    ensures Digits(x, radix, p, ee) == radix as real * Digits(x, radix, p, ee + 1)
  {
    hide Exp;
    ExpSucc(radix, p - ee - 1);
    DigitsIs(x, radix, p, ee);
    DigitsIs(x, radix, p, ee + 1);
    ScaleBy(x, Exp(radix, p - ee - 1), radix as real, Exp(radix, p - ee), Digits(x, radix, p, ee),
      Digits(x, radix, p, ee + 1));
  }

  lemma ScaleBy(x: real, t: real, b: real, bt: real, y: real, z: real)
    requires bt == b * t && y == x * bt && z == x * t
    ensures y == b * z
  {
  }

  lemma DigitsIs(x: real, radix: nat, p: int, ee: int)
    requires IsRadix(radix)
    ensures Digits(x, radix, p, ee) == x * Exp(radix, p - ee)
  {
  }

  /** At the guess the mantissa is below twice radix^p; at the next exponent it is below twice radix^(p - 1). */
  lemma DigitsUpper(x: real, radix: nat, e: int, e0: int, p: nat)
    requires IsRadix(radix) && Guess(radix, e, e0) && Binade(x, e)
    ensures Digits(x, radix, p, e0) < 2.0 * Pow(radix, p) as real
  {
    hide Exp, Pow;
    var t := Exp(radix, p - e0);
    ExpPos(radix, p - e0);
    ExpSucc(2, e - 1);
    ExpAdd(radix, e0, p - e0);
    ExpIsPow(radix, p);
    CompareProducts2(2.0 * Exp(radix, e0), x, t, 2.0 * Exp(radix, p), Digits(x, radix, p, e0));
  }

  /** In radix 2 the guess is exact. */
  lemma BinaryGuess(e: int, e0: int)
    requires Guess(2, e, e0)
    ensures e0 == e
  {
    hide Exp;
    if e0 < e {
      ExpUp(2, e0, e - 1);
    } else if e0 > e {
      ExpUpStrict(2, e - 1, e0 - 1);
    }
  }

  lemma BinaryDigits(x: real, e: int, p: nat)
    requires Binade(x, e)
    ensures Digits(x, 2, p, e) < Pow(2, p) as real
  {
    hide Exp, Pow;
    var t := Exp(2, p - e);
    ExpPos(2, p - e);
    ExpAdd(2, e, p - e);
    ExpIsPow(2, p);
    CompareProducts2(Exp(2, e), x, t, Exp(2, p), Digits(x, 2, p, e));
  }

  /** A mantissa that needs one more digit at the guess has exactly p digits at the next exponent. */
  lemma Corrected(x: real, radix: nat, e: int, e0: int, p: nat, f0: nat, f1: nat, mode: Mode)
    requires IsRadix(radix) && Guess(radix, e, e0) && Binade(x, e) && p >= 1 && mode != TowardsZero
    requires Rounds(Digits(x, radix, p, e0), f0, mode) && f0 >= Pow(radix, p)
    requires Rounds(Digits(x, radix, p, e0 + 1), f1, mode)
    ensures Pow(radix, p - 1) <= f1 < Pow(radix, p)
  {
    hide Exp, Pow, Rounds, Digits, Guess, Binade;
    var y0, y1, b, q := Digits(x, radix, p, e0), Digits(x, radix, p, e0 + 1), radix as real, Pow(radix, p - 1);
    DigitsNext(x, radix, p, e0);
    RoundsClose(y0, f0, mode);
    RoundsClose(y1, f1, mode);
    PowPos(radix, p - 1);
    Successor(radix, p);
    CorrectedLower(y0, y1, radix, q, f1);
    if radix == 2 {
      BinaryGuess(e, e0);
      BinaryDigits(x, e, p);
      HalvedBelow(y0, y1, q);
      RoundsMonotone(y1, f1, mode, q);
    } else {
      DigitsUpper(x, radix, e, e0, p);
      ScaledBelow(y0, y1, radix, q);
      MulUp(3, radix, q, q);
      RoundsMonotone(y1, f1, mode, 2 * q);
    }
  }

  lemma CorrectedLower(y0: real, y1: real, radix: nat, q: nat, f1: int)
    requires radix >= 2 && y0 == radix as real * y1 && y0 >= (radix * q) as real - 0.5 && f1 as real + 0.5 >= y1
    ensures f1 >= q
  {
    var b := radix as real;
    assert (radix * q) as real == b * q as real;
    assert b * (q as real - 0.5) == b * q as real - 0.5 * b;
    if y1 <= q as real - 0.5 {
      RMulUp(y1, q as real - 0.5, b);
    }
    assert f1 < q ==> f1 as real + 1.0 <= q as real;
  }

  lemma HalvedBelow(y0: real, y1: real, q: nat)
    requires y0 == 2.0 * y1 && y0 < (2 * q) as real
    ensures y1 <= q as real
  {
    assert (2 * q) as real == 2.0 * q as real;
  }

  lemma ScaledBelow(y0: real, y1: real, radix: nat, q: nat)
    requires radix > 0 && y0 == radix as real * y1 && y0 < 2.0 * (radix * q) as real
    ensures y1 <= (2 * q) as real
  {
    var b := radix as real;
    assert (radix * q) as real == b * q as real;
    assert (2 * q) as real == 2.0 * q as real;
    if y1 > 2.0 * q as real {
      RMulStrict(2.0 * q as real, y1, b);
    }
  }

  lemma GuessIs(radix: nat, e: int)
    requires IsRadix(radix) && -2047 <= e <= 2049
    ensures Guess(radix, e, 1 + MulLog2Radix(e - 1, radix))
  {
    hide MulLog2Radix, Exp;
    MulLog2RadixIsFloor(e - 1, radix);
  }

  /** The double handed to the printer: normalised, with the value x. */
  ghost predicate Source(m: nat, e: int, x: real) {
    && TWO52 <= m < TWO53 && -1073 <= e <= 1024
    && x == m as real * Exp(2, e - 53)
    && (e < -1021 ==> Pow(2, -1021 - e) > 0 && m % Pow(2, -1021 - e) == 0)
  }

  lemma SourceBinade(m: nat, e: int, x: real)
    requires Source(m, e, x)
    ensures Binade(x, e)
  {
    hide Exp, Pow;
    TwoPow53();
    ExpIsPow(2, 52);
    ExpIsPow(2, 53);
    ExpPos(2, e - 53);
    ExpAdd(2, 52, e - 53);
    ExpAdd(2, 53, e - 53);
    CompareProducts2(Exp(2, 52), m as real, Exp(2, e - 53), Exp(2, e - 1), x);
    CompareProducts2(Exp(2, 53), m as real, Exp(2, e - 53), Exp(2, e), x);
  }

  /** The two orders of scaling give the same real. */
  lemma ScalingOrder(m: nat, e: int, x: real, radix: nat, k: int, p: int, ee: int, a: real, y: real)
    requires IsRadix(radix) && x == m as real * Exp(2, e - 53) && k == p - ee
    requires a == m as real * Exp(radix, k) && y == a * Exp(2, e - 53)
    ensures y == Digits(x, radix, p, ee)
  {
    hide Exp;
    DigitsIs(x, radix, p, ee);
    SwapFactor(a, m as real, Exp(radix, k), Exp(2, e - 53), x);
  }

  // ----- fixed format -----

  /** radix^p as a big number. */
  method RadixPower(a: Mpb, radix: nat, p: nat)
    requires IsRadix(radix)
    modifies a
    ensures Normal(a.tab) && Value(a.tab) == Pow(radix, p)
  {
    hide Exp, Pow, Value, Rounds, Holds, IsRounded, OddPart, Ctz;
    var powShift;
    ghost var n, d;
    ghost var top := Exp(radix, p);
    a.SetU64(1);
    powShift, n, d := MulPow(a, OddPart(radix), Ctz(radix), p, false, 0, top);
    ghost var v := Value(a.tab);
    assert powShift <= 0 by { MulUp(0, p, 0, Ctz(radix)); }
    a.ShrRound(powShift, TowardsZero);
    HoldsShiftRounded(v, top, powShift, n, d, powShift, top, Value(a.tab), TowardsZero);
    ExpIsPow(radix, p);
    RoundsInteger(Pow(radix, p), TowardsZero);
    RoundsUnique(top, Value(a.tab), Pow(radix, p), TowardsZero);
  }

  /** round(x * radix^(p - ee)). */
  method Mantissa(tmp: Mpb, m: nat, e: int, radix: nat, p: nat, ee: int, mode: Mode, ghost x: real)
    requires IsRadix(radix) && Source(m, e, x)
    modifies tmp
    ensures Normal(tmp.tab) && Rounds(Digits(x, radix, p, ee), Value(tmp.tab), mode)
  {
    hide Exp, Pow, Value, Rounds, Digits, OddPart, Ctz;
    ghost var a := m as real * Exp(radix, p - ee);
    ghost var y := a * Exp(2, e - 53);
    ScalingOrder(m, e, x, radix, p - ee, p, ee, a, y);
    MulPowRound(tmp, m, e - 53, OddPart(radix), Ctz(radix), p - ee, mode, a, y);
  }

  /** P significant digits, rounded to nearest with ties away from zero, and the exponent. */
  method FixedDigits(tmp: Mpb, mantMax: Mpb, m: nat, e: int, radix: nat, p: nat, ghost x: real) returns (ee: int)
    requires IsRadix(radix) && p >= 1 && Source(m, e, x) && tmp != mantMax
    modifies tmp, mantMax
    ensures Normal(tmp.tab) && Rounds(Digits(x, radix, p, ee), Value(tmp.tab), NearestAway)
    ensures Pow(radix, p - 1) <= Value(tmp.tab) < Pow(radix, p)
    ensures 0 <= ee - (1 + MulLog2Radix(e - 1, radix)) <= 1
  {
    hide Exp, Pow, Value, Rounds, Digits, Guess, Binade, MulLog2Radix;
    SourceBinade(m, e, x);
    GuessIs(radix, e);
    ghost var e0 := 1 + MulLog2Radix(e - 1, radix);
    ghost var f0: nat := 0;
    RadixPower(mantMax, radix, p);
    ee := 1 + MulLog2Radix(e - 1, radix);
    while true
      invariant e0 <= ee <= e0 + 1 && Normal(mantMax.tab) && Value(mantMax.tab) == Pow(radix, p)
      invariant ee > e0 ==> Rounds(Digits(x, radix, p, e0), f0, NearestAway) && f0 >= Pow(radix, p)
      decreases e0 + 1 - ee
    {
      Mantissa(tmp, m, e, radix, p, ee, NearestAway, x);
      Settled(x, radix, e, e0, ee, p, f0, Value(tmp.tab), NearestAway);
      var c := MpbCmp(tmp.tab, mantMax.tab);
      if c < 0 {
        break;
      }
      f0 := Value(tmp.tab);
      ee := ee + 1;
    }
  }

  /** The exponent loop: at least p digits, and not more at the second exponent. */
  lemma Settled(x: real, radix: nat, e: int, e0: int, ee: int, p: nat, f0: nat, f: nat, mode: Mode)
    requires IsRadix(radix) && Guess(radix, e, e0) && Binade(x, e) && p >= 1 && mode != TowardsZero
    requires e0 <= ee <= e0 + 1 && Rounds(Digits(x, radix, p, ee), f, mode)
    requires ee > e0 ==> Rounds(Digits(x, radix, p, e0), f0, mode) && f0 >= Pow(radix, p)
    ensures f >= Pow(radix, p - 1) && (ee > e0 ==> f < Pow(radix, p)) && f <= 2 * Pow(radix, p)
  {
    hide Exp, Pow, Rounds, Digits, Guess, Binade;
    if ee > e0 {
      Corrected(x, radix, e, e0, p, f0, f, mode);
    } else {
      DigitsLower(x, radix, e, e0, p);
      RoundsMonotone(Digits(x, radix, p, e0), f, mode, Pow(radix, p - 1));
      DigitsUpper(x, radix, e, e0, p);
      RoundsMonotone(Digits(x, radix, p, e0), f, mode, 2 * Pow(radix, p));
    }
  }

  // ----- reading back -----

  /** The units of the last place of a source double. */
  lemma SourceUnits(m: nat, e: int, x: real) returns (f: nat)
    requires Source(m, e, x)
    ensures x == f as real * Exp(2, LastPlace(e)) && Units(x, e) == f as real
    ensures e >= -1021 ==> f == m
  {
    hide Exp, Pow;
    var lp := LastPlace(e);
    if e >= -1021 {
      f := m;
    } else {
      f := m / Pow(2, -1021 - e);
      DivPositive(m, Pow(2, -1021 - e));
      Regrid(m, f, -1021 - e, e - 53, x);
    }
    ExpInverse(2, lp);
    UnitsOf(x, e);
    ProductTail(x, f as real, Exp(2, lp), Exp(2, -lp), 1.0);
  }

  lemma Regrid(m: nat, f: nat, k: nat, a: int, x: real)
    requires m == f * Pow(2, k) && x == m as real * Exp(2, a)
    ensures x == f as real * Exp(2, a + k)
  {
    hide Exp, Pow;
    ProductOfCasts(f, Pow(2, k));
    ExpIsPow(2, k);
    ExpAdd(2, k, a);
    ProductTail(m as real, f as real, Exp(2, k), Exp(2, a), Exp(2, a + k));
  }

  /** A real close to a double rounds to it: within half a unit, and within a quarter below a power of two. */
  lemma CloseRounds(m: nat, e: int, x: real, y: real)
    requires Source(m, e, x)
    requires var u := Exp(2, LastPlace(e)); x - 0.5 * u < y < x + 0.5 * u
    requires y < x && m == TWO52 ==> y >= x - 0.25 * Exp(2, LastPlace(e))
    ensures RoundsToDouble(y, m, e, NearestEven)
  {
    hide Exp, Pow, Source, RoundsToDouble;
    SourceBinade(m, e, x);
    var f := SourceUnits(m, e, x);
    var lp := LastPlace(e);
    if y >= Exp(2, e - 1) {
      SameBinade(m, e, x, y, f);
    } else {
      LowerBinade(m, e, x, y, f);
    }
  }

  /** The double just below a power of two is a unit away from it. */
  lemma BelowPower(x: real, f: nat, lp: int, ex: int)
    requires ex >= lp && x == f as real * Exp(2, lp)
    ensures x < Exp(2, ex) ==> x + Exp(2, lp) <= Exp(2, ex)
    ensures x > Exp(2, ex) ==> x >= Exp(2, ex) + Exp(2, lp)
    ensures x == Exp(2, ex) ==> f == Pow(2, ex - lp)
  {
    hide Exp, Pow;
    var u, k := Exp(2, lp), Pow(2, ex - lp);
    ExpPos(2, lp);
    ExpIsPow(2, ex - lp);
    ExpAdd(2, ex - lp, lp);
    GridOrder(f, k, u, x, Exp(2, ex));
  }

  /** Multiples of a unit that differ do so by at least a unit. */
  lemma GridOrder(f: nat, k: nat, u: real, x: real, w: real)
    requires u > 0.0 && x == f as real * u && w == k as real * u
    ensures x < w ==> x + u <= w
    ensures x > w ==> x >= w + u
    ensures x == w ==> f == k
  {
    if f < k {
      CompareProducts2(f as real + 1.0, k as real, u, x + u, w);
    } else if f > k {
      CompareProducts2(k as real + 1.0, f as real, u, w + u, x);
    }
  }

  lemma SameBinade(m: nat, e: int, x: real, y: real, f: nat)
    requires Source(m, e, x) && Binade(x, e) && x == f as real * Exp(2, LastPlace(e)) && Units(x, e) == f as real
    requires var u := Exp(2, LastPlace(e)); x - 0.5 * u < y < x + 0.5 * u
    requires y >= Exp(2, e - 1)
    ensures RoundsToDouble(y, m, e, NearestEven)
  {
    hide Exp, Pow;
    var lp, u := LastPlace(e), Exp(2, LastPlace(e));
    ExpPos(2, lp);
    BelowPower(x, f, lp, e);
    UnitsClose(x, y, e, f as real, u, 0.5);
    RoundedIntro(y, e, f, m, e, NearestEven);
  }

  /** Distances in units of the last place. */
  lemma UnitsClose(x: real, y: real, ex: int, f: real, u: real, c: real)
    requires u == Exp(2, LastPlace(ex)) && x == f * u
    ensures x - c * u < y ==> f - c < Units(y, ex)
    ensures x - c * u <= y ==> f - c <= Units(y, ex)
    ensures y < x + c * u ==> Units(y, ex) < f + c
  {
    hide Exp;
    ExpPos(2, LastPlace(ex));
    UnitsBack(y, ex);
    var z := Units(y, ex);
    assert (f - c) * u == x - c * u && (f + c) * u == x + c * u;
    CompareProducts2(f - c, z, u, x - c * u, y);
    CompareProducts2(z, f - c, u, y, x - c * u);
    CompareProducts2(f + c, z, u, x + c * u, y);
  }

  /** Below a power of two the last place may be half as large. */
  lemma LowerBinade(m: nat, e: int, x: real, y: real, f: nat)
    requires Source(m, e, x) && Binade(x, e) && x == f as real * Exp(2, LastPlace(e)) && Units(x, e) == f as real
    requires var u := Exp(2, LastPlace(e)); x - 0.5 * u < y < x + 0.5 * u
    requires y < Exp(2, e - 1)
    requires m == TWO52 ==> y >= x - 0.25 * Exp(2, LastPlace(e))
    ensures RoundsToDouble(y, m, e, NearestEven)
  {
    hide Exp, Pow;
    var lp, u := LastPlace(e), Exp(2, LastPlace(e));
    ExpPos(2, lp);
    BelowPower(x, f, lp, e - 1);
    assert x == Exp(2, e - 1);
    PowerOfTwoMantissa(m, e, x);
    HalfBinade(e, u);
    assert Binade(y, e - 1);
    SourceValue(m, e, x);
    if e <= -1021 {
      assert LastPlace(e - 1) == lp;
      UnitsClose(x, y, e - 1, f as real, u, 0.5);
      RoundedIntro(y, e - 1, f, m, e, NearestEven);
    } else {
      HalfUnits(m, e, x, y, f, u, Exp(2, lp - 1));
    }
  }

  lemma HalfUnits(m: nat, e: int, x: real, y: real, f: nat, u: real, v: real)
    requires e > -1021 && Binade(y, e - 1) && x == m as real * Exp(2, e - 53) && m == TWO52
    requires u == Exp(2, LastPlace(e)) && v == Exp(2, LastPlace(e) - 1) && x == f as real * u
    requires x - 0.25 * u <= y < x
    ensures RoundsToDouble(y, m, e, NearestEven)
  {
    hide Exp, Binade;
    ExpSucc(2, LastPlace(e) - 1);
    ExpPos(2, LastPlace(e) - 1);
    assert LastPlace(e - 1) == LastPlace(e) - 1;
    Doubled(x, f as real, u, v);
    UnitsClose(x, y, e - 1, (2 * f) as real, v, 0.5);
    RoundedIntro(y, e - 1, 2 * f, m, e, NearestEven);
  }

  lemma Doubled(x: real, f: real, u: real, v: real)
    requires x == f * u && u == 2.0 * v
    ensures x == (2.0 * f) * v
  {
  }

  lemma SourceValue(m: nat, e: int, x: real)
    requires Source(m, e, x)
    ensures x == m as real * Exp(2, e - 53)
  {
  }

  lemma PowerOfTwoMantissa(m: nat, e: int, x: real)
    requires Source(m, e, x) && x == Exp(2, e - 1)
    ensures m == TWO52
  {
    hide Exp, Pow;
    TwoPow53();
    ExpIsPow(2, 52);
    ExpAdd(2, 52, e - 53);
    ExpPos(2, e - 53);
    SameScale(m as real, TWO52 as real, Exp(2, e - 53), Exp(2, e - 53));
  }

  /** Half a unit below a power of two stays in the next lower binade. */
  lemma HalfBinade(e: int, u: real)
    requires e >= -1073 && u == Exp(2, LastPlace(e))
    ensures Exp(2, e - 2) <= Exp(2, e - 1) - 0.5 * u
  {
    hide Exp;
    ExpSucc(2, e - 2);
    ExpSucc(2, e - 3);
    ExpUp(2, LastPlace(e), e - 1);
    ExpUp(2, LastPlace(e) - 1, e - 2);
    ExpSucc(2, LastPlace(e) - 1);
  }

  // ----- the first try of the free format -----

  /** The value of digits read back: f * radix^k. */
  ghost function Back(f: nat, radix: nat, k: int): real
    requires IsRadix(radix)
  {
    f as real * Exp(radix, k)
  }

  /** Reading back is off by at most half a unit of the last digit. */
  lemma BackError(x: real, radix: nat, p: int, ee: int, f: nat, mode: Mode)
    requires IsRadix(radix) && mode != TowardsZero && Rounds(Digits(x, radix, p, ee), f, mode)
    ensures var a := Exp(radix, ee - p); Back(f, radix, ee - p) - 0.5 * a <= x <= Back(f, radix, ee - p) + 0.5 * a
  {
    hide Exp, Rounds;
    var a, d, y := Exp(radix, ee - p), Digits(x, radix, p, ee), Back(f, radix, ee - p);
    ExpPos(radix, ee - p);
    ExpInverse(radix, p - ee);
    assert -(p - ee) == ee - p;
    RoundsClose(d, f, mode);
    ProductTail(d, x, Exp(radix, p - ee), a, 1.0);
    ScaledError(d, f as real, a, x, y);
  }

  lemma ScaledError(d: real, f: real, a: real, x: real, y: real)
    requires a > 0.0 && x == d * a && y == f * a && f - 0.5 <= d <= f + 0.5
    ensures y - 0.5 * a <= x <= y + 0.5 * a
  {
    assert (f - 0.5) * a == y - 0.5 * a && (f + 0.5) * a == y + 0.5 * a;
    CompareProducts2(f - 0.5, d, a, y - 0.5 * a, x);
    CompareProducts2(d, f + 0.5, a, x, y + 0.5 * a);
  }

  /** If a has at least 53 bits of digits above it and those are below 2^k, it is small. */
  lemma DigitUnit(a: real, q: nat, top: real, w: real, c: real)
    requires a > 0.0 && q >= TWO53 && top == a * q as real
    ensures top <= c * w * TWO53 as real ==> a <= c * w
    ensures top < c * w * TWO53 as real ==> a < c * w
  {
    CompareProducts2(TWO53 as real, q as real, a, TWO53 as real * a, q as real * a);
  }

  /** The last digit at the guessed exponent is at most half a unit of the double. */
  lemma GuessUnit(radix: nat, e: int, e0: int, p: nat, w: real)
    requires IsRadix(radix) && Guess(radix, e, e0) && p >= 1 && Pow(radix, p - 1) >= TWO53 && w == Exp(2, e - 53)
    ensures 0.0 < Exp(radix, e0 - p) <= 0.5 * w
  {
    hide Exp, Pow;
    var a := Exp(radix, e0 - p);
    ExpPos(radix, e0 - p);
    ExpAdd(radix, e0 - p, p - 1);
    ExpIsPow(radix, p - 1);
    BinadeUnit(e, w);
    DigitUnit(a, Pow(radix, p - 1), Exp(radix, e0 - 1), w, 0.5);
  }

  lemma BinadeUnit(e: int, w: real)
    requires w == Exp(2, e - 53)
    ensures Exp(2, e - 1) == TWO52 as real * w && Exp(2, e) == TWO53 as real * w && w > 0.0
  {
    hide Exp, Pow;
    TwoPow53();
    ExpPos(2, e - 53);
    ExpIsPow(2, 52);
    ExpIsPow(2, 53);
    ExpAdd(2, 52, e - 53);
    ExpAdd(2, 53, e - 53);
  }

  /** A mantissa that reached radix^p at the guess means that radix^e0 is below 2^e. */
  lemma GuessBelow(m: nat, e: int, x: real, radix: nat, e0: int, p: nat, f0: nat, w: real, mode: Mode)
    requires Source(m, e, x) && IsRadix(radix) && mode != TowardsZero && w == Exp(2, e - 53)
    requires 0.0 < Exp(radix, e0 - p) <= 0.5 * w
    requires Rounds(Digits(x, radix, p, e0), f0, mode) && f0 >= Pow(radix, p)
    ensures Exp(radix, e0) < Exp(2, e)
  {
    hide Exp, Pow, Rounds, Digits, Source;
    var a, r := Exp(radix, e0 - p), Pow(radix, p);
    BackError(x, radix, p, e0, f0, mode);
    ExpAdd(radix, p, e0 - p);
    ExpIsPow(radix, p);
    BackAtLeast(f0, r, radix, e0 - p);
    BinadeUnit(e, w);
    SourceValue(m, e, x);
    SourceBelow(m, e, x, w);
  }

  lemma BackAtLeast(f: nat, q: nat, radix: nat, k: int)
    requires IsRadix(radix) && f >= q
    ensures Back(f, radix, k) >= q as real * Exp(radix, k)
  {
    hide Exp;
    ExpPos(radix, k);
    CompareProducts2(q as real, f as real, Exp(radix, k), q as real * Exp(radix, k), Back(f, radix, k));
  }

  lemma SourceBelow(m: nat, e: int, x: real, w: real)
    requires Source(m, e, x) && w == Exp(2, e - 53)
    ensures x <= (TWO53 as real - 1.0) * w
  {
    hide Exp, Pow;
    ExpPos(2, e - 53);
    RMulUp(m as real, TWO53 as real - 1.0, w);
  }

  /** The digits of the first try read back as the double that was printed. */
  lemma FirstTry(m: nat, e: int, x: real, radix: nat, e0: int, ee: int, p: nat, f0: nat, f: nat)
    requires Source(m, e, x) && IsRadix(radix) && Guess(radix, e, e0) && p >= 1 && Pow(radix, p - 1) >= TWO53
    requires e0 <= ee <= e0 + 1 && Rounds(Digits(x, radix, p, ee), f, NearestEven)
    requires ee > e0 ==> Rounds(Digits(x, radix, p, e0), f0, NearestEven) && f0 >= Pow(radix, p)
    ensures RoundsToDouble(Back(f, radix, ee - p), m, e, NearestEven)
  {
    hide Exp, Pow, Rounds, Digits, Source, Guess, Back, RoundsToDouble, Binade;
    var w, a, y := Exp(2, e - 53), Exp(radix, ee - p), Back(f, radix, ee - p);
    SourceBinade(m, e, x);
    GuessUnit(radix, e, e0, p, w);
    BackError(x, radix, p, ee, f, NearestEven);
    ExpUp(2, e - 53, LastPlace(e));
    if ee > e0 {
      GuessBelow(m, e, x, radix, e0, p, f0, w, NearestEven);
      NextUnit(radix, e, e0, p, w);
      Corrected(x, radix, e, e0, p, f0, f, NearestEven);
      if m == TWO52 {
        BackAbove(m, e, x, radix, e0, p, f);
      }
    }
    SourceLimits(m, e, x);
    CloseRounds(m, e, x, y);
  }

  lemma SourceLimits(m: nat, e: int, x: real)
    requires Source(m, e, x)
    ensures LastPlace(e) >= e - 53
  {
  }

  lemma NextUnit(radix: nat, e: int, e0: int, p: nat, w: real)
    requires IsRadix(radix) && p >= 1 && Pow(radix, p - 1) >= TWO53 && w == Exp(2, e - 53) && Exp(radix, e0) < Exp(2, e)
    ensures 0.0 < Exp(radix, e0 + 1 - p) < w
  {
    hide Exp, Pow;
    ExpPos(radix, e0 + 1 - p);
    ExpAdd(radix, e0 + 1 - p, p - 1);
    ExpIsPow(radix, p - 1);
    BinadeUnit(e, w);
    DigitUnit(Exp(radix, e0 + 1 - p), Pow(radix, p - 1), Exp(radix, e0), w, 1.0);
  }

  /** A power of two never reads back lower after the exponent was raised. */
  lemma BackAbove(m: nat, e: int, x: real, radix: nat, e0: int, p: nat, f: nat)
    requires Source(m, e, x) && m == TWO52 && IsRadix(radix) && Guess(radix, e, e0) && p >= 1 && f >= Pow(radix, p - 1)
    ensures Back(f, radix, e0 + 1 - p) >= x
  {
    hide Exp, Pow;
    BackAtLeast(f, Pow(radix, p - 1), radix, e0 + 1 - p);
    ExpAdd(radix, p - 1, e0 + 1 - p);
    ExpIsPow(radix, p - 1);
    BinadeUnit(e, Exp(2, e - 53));
  }

  // ----- free format -----

  /** `x` rounded half to even to `p` digits, at the smallest exponent at which that stays below radix^p. */
  ghost predicate Candidate(x: real, radix: nat, p: nat, mant: nat, ee: int)
    requires IsRadix(radix)
  {
    && Rounds(Digits(x, radix, p, ee), mant, NearestEven) && mant < Pow(radix, p)
    && forall k: int, f: nat :: k < ee && Rounds(Digits(x, radix, p, k), f, NearestEven) ==> f >= Pow(radix, p)
  }

  /** There is one candidate of each length. */
  lemma CandidateUnique(x: real, radix: nat, p: nat, f: nat, j: int, g: nat, k: int)
    requires IsRadix(radix) && Candidate(x, radix, p, f, j) && Candidate(x, radix, p, g, k)
    ensures f == g && j == k
  {
    hide Rounds, Digits, Pow;
    assert j == k;
    RoundsUnique(Digits(x, radix, p, j), f, g, NearestEven);
  }

  lemma DigitsUp(x: real, radix: nat, p: int, j: int, k: int)
    requires IsRadix(radix) && x >= 0.0 && j <= k
    ensures Digits(x, radix, p, k) <= Digits(x, radix, p, j)
  {
    hide Exp;
    ExpUp(radix, p - k, p - j);
    RMulUp(Exp(radix, p - k), Exp(radix, p - j), x);
  }

  /** The guess, corrected at most once, gives the candidate. */
  lemma IsCandidate(x: real, radix: nat, e: int, e0: int, ee: int, p: nat, f0: nat, mant: nat)
    requires IsRadix(radix) && Guess(radix, e, e0) && Binade(x, e) && p >= 1 && e0 <= ee <= e0 + 1
    requires Rounds(Digits(x, radix, p, ee), mant, NearestEven) && mant < Pow(radix, p)
    requires ee > e0 ==> Rounds(Digits(x, radix, p, e0), f0, NearestEven) && f0 >= Pow(radix, p)
    ensures Candidate(x, radix, p, mant, ee)
  {
    hide Exp, Pow, Rounds, Digits, Guess;
    BinadePositive(x, e);
    forall k: int, f: nat | k < ee && Rounds(Digits(x, radix, p, k), f, NearestEven) ensures f >= Pow(radix, p) {
      DigitsUp(x, radix, p, k, ee - 1);
      if ee > e0 {
        RoundsOrder(Digits(x, radix, p, e0), f0, Digits(x, radix, p, k), f);
      } else {
        DigitsLower(x, radix, e, e0, p);
        DigitsNext(x, radix, p, e0 - 1);
        Successor(radix, p);
        ScaledUp(Digits(x, radix, p, e0), Pow(radix, p - 1), radix, Pow(radix, p));
        RoundsMonotone(Digits(x, radix, p, k), f, NearestEven, Pow(radix, p));
      }
    }
  }

  lemma ScaledUp(y: real, a: nat, b: nat, ab: nat)
    requires y >= a as real && ab == a * b
    ensures b as real * y >= ab as real
  {
    ProductOfCasts(a, b);
    RMulUp(a as real, y, b as real);
  }

  lemma BinadePositive(x: real, e: int)
    requires Binade(x, e)
    ensures x > 0.0
  {
    ExpPos(2, e - 1);
  }

  /** Without its trailing zero a candidate is the candidate of the next smaller length. */
  lemma CandidateStripped(x: real, radix: nat, p: nat, mant: nat, ee: int)
    requires IsRadix(radix) && p >= 2 && Candidate(x, radix, p, mant, ee) && mant % radix == 0
    requires Pow(radix, p - 1) <= mant
    ensures Candidate(x, radix, p - 1, mant / radix, ee)
  {
    hide Exp, Pow, Rounds;
    var q, s := mant / radix, p - 1;
    assert mant == q * radix;
    Successor(radix, p);
    CancelLt(q, Pow(radix, s), radix);
    ShorterDigits(x, radix, p, ee);
    DigitsNext(x, radix, p, ee);
    StrippedRounds(Digits(x, radix, p, ee), Digits(x, radix, p, ee + 1), mant, radix, q);
    forall k: int, f: nat | k < ee && Rounds(Digits(x, radix, s, k), f, NearestEven) ensures f >= Pow(radix, s) {
      ShorterDigits(x, radix, p, k);
      if k + 1 == ee {
        RoundsUnique(Digits(x, radix, p, ee), f, mant, NearestEven);
      } else {
        PowUp(radix, s, p);
      }
    }
  }

  /** One digit less is one exponent more. */
  lemma ShorterDigits(x: real, radix: nat, p: int, ee: int)
    requires IsRadix(radix)
    ensures Digits(x, radix, p - 1, ee) == Digits(x, radix, p, ee + 1)
  {
    hide Exp;
    assert p - 1 - ee == p - (ee + 1);
  }

  lemma StrippedRounds(y: real, z: real, mant: nat, radix: nat, q: nat)
    requires radix >= 2 && y == radix as real * z && mant == q * radix && Rounds(y, mant, NearestEven)
    ensures Rounds(z, q, NearestEven)
  {
    var r, f := radix as real, q as real;
    ProductOfCasts(q, radix);
    assert (f - 0.5) * r == mant as real - 0.5 * r && (f + 0.5) * r == mant as real + 0.5 * r;
    if z <= f - 0.5 {
      RMulUp(z, f - 0.5, r);
    } else if z >= f + 0.5 {
      RMulUp(f + 0.5, z, r);
    }
  }

  /** The candidate of `p` digits reads back as (m, e). */
  ghost predicate Survives(x: real, radix: nat, p: nat, m: nat, e: int)
    requires IsRadix(radix)
  {
    exists f: nat, k: int :: Candidate(x, radix, p, f, k) && RoundsToDouble(Back(f, radix, k - p), m, e, NearestEven)
  }

  /** What the search finds: the last candidate, in descending order of length, before one that does not read back. */
  ghost predicate Chosen(x: real, radix: nat, mant: nat, p: nat, ee: int, m: nat, e: int)
    requires IsRadix(radix)
  {
    && 1 <= p <= DTOA_MAX_DIGITS[radix - 2] && Candidate(x, radix, p, mant, ee)
    && AllSurvive(x, radix, p, DTOA_MAX_DIGITS[radix - 2], m, e)
    && (p > 1 ==> !Survives(x, radix, p - 1, m, e))
  }

  /** This determines the digits. */
  lemma ChosenUnique(x: real, radix: nat, f: nat, p: nat, j: int, g: nat, q: nat, k: int, m: nat, e: int)
    requires IsRadix(radix) && Chosen(x, radix, f, p, j, m, e) && Chosen(x, radix, g, q, k, m, e)
    ensures f == g && p == q && j == k
  {
    hide Survives, Candidate;
    assert p == q;
    CandidateUnique(x, radix, p, f, j, g, k);
  }

  /** The mantissa of p digits and its exponent: the inner loop of the search. */
  method TryDigits(tmp: Mpb, m: nat, e: int, radix: nat, p: nat, ghost x: real)
    returns (mant: nat, ee: int, ghost e0: int, ghost f0: nat)
    requires IsRadix(radix) && 1 <= p <= DTOA_MAX_DIGITS[radix - 2] && Source(m, e, x)
    modifies tmp
    ensures Rounds(Digits(x, radix, p, ee), mant, NearestEven) && Pow(radix, p - 1) <= mant < Pow(radix, p) < TWO64
    ensures Guess(radix, e, e0) && e0 <= ee <= e0 + 1
    ensures ee > e0 ==> Rounds(Digits(x, radix, p, e0), f0, NearestEven) && f0 >= Pow(radix, p)
    ensures Candidate(x, radix, p, mant, ee)
  {
    hide Exp, Pow, Value, Rounds, Digits, Guess, Binade, MulLog2Radix, DTOA_MAX_DIGITS, Candidate;
    SourceBinade(m, e, x);
    GuessIs(radix, e);
    e0 := 1 + MulLog2Radix(e - 1, radix);
    f0 := 0;
    MantissaFits(radix, p);
    var mantMax := PowUi(radix, p);
    ee := 1 + MulLog2Radix(e - 1, radix);
    while true
      invariant e0 <= ee <= e0 + 1
      invariant ee > e0 ==> Rounds(Digits(x, radix, p, e0), f0, NearestEven) && f0 >= Pow(radix, p)
      decreases e0 + 1 - ee
    {
      Mantissa(tmp, m, e, radix, p, ee, NearestEven, x);
      Settled(x, radix, e, e0, ee, p, f0, Value(tmp.tab), NearestEven);
      mant := tmp.GetU64();
      if mant < mantMax {
        break;
      }
      f0 := mant;
      ee := ee + 1;
    }
    IsCandidate(x, radix, e, e0, ee, p, f0, mant);
  }

  lemma MantissaFits(radix: nat, p: nat)
    requires IsRadix(radix) && p <= DTOA_MAX_DIGITS[radix - 2]
    ensures 2 * Pow(radix, p) < TWO64 && p < BASE
  {
    hide Pow;
    MaxDigits(radix);
    PowUp(radix, p, DTOA_MAX_DIGITS[radix - 2]);
    assert DTOA_MAX_DIGITS[radix - 2] <= 54;
  }

  /** The candidate of `p` digits has the value `v`. */
  ghost predicate CandidateIs(x: real, radix: nat, p: nat, ee: int, v: real)
    requires IsRadix(radix)
  {
    exists f: nat :: Candidate(x, radix, p, f, ee) && Back(f, radix, ee - p) == v
  }

  ghost predicate CandidatesAre(x: real, radix: nat, p: nat, top: nat, ee: int, v: real)
    requires IsRadix(radix)
  {
    forall q :: p <= q <= top ==> CandidateIs(x, radix, q, ee, v)
  }

  /** Removes useless trailing zero digits; the candidates passed over have the same value. */
  method StripZeros(mant0: nat, radix: nat, p0: nat, ee: int, ghost x: real) returns (mant: nat, p: nat)
    requires IsRadix(radix) && 1 <= p0 && 0 < Pow(radix, p0 - 1) <= mant0 < Pow(radix, p0)
    requires Candidate(x, radix, p0, mant0, ee)
    ensures Candidate(x, radix, p, mant, ee)
    ensures CandidatesAre(x, radix, p, p0, ee, Back(mant0, radix, ee - p0))
    ensures 1 <= p <= p0 && 0 < Pow(radix, p - 1) <= mant < Pow(radix, p) && mant % radix != 0 && mant <= mant0
    ensures Back(mant, radix, ee - p) == Back(mant0, radix, ee - p0)
  {
    hide Pow, Back, Candidate, CandidateIs;
    mant, p := mant0, p0;
    ghost var v := Back(mant0, radix, ee - p0);
    CandidateHas(x, radix, p, mant, ee, v);
    while mant % radix == 0
      invariant Candidate(x, radix, p, mant, ee) && CandidatesAre(x, radix, p, p0, ee, v)
      invariant 1 <= p <= p0 && 0 < Pow(radix, p - 1) <= mant < Pow(radix, p) && mant <= mant0
      invariant Back(mant, radix, ee - p) == Back(mant0, radix, ee - p0)
      decreases mant
    {
      StripOne(mant, radix, p, ee - p);
      PositiveDigits(mant / radix, radix, p - 1);
      StillLong(mant, radix, p);
      CandidateStripped(x, radix, p, mant, ee);
      mant, p := mant / radix, p - 1;
      CandidateHas(x, radix, p, mant, ee, v);
    }
  }

  lemma CandidateHas(x: real, radix: nat, p: nat, mant: nat, ee: int, v: real)
    requires IsRadix(radix) && Candidate(x, radix, p, mant, ee) && Back(mant, radix, ee - p) == v
    ensures CandidateIs(x, radix, p, ee, v)
  {
  }

  /** Whether the candidate reads back depends on its value only. */
  lemma SurvivesIf(x: real, radix: nat, p: nat, ee: int, v: real, m: nat, e: int)
    requires IsRadix(radix) && CandidateIs(x, radix, p, ee, v)
    ensures Survives(x, radix, p, m, e) <==> RoundsToDouble(v, m, e, NearestEven)
  {
    hide Candidate, Back, RoundsToDouble;
    var f: nat :| Candidate(x, radix, p, f, ee) && Back(f, radix, ee - p) == v;
    if Survives(x, radix, p, m, e) {
      var g: nat, k: int :| Candidate(x, radix, p, g, k) && RoundsToDouble(Back(g, radix, k - p), m, e, NearestEven);
      CandidateUnique(x, radix, p, f, ee, g, k);
    }
  }

  lemma PositiveDigits(mant: nat, radix: nat, p: nat)
    requires 0 < mant < Pow(radix, p)
    ensures p >= 1
  {
  }

  lemma StripOne(mant: nat, radix: nat, p: nat, k: int)
    requires IsRadix(radix) && 0 < mant < Pow(radix, p) && mant % radix == 0 && p >= 1
    ensures 0 < mant / radix < mant && mant / radix < Pow(radix, p - 1)
    ensures Back(mant / radix, radix, k + 1) == Back(mant, radix, k)
  {
    hide Pow, Exp, Back;
    var q := mant / radix;
    DivPositive(mant, radix);
    assert mant == q * radix;
    Successor(radix, p);
    CancelLt(q, Pow(radix, p - 1), radix);
    ShorterMantissa(q, radix, mant);
    SameBack(q, radix, mant, k);
  }

  lemma StillLong(mant: nat, radix: nat, p: nat)
    requires IsRadix(radix) && p >= 2 && Pow(radix, p - 1) <= mant && mant % radix == 0
    ensures 0 < Pow(radix, p - 2) <= mant / radix
  {
    hide Pow;
    DivPositive(mant, radix);
    Successor(radix, p - 1);
    PowPos(radix, p - 2);
    CancelLe(Pow(radix, p - 2), mant / radix, radix);
  }

  lemma ShorterMantissa(q: nat, radix: nat, mant: nat)
    requires radix >= 2 && mant > 0 && mant == q * radix
    ensures 0 < q < mant
  {
    if q == 0 {
      assert false;
    }
    MulUp(q, q, 2, radix);
  }

  lemma SameBack(q: nat, radix: nat, mant: nat, k: int)
    requires IsRadix(radix) && mant == q * radix
    ensures Back(q, radix, k + 1) == Back(mant, radix, k)
  {
    hide Exp;
    ProductOfCasts(q, radix);
    ExpSucc(radix, k);
    SplitFactor(q as real, Exp(radix, k + 1), radix as real, Exp(radix, k), mant as real);
  }

  /** A mantissa of p digits with exponent ee that reads back as (m, e). */
  ghost predicate ReadsBack(mant: nat, radix: nat, p: nat, ee: int, m: nat, e: int)
    requires IsRadix(radix)
  {
    && p >= 1 && 0 < Pow(radix, p - 1) <= mant < Pow(radix, p) && mant % radix != 0
    && RoundsToDouble(Back(mant, radix, ee - p), m, e, NearestEven)
  }

  /** Whether the digits convert back to the double. */
  method Converts(tmp: Mpb, mant: nat, radix: nat, k: int, m: nat, e: int) returns (ok: bool)
    requires IsRadix(radix) && 0 < mant < TWO64 && m > 0
    modifies tmp
    ensures ok <==> RoundsToDouble(Back(mant, radix, k), m, e, NearestEven)
  {
    hide Exp, Pow, Value, Ctz, OddPart, RoundsToDouble;
    tmp.SetU64(mant);
    var m1, e1 := MulPowRoundToD(tmp, OddPart(radix), Ctz(radix), k, NearestEven, Back(mant, radix, k));
    ok := m1 == m && e1 == e;
    if !ok && RoundsToDouble(Back(mant, radix, k), m, e, NearestEven) {
      DoubleUnique(Back(mant, radix, k), m, e, m1, e1, NearestEven);
    }
  }

  /** The descending search: a mantissa without trailing zeros that reads back as the same double. */
  method FreeDigits(tmp: Mpb, m: nat, e: int, radix: nat, ghost x: real) returns (mant: nat, p: nat, ee: int)
    requires IsRadix(radix) && Source(m, e, x)
    modifies tmp
    ensures ReadsBack(mant, radix, p, ee, m, e) && p <= DTOA_MAX_DIGITS[radix - 2] && -1100 <= ee <= 1100
    ensures Chosen(x, radix, mant, p, ee, m, e)
  {
    hide Exp, Pow, Rounds, Digits, Guess, RoundsToDouble, Back, Source, Candidate, CandidateIs, Survives;
    MaxDigits(radix);
    SourceMantissa(m, e, x);
    var pMax := DTOA_MAX_DIGITS[radix - 2];
    var try: nat := pMax;
    mant, p, ee := 0, 0, 0;
    while true
      invariant 1 <= try <= pMax && (p == 0 ==> try == pMax)
      invariant p != 0 ==> ReadsBack(mant, radix, p, ee, m, e) && try == p - 1 < pMax && -1100 <= ee <= 1100
      invariant p != 0 ==> Candidate(x, radix, p, mant, ee) && AllSurvive(x, radix, p, pMax, m, e)
      decreases try
    {
      var mant1, e1;
      ghost var e0, f0;
      mant1, e1, e0, f0 := TryDigits(tmp, m, e, radix, try, x);
      GuessBound(radix, e, e0);
      PowPos(radix, try - 1);
      if p == 0 {
        FirstTry(m, e, x, radix, e0, e1, try, f0, mant1);
      }
      ghost var top := try;
      mant1, try := StripZeros(mant1, radix, try, e1, x);
      if p != 0 {
        var ok := Converts(tmp, mant1, radix, e1 - try, m, e);
        if !ok {
          SurvivesIf(x, radix, top, e1, Back(mant1, radix, e1 - try), m, e);
          break;
        }
      }
      MoreSurvive(x, radix, try, top, pMax, e1, Back(mant1, radix, e1 - try), m, e);
      mant, p, ee := mant1, try, e1;
      if try == 1 {
        break;
      }
      try := try - 1;
    }
  }

  ghost predicate AllSurvive(x: real, radix: nat, p: nat, pMax: nat, m: nat, e: int)
    requires IsRadix(radix)
  {
    forall q :: p <= q <= pMax ==> Survives(x, radix, q, m, e)
  }

  lemma MoreSurvive(x: real, radix: nat, p: nat, top: nat, pMax: nat, ee: int, v: real, m: nat, e: int)
    requires IsRadix(radix) && RoundsToDouble(v, m, e, NearestEven) && AllSurvive(x, radix, top + 1, pMax, m, e)
    requires CandidatesAre(x, radix, p, top, ee, v)
    ensures AllSurvive(x, radix, p, pMax, m, e)
  {
    hide CandidateIs, Survives, RoundsToDouble;
    forall q: nat | p <= q <= top ensures Survives(x, radix, q, m, e) {
      SurvivesIf(x, radix, q, ee, v, m, e);
    }
  }

  lemma GuessBound(radix: nat, e: int, e0: int)
    requires IsRadix(radix) && Guess(radix, e, e0) && -1073 <= e <= 1024
    ensures -1080 <= e0 <= 1080
  {
    hide Exp;
    if e0 > 1080 {
      BaseUp(radix, 0, e0 - 1);
      ExpUpStrict(2, e - 1, e0 - 1);
    } else if e0 < -1080 {
      BaseUp(radix, e0, 0);
      ExpUpStrict(2, e0, e - 1);
    }
  }

  lemma SourceMantissa(m: nat, e: int, x: real)
    requires Source(m, e, x)
    ensures m > 0 && -1073 <= e <= 1024
  {
  }
}
