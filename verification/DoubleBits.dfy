/** The 64-bit pattern of a double, without its sign: taking it apart and putting it together. */
module DoubleBits {
  import opened Powers
  import opened RealPowers
  import opened Rounding
  import opened Scaling
  import opened Doubles
  import opened Printing

  const INFINITE := 0x7ff0_0000_0000_0000

  /** The number a finite pattern stands for. */
  ghost function BitsValue(a: nat): real {
    var field, frac := a / TWO52, a % TWO52;
    if field == 0 then frac as real * Exp(2, -1074) else (TWO52 + frac) as real * Exp(2, field - 1075)
  }

  // ----- decoding -----

  /** The shift that brings the highest bit of a subnormal mantissa to bit 52. */
  function SubnormalShift(frac: nat): (l: nat)
    requires 0 < frac < TWO52
    ensures 1 <= l <= 52 && TWO52 <= frac * Pow(2, l) < TWO53
    decreases TWO53 - frac
  {
    if frac >= TWO52 / 2 then
      assert Pow(2, 1) == 2 by { PowSmall(2); }
      1
    else
      var l := SubnormalShift(2 * frac);
      assert frac * Pow(2, l + 1) == (2 * frac) * Pow(2, l) by { ShiftOnce(frac, l); }
      assert l + 1 <= 52 by { ShiftLimit(frac, l + 1); }
      l + 1
  }

  lemma ShiftOnce(frac: nat, l: nat)
    ensures frac * Pow(2, l + 1) == (2 * frac) * Pow(2, l)
  {
    assert Pow(2, l + 1) == 2 * Pow(2, l);
  }

  lemma ShiftLimit(frac: nat, l: nat)
    requires frac > 0 && frac * Pow(2, l) < TWO53
    ensures l <= 52
  {
    hide Pow;
    if l > 52 {
      PowUp(2, 53, l);
      TwoPow53();
      MulUp(1, frac, TWO53, Pow(2, l));
    }
  }

  /** Takes the pattern of a finite non-zero double apart into a normalised mantissa and an exponent. */
  function Decode(a: nat): (r: (nat, int))
    requires 0 < a < INFINITE
  {
    var field, frac := a / TWO52, a % TWO52;
    if field == 0 then
      var l := SubnormalShift(frac);
      (frac * Pow(2, l), 0 - (l - 1) - 1022)
    else (frac + TWO52, field - 1022)
  }

  /** Decoding keeps the value and gives a normalised mantissa. */
  lemma DecodeSource(a: nat)
    requires 0 < a < INFINITE
    ensures Source(Decode(a).0, Decode(a).1, BitsValue(a))
  {
    hide Exp, Pow, Source;
    var field, frac, x := a / TWO52, a % TWO52, BitsValue(a);
    if field == 0 {
      SubnormalSource(frac, SubnormalShift(frac), x);
    } else {
      NormalSource(frac + TWO52, field - 1022, x);
    }
  }

  lemma NormalSource(m: nat, e: int, x: real)
    requires TWO52 <= m < TWO53 && -1021 <= e <= 1024 && x == m as real * Exp(2, e - 53)
    ensures Source(m, e, x)
  {
  }

  lemma SubnormalSource(frac: nat, l: nat, x: real)
    requires 1 <= l <= 52 && TWO52 <= frac * Pow(2, l) < TWO53 && x == frac as real * Exp(2, -1074)
    ensures Source(frac * Pow(2, l), 0 - (l - 1) - 1022, x)
  {
    hide Exp, Pow;
    PowPos(2, l);
    DivExact(frac, Pow(2, l));
    OnGrid(frac, -1074, 0 - 1074 - l, x);
  }

  // ----- encoding -----

  /** Puts a rounded mantissa and exponent together. */
  function Assemble(m: nat, e: int): (a: nat) {
    if m == 0 then 0
    else if e > 1024 then INFINITE
    else if e < -1073 then 0
    else if e < -1021 then PowPos(2, -e - 1021); m / Pow(2, -e - 1021)
    else (e + 1022) * TWO52 + m % TWO52
  }

  /** A non-zero rounded double is never below the smallest subnormal. */
  lemma NotTooSmall(x: real, m: nat, e: int, mode: Mode)
    requires RoundsToDouble(x, m, e, mode) && m != 0
    ensures e >= -1073
  {
    hide Exp, Rounds, Units, Binade;
    var ex, f: nat :| RoundedAtBinade(x, ex, f, m, e, mode);
    GridMantissa(m, e, f, LastPlace(ex));
  }

  /** A non-zero multiple of the smallest unit is at least that unit. */
  lemma GridMantissa(m: nat, e: int, f: nat, lp: int)
    requires 0 < m < TWO53 && lp >= -1074 && m as real * Exp(2, e - 53) == f as real * Exp(2, lp)
    ensures e >= -1073
  {
    hide Exp;
    var v, w := Exp(2, e - 53), Exp(2, lp);
    ExpPos(2, e - 53);
    ExpPos(2, lp);
    BinadeUnit(e, v);
    if f == 0 {
      ZeroFactor(m as real, v);
    }
    CompareProducts2(TWO53 as real, m as real, v, Exp(2, e), m as real * v);
    CompareProducts2(1.0, f as real, w, w, f as real * w);
    ExpUp(2, -1074, lp);
    if e < -1073 {
      ExpUp(2, e, -1074);
    }
  }

  /** The subnormal mantissa is a multiple of the bits that encoding drops. */
  lemma SubnormalMultiple(m: nat, e: int, f: nat, lp: int, k: nat) returns (g: nat)
    requires lp >= -1074 && k == -1021 - e && m as real * Exp(2, e - 53) == f as real * Exp(2, lp)
    ensures m == g * Pow(2, k)
  {
    hide Exp, Pow;
    g := f * Pow(2, lp + 1074);
    var v, t := f as real * Exp(2, lp), Exp(2, e - 53);
    OnGrid(f, lp, -1074, v);
    ExpIsPow(2, k);
    ExpAdd(2, k, e - 53);
    ExpPos(2, e - 53);
    ProductOfCasts(g, Pow(2, k));
    SplitFactor(g as real, Exp(2, -1074), Exp(2, k), t, (g * Pow(2, k)) as real);
    SameScale(m as real, (g * Pow(2, k)) as real, t, t);
  }

  /** Encoding keeps the value of every double that is not too large. */
  lemma AssembleValue(x: real, m: nat, e: int, mode: Mode)
    requires RoundsToDouble(x, m, e, mode) && e <= 1024
    ensures Assemble(m, e) < INFINITE && BitsValue(Assemble(m, e)) == DoubleValue(m, e)
  {
    hide Exp, Rounds, Units, Binade, Pow;
    var ex, f: nat :| RoundedAtBinade(x, ex, f, m, e, mode);
    if m != 0 {
      GridMantissa(m, e, f, LastPlace(ex));
      if e < -1021 {
        var k := -1021 - e;
        var g := SubnormalMultiple(m, e, f, LastPlace(ex), k);
        AssembleSubnormal(m, e, g, k);
      } else {
        AssembleNormal(m, e);
      }
    } else {
      ZeroBits(e);
    }
  }

  lemma ZeroBits(e: int)
    ensures BitsValue(0) == 0.0 && DoubleValue(0, e) == 0.0
  {
    ExpPos(2, e - 53);
  }

  lemma AssembleNormal(m: nat, e: int)
    requires TWO52 <= m < TWO53 && -1021 <= e <= 1024
    ensures Assemble(m, e) < INFINITE && BitsValue(Assemble(m, e)) == DoubleValue(m, e)
  {
    hide Exp;
    assert m % TWO52 == m - TWO52;
    DivUnique(Assemble(m, e), TWO52, e + 1022, m - TWO52);
  }

  lemma AssembleSubnormal(m: nat, e: int, g: nat, k: nat)
    requires TWO52 <= m < TWO53 && -1073 <= e < -1021 && k == -1021 - e && m == g * Pow(2, k)
    ensures Assemble(m, e) < INFINITE && BitsValue(Assemble(m, e)) == DoubleValue(m, e)
  {
    hide Exp, Pow;
    PowPos(2, k);
    DivExact(g, Pow(2, k));
    assert Assemble(m, e) == g;
    assert g < TWO52 by {
      PowUp(2, 1, k);
      PowSmall(2);
      MulUp(g, g, 2, Pow(2, k));
    }
    DivUnique(g, TWO52, 0, g);
    Regrid(m, g, k, e - 53, DoubleValue(m, e));
  }

  /** Encoding undoes decoding. */
  lemma DecodeAssemble(a: nat)
    requires 0 < a < INFINITE
    ensures Assemble(Decode(a).0, Decode(a).1) == a
  {
    hide Pow;
    var field, frac := a / TWO52, a % TWO52;
    if field == 0 {
      var l := SubnormalShift(frac);
      PowPos(2, l);
      DivExact(frac, Pow(2, l));
    } else {
      assert (frac + TWO52) % TWO52 == frac;
    }
  }

  // ----- the specification of reading -----

  /**
   The pattern `a` is the non-negative real `x` rounded to nearest, ties to even, with gradual underflow and
   overflow.
   */
  ghost predicate CorrectBits(a: nat, x: real) {
    if x >= Exp(2, 1024) - Exp(2, 970) then a == INFINITE
    else if x <= Exp(2, -1075) then a == 0
    else
      a < INFINITE && exists m: nat, e: int {:trigger DoubleValue(m, e)} ::
        RoundsToDouble(x, m, e, NearestEven) && BitsValue(a) == DoubleValue(m, e)
  }

  lemma LargeExponent(x: real, m: nat, e: int, ex: int, f: nat)
    requires RoundedAtBinade(x, ex, f, m, e, NearestEven)
    ensures x >= Exp(2, 1024) - Exp(2, 970) <==> m != 0 && e > 1024
  {
    hide Exp, Rounds, Units, Binade, Pow;
    var v := DoubleValue(m, e);
    if m != 0 {
      ExponentOfValue(m, e);
    } else {
      ZeroBits(e);
    }
    ExpPos(2, 1024);
    ExpPos(2, 970);
    assert v >= Exp(2, 1024) <==> m != 0 && e > 1024;
    if ex > 1024 {
      AboveBinade(x, ex, f, m, e);
    } else if ex == 1024 {
      TopBinade(x, f, m, e);
    } else {
      UnderBinade(x, ex, f, m, e);
    }
  }

  lemma ExponentOfValue(m: nat, e: int)
    requires TWO52 <= m < TWO53
    ensures DoubleValue(m, e) >= Exp(2, 1024) <==> e > 1024
  {
    hide Exp;
    var w := Exp(2, e - 53);
    BinadeUnit(e, w);
    CompareProducts2(TWO52 as real, m as real, w, Exp(2, e - 1), DoubleValue(m, e));
    CompareProducts2(TWO53 as real, m as real, w, Exp(2, e), DoubleValue(m, e));
    if e > 1024 {
      ExpUp(2, 1024, e - 1);
    } else {
      ExpUp(2, e, 1024);
    }
  }

  lemma AboveBinade(x: real, ex: int, f: nat, m: nat, e: int)
    requires RoundedAtBinade(x, ex, f, m, e, NearestEven) && ex > 1024
    ensures x >= Exp(2, 1024) && DoubleValue(m, e) >= Exp(2, 1024)
  {
    hide Exp, Rounds, Units, Pow;
    ExpUp(2, 1024, ex - 1);
    UnitsBound(x, ex, 53, f, NearestEven);
    TwoPow53();
    BinadeUnit(ex, Exp(2, ex - 53));
    ExpPos(2, ex - 53);
    CompareProducts2(TWO52 as real, f as real, Exp(2, ex - 53), Exp(2, ex - 1), DoubleValue(m, e));
  }

  lemma UnderBinade(x: real, ex: int, f: nat, m: nat, e: int)
    requires RoundedAtBinade(x, ex, f, m, e, NearestEven) && ex < 1024
    ensures x < Exp(2, 1024) - Exp(2, 970) && DoubleValue(m, e) < Exp(2, 1024)
  {
    hide Exp, Rounds, Units, Pow;
    ExpUp(2, ex, 1023);
    ExpUpStrict(2, 970, 1023);
    ExpSucc(2, 1023);
    var lp := LastPlace(ex);
    UnitsBound(x, ex, ex - lp, f, NearestEven);
    ExpPos(2, lp);
    ExpPos(2, 1023);
    if ex >= lp {
      ExpIsPow(2, ex - lp);
      ExpAdd(2, ex - lp, lp);
      CompareProducts2(f as real, Pow(2, ex - lp) as real, Exp(2, lp), DoubleValue(m, e), Exp(2, ex));
    } else {
      assert DoubleValue(m, e) == 0.0;
    }
  }

  lemma TopBinade(x: real, f: nat, m: nat, e: int)
    requires RoundedAtBinade(x, 1024, f, m, e, NearestEven)
    ensures x >= Exp(2, 1024) - Exp(2, 970) <==> DoubleValue(m, e) >= Exp(2, 1024)
  {
    hide Exp, Pow, Binade;
    var u, z := Exp(2, 971), Units(x, 1024);
    BinadeUnit(1024, u);
    ExpSucc(2, 970);
    UnitsBack(x, 1024);
    UnitsBound(x, 1024, 53, f, NearestEven);
    TwoPow53();
    CompareProducts2(TWO53 as real - 0.5, z, u, Exp(2, 1024) - Exp(2, 970), x);
    CompareProducts2(TWO53 as real, f as real, u, Exp(2, 1024), DoubleValue(m, e));
    assert f < TWO53 ==> f as real + 1.0 <= TWO53 as real;
  }

  /** Rounding and encoding together give the correct pattern. */
  lemma AssembleCorrect(x: real, m: nat, e: int)
    requires RoundsToDouble(x, m, e, NearestEven)
    ensures CorrectBits(Assemble(m, e), x)
  {
    hide Exp, Rounds, Units, Binade, Pow, BitsValue, DoubleValue;
    var ex, f: nat :| RoundedAtBinade(x, ex, f, m, e, NearestEven);
    LargeExponent(x, m, e, ex, f);
    if m == 0 || e <= 1024 {
      var e' := if m == 0 then 0 else e;
      ZeroExponent(x, m, e, e');
      AssembleValue(x, m, e', NearestEven);
      if x <= Exp(2, -1075) {
        TinyRoundsToZero(x, m, e, ex, f);
      }
      assert RoundsToDouble(x, m, e', NearestEven) && BitsValue(Assemble(m, e)) == DoubleValue(m, e');
    }
  }

  /** The exponent of zero does not matter. */
  lemma ZeroExponent(x: real, m: nat, e: int, e': int)
    requires RoundsToDouble(x, m, e, NearestEven) && (m != 0 ==> e' == e)
    ensures RoundsToDouble(x, m, e', NearestEven)
  {
    hide Exp, Rounds, Units, Binade, Pow;
    var ex, f: nat :| RoundedAtBinade(x, ex, f, m, e, NearestEven);
    RoundedIntro(x, ex, f, m, e', NearestEven);
  }

  lemma TinyRoundsToZero(x: real, m: nat, e: int, ex: int, f: nat)
    requires RoundedAtBinade(x, ex, f, m, e, NearestEven) && x <= Exp(2, -1075)
    ensures m == 0
  {
    hide Exp, Pow;
    var lp, u, z := LastPlace(ex), Exp(2, LastPlace(ex)), Units(x, ex);
    ExpPos(2, lp);
    ExpUp(2, -1074, lp);
    ExpSucc(2, -1075);
    UnitsBack(x, ex);
    CompareProducts2(z, 0.5, u, x, 0.5 * u);
    assert z <= 0.5;
    assert f == 0 by { assert f >= 1 ==> f as real >= 1.0; }
    ExpPos(2, e - 53);
    ZeroFactor(m as real, Exp(2, e - 53));
  }

  lemma OverflowCorrect(x: real)
    requires x >= Exp(2, 1024)
    ensures CorrectBits(INFINITE, x)
  {
    ExpPos(2, 970);
  }

  lemma UnderflowCorrect(x: real)
    requires x <= Exp(2, -1075)
    ensures CorrectBits(0, x)
  {
    hide Exp;
    ExpUp(2, -1075, 970);
    ExpUp(2, 970, 1022);
    ExpSucc(2, 1022);
    ExpSucc(2, 1023);
    ExpPos(2, 1022);
  }

  /** Only reals up to half the smallest subnormal are rounded to zero. */
  lemma ZeroRoundsFromTiny(x: real, ex: int, f: nat, e: int)
    requires RoundedAtBinade(x, ex, f, 0, e, NearestEven)
    ensures x <= Exp(2, -1075)
  {
    hide Exp, Pow, Binade;
    var lp, z := LastPlace(ex), Units(x, ex);
    ExpPos(2, lp);
    ExpPos(2, e - 53);
    ZeroFactor(f as real, Exp(2, lp));
    UnitsBack(x, ex);
    if lp == -1074 {
      ExpSucc(2, -1075);
      CompareProducts2(z, 0.5, Exp(2, lp), x, 0.5 * Exp(2, lp));
    } else {
      UnitsBound(x, ex, 53, f, NearestEven);
      PowPos(2, 52);
      assert false;
    }
  }

  /** Infinity stands for exactly the reals that overflow. */
  lemma InfinitePattern(a: nat, x: real)
    requires CorrectBits(a, x)
    ensures a == INFINITE <==> x >= Exp(2, 1024) - Exp(2, 970)
  {
    hide Exp;
  }

  /** Zero stands for exactly the reals that underflow. */
  lemma ZeroPattern(a: nat, x: real)
    requires CorrectBits(a, x)
    ensures a == 0 <==> x <= Exp(2, -1075)
  {
    hide Exp, BitsValue, RoundsToDouble;
    if x <= Exp(2, -1075) {
      UnderflowCorrect(x);
    } else if a == 0 {
      var m: nat, e: int :| RoundsToDouble(x, m, e, NearestEven) && BitsValue(0) == DoubleValue(m, e);
      ZeroBits(e);
      ExpPos(2, e - 53);
      ZeroFactor(m as real, Exp(2, e - 53));
      assert m == 0;
      ZeroMantissa(x, e);
    }
  }

  lemma ZeroMantissa(x: real, e: int)
    requires RoundsToDouble(x, 0, e, NearestEven)
    ensures x <= Exp(2, -1075)
  {
    hide Exp, Rounds, Units, Binade;
    var ex, f: nat :| RoundedAtBinade(x, ex, f, 0, e, NearestEven);
    ZeroRoundsFromTiny(x, ex, f, e);
  }
}
