/** Writing the digits of a big number, and which pattern a real that is read back gives. */
module DigitOutput {
  import opened Basics
  import opened Powers
  import opened RealPowers
  import opened LimbDivision
  import opened Limbs
  import opened Rounding
  import opened BigNumbers
  import opened FloorLog
  import opened ConversionTables
  import opened Doubles
  import opened Printing
  import opened DoubleBits
  import opened Reading

  // ----- digits of numbers -----

  /** Low digits of a number peel off by division. */
  lemma LowDigit(n: nat, radix: nat, k: nat)
    requires radix > 0
    ensures Pow(radix, k) > 0 && Pow(radix, k + 1) > 0
    ensures n % Pow(radix, k + 1) == n / Pow(radix, k) % radix * Pow(radix, k) + n % Pow(radix, k)
    ensures n / Pow(radix, k + 1) == n / Pow(radix, k) / radix
  {
    hide Pow;
    PowPos(radix, k);
    PowPos(radix, k + 1);
    PowAdd(radix, k, 1);
    PowSmall(radix);
    LowPart(n, Pow(radix, k), radix);
  }

  /** The remainder by a product, from the remainders by its factors. */
  lemma LowPart(n: nat, a: nat, b: nat)
    requires a > 0 && b > 0
    ensures a * b > 0 && n / (a * b) == n / a / b && n % (a * b) == n / a % b * a + n % a
  {
    DivDiv(n, a, b);
    var q, r := n / a, n % a;
    DivPositive(n, a);
    DivPositive(q, b);
    var q2, r2 := q / b, q % b;
    assert n == q2 * (a * b) + (r2 * a + r) by {
      assert q * a == (q2 * b) * a + r2 * a;
      MulAssoc(q2, b, a);
    }
    MulUpAny(r2 + 1, b, a);
    MulUp(0, r2, 0, a);
    DivUnique(n, a * b, q2, r2 * a + r);
  }

  /** The last `len` digits of a number, by repeated division. */
  method LimbDigits(n0: nat, radix: nat, len: nat) returns (ds: seq<nat>)
    requires IsRadix(radix)
    ensures |ds| == len && DigitsOf(radix, ds) && Pow(radix, len) > 0 && ToNat(radix, ds) == n0 % Pow(radix, len)
  {
    hide Pow, ToNat;
    ds := [];
    var n, i := n0, len;
    PowSmall(radix);
    ToNatZeros(radix, []);
    while i > 0
      invariant 0 <= i <= len && |ds| == len - i && DigitsOf(radix, ds) && Pow(radix, len - i) > 0
      invariant ToNat(radix, ds) == n0 % Pow(radix, len - i) && n == n0 / Pow(radix, len - i)
    {
      LowDigit(n0, radix, len - i);
      ToNatAppend(radix, [n % radix], ds);
      OneDigit(radix, n % radix);
      ds := [n % radix] + ds;
      n := n / radix;
      i := i - 1;
    }
  }

  lemma OneDigit(radix: nat, d: nat)
    ensures ToNat(radix, [d]) == d
  {
    assert [d][..0] == [];
  }

  lemma SmallerQuotient(n: nat, radix: nat)
    requires radix >= 2
    ensures 0 <= n / radix && (n > 0 ==> n / radix < n)
  {
    DivPositive(n, radix);
    MulUp(n / radix, n / radix, 2, radix);
  }

  /** All digits of a number, at least one. */
  method NatDigits(n0: nat, radix: nat) returns (ds: seq<nat>)
    requires IsRadix(radix)
    ensures ds != [] && DigitsOf(radix, ds) && ToNat(radix, ds) == n0
    ensures if n0 == 0 then |ds| == 1 else ds[0] != 0
  {
    hide Pow, ToNat;
    OneDigit(radix, n0 % radix);
    SmallerQuotient(n0, radix);
    ds := [n0 % radix];
    var n := n0 / radix;
    PowSmall(radix);
    while n != 0
      invariant n >= 0 && ds != [] && DigitsOf(radix, ds) && Pow(radix, |ds|) > 0
      invariant n == 0 ==> if n0 == 0 then |ds| == 1 else ds[0] != 0
      invariant ToNat(radix, ds) == n0 % Pow(radix, |ds|) && n == n0 / Pow(radix, |ds|)
      decreases n
    {
      LowDigit(n0, radix, |ds|);
      ToNatAppend(radix, [n % radix], ds);
      OneDigit(radix, n % radix);
      ds := [n % radix] + ds;
      SmallerQuotient(n, radix);
      DivPositive(n, radix);
      n := n / radix;
    }
    DivPositive(n0, Pow(radix, |ds|));
  }

  // ----- digits of big numbers -----

  /** The next chunk of low digits of a big number, which is divided by its weight. */
  method TakeChunk(a: Mpb, radix: nat, n: nat) returns (ds: seq<nat>)
    requires IsRadix(radix) && Normal(a.tab) && n <= PerLimbDigits(radix)
    modifies a
    ensures Normal(a.tab) && |ds| == n && DigitsOf(radix, ds)
    ensures Pow(radix, n) > 0 && Pow(radix, PerLimbDigits(radix)) > 0
    ensures ToNat(radix, ds) == old(Value(a.tab)) % Pow(radix, n)
    ensures Value(a.tab) == old(Value(a.tab)) / Pow(radix, PerLimbDigits(radix))
  {
    hide Pow, ToNat, Value, PerLimbDigits, RadixBits;
    var d := PerLimbDigits(radix);
    ghost var v := Value(a.tab);
    PerLimb(radix);
    FullLimb(radix);
    PowPos(radix, d);
    PowPos(radix, n);
    PowAdd(radix, n, d - n);
    PowPos(radix, d - n);
    if IsPow2(radix) {
      LowLimb(a.tab, radix, n);
      ds := LimbDigits(a.tab[0], radix, n);
      PowOfPow(2, RadixBits(radix), d);
      MulUp(0, d, 0, RadixBits(radix));
      var shift := d * RadixBits(radix);
      a.ShrRound(shift, TowardsZero);
      TruncatedIs(v, Pow(2, shift), Value(a.tab));
    } else {
      NotFull(radix);
      var r;
      a.tab, r := MpDiv1(a.tab, RADIX_BASE[radix - 2], 0);
      DivUnique(v, Pow(radix, d), Value(a.tab), r);
      a.Renorm();
      ds := LimbDigits(r, radix, n);
      LowPart(v, Pow(radix, n), Pow(radix, d - n));
      RemainderOfRemainder(v, Pow(radix, n), Pow(radix, d - n));
    }
  }

  lemma NotFull(radix: nat)
    requires IsRadix(radix) && !IsPow2(radix)
    ensures RADIX_BASE[radix - 2] != 0
  {
  }

  lemma TruncatedIs(v: nat, d: nat, q: nat)
    requires d > 0 && IsRounded(v, d, q, TowardsZero)
    ensures q == v / d
  {
    assert (q + 1) * d == q * d + d;
    DivUnique(v, d, q, v - q * d);
  }

  lemma RemainderOfRemainder(v: nat, a: nat, b: nat)
    requires a > 0 && b > 0 && a * b > 0
    ensures v % (a * b) % a == v % a
  {
    DivPositive(v, a * b);
    var q, r := v / (a * b), v % (a * b);
    DivPositive(r, a);
    assert v == (q * b + r / a) * a + r % a by {
      assert q * (a * b) == (q * b) * a;
      assert (q * b + r / a) * a == (q * b) * a + r / a * a;
    }
    DivUnique(v, a, q * b + r / a, r % a);
  }

  /** The low digits of a power-of-two radix are those of the lowest limb. */
  lemma LowLimb(tab: seq<limb>, radix: nat, n: nat)
    requires IsPow2(radix) && |tab| >= 1 && n <= PerLimbDigits(radix)
    ensures Pow(radix, n) > 0 && tab[0] % Pow(radix, n) == Value(tab) % Pow(radix, n)
  {
    hide Pow, RadixBits, PerLimbDigits;
    var bits := RadixBits(radix);
    PowOfPow(2, bits, n);
    BitsPerLimb(radix);
    MulUp(n, PerLimbDigits(radix), bits, bits);
    MulUp(0, n, 0, bits);
    var k: nat := bits * n;
    assert k <= 32;
    TwoParts(k);
    LowBits(tab[0], Value(tab[1..]), Pow(2, k), Pow(2, 32 - k));
  }

  lemma LowBits(x: nat, rest: nat, p: nat, q: nat)
    requires p * q == BASE && p > 0
    ensures (x + BASE * rest) % p == x % p
  {
    DivPositive(x, p);
    var h, w := x / p, q * rest;
    assert BASE * rest == w * p by { MulAssoc(p, q, rest); }
    DivUnique(x + BASE * rest, p, h + w, x % p);
  }

  lemma BitsPerLimb(radix: nat)
    requires IsPow2(radix)
    ensures PerLimbDigits(radix) * RadixBits(radix) <= 32
  {
  }

  /** The last `len` digits of a big number. */
  method OutputDigits(a: Mpb, radix: nat, len: nat) returns (buf: seq<nat>)
    requires IsRadix(radix) && Normal(a.tab)
    modifies a
    ensures |buf| == len && DigitsOf(radix, buf) && Pow(radix, len) > 0
    ensures ToNat(radix, buf) == old(Value(a.tab)) % Pow(radix, len)
  {
    hide Pow, ToNat, Value, PerLimbDigits;
    buf := [];
    var left := len;
    ghost var v := Value(a.tab);
    PowSmall(radix);
    ToNatZeros(radix, []);
    while left != 0
      invariant 0 <= left <= len && |buf| == len - left && DigitsOf(radix, buf) && Normal(a.tab)
      invariant Pow(radix, |buf|) > 0 && ToNat(radix, buf) == v % Pow(radix, |buf|)
      invariant left > 0 ==> Value(a.tab) == v / Pow(radix, |buf|)
    {
      var n := Min(left, PerLimbDigits(radix));
      var ds := TakeChunk(a, radix, n);
      ToNatAppend(radix, ds, buf);
      PowAdd(radix, |buf|, n);
      PowPos(radix, |buf| + n);
      LowPart(v, Pow(radix, |buf|), Pow(radix, n));
      buf := ds + buf;
      left := left - n;
    }
  }

  // ----- a given number of fractional digits -----

  /** One digit more than the estimated exponent leaves room for the whole rounded number. */
  lemma FractionFits(x: real, radix: nat, e: int, e0: int, n: nat, f: nat, mode: Mode)
    requires IsRadix(radix) && Guess(radix, e, e0) && Binade(x, e) && mode != TowardsZero
             && Rounds(Digits(x, radix, n, 0), f, mode)
    ensures f < Pow(radix, Max(e0 + 1, 1) + n)
  {
    hide Exp, Pow, Rounds, Guess, Binade;
    var y, k := Digits(x, radix, n, 0), e0 + n;
    var len := Max(e0 + 1, 1) + n;
    if k >= 0 {
      DigitsShifted(x, radix, n, e0);
      PowUp(radix, k + 1, len);
      Successor(radix, k + 1);
      PowPos(radix, k);
      if radix == 2 {
        BinaryGuess(e, e0);
        BinaryDigits(x, e, k);
        RoundsMonotone(y, f, mode, Pow(radix, k));
      } else {
        DigitsUpper(x, radix, e, e0, k);
        RoundsMonotone(y, f, mode, 2 * Pow(radix, k));
        MulUp(3, radix, Pow(radix, k), Pow(radix, k));
      }
    } else {
      TinyFraction(x, radix, e, e0, n);
      RoundsMonotone(y, f, mode, 1);
      PowUp(radix, 1, len);
      PowSmall(radix);
    }
  }

  lemma DigitsShifted(x: real, radix: nat, n: nat, e0: int)
    requires IsRadix(radix)
    ensures Digits(x, radix, n, 0) == Digits(x, radix, e0 + n, e0)
  {
  }

  lemma TinyFraction(x: real, radix: nat, e: int, e0: int, n: nat)
    requires IsRadix(radix) && Guess(radix, e, e0) && Binade(x, e) && e0 + n < 0
    ensures Digits(x, radix, n, 0) <= 1.0
  {
    hide Exp, Pow;
    var t, k := Exp(radix, n), e0 + n;
    ExpPos(radix, n);
    ExpSucc(2, e - 1);
    ExpAdd(radix, e0, n);
    CompareProducts2(2.0 * Exp(radix, e0), x, t, 2.0 * Exp(radix, k), Digits(x, radix, n, 0));
    ExpUp(radix, k, -1);
    ExpSucc(radix, -1);
    ExpZero(radix);
    ExpPos(radix, -1);
    CompareProducts2(2.0, radix as real, Exp(radix, -1), 2.0 * Exp(radix, -1), 1.0);
  }

  /** All digits of a double with `n` of them after the point, rounded to nearest with ties away from zero. */
  method FracDigits(tmp: Mpb, m: nat, e: int, radix: nat, n: nat, ghost x: real) returns (ds: seq<nat>, ee: int)
    requires IsRadix(radix) && Source(m, e, x)
    modifies tmp
    ensures |ds| == Max(ee + 1, 1) + n && DigitsOf(radix, ds)
    ensures Rounds(Digits(x, radix, n, 0), ToNat(radix, ds), NearestAway)
    ensures Guess(radix, e, ee)
  {
    hide Exp, Pow, Value, Rounds, Digits, Guess, Binade, MulLog2Radix, ToNat;
    ee := 1 + MulLog2Radix(e - 1, radix);
    SourceBinade(m, e, x);
    GuessIs(radix, e);
    Mantissa(tmp, m, e, radix, n, 0, NearestAway, x);
    ghost var f := Value(tmp.tab);
    FractionFits(x, radix, e, ee, n, f, NearestAway);
    ds := OutputDigits(tmp, radix, Max(ee + 1, 1) + n);
    DivUnique(f, Pow(radix, |ds|), 0, f);
  }

  // ----- reading back -----

  lemma PatternPositive(a: nat)
    requires 0 < a < INFINITE
    ensures BitsValue(a) > 0.0
  {
    hide Exp, BitsValue, Decode, Source;
    DecodeSource(a);
    SourcePositive(Decode(a).0, Decode(a).1, BitsValue(a));
  }

  lemma SourcePositive(m: nat, e: int, x: real)
    requires Source(m, e, x)
    ensures x > 0.0
  {
    hide Exp, Pow;
    ExpPos(2, e - 53);
    CompareProducts2(1.0, m as real, Exp(2, e - 53), Exp(2, e - 53), x);
  }

  /** Different finite patterns are different numbers. */
  lemma BitsInjective(a: nat, b: nat)
    requires 0 < a < INFINITE && b < INFINITE && BitsValue(a) == BitsValue(b)
    ensures a == b
  {
    hide Exp, BitsValue, Decode, Pow, Assemble;
    PatternPositive(a);
    if b == 0 {
      ZeroBits(0);
    } else {
      DecodeSource(a);
      DecodeSource(b);
      SameSource(Decode(a).0, Decode(a).1, Decode(b).0, Decode(b).1, BitsValue(a));
      DecodeAssemble(a);
      DecodeAssemble(b);
      DecodePair(a, b);
    }
  }

  lemma DecodePair(a: nat, b: nat)
    requires 0 < a < INFINITE && 0 < b < INFINITE
    requires Decode(a).0 == Decode(b).0 && Decode(a).1 == Decode(b).1
    requires Assemble(Decode(a).0, Decode(a).1) == a && Assemble(Decode(b).0, Decode(b).1) == b
    ensures a == b
  {
  }

  lemma SameSource(m: nat, e: int, n: nat, f: int, x: real)
    requires Source(m, e, x) && Source(n, f, x)
    ensures m == n && e == f
  {
    hide Exp, Pow;
    MantissaUnique(m, e, n, f);
  }

  /** A real that rounds to a double is read as the pattern of that double. */
  lemma ReadsSame(a: nat, x: real, b: nat)
    requires 0 < a < INFINITE && RoundsToDouble(x, Decode(a).0, Decode(a).1, NearestEven) && CorrectBits(b, x)
    ensures b == a
  {
    hide Exp, Pow, Decode, BitsValue, RoundsToDouble, DoubleValue, Source;
    var m, e := Decode(a).0, Decode(a).1;
    DecodeSource(a);
    var v := BitsValue(a);
    OrdinarySize(x, m, e, v);
    var m', e' :| RoundsToDouble(x, m', e', NearestEven) && BitsValue(b) == DoubleValue(m', e');
    SourceMantissa(m, e, v);
    DoubleUnique(x, m, e, m', e', NearestEven);
    SourceIs(m, e, v);
    BitsInjective(a, b);
  }

  lemma SourceIs(m: nat, e: int, x: real)
    requires Source(m, e, x)
    ensures x == DoubleValue(m, e)
  {
  }

  lemma OrdinarySize(x: real, m: nat, e: int, v: real)
    requires Source(m, e, v) && RoundsToDouble(x, m, e, NearestEven)
    ensures Exp(2, -1075) < x < Exp(2, 1024) - Exp(2, 970)
  {
    hide Exp, Pow, Rounds, Units, Binade, RoundedAtBinade;
    var ex, f: nat :| RoundedAtBinade(x, ex, f, m, e, NearestEven);
    LargeExponent(x, m, e, ex, f);
    if x <= Exp(2, -1075) {
      TinyRoundsToZero(x, m, e, ex, f);
    }
  }
}
