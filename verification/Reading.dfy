/**
 Reading a number: the digits are gathered into a big number, the exponent is
 applied, and the result is the correctly rounded double of the digits.
 */
module Reading {
  import opened Basics
  import opened Int32
  import opened Powers
  import opened RealPowers
  import opened LimbDivision
  import opened Limbs
  import opened Rounding
  import opened BigNumbers
  import opened FloorLog
  import opened ConversionTables
  import opened Scaling
  import opened Doubles
  import opened Printing
  import opened DoubleBits
  import opened ReadingTables

  // ----- digit strings -----

  predicate DigitsOf(radix: nat, ds: seq<nat>) {
    forall i :: 0 <= i < |ds| ==> ds[i] < radix
  }

  /** The number written by digits, most significant first. */
  function ToNat(radix: nat, ds: seq<nat>): (n: nat) {
    if ds == [] then 0 else ToNat(radix, ds[..|ds| - 1]) * radix + ds[|ds| - 1]
  }

  lemma ToNatSnoc(radix: nat, ds: seq<nat>, i: nat)
    requires i < |ds|
    ensures ToNat(radix, ds[..i + 1]) == ToNat(radix, ds[..i]) * radix + ds[i]
  {
    assert ds[..i + 1][..i] == ds[..i];
  }

  lemma {:induction false} ToNatAppend(radix: nat, a: seq<nat>, b: seq<nat>)
    ensures ToNat(radix, a + b) == ToNat(radix, a) * Pow(radix, |b|) + ToNat(radix, b)
    decreases |b|
  {
    if b == [] {
      assert a + b == a;
    } else {
      var n := |b| - 1;
      assert (a + b)[..|a + b| - 1] == a + b[..n];
      ToNatAppend(radix, a, b[..n]);
      AppendStep(ToNat(radix, a), Pow(radix, n), radix, ToNat(radix, b[..n]));
    }
  }

  lemma AppendStep(x: nat, p: nat, r: nat, y: nat)
    ensures (x * p + y) * r == x * (r * p) + y * r
  {
    assert (x * p + y) * r == (x * p) * r + y * r;
    assert (x * p) * r == x * (r * p);
  }

  lemma {:induction false} ToNatBound(radix: nat, ds: seq<nat>)
    requires DigitsOf(radix, ds)
    ensures ToNat(radix, ds) < Pow(radix, |ds|)
    decreases |ds|
  {
    if ds != [] {
      ToNatBound(radix, ds[..|ds| - 1]);
      DigitBelow(ToNat(radix, ds[..|ds| - 1]), Pow(radix, |ds| - 1), radix, ds[|ds| - 1]);
    }
  }

  lemma DigitBelow(x: nat, p: nat, r: nat, d: nat)
    requires x < p && d < r
    ensures x * r + d < r * p
  {
    MulUpAny(x + 1, p, r);
  }

  lemma {:induction false} ToNatZeros(radix: nat, ds: seq<nat>)
    requires forall i :: 0 <= i < |ds| ==> ds[i] == 0
    ensures ToNat(radix, ds) == 0
    decreases |ds|
  {
    if ds != [] {
      ToNatZeros(radix, ds[..|ds| - 1]);
    }
  }

  lemma {:induction false} ToNatNonZero(radix: nat, ds: seq<nat>, k: nat)
    requires radix > 0 && k < |ds| && ds[k] != 0
    ensures ToNat(radix, ds) >= Pow(radix, |ds| - 1 - k)
    decreases |ds|
  {
    var n := |ds| - 1;
    if k == n {
      assert Pow(radix, 0) == 1;
    } else {
      ToNatNonZero(radix, ds[..n], k);
      MulUpAny(Pow(radix, n - 1 - k), ToNat(radix, ds[..n]), radix);
    }
  }

  // ----- gathering the digits -----

  /** Adds a digit to those gathered in the current limb, and the limb to the big number when it is full. */
  method PutDigit(tmp: Mpb, radix: nat, cur0: nat, n0: nat, c: nat) returns (cur: nat, n: nat)
    requires IsRadix(radix) && c < radix && n0 < PerLimbDigits(radix) && cur0 < Pow(radix, n0) && Normal(tmp.tab)
    modifies tmp
    ensures Normal(tmp.tab) && n < PerLimbDigits(radix) && cur < Pow(radix, n)
    ensures Value(tmp.tab) * Pow(radix, n) + cur == (old(Value(tmp.tab)) * Pow(radix, n0) + cur0) * radix + c
  {
    hide Pow, Value, PerLimbDigits;
    GatherDigit(radix, Value(tmp.tab), n0, cur0, c);
    LimbFits(radix, n0 + 1);
    cur, n := cur0 * radix + c, n0 + 1;
    if n == PerLimbDigits(radix) {
      PerLimb(radix);
      FullLimb(radix);
      tmp.Mul1Base(RADIX_BASE[radix - 2], cur);
      cur, n := 0, 0;
      PowSmall(radix);
    }
  }

  /** Gathers up to `maxDigits` digits and notes whether one of the others is not zero. */
  method Gather(tmp: Mpb, ds: seq<nat>, radix: nat, maxDigits: nat) returns (count: nat, extra: bool)
    requires IsRadix(radix) && DigitsOf(radix, ds) && Normal(tmp.tab) && Value(tmp.tab) == 0
    modifies tmp
    ensures count == Min(|ds|, maxDigits)
    ensures Normal(tmp.tab) && Value(tmp.tab) == ToNat(radix, ds[..count])
    ensures extra <==> exists i :: count <= i < |ds| && ds[i] != 0
  {
    hide Pow, Value, PerLimbDigits, ToNat;
    var pos, cur: nat, n: nat := 0, 0, 0;
    count, extra := 0, false;
    PowSmall(radix);
    ToNatZeros(radix, ds[..0]);
    while pos < |ds|
      invariant 0 <= pos <= |ds| && count == Min(pos, maxDigits)
      invariant Normal(tmp.tab) && n < PerLimbDigits(radix) && cur < Pow(radix, n)
      invariant Value(tmp.tab) * Pow(radix, n) + cur == ToNat(radix, ds[..count])
      invariant extra <==> exists i :: count <= i < pos && ds[i] != 0
    {
      if count < maxDigits {
        ToNatSnoc(radix, ds, count);
        cur, n := PutDigit(tmp, radix, cur, n, ds[pos]);
        count := count + 1;
      } else {
        extra := extra || ds[pos] != 0;
      }
      pos := pos + 1;
    }
    if n != 0 {
      LimbFits(radix, n);
      PartialLimb(radix, n);
      var base := PowUi(radix, n);
      tmp.Mul1Base(base, cur);
    }
  }

  /** Skips the leading zeros and gathers the significant digits. */
  method ReadDigits(tmp: Mpb, ds: seq<nat>, radix: nat) returns (sigPos: nat, count: nat, extra: bool)
    requires IsRadix(radix) && DigitsOf(radix, ds)
    modifies tmp
    ensures sigPos <= |ds| && (forall i :: 0 <= i < sigPos ==> ds[i] == 0) && (sigPos < |ds| ==> ds[sigPos] != 0)
    ensures count == Min(|ds| - sigPos, ATOD_MAX_DIGITS[radix - 2])
    ensures Normal(tmp.tab) && Value(tmp.tab) == ToNat(radix, ds[sigPos..sigPos + count])
    ensures extra <==> exists i :: sigPos + count <= i < |ds| && ds[i] != 0
  {
    hide ToNat;
    tmp.SetU64(0);
    sigPos := 0;
    while sigPos < |ds| && ds[sigPos] == 0
      invariant 0 <= sigPos <= |ds| && forall i :: 0 <= i < sigPos ==> ds[i] == 0
    {
      sigPos := sigPos + 1;
    }
    ghost var sig := ds[sigPos..];
    count, extra := Gather(tmp, ds[sigPos..], radix, ATOD_MAX_DIGITS[radix - 2]);
    assert sig[..count] == ds[sigPos..sigPos + count];
    assert extra ==> exists i :: sigPos + count <= i < |ds| && ds[i] != 0 by {
      if extra {
        var j :| count <= j < |sig| && sig[j] != 0;
        assert ds[sigPos + j] != 0;
      }
    }
    assert !extra ==> forall i :: sigPos + count <= i < |ds| ==> ds[i] == sig[i - sigPos] == 0;
  }

  lemma GatherDigit(radix: nat, v: nat, n: nat, cur: nat, c: nat)
    requires cur < Pow(radix, n) && c < radix
    ensures v * Pow(radix, n + 1) + (cur * radix + c) == (v * Pow(radix, n) + cur) * radix + c
    ensures cur * radix + c < Pow(radix, n + 1)
  {
    hide Pow;
    Successor(radix, n + 1);
    AppendStep(v, Pow(radix, n), radix, cur);
    MulUpAny(cur + 1, Pow(radix, n), radix);
  }

  lemma LimbFits(radix: nat, n: nat)
    requires IsRadix(radix) && n <= PerLimbDigits(radix)
    ensures 1 <= Pow(radix, n) <= BASE
  {
    hide Pow;
    PerLimb(radix);
    PowPos(radix, n);
    PowUp(radix, n, PerLimbDigits(radix));
  }

  lemma FullLimb(radix: nat)
    requires IsRadix(radix)
    ensures PerLimbDigits(radix) == DIGITS_PER_LIMB[radix - 2]
  {
  }

  lemma PartialLimb(radix: nat, n: nat)
    requires IsRadix(radix) && n < PerLimbDigits(radix)
    ensures Pow(radix, n) < BASE
  {
    hide Pow;
    LimbFits(radix, PerLimbDigits(radix));
    PowUpStrict(radix, n, PerLimbDigits(radix));
  }

  // ----- the exponent -----

  const EXPONENT_LIMIT := 2147483640

  /** The exponent, unless it does not fit. */
  method ReadExponent(ds: seq<nat>) returns (expn: nat, overflow: bool)
    requires DigitsOf(10, ds)
    ensures overflow <==> ToNat(10, ds) >= EXPONENT_LIMIT
    ensures !overflow ==> expn == ToNat(10, ds)
  {
    expn, overflow := 0, false;
    var i := 0;
    while i < |ds|
      invariant 0 <= i <= |ds|
      invariant overflow <==> ToNat(10, ds[..i]) >= EXPONENT_LIMIT
      invariant !overflow ==> expn == ToNat(10, ds[..i])
    {
      ToNatSnoc(10, ds, i);
      if !overflow {
        if expn > (INT32_MAX - 2 - 9) / 10 {
          overflow := true;
        } else {
          expn := expn * 10 + ds[i];
        }
      }
      i := i + 1;
    }
    assert ds[..i] == ds;
  }

  // ----- the value of a numeral -----

  /** The scale of an exponent: a power of two for binary exponents, else of the radix. */
  ghost function Scale(radix: nat, isBin: bool, expn: int): real
    requires IsRadix(radix)
  {
    if isBin then Exp(2, expn) else Exp(radix, expn)
  }

  /** Digits with the point after the first `dot` of them, times the scale. */
  ghost function Numeral(radix: nat, ds: seq<nat>, dot: int, isBin: bool, expn: int): real
    requires IsRadix(radix)
  {
    ToNat(radix, ds) as real * Exp(radix, dot - |ds|) * Scale(radix, isBin, expn)
  }

  function LeadingZeros(ds: seq<nat>): (n: nat)
    ensures n <= |ds| && (forall i :: 0 <= i < n ==> ds[i] == 0) && (n < |ds| ==> ds[n] != 0)
  {
    if ds == [] || ds[0] != 0 then 0 else 1 + LeadingZeros(ds[1..])
  }

  lemma ZerosUnique(ds: seq<nat>, n: nat)
    requires n <= |ds| && (forall i :: 0 <= i < n ==> ds[i] == 0) && (n < |ds| ==> ds[n] != 0)
    ensures n == LeadingZeros(ds)
  {
    var z := LeadingZeros(ds);
    if n < z || z < n {
      assert false;
    }
  }

  /** How many digits are read before the rest is dropped. */
  function Kept(radix: nat, ds: seq<nat>): (k: nat)
    requires IsRadix(radix)
    ensures k <= |ds|
  {
    Min(|ds|, LeadingZeros(ds) + ATOD_MAX_DIGITS[radix - 2])
  }

  /** The number written by all digits, divided by the weight of the last digit kept. */
  lemma SplitDigits(radix: nat, ds: seq<nat>, z: nat, k: nat)
    requires radix > 0 && DigitsOf(radix, ds) && z <= k <= |ds| && forall i :: 0 <= i < z ==> ds[i] == 0
    ensures var d := Pow(radix, |ds| - k); var t := ToNat(radix, ds[z..k]);
            && d > 0 && ToNat(radix, ds) / d == t && ToNat(radix, ds[..k]) == t
            && (ToNat(radix, ds) % d != 0 <==> exists i :: k <= i < |ds| && ds[i] != 0)
  {
    hide Pow, ToNat;
    var a, b, d := ds[..k], ds[k..], Pow(radix, |ds| - k);
    assert ds == a + b && a == ds[..z] + ds[z..k];
    PowPos(radix, |ds| - k);
    ToNatAppend(radix, a, b);
    ToNatAppend(radix, ds[..z], ds[z..k]);
    ToNatZeros(radix, ds[..z]);
    ToNatBound(radix, b);
    DivUnique(ToNat(radix, ds), d, ToNat(radix, a), ToNat(radix, b));
    if i :| k <= i < |ds| && ds[i] != 0 {
      assert b[i - k] == ds[i];
      ToNatNonZero(radix, b, i - k);
      PowPos(radix, |b| - 1 - (i - k));
    } else {
      ToNatZeros(radix, b);
    }
  }

  // ----- power-of-two radices -----

  lemma ExpPow2(radix: nat, k: int)
    requires IsPow2(radix)
    ensures Exp(radix, k) == Exp(2, RadixBits(radix) * k)
  {
    hide Exp, Pow, RadixBits;
    ExpOfPow2(RadixBits(radix), k);
  }

  /** The exponent of two that the digits kept are scaled by. */
  function BinaryExponent(radix: nat, k: int, dot: int, isBin: bool, expn: int): int
    requires IsPow2(radix)
  {
    (if isBin then expn else expn * RadixBits(radix)) - (k - dot) * RadixBits(radix)
  }

  lemma NumeralScale(radix: nat, dot: int, len: int, isBin: bool, expn: int, k: int)
    requires IsPow2(radix) && 0 <= k <= len
    ensures Exp(radix, dot - len) * Scale(radix, isBin, expn) * Exp(2,
            -BinaryExponent(radix, k, dot, isBin, expn)) * Exp(radix, len - k) == 1.0
  {
    hide Exp, RadixBits;
    var bits, e2 := RadixBits(radix), BinaryExponent(radix, k, dot, isBin, expn);
    var s := if isBin then expn else expn * bits;
    ExpPow2(radix, dot - len);
    ExpPow2(radix, expn);
    ExpPow2(radix, len - k);
    assert bits * expn == expn * bits;
    ExpAdd(2, bits * (dot - len), s);
    ExpAdd(2, bits * (dot - len) + s, -e2);
    ExpAdd(2, bits * (dot - len) + s + -e2, bits * (len - k));
    assert bits * (dot - len) + s + -e2 + bits * (len - k) == 0 by {
      assert bits * (dot - len) + bits * (len - k) == bits * (dot - k);
      assert (k - dot) * bits == -(bits * (dot - k));
    }
    ExpZero(2);
  }

  lemma NumeralHolds(radix: nat, ds: seq<nat>, dot: int, isBin: bool, expn: int, k: nat, x: real)
    requires IsPow2(radix) && k <= |ds| && x == Numeral(radix, ds, dot, isBin, expn)
    ensures Pow(radix, |ds| - k) > 0
    ensures var n, d := ToNat(radix, ds), Pow(radix, |ds| - k);
            Holds(Sticky(n, d), x, -BinaryExponent(radix, k, dot, isBin, expn), n, d)
  {
    hide Exp, Pow, ToNat, Sticky, BinaryExponent, Scale;
    PowPos(radix, |ds| - k);
    ExpIsPow(radix, |ds| - k);
    NumeralScale(radix, dot, |ds|, isBin, expn, k);
    UnitProduct(ToNat(radix, ds) as real, Exp(radix, dot - |ds|), Scale(radix, isBin, expn),
                Exp(2, -BinaryExponent(radix, k, dot, isBin, expn)), Exp(radix, |ds| - k), x);
  }

  lemma UnitProduct(n: real, a: real, s: real, e: real, d: real, x: real)
    requires x == n * a * s && a * s * e * d == 1.0
    ensures x * e * d == n
  {
    var b := a * s;
    assert x == n * b;
    var c := b * e;
    ProductTail(x, n, b, e, c);
    ProductTail(x * e, n, c, d, 1.0);
  }

  /** The digits kept bound the number from both sides. */
  lemma BinaryBounds(radix: nat, n: nat, d: nat, t: nat, count: nat, x: real, e2: int)
    requires IsPow2(radix) && count > 0 && d > 0 && t == n / d && Pow(radix, count - 1) <= t < Pow(radix, count)
    requires x * Exp(2, -e2) * d as real == n as real
    ensures Exp(2, e2 + count * RadixBits(radix) - RadixBits(radix)) <= x < Exp(2, e2 + count * RadixBits(radix))
  {
    hide Exp, Pow, RadixBits;
    var bits := RadixBits(radix);
    PowOfPow(2, bits, count - 1);
    PowOfPow(2, bits, count);
    MulUp(0, bits, 0, count - 1);
    MulUp(0, bits, 0, count);
    CompareHeld(x, -e2, n, d, bits * (count - 1));
    CompareHeld(x, -e2, n, d, bits * count);
    DivCompare(n, d, Pow(radix, count - 1));
    DivCompare(n, d, Pow(radix, count));
    assert bits * (count - 1) - -e2 == e2 + count * bits - bits;
    assert bits * count - -e2 == e2 + count * bits;
  }

  /** Rounds the digits of a power-of-two radix; the digits that were dropped set a sticky bit. */
  method FinishBinary(tmp: Mpb, radix: nat, count: nat, expn: int, extra: bool,
                      ghost n: nat, ghost d: nat, ghost y: real) returns (a: nat)
    requires IsPow2(radix) && Normal(tmp.tab) && 0 < count <= 80 && IsI32(expn)
    requires d > 0 && Value(tmp.tab) == n / d && extra == (n % d != 0)
    requires Pow(radix, count - 1) <= n / d < Pow(radix, count) && (d > 1 ==> n / d >= Pow(2, 55))
    requires Holds(Sticky(n, d), y, count * RadixBits(radix) - Wrap32(expn + count * RadixBits(radix)), n, d)
    modifies tmp
    ensures CorrectBits(a, y)
  {
    hide Exp, Pow, Value, Holds, Sticky, CorrectBits, RadixBits, RoundsToDouble, Wrap32;
    SetSticky(tmp, extra);
    StickyIs(n, d);
    var bits := RadixBits(radix);
    FewBits(radix, count);
    var expn1 := Wrap32(expn + count * bits);
    ghost var e2 := expn1 - count * bits;
    assert Exp(2, expn1 - bits) <= y < Exp(2, expn1) by {
      HeldValue(Sticky(n, d), y, -e2, n, d);
      BinaryBounds(radix, n, d, n / d, count, y, e2);
    }
    if expn1 >= 1024 + bits {
      ExpUp(2, 1024, expn1 - bits);
      OverflowCorrect(y);
      return INFINITE;
    }
    if expn1 <= -1075 {
      ExpUp(2, expn1, -1075);
      UnderflowCorrect(y);
      return 0;
    }
    PowPos(radix, count - 1);
    WrapBack(expn, count * bits);
    var m, e := RoundToD(tmp, -expn, NearestEven, y, n, d);
    AssembleCorrect(y, m, e);
    a := Assemble(m, e);
  }

  lemma FewBits(radix: nat, count: nat)
    requires IsPow2(radix) && count <= 80
    ensures 1 <= RadixBits(radix) <= 5 && 0 <= count * RadixBits(radix) <= 400
  {
    hide RadixBits;
    assert 1 <= RadixBits(radix) <= 5 by { SmallRadixBits(radix); }
    MulUp(count, 80, RadixBits(radix), 5);
    MulUp(0, count, 0, RadixBits(radix));
  }

  lemma SmallRadixBits(radix: nat)
    requires IsPow2(radix)
    ensures 1 <= RadixBits(radix) <= 5
  {
  }

  lemma HeldValue(v: nat, x: real, eOffset: int, n: nat, d: nat)
    requires Holds(v, x, eOffset, n, d)
    ensures d > 0 && x * Exp(2, eOffset) * d as real == n as real
  {
  }

  // ----- other radices -----

  lemma OtherBounds(radix: nat, t: nat, count: nat, f: int, x: real)
    requires IsRadix(radix) && count > 0 && Pow(radix, count - 1) <= t < Pow(radix, count)
             && x == t as real * Exp(radix, f)
    ensures Exp(radix, f + count - 1) <= x < Exp(radix, f + count)
  {
    hide Exp, Pow;
    ExpPos(radix, f);
    ExpIsPow(radix, count - 1);
    ExpIsPow(radix, count);
    ExpAdd(radix, count - 1, f);
    ExpAdd(radix, count, f);
    CompareProducts2(Pow(radix, count - 1) as real, t as real, Exp(radix, f), Exp(radix, f + count - 1), x);
    CompareProducts2(Pow(radix, count) as real, t as real, Exp(radix, f), Exp(radix, f + count), x);
  }

  /** Rounds the digits kept of any other radix. */
  method FinishOther(tmp: Mpb, radix: nat, count: nat, expn: int, ghost t: nat, ghost y: real) returns (a: nat)
    requires IsRadix(radix) && !IsPow2(radix) && Normal(tmp.tab) && Value(tmp.tab) == t
    requires 0 < count <= 80 && IsI32(expn) && Pow(radix, count - 1) <= t < Pow(radix, count)
    requires y == t as real * Exp(radix, Wrap32(expn + count) - count)
    modifies tmp
    ensures CorrectBits(a, y)
  {
    hide Exp, Pow, Value, CorrectBits, RoundsToDouble, OddPart, Ctz, Wrap32;
    var expn1 := Wrap32(expn + count);
    OtherBounds(radix, t, count, expn1 - count, y);
    Limits(radix);
    if expn1 >= MAX_EXPONENT[radix - 2] + 1 {
      ExpUp(radix, MAX_EXPONENT[radix - 2], expn1 - 1);
      OverflowCorrect(y);
      return INFINITE;
    }
    if expn1 <= MIN_EXPONENT[radix - 2] {
      ExpUp(radix, expn1, MIN_EXPONENT[radix - 2]);
      UnderflowCorrect(y);
      return 0;
    }
    PowPos(radix, count - 1);
    ModerateLimits(radix);
    WrapBack(expn, count);
    var m, e := MulPowRoundToD(tmp, OddPart(radix), Ctz(radix), expn, NearestEven, y);
    AssembleCorrect(y, m, e);
    a := Assemble(m, e);
  }

  lemma ModerateLimits(radix: nat)
    requires IsRadix(radix) && !IsPow2(radix)
    ensures -1075 <= MIN_EXPONENT[radix - 2] && MAX_EXPONENT[radix - 2] <= 1024
  {
  }

  // ----- reading a number -----

  /**
   The real that the digits read stand for: exact for power-of-two radices, cut after the digits kept for the
   others.
   */
  ghost function ReadValue(radix: nat, ds: seq<nat>, dot: int, isBin: bool, expn: int): real
    requires IsRadix(radix)
  {
    if IsPow2(radix) then Numeral(radix, ds, dot, isBin, expn)
    else Numeral(radix, ds[..Kept(radix, ds)], dot, false, expn)
  }

  /**
   The exponent just above the leading significant digit: the number lies below this power of two, or of the radix,
   and not below the one a digit lower.
   */
  function Top(radix: nat, ds: seq<nat>, dot: int, isBin: bool, expn: int): int
    requires IsRadix(radix)
  {
    var lead := dot - LeadingZeros(ds);
    if !IsPow2(radix) then expn + lead
    else (if isBin then expn else expn * RadixBits(radix)) + lead * RadixBits(radix)
  }

  /** The number read when the exponent is kept in 32 bits. */
  ghost function StoredValue(radix: nat, ds: seq<nat>, dot: int, isBin: bool, expn: int): real
    requires IsRadix(radix)
  {
    var top := Top(radix, ds, dot, isBin, expn);
    ReadValue(radix, ds, dot, isBin, expn) * Exp(Unit(radix), Wrap32(top) - top)
  }

  /** The least real that is rounded to infinity. */
  ghost function Huge(): real { Exp(2, 1024) - Exp(2, 970) }

  /** The greatest real that is rounded to zero. */
  ghost function Tiny(): real { Exp(2, -1075) }

  /**
   When the number read is the number written: the exponent fits 32 bits, or what is left of it happens to overflow
   or underflow as the number itself does.
   */
  ghost predicate ReadsExactly(radix: nat, ds: seq<nat>, dot: int, isBin: bool, expn: int)
    requires IsRadix(radix)
  {
    var x, y, top := ReadValue(radix, ds, dot, isBin, expn), StoredValue(radix, ds, dot, isBin, expn),
      Top(radix, ds, dot, isBin, expn);
    || LeadingZeros(ds) == |ds|
    || (if expn >= EXPONENT_LIMIT then x >= Huge()
        else if expn <= -EXPONENT_LIMIT then x <= Tiny()
        else IsI32(top) || (if top > 0 then y >= Huge() else y <= Tiny()))
  }

  function Signed(neg: bool, n: nat): int { if neg then 0 - n else n }

  /**
   What is read for a numeral: the correctly rounded number written, exactly under the stated condition; in any case
   the correctly rounded number stored, or an overflow or underflow when the exponent was too long to be stored.
   */
  ghost predicate ReadAs(a: nat, radix: nat, ds: seq<nat>, dot: int, isBin: bool, expn: int)
    requires IsRadix(radix)
  {
    && (CorrectBits(a, ReadValue(radix, ds, dot, isBin, expn)) <==> ReadsExactly(radix, ds, dot, isBin, expn))
    && (LeadingZeros(ds) < |ds| ==>
          if expn >= EXPONENT_LIMIT then a == INFINITE
          else if expn <= -EXPONENT_LIMIT then a == 0
          else CorrectBits(a, StoredValue(radix, ds, dot, isBin, expn)))
  }

  /** Applies the exponent, in 32-bit arithmetic, to the digits gathered. */
  method Finish(tmp: Mpb, ds: seq<nat>, dot: nat, isBin: bool, signed: int, radix: nat, sigPos: nat, count: nat,
                extra: bool)
    returns (a: nat)
    requires IsRadix(radix) && DigitsOf(radix, ds) && sigPos == LeadingZeros(ds) < |ds|
    requires count == Min(|ds| - sigPos, ATOD_MAX_DIGITS[radix - 2])
    requires Normal(tmp.tab) && Value(tmp.tab) == ToNat(radix, ds[sigPos..sigPos + count])
    requires extra <==> exists i :: sigPos + count <= i < |ds| && ds[i] != 0
    modifies tmp
    ensures CorrectBits(a, StoredValue(radix, ds, dot, isBin, signed))
  {
    hide Exp, Pow, Value, ToNat, CorrectBits, Kept, Holds, Sticky, Wrap32, StoredValue, RadixBits, Top, LeadingZeros;
    ghost var k := sigPos + count;
    FewDigits(radix);
    KeptIs(radix, ds, sigPos, count);
    SplitDigits(radix, ds, sigPos, k);
    SignificantDigits(radix, ds, sigPos, k);
    var offset := Wrap32(sigPos + count - dot);
    ghost var y := StoredValue(radix, ds, dot, isBin, signed);
    if IsPow2(radix) {
      var bits := RadixBits(radix);
      var scaled := if isBin then signed else Wrap32(signed * bits);
      var expn2 := Wrap32(scaled - Wrap32(offset * bits));
      WrappedBinary(radix, ds, dot, isBin, signed, count, scaled, offset, expn2);
      ghost var n, d := ToNat(radix, ds), Pow(radix, |ds| - k);
      StoredBinary(radix, ds, dot, isBin, signed, k, count);
      DroppedDigits(radix, ds, sigPos, k);
      a := FinishBinary(tmp, radix, count, expn2, extra, n, d, y);
    } else {
      var expn2 := Wrap32(signed - offset);
      WrappedOther(radix, ds, dot, isBin, signed, count, offset, expn2);
      StoredOther(radix, ds, dot, isBin, signed, k, count);
      a := FinishOther(tmp, radix, count, expn2, ToNat(radix, ds[..k]), y);
    }
  }

  /** Reads digits with a point after the first `dot` of them and an exponent; the pattern without the sign. */
  method Atod(tmp: Mpb, ds: seq<nat>, dot: nat, expNeg: bool, expDigits: seq<nat>, isBin: bool, radix: nat)
    returns (a: nat)
    requires IsRadix(radix) && DigitsOf(radix, ds) && dot <= |ds| && DigitsOf(10, expDigits)
    requires isBin ==> IsPow2(radix) && radix <= 16
    requires dot <= INT32_MAX || dot == |ds| // the position of the point is kept in a signed 32-bit integer
    modifies tmp
    ensures ReadAs(a, radix, ds, dot, isBin, Signed(expNeg, ToNat(10, expDigits)))
  {
    hide Exp, Pow, Value, ToNat, CorrectBits, Scale, Numeral, Kept, Holds, Sticky, Wrap32, ReadsExactly, ReadValue,
         StoredValue, RadixBits, Top, LeadingZeros;
    var sigPos, count, extra := ReadDigits(tmp, ds, radix);
    ZerosUnique(ds, sigPos);
    FewDigits(radix);
    var e, overflow := ReadExponent(expDigits);
    ghost var expn := Signed(expNeg, ToNat(10, expDigits));
    if count == 0 {
      NoDigits(radix, ds, sigPos, dot, isBin, expn);
      return 0;
    }
    if overflow {
      a := if expNeg then 0 else INFINITE;
      FlagExact(radix, ds, dot, isBin, expn);
      return;
    }
    var signed: int := e;
    if expNeg {
      signed := -signed;
    }
    a := Finish(tmp, ds, dot, isBin, signed, radix, sigPos, count, extra);
    StoredExact(radix, ds, dot, isBin, signed, a);
  }

  lemma KeptIs(radix: nat, ds: seq<nat>, z: nat, count: nat)
    requires IsRadix(radix) && z <= |ds| && (forall i :: 0 <= i < z ==> ds[i] == 0) && (z < |ds| ==> ds[z] != 0)
    requires count == Min(|ds| - z, ATOD_MAX_DIGITS[radix - 2])
    ensures Kept(radix, ds) == z + count && z + count <= |ds|
  {
    ZerosUnique(ds, z);
  }

  lemma NoDigits(radix: nat, ds: seq<nat>, z: nat, dot: int, isBin: bool, expn: int)
    requires IsRadix(radix) && z == |ds| == LeadingZeros(ds)
    ensures CorrectBits(0, ReadValue(radix, ds, dot, isBin, expn)) && ReadsExactly(radix, ds, dot, isBin, expn)
  {
    hide Exp, CorrectBits, Scale, Kept, StoredValue, Top;
    ToNatZeros(radix, ds);
    ToNatZeros(radix, ds[..Kept(radix, ds)]);
    ExpPos(2, -1075);
    UnderflowCorrect(ReadValue(radix, ds, dot, isBin, expn));
  }

  lemma SignificantDigits(radix: nat, ds: seq<nat>, z: nat, k: nat)
    requires IsRadix(radix) && DigitsOf(radix, ds) && z < k <= |ds| && ds[z] != 0
    ensures Pow(radix, k - z - 1) <= ToNat(radix, ds[z..k]) < Pow(radix, k - z) && Pow(radix, k - z - 1) > 0
  {
    hide Pow, ToNat;
    ToNatNonZero(radix, ds[z..k], 0);
    ToNatBound(radix, ds[z..k]);
    PowPos(radix, k - z - 1);
  }

  lemma FewDigits(radix: nat)
    requires IsRadix(radix)
    ensures 0 < ATOD_MAX_DIGITS[radix - 2] <= 80
  {
  }

  /** The wrapped steps of the code add up to the wrapped exponent. */
  lemma WrappedBinary(radix: nat, ds: seq<nat>, dot: int, isBin: bool, expn: int, count: nat,
                      scaled: int, offset: int, expn2: int)
    requires IsPow2(radix) && offset == Wrap32(LeadingZeros(ds) + count - dot)
    requires scaled == (if isBin then expn else Wrap32(expn * RadixBits(radix)))
    requires expn2 == Wrap32(scaled - Wrap32(offset * RadixBits(radix)))
    ensures Wrap32(expn2 + count * RadixBits(radix)) == Wrap32(Top(radix, ds, dot, isBin, expn))
  {
    hide Wrap32, RadixBits, LeadingZeros;
    var bits, lead := RadixBits(radix), dot - LeadingZeros(ds);
    var s := if isBin then expn else expn * bits;
    WrapProduct(count - lead, bits);
    WrapOnce(s);
    WrapTerms(s, (count - lead) * bits, count * bits, scaled, offset * bits);
    Distribute(count, lead, bits);
  }

  lemma WrapOnce(x: int)
    ensures Wrap32(Wrap32(x)) == Wrap32(x)
  {
  }

  lemma Distribute(a: int, b: int, c: int)
    ensures (a - b) * c == a * c - b * c
  {
  }

  lemma WrappedOther(radix: nat, ds: seq<nat>, dot: int, isBin: bool, expn: int, count: nat, offset: int, expn2: int)
    requires IsRadix(radix) && !IsPow2(radix)
    requires offset == Wrap32(LeadingZeros(ds) + count - dot) && expn2 == Wrap32(expn - offset)
    ensures Wrap32(expn2 + count) == Wrap32(Top(radix, ds, dot, isBin, expn))
  {
    hide Wrap32, LeadingZeros;
    var z := LeadingZeros(ds);
    WrapSum(z + count - dot, expn);
    WrapSum(expn - (z + count - dot), count);
  }

  lemma StoredBinary(radix: nat, ds: seq<nat>, dot: int, isBin: bool, expn: int, k: nat, count: nat)
    requires IsPow2(radix) && k <= |ds| && k == LeadingZeros(ds) + count
    ensures Pow(radix, |ds| - k) > 0
    ensures var n, d, y := ToNat(radix, ds), Pow(radix, |ds| - k), StoredValue(radix, ds, dot, isBin, expn);
            var w := Wrap32(Top(radix, ds, dot, isBin, expn));
            Holds(Sticky(n, d), y, count * RadixBits(radix) - w, n, d)
  {
    hide Exp, Pow, ToNat, Sticky, Numeral, Wrap32, RadixBits;
    var x := ReadValue(radix, ds, dot, isBin, expn);
    var top, c := Top(radix, ds, dot, isBin, expn), count * RadixBits(radix);
    var w := Wrap32(top);
    NumeralHolds(radix, ds, dot, isBin, expn, k, x);
    assert -BinaryExponent(radix, k, dot, isBin, expn) == c - top by {
      assert (k - dot) * RadixBits(radix) == count * RadixBits(radix) - (dot - LeadingZeros(ds)) * RadixBits(radix);
    }
    ExpAdd(2, w - top, c - w);
    SplitFactor(x, Exp(2, c - top), Exp(2, w - top), Exp(2, c - w), StoredValue(radix, ds, dot, isBin, expn));
  }

  lemma StoredOther(radix: nat, ds: seq<nat>, dot: int, isBin: bool, expn: int, k: nat, count: nat)
    requires IsRadix(radix) && !IsPow2(radix) && k == Kept(radix, ds) == LeadingZeros(ds) + count
    ensures StoredValue(radix, ds, dot, isBin, expn) ==
            ToNat(radix, ds[..k]) as real * Exp(radix, Wrap32(Top(radix, ds, dot, isBin, expn)) - count)
  {
    hide Exp, ToNat, Numeral, Wrap32, Kept, LeadingZeros;
    var x, top := ReadValue(radix, ds, dot, isBin, expn), Top(radix, ds, dot, isBin, expn);
    var w := Wrap32(top);
    CutNumeral(radix, ds[..k], dot, expn, top - count, x);
    ExpAdd(radix, top - count, w - top);
    ProductTail(x, ToNat(radix, ds[..k]) as real, Exp(radix, top - count), Exp(radix, w - top), Exp(radix, w - count));
  }

  /** A digit below the top, in the unit of the exponents. */
  function Step(radix: nat): int
    requires IsRadix(radix)
  {
    if IsPow2(radix) then RadixBits(radix) else 1
  }

  function Unit(radix: nat): nat
    requires IsRadix(radix)
  {
    if IsPow2(radix) then 2 else radix
  }

  /** The leading digit bounds the number from both sides. */
  lemma TopBounds(radix: nat, ds: seq<nat>, dot: int, isBin: bool, expn: int)
    requires IsRadix(radix) && DigitsOf(radix, ds) && LeadingZeros(ds) < |ds|
    ensures var x, top := ReadValue(radix, ds, dot, isBin, expn), Top(radix, ds, dot, isBin, expn);
            Exp(Unit(radix), top - Step(radix)) <= x < Exp(Unit(radix), top)
  {
    hide Exp, Pow, ToNat, Numeral, LeadingZeros, RadixBits, Kept, ReadValue, Top;
    var z, k := LeadingZeros(ds), Kept(radix, ds);
    SomeKept(radix, ds);
    SplitDigits(radix, ds, z, k);
    SignificantDigits(radix, ds, z, k);
    if IsPow2(radix) {
      TopBinary(radix, ds, dot, isBin, expn, k);
    } else {
      TopOther(radix, ds, dot, isBin, expn, k);
    }
  }

  lemma SomeKept(radix: nat, ds: seq<nat>)
    requires IsRadix(radix) && LeadingZeros(ds) < |ds|
    ensures LeadingZeros(ds) < Kept(radix, ds) <= |ds|
  {
    hide LeadingZeros;
    FewDigits(radix);
  }

  lemma TopBinary(radix: nat, ds: seq<nat>, dot: int, isBin: bool, expn: int, k: nat)
    requires IsPow2(radix) && LeadingZeros(ds) < k <= |ds| && Pow(radix, |ds| - k) > 0
    requires var q := ToNat(radix, ds) / Pow(radix, |ds| - k);
             Pow(radix, k - LeadingZeros(ds) - 1) <= q < Pow(radix, k - LeadingZeros(ds))
    ensures var x, top := ReadValue(radix, ds, dot, isBin, expn), Top(radix, ds, dot, isBin, expn);
            Exp(2, top - RadixBits(radix)) <= x < Exp(2, top)
  {
    hide Exp, Pow, ToNat, Numeral, LeadingZeros, RadixBits, Kept, Sticky, Holds;
    var z, bits := LeadingZeros(ds), RadixBits(radix);
    var count := k - z;
    var x := ReadValue(radix, ds, dot, isBin, expn);
    var n, d, e2 := ToNat(radix, ds), Pow(radix, |ds| - k), BinaryExponent(radix, k, dot, isBin, expn);
    NumeralHolds(radix, ds, dot, isBin, expn, k, x);
    HeldValue(Sticky(n, d), x, -e2, n, d);
    BinaryBounds(radix, n, d, n / d, count, x, e2);
    Distribute(count, dot - z, bits);
  }

  lemma TopOther(radix: nat, ds: seq<nat>, dot: int, isBin: bool, expn: int, k: nat)
    requires IsRadix(radix) && !IsPow2(radix) && LeadingZeros(ds) < k == Kept(radix, ds)
    requires var q := ToNat(radix, ds[..k]);
             Pow(radix, k - LeadingZeros(ds) - 1) <= q < Pow(radix, k - LeadingZeros(ds))
    ensures var x, top := ReadValue(radix, ds, dot, isBin, expn), Top(radix, ds, dot, isBin, expn);
            Exp(radix, top - 1) <= x < Exp(radix, top)
  {
    hide Exp, Pow, ToNat, Numeral, LeadingZeros, Kept;
    var x, top := ReadValue(radix, ds, dot, isBin, expn), Top(radix, ds, dot, isBin, expn);
    var count := k - LeadingZeros(ds);
    CutNumeral(radix, ds[..k], dot, expn, top - count, x);
    OtherBounds(radix, ToNat(radix, ds[..k]), count, top - count, x);
  }

  /** A flagged exponent is answered as an overflow or an underflow. */
  lemma FlagExact(radix: nat, ds: seq<nat>, dot: int, isBin: bool, expn: int)
    requires IsRadix(radix) && LeadingZeros(ds) < |ds| && (expn >= EXPONENT_LIMIT || expn <= -EXPONENT_LIMIT)
    ensures CorrectBits(if expn < 0 then 0 else INFINITE, ReadValue(radix, ds, dot, isBin, expn))
            <==> ReadsExactly(radix, ds, dot, isBin, expn)
  {
    hide Exp, ReadValue, StoredValue, Top, CorrectBits, LeadingZeros;
    EndsDecide(ReadValue(radix, ds, dot, isBin, expn));
  }

  lemma EndsDecide(x: real)
    ensures CorrectBits(INFINITE, x) <==> x >= Huge()
    ensures CorrectBits(0, x) <==> x <= Tiny()
  {
    hide Exp;
    if CorrectBits(0, x) {
      ZeroPattern(0, x);
    }
    if x <= Tiny() {
      UnderflowCorrect(x);
    }
  }

  /** A number whose exponent does not fit 32 bits overflows or underflows. */
  lemma OutOfRange(radix: nat, ds: seq<nat>, dot: int, isBin: bool, expn: int)
    requires IsRadix(radix) && DigitsOf(radix, ds) && LeadingZeros(ds) < |ds|
    ensures var x, top := ReadValue(radix, ds, dot, isBin, expn), Top(radix, ds, dot, isBin, expn);
            && (top > INT32_MAX ==> x >= Huge()) && (top < -0x8000_0000 ==> x <= Tiny())
  {
    hide Exp, ReadValue, Top, LeadingZeros, RadixBits;
    TopBounds(radix, ds, dot, isBin, expn);
    var top := Top(radix, ds, dot, isBin, expn);
    StepBound(radix);
    if top > INT32_MAX {
      BaseUp(Unit(radix), 0, top - Step(radix));
      ExpUp(2, 1024, top - Step(radix));
      ExpPos(2, 970);
    } else if top < -0x8000_0000 {
      BaseUp(Unit(radix), top, 0);
      ExpUp(2, top, -1075);
    }
  }

  lemma StepBound(radix: nat)
    requires IsRadix(radix)
    ensures 1 <= Step(radix) <= 5
  {
    hide RadixBits;
    if IsPow2(radix) {
      SmallRadixBits(radix);
    }
  }

  /** The pattern of the number stored is right for the number written exactly under the stated condition. */
  lemma StoredExact(radix: nat, ds: seq<nat>, dot: int, isBin: bool, expn: int, a: nat)
    requires IsRadix(radix) && DigitsOf(radix, ds) && LeadingZeros(ds) < |ds|
    requires -EXPONENT_LIMIT < expn < EXPONENT_LIMIT && CorrectBits(a, StoredValue(radix, ds, dot, isBin, expn))
    ensures CorrectBits(a, ReadValue(radix, ds, dot, isBin, expn)) <==> ReadsExactly(radix, ds, dot, isBin, expn)
  {
    hide Exp, ReadValue, Top, LeadingZeros, CorrectBits, StoredValue;
    var x, y := ReadValue(radix, ds, dot, isBin, expn), StoredValue(radix, ds, dot, isBin, expn);
    var top := Top(radix, ds, dot, isBin, expn);
    if IsI32(top) {
      StoredSame(radix, ds, dot, isBin, expn);
    } else {
      OutOfRange(radix, ds, dot, isBin, expn);
      InfinitePattern(a, y);
      ZeroPattern(a, y);
      EndsDecide(x);
      if CorrectBits(a, x) {
        InfinitePattern(a, x);
        ZeroPattern(a, x);
      }
    }
  }

  lemma StoredSame(radix: nat, ds: seq<nat>, dot: int, isBin: bool, expn: int)
    requires IsRadix(radix) && IsI32(Top(radix, ds, dot, isBin, expn))
    ensures StoredValue(radix, ds, dot, isBin, expn) == ReadValue(radix, ds, dot, isBin, expn)
  {
    hide Exp, ReadValue, Top;
    ExpZero(Unit(radix));
  }

  /** Digits are dropped only after more bits than a mantissa and its rounding need. */
  lemma DroppedDigits(radix: nat, ds: seq<nat>, z: nat, k: nat)
    requires IsPow2(radix) && DigitsOf(radix, ds) && z < k <= |ds| && ds[z] != 0
             && k == z + Min(|ds| - z, ATOD_MAX_DIGITS[radix - 2])
    ensures Pow(radix, |ds| - k) > 1 ==> ToNat(radix, ds[z..k]) >= Pow(2, 55)
  {
    hide Pow, ToNat;
    SignificantDigits(radix, ds, z, k);
    EnoughBits(radix);
    PowSmall(radix);
  }

  lemma CutNumeral(radix: nat, ds: seq<nat>, dot: int, expn: int, f: int, x: real)
    requires IsRadix(radix) && f == expn - (|ds| - dot) && x == Numeral(radix, ds, dot, false, expn)
    ensures x == ToNat(radix, ds) as real * Exp(radix, f)
  {
    hide Exp, ToNat;
    ExpAdd(radix, dot - |ds|, expn);
    RMulAssoc(ToNat(radix, ds) as real, Exp(radix, dot - |ds|), Exp(radix, expn));
  }
}
