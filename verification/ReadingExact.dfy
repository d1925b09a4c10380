/**
 The condition under which a numeral is read as the number written, in integers: for all radices, digits, points and
 exponents.
 */
module ReadingExact {
  import opened Basics
  import opened Int32
  import opened Powers
  import opened RealPowers
  import opened FloorLog
  import opened Scaling
  import opened Doubles
  import opened Reading
  import opened ReadingLimits

  // ----- numbers as integers times a power -----

  /** The integer that the digits read stand for: all of them in power-of-two radices, else those that are kept. */
  function Significand(radix: nat, ds: seq<nat>): nat
    requires IsRadix(radix)
  {
    if IsPow2(radix) then ToNat(radix, ds) else ToNat(radix, ds[..Kept(radix, ds)])
  }

  /** The exponent of its last digit, of two or of the radix. */
  function LastExponent(radix: nat, ds: seq<nat>, dot: int, isBin: bool, expn: int): int
    requires IsRadix(radix)
  {
    if IsPow2(radix) then
      (if isBin then expn else expn * RadixBits(radix)) + (dot - |ds|) * RadixBits(radix)
    else expn + dot - Kept(radix, ds)
  }

  lemma ReadIs(radix: nat, ds: seq<nat>, dot: int, isBin: bool, expn: int)
    requires IsRadix(radix)
    ensures ReadValue(radix, ds, dot, isBin, expn) ==
            Significand(radix, ds) as real * Exp(Unit(radix), LastExponent(radix, ds, dot, isBin, expn))
  {
    hide Exp, ToNat, RadixBits, Kept;
    if IsPow2(radix) {
      var bits := RadixBits(radix);
      var s := if isBin then expn else expn * bits;
      ExpPow2(radix, dot - |ds|);
      ExpPow2(radix, expn);
      assert bits * expn == expn * bits && bits * (dot - |ds|) == (dot - |ds|) * bits;
      ExpAdd(2, (dot - |ds|) * bits, s);
      RMulAssoc(ToNat(radix, ds) as real, Exp(2, (dot - |ds|) * bits), Exp(2, s));
    } else {
      var k := Kept(radix, ds);
      CutNumeral(radix, ds[..k], dot, expn, expn + dot - k, ReadValue(radix, ds, dot, isBin, expn));
    }
  }

  lemma StoredIs(radix: nat, ds: seq<nat>, dot: int, isBin: bool, expn: int)
    requires IsRadix(radix)
    ensures var top := Top(radix, ds, dot, isBin, expn);
            StoredValue(radix, ds, dot, isBin, expn) == Significand(radix, ds) as real
              * Exp(Unit(radix), LastExponent(radix, ds, dot, isBin, expn) + (Wrap32(top) - top))
  {
    hide Exp, ReadValue, Wrap32, Top, Significand, LastExponent;
    var top, k, u := Top(radix, ds, dot, isBin, expn), LastExponent(radix, ds, dot, isBin, expn), Unit(radix);
    ReadIs(radix, ds, dot, isBin, expn);
    ExpAdd(u, k, Wrap32(top) - top);
    RMulAssoc(Significand(radix, ds) as real, Exp(u, k), Exp(u, Wrap32(top) - top));
  }

  // ----- comparing with the limits -----

  /** n * u^k is rounded to infinity: it reaches 2^1024 - 2^970. */
  predicate IsHuge(n: nat, u: nat, k: int) {
    var h := Pow(2, 1024) - Pow(2, 970);
    if k >= 0 then n * Pow(u, k) >= h else n >= h * Pow(u, -k)
  }

  /** n * u^k is rounded to zero: it is at most 2^-1075. */
  predicate IsTiny(n: nat, u: nat, k: int) {
    if k >= 0 then n == 0 else n * Pow(2, 1075) <= Pow(u, -k)
  }

  lemma HugeIs(n: nat, u: nat, k: int)
    requires u >= 2
    ensures n as real * Exp(u, k) >= Huge() <==> IsHuge(n, u, k)
  {
    hide Exp, Pow;
    var h := Pow(2, 1024) - Pow(2, 970);
    ExpIsPow(2, 1024);
    ExpIsPow(2, 970);
    PowUp(2, 970, 1024);
    assert Huge() == h as real;
    if k >= 0 {
      ExpIsPow(u, k);
      ProductOfCasts(n, Pow(u, k));
    } else {
      var p, x := Pow(u, -k), n as real * Exp(u, k);
      PowPos(u, -k);
      ExpIsPow(u, -k);
      ExpInverse(u, k);
      ProductTail(x, n as real, Exp(u, k), p as real, 1.0);
      ProductOfCasts(h, p);
      CompareProducts2(h as real, x, p as real, (h * p) as real, n as real);
    }
  }

  lemma TinyIs(n: nat, u: nat, k: int)
    requires u >= 2
    ensures n as real * Exp(u, k) <= Tiny() <==> IsTiny(n, u, k)
  {
    hide Exp, Pow;
    var q, x := Pow(2, 1075), n as real * Exp(u, k);
    PowPos(2, 1075);
    ExpIsPow(2, 1075);
    ExpInverse(2, -1075);
    if k >= 0 {
      ExpIsPow(u, k);
      PowPos(u, k);
      ProductOfCasts(n, Pow(u, k));
      TinyBelowOne();
      if n == 0 {
        ExpPos(2, -1075);
      } else {
        MulUp(1, n, 1, Pow(u, k));
      }
    } else {
      var p := Pow(u, -k);
      PowPos(u, -k);
      ExpIsPow(u, -k);
      ExpInverse(u, k);
      ProductTail(x, n as real, Exp(u, k), p as real, 1.0);
      // x <= 2^-1075, times p and q
      CompareProducts2(x, Tiny(), p as real, n as real, Tiny() * p as real);
      SwapFactor(Tiny() * p as real, p as real, Tiny(), q as real, p as real * q as real);
      CompareProducts2(n as real, Tiny() * p as real, q as real, (n * q) as real, p as real);
    }
  }

  lemma TinyBelowOne()
    ensures Tiny() < 1.0
  {
    hide Exp;
    ExpUpStrict(2, -1075, 0);
    ExpZero(2);
  }

  // ----- the exact condition -----

  /**
   A numeral is read as the number written if and only if it is zero; or its exponent is too long to be stored and the
   number overflows or underflows; or the exponent above its leading digit fits 32 bits; or what is left of that
   exponent makes it overflow or underflow as it should.
   */
  lemma ReadsExactlyIff(radix: nat, ds: seq<nat>, dot: int, isBin: bool, expn: int)
    requires IsRadix(radix)
    ensures var n, u := Significand(radix, ds), Unit(radix);
            var k, top := LastExponent(radix, ds, dot, isBin, expn), Top(radix, ds, dot, isBin, expn);
            var j := k + (Wrap32(top) - top);
            ReadsExactly(radix, ds, dot, isBin, expn) <==>
              || LeadingZeros(ds) == |ds|
              || (if expn >= EXPONENT_LIMIT then IsHuge(n, u, k)
                  else if expn <= -EXPONENT_LIMIT then IsTiny(n, u, k)
                  else IsI32(top) || (if top > 0 then IsHuge(n, u, j) else IsTiny(n, u, j)))
  {
    hide Exp, ReadValue, StoredValue, Wrap32, Top, Significand, LastExponent, IsHuge, IsTiny, LeadingZeros, Huge, Tiny;
    var n, u := Significand(radix, ds), Unit(radix);
    var k, top := LastExponent(radix, ds, dot, isBin, expn), Top(radix, ds, dot, isBin, expn);
    var j := k + (Wrap32(top) - top);
    ReadIs(radix, ds, dot, isBin, expn);
    StoredIs(radix, ds, dot, isBin, expn);
    HugeIs(n, u, k);
    TinyIs(n, u, k);
    HugeIs(n, u, j);
    TinyIs(n, u, j);
  }

  // ----- power-of-two radices, bit by bit -----

  /** The number of bits of a positive number. */
  function BitsOf(d: nat): (b: nat)
    requires d > 0
    ensures b >= 1 && Pow(2, b - 1) <= d < Pow(2, b)
  {
    if d == 1 then
      PowSmall(2);
      1
    else
      var b := BitsOf(d / 2);
      PowTwice(b - 1);
      PowTwice(b);
      b + 1
  }

  /** The number of bits of the digits. */
  function BitLength(radix: nat, ds: seq<nat>): nat
    requires IsPow2(radix) && LeadingZeros(ds) < |ds|
  {
    var z, bits := LeadingZeros(ds), RadixBits(radix);
    MulUp(0, |ds| - z - 1, 0, bits);
    (|ds| - z - 1) * bits + BitsOf(ds[z])
  }

  lemma BitLengthIs(radix: nat, ds: seq<nat>)
    requires IsPow2(radix) && DigitsOf(radix, ds) && LeadingZeros(ds) < |ds|
    ensures var l := BitLength(radix, ds); l >= 1 && Pow(2, l - 1) <= ToNat(radix, ds) < Pow(2, l)
  {
    hide Pow, ToNat, RadixBits, LeadingZeros, BitsOf;
    var z := LeadingZeros(ds);
    var b, r := BitsOf(ds[z]), |ds| - z - 1;
    LeadingDigit(radix, ds, z);
    ToNatBound(radix, ds[z + 1..]);
    DigitWeight(radix, b, r);
    LeadBound(ds[z], Pow(2, b - 1), Pow(2, b), Pow(radix, r), ToNat(radix, ds[z + 1..]));
  }

  lemma LeadingDigit(radix: nat, ds: seq<nat>, z: nat)
    requires z < |ds| && forall i :: 0 <= i < z ==> ds[i] == 0
    ensures ToNat(radix, ds) == ds[z] * Pow(radix, |ds| - z - 1) + ToNat(radix, ds[z + 1..])
  {
    hide Pow, ToNat;
    assert ds == ds[..z + 1] + ds[z + 1..];
    ToNatZeros(radix, ds[..z]);
    ToNatSnoc(radix, ds, z);
    ToNatAppend(radix, ds[..z + 1], ds[z + 1..]);
  }

  lemma DigitWeight(radix: nat, b: nat, r: nat)
    requires IsPow2(radix) && b >= 1
    ensures var l := r * RadixBits(radix) + b;
            l >= 1 && Pow(2, l - 1) == Pow(2, b - 1) * Pow(radix, r) && Pow(2, l) == Pow(2, b) * Pow(radix, r)
  {
    hide Pow, RadixBits;
    var bits := RadixBits(radix);
    PowOfPow(2, bits, r);
    assert bits * r == r * bits;
    MulUp(0, r, 0, bits);
    PowAdd(2, b - 1, r * bits);
    PowAdd(2, b, r * bits);
  }

  lemma LeadBound(d: nat, a: nat, b: nat, p: nat, rest: nat)
    requires a <= d < b && rest < p
    ensures a * p <= d * p + rest < b * p
  {
    MulUpAny(a, d, p);
    MulUpAny(d + 1, b, p);
  }

  /** The first 54 bits are ones. */
  predicate FirstOnes(n: nat, l: nat) { n * Pow(2, 54) >= (Pow(2, 54) - 1) * Pow(2, l) }

  /** A number below 2^t, but not below half of it, overflows; the tie is decided by its bits. */
  predicate Overflows(n: nat, l: nat, t: int) { t > 1024 || (t == 1024 && FirstOnes(n, l)) }

  /** It underflows; the tie is decided by whether it has a single bit. */
  predicate Underflows(n: nat, l: nat, t: int) { t <= -1075 || (t == -1074 && l >= 1 && n == Pow(2, l - 1)) }

  lemma BinaryBinade(n: nat, l: nat, k: int, x: real)
    requires l >= 1 && Pow(2, l - 1) <= n < Pow(2, l) && x == n as real * Exp(2, k)
    ensures Exp(2, l + k - 1) <= x < Exp(2, l + k)
    ensures x == Exp(2, l + k - 1) <==> n == Pow(2, l - 1)
  {
    hide Exp, Pow;
    var t := Exp(2, k);
    ExpPos(2, k);
    ExpIsPow(2, l - 1);
    ExpIsPow(2, l);
    ExpAdd(2, l - 1, k);
    ExpAdd(2, l, k);
    CompareProducts2(Pow(2, l - 1) as real, n as real, t, Exp(2, l + k - 1), x);
    CompareProducts2(n as real, Pow(2, l - 1) as real, t, x, Exp(2, l + k - 1));
    CompareProducts2(Pow(2, l) as real, n as real, t, Exp(2, l + k), x);
  }

  lemma BinaryHuge(n: nat, l: nat, k: int, x: real)
    requires l >= 1 && Pow(2, l - 1) <= n < Pow(2, l) && x == n as real * Exp(2, k)
    ensures x >= Huge() <==> Overflows(n, l, l + k)
  {
    hide Exp, Pow, FirstOnes;
    BinaryBinade(n, l, k, x);
    OneBetween();
    if l + k > 1024 {
      ExpUp(2, 1024, l + k - 1);
    } else if l + k < 1024 {
      ExpUp(2, l + k, 1023);
    } else {
      HugeTie(n, l, k, x);
    }
  }

  lemma HugeTie(n: nat, l: nat, k: int, x: real)
    requires x == n as real * Exp(2, k) && l + k == 1024
    ensures x >= Huge() <==> FirstOnes(n, l)
  {
    hide Exp, Pow;
    var s, q := Exp(2, 54 - k), Pow(2, 54);
    ExpPos(2, 54 - k);
    ExpIsPow(2, 54);
    ExpIsPow(2, l);
    PowPos(2, 54);
    ExpAdd(2, k, 54 - k);
    ProductTail(x, n as real, Exp(2, k), s, q as real);
    ProductOfCasts(n, q);
    ExpAdd(2, 54, 970);
    HugeFactors(q as real, Exp(2, 970));
    ExpAdd(2, 970, 54 - k);
    ProductTail(Huge(), (q - 1) as real, Exp(2, 970), s, Pow(2, l) as real);
    ProductOfCasts(q - 1, Pow(2, l));
    CompareProducts2(Huge(), x, s, ((q - 1) * Pow(2, l)) as real, (n * q) as real);
  }

  lemma HugeFactors(q: real, e: real)
    requires Exp(2, 1024) == q * e && e == Exp(2, 970)
    ensures Huge() == (q - 1.0) * e
  {
  }

  lemma BinaryTiny(n: nat, l: nat, k: int, x: real)
    requires l >= 1 && Pow(2, l - 1) <= n < Pow(2, l) && x == n as real * Exp(2, k)
    ensures x <= Tiny() <==> Underflows(n, l, l + k)
  {
    hide Exp, Pow;
    BinaryBinade(n, l, k, x);
    OneBetween();
    if l + k <= -1075 {
      ExpUp(2, l + k, -1075);
    } else if l + k > -1074 {
      ExpUp(2, -1074, l + k - 1);
    }
  }

  /**
   Power-of-two radices: what decides is the exponent above the leading bit, and in two ties the other bits. It is the
   exponent above the leading digit, less the bits by which that digit falls short.
   */
  lemma BinaryReads(radix: nat, ds: seq<nat>, dot: int, isBin: bool, expn: int)
    requires IsPow2(radix) && DigitsOf(radix, ds) && LeadingZeros(ds) < |ds|
    ensures var n, l, top := ToNat(radix, ds), BitLength(radix, ds), Top(radix, ds, dot, isBin, expn);
            var short := RadixBits(radix) - BitsOf(ds[LeadingZeros(ds)]);
            ReadsExactly(radix, ds, dot, isBin, expn) <==>
              if expn >= EXPONENT_LIMIT then Overflows(n, l, top - short)
              else if expn <= -EXPONENT_LIMIT then Underflows(n, l, top - short)
              else IsI32(top) || (if top > 0 then Overflows(n, l, Wrap32(top) - short)
                                  else Underflows(n, l, Wrap32(top) - short))
  {
    hide Exp, ReadValue, StoredValue, Wrap32, ToNat, BitLength, Overflows, Underflows, LeadingZeros, Huge, Tiny, BitsOf,
         RadixBits, Top;
    BinaryDecides(radix, ds, dot, isBin, expn);
  }

  /** Both the number written and the number stored, compared with the limits. */
  lemma BinaryDecides(radix: nat, ds: seq<nat>, dot: int, isBin: bool, expn: int)
    requires IsPow2(radix) && DigitsOf(radix, ds) && LeadingZeros(ds) < |ds|
    ensures var n, l, top := ToNat(radix, ds), BitLength(radix, ds), Top(radix, ds, dot, isBin, expn);
            var short := RadixBits(radix) - BitsOf(ds[LeadingZeros(ds)]);
            var x, y := ReadValue(radix, ds, dot, isBin, expn), StoredValue(radix, ds, dot, isBin, expn);
            && (x >= Huge() <==> Overflows(n, l, top - short)) && (x <= Tiny() <==> Underflows(n, l, top - short))
            && (y >= Huge() <==> Overflows(n, l, Wrap32(top) - short))
            && (y <= Tiny() <==> Underflows(n, l, Wrap32(top) - short))
  {
    hide Exp, Pow, ReadValue, StoredValue, Wrap32, ToNat, BitLength, Overflows, Underflows, LeadingZeros, Huge, Tiny,
         BitsOf,
         RadixBits, Top, LastExponent;
    var n, l, top := ToNat(radix, ds), BitLength(radix, ds), Top(radix, ds, dot, isBin, expn);
    var k, short := LastExponent(radix, ds, dot, isBin, expn), RadixBits(radix) - BitsOf(ds[LeadingZeros(ds)]);
    BitLengthIs(radix, ds);
    LeadingBit(radix, ds, dot, isBin, expn);
    BinaryValues(radix, ds, dot, isBin, expn);
    Decided(n, l, k, top - short, ReadValue(radix, ds, dot, isBin, expn));
    Decided(n, l, k + (Wrap32(top) - top), Wrap32(top) - short, StoredValue(radix, ds, dot, isBin, expn));
  }

  lemma Decided(n: nat, l: nat, k: int, t: int, x: real)
    requires l >= 1 && Pow(2, l - 1) <= n < Pow(2, l) && x == n as real * Exp(2, k) && t == l + k
    ensures (x >= Huge() <==> Overflows(n, l, t)) && (x <= Tiny() <==> Underflows(n, l, t))
  {
    hide Exp, Pow, Overflows, Underflows, Huge, Tiny;
    BinaryHuge(n, l, k, x);
    BinaryTiny(n, l, k, x);
  }

  lemma BinaryValues(radix: nat, ds: seq<nat>, dot: int, isBin: bool, expn: int)
    requires IsPow2(radix)
    ensures var n, k, top := ToNat(radix, ds), LastExponent(radix, ds, dot, isBin, expn),
            Top(radix, ds, dot, isBin, expn);
            && ReadValue(radix, ds, dot, isBin, expn) == n as real * Exp(2, k)
            && StoredValue(radix, ds, dot, isBin, expn) == n as real * Exp(2, k + (Wrap32(top) - top))
  {
    hide Exp, ToNat, ReadValue, StoredValue, Wrap32, Top, LastExponent;
    ReadIs(radix, ds, dot, isBin, expn);
    StoredIs(radix, ds, dot, isBin, expn);
  }

  lemma LeadingBit(radix: nat, ds: seq<nat>, dot: int, isBin: bool, expn: int)
    requires IsPow2(radix) && LeadingZeros(ds) < |ds|
    ensures BitLength(radix, ds) + LastExponent(radix, ds, dot, isBin, expn) ==
            Top(radix, ds, dot, isBin, expn) - (RadixBits(radix) - BitsOf(ds[LeadingZeros(ds)]))
  {
    hide RadixBits, LeadingZeros, BitsOf;
    var z, bits := LeadingZeros(ds), RadixBits(radix);
    assert (|ds| - z - 1) * bits + (dot - |ds|) * bits == (dot - z) * bits - bits by {
      Distribute(dot - z, 1, bits);
      assert (|ds| - z - 1) * bits + (dot - |ds|) * bits == (|ds| - z - 1 + dot - |ds|) * bits;
    }
  }
}
