/**
 Printing a double: the three layouts of the digits, the fast path for integers, the fixed and fractional formats, and
 the round trip of every double through its free-format text in every radix.
 */
module NumberPrinting {
  import opened Basics
  import opened Powers
  import opened RealPowers
  import opened Limbs
  import opened Rounding
  import opened BigNumbers
  import opened FloorLog
  import opened ConversionTables
  import opened Scaling
  import opened Doubles
  import opened Printing
  import opened DoubleBits
  import opened ReadingTables
  import opened Reading
  import opened ReadingLimits
  import opened DigitOutput
  import opened NumberText
  import opened NumberGrammar
  import opened WrittenNumbers

  /** When digits are printed with an exponent. */
  datatype ExpMode = Auto | Enabled | Disabled

  /** As many digits as needed, a number of significant digits, or a number of digits after the point. */
  datatype Format = Free | Fixed(digits: nat) | Frac(digits: nat)

  // ----- the number a text stands for -----

  ghost function ExponentOf(w: Written): int {
    if w.suffix.NoExponent? then 0 else Signed(w.suffix.neg, ToNat(10, w.suffix.ds))
  }

  predicate IsBinary(w: Written) { w.suffix.WithExponent? && w.suffix.isBin }

  /** What the reader makes of a text. */
  ghost function Meaning(radix: nat, w: Written): real
    requires IsRadix(radix)
  {
    ReadValue(radix, w.ds, w.dot, IsBinary(w), ExponentOf(w))
  }

  /** The number a text stands for, with all its digits. */
  ghost function Exact(radix: nat, w: Written): real
    requires IsRadix(radix)
  {
    Numeral(radix, w.ds, w.dot, IsBinary(w), ExponentOf(w))
  }

  /** The sizes of printed texts. */
  ghost predicate Moderate(w: Written) {
    |w.ds| <= 2000 && -6000 <= ExponentOf(w) <= 6000 && (w.suffix.WithExponent? ==> |w.suffix.ds| <= 4)
  }

  /** Printed texts are read exactly. */
  lemma ModerateReads(radix: nat, w: Written, b: nat)
    requires WfWritten(radix, w) && Moderate(w) && ReadAs(b, radix, w.ds, w.dot, IsBinary(w), ExponentOf(w))
    ensures CorrectBits(b, Meaning(radix, w))
  {
    hide ReadValue, StoredValue, CorrectBits, ExponentOf, ReadsExactly;
    ModerateTop(radix, w);
    FittingReads(radix, w.ds, w.dot, IsBinary(w), ExponentOf(w));
  }

  lemma ModerateTop(radix: nat, w: Written)
    requires WfWritten(radix, w) && Moderate(w)
    ensures IsI32(Top(radix, w.ds, w.dot, IsBinary(w), ExponentOf(w)))
  {
    hide RadixBits, LeadingZeros, ExponentOf;
    if IsPow2(radix) {
      SmallRadixBits(radix);
      var bits, lead, e := RadixBits(radix), w.dot - LeadingZeros(w.ds), ExponentOf(w);
      MulUpAny(lead, 2000, bits);
      MulUpAny(-2000, lead, bits);
      MulUpAny(e, 6000, bits);
      MulUpAny(-6000, e, bits);
    }
  }

  // ----- values of the layouts -----

  function ZeroDigits(n: nat): (ds: seq<nat>)
    ensures |ds| == n && DigitsOf(2, ds)
  {
    seq(n, _ => 0)
  }

  /** At most the digits of the free format. */
  predicate Few(radix: nat, n: nat)
    requires IsRadix(radix)
  {
    n <= DTOA_MAX_DIGITS[radix - 2]
  }

  /** From this exponent on numbers are printed with an exponent, if it is not forced or forbidden. */
  function FreeMax(radix: nat): (r: nat)
    requires IsRadix(radix)
    ensures r >= 4
  {
    DTOA_MAX_DIGITS[radix - 2] + 4
  }

  /** Free-format digits are never cut by the reader. */
  lemma FewEnough(radix: nat)
    requires IsRadix(radix)
    ensures DTOA_MAX_DIGITS[radix - 2] <= ATOD_MAX_DIGITS[radix - 2] && DTOA_MAX_DIGITS[radix - 2] <= 54
  {
  }

  lemma FewAre(radix: nat, n: nat)
    requires IsRadix(radix)
    ensures (Few(radix, n) ==> n <= 54) && Few(radix, 1)
  {
    FewEnough(radix);
    MaxDigits(radix);
  }

  /** Digits with the point behind the first `dot` of them. */
  lemma PlainValue(radix: nat, ds: seq<nat>, dot: int)
    requires IsRadix(radix)
    ensures Numeral(radix, ds, dot, false, 0) == Back(ToNat(radix, ds), radix, dot - |ds|)
  {
    hide Exp, ToNat;
    CutNumeral(radix, ds, dot, 0, dot - |ds|, Numeral(radix, ds, dot, false, 0));
  }

  /** With an exponent: a point behind the first digit, and a power of the radix or of two. */
  lemma ExponentialValue(radix: nat, ds: seq<nat>, ee: int, isBin: bool, expn: int)
    requires IsRadix(radix) && (isBin ==> IsPow2(radix))
    requires expn == if isBin then (ee - 1) * RadixBits(radix) else ee - 1
    ensures Numeral(radix, ds, 1, isBin, expn) == Back(ToNat(radix, ds), radix, ee - |ds|)
    ensures Few(radix, |ds|) ==>
            ReadValue(radix, ds, 1, isBin, expn) == Back(ToNat(radix, ds), radix, ee - |ds|)
  {
    hide Exp, ToNat, RadixBits, Numeral, Back, ReadValue, Few;
    if Few(radix, |ds|) {
      NothingCut(radix, ds, isBin, expn);
    }
    if isBin {
      SameScale2(radix, ds, ee - 1);
    }
    ScientificValue(radix, ds, ee);
  }

  lemma NothingCut(radix: nat, ds: seq<nat>, isBin: bool, expn: int)
    requires IsRadix(radix) && Few(radix, |ds|) && (isBin ==> IsPow2(radix))
    ensures ReadValue(radix, ds, 1, isBin, expn) == Numeral(radix, ds, 1, isBin, expn)
  {
    hide Numeral, LeadingZeros;
    FewEnough(radix);
    assert ds[..|ds|] == ds;
  }

  /** A power of the radix is a power of two. */
  lemma SameScale2(radix: nat, ds: seq<nat>, k: int)
    requires IsPow2(radix)
    ensures Numeral(radix, ds, 1, true, k * RadixBits(radix)) == Numeral(radix, ds, 1, false, k)
  {
    hide Exp, ToNat, RadixBits;
    ExpPow2(radix, k);
    assert RadixBits(radix) * k == k * RadixBits(radix);
  }

  lemma ScientificValue(radix: nat, ds: seq<nat>, ee: int)
    requires IsRadix(radix)
    ensures Numeral(radix, ds, 1, false, ee - 1) == Back(ToNat(radix, ds), radix, ee - |ds|)
  {
    hide Exp, ToNat, Numeral;
    CutNumeral(radix, ds, 1, ee - 1, ee - |ds|, Numeral(radix, ds, 1, false, ee - 1));
  }

  /** Zeros before the digits. */
  lemma FractionValue(radix: nat, ds: seq<nat>, z: nat)
    requires IsRadix(radix) && DigitsOf(radix, ds)
    ensures var all := ZeroDigits(1 + z) + ds; var v := Back(ToNat(radix, ds), radix, 0 - z - |ds|);
            && Numeral(radix, all, 1, false, 0) == v
            && (Few(radix, |ds|) ==> ReadValue(radix, all, 1, false, 0) == v)
  {
    hide Exp, ToNat, Numeral, Back, Kept, Few;
    var all := ZeroDigits(1 + z) + ds;
    if Few(radix, |ds|) {
      AllKept(radix, 1 + z, ds);
      assert all[..|all|] == all;
    }
    ToNatAppend(radix, ZeroDigits(1 + z), ds);
    ToNatZeros(radix, ZeroDigits(1 + z));
    PlainValue(radix, all, 1);
  }

  lemma AllKept(radix: nat, z: nat, ds: seq<nat>)
    requires IsRadix(radix) && Few(radix, |ds|)
    ensures Kept(radix, ZeroDigits(z) + ds) == z + |ds|
  {
    hide Kept;
    FewEnough(radix);
    KeptBehindZeros(radix, z, ds);
  }

  lemma KeptBehindZeros(radix: nat, z: nat, ds: seq<nat>)
    requires IsRadix(radix) && |ds| <= ATOD_MAX_DIGITS[radix - 2]
    ensures Kept(radix, ZeroDigits(z) + ds) == z + |ds|
  {
    var all := ZeroDigits(z) + ds;
    var n := LeadingZeros(all);
    assert forall i :: 0 <= i < z ==> all[i] == 0;
    assert n >= z;
  }

  /** Zeros after the digits, which the reader may cut. */
  lemma WholeValue(radix: nat, ds: seq<nat>, z: nat, dot: int)
    requires IsRadix(radix) && DigitsOf(radix, ds)
    ensures var all := ds + ZeroDigits(z); var v := Back(ToNat(radix, ds), radix, dot - |ds|);
            && Numeral(radix, all, dot, false, 0) == v
            && (Few(radix, |ds|) ==> ReadValue(radix, all, dot, false, 0) == v)
  {
    hide Exp, ToNat, Numeral, Back, Kept, Few;
    var all := ds + ZeroDigits(z);
    TrailingZeros(radix, ds, z, dot);
    if Few(radix, |ds|) && !IsPow2(radix) {
      var k := Kept(radix, all);
      DigitsKept(radix, ds, z);
      assert all[..k] == ds + ZeroDigits(k - |ds|);
      TrailingZeros(radix, ds, k - |ds|, dot);
    }
  }

  lemma DigitsKept(radix: nat, ds: seq<nat>, z: nat)
    requires IsRadix(radix) && Few(radix, |ds|)
    ensures Kept(radix, ds + ZeroDigits(z)) >= |ds|
  {
    hide LeadingZeros;
    FewEnough(radix);
  }

  lemma TrailingZeros(radix: nat, ds: seq<nat>, z: nat, dot: int)
    requires IsRadix(radix)
    ensures Numeral(radix, ds + ZeroDigits(z), dot, false, 0) == Back(ToNat(radix, ds), radix, dot - |ds|)
  {
    hide Exp, Pow, ToNat, Numeral;
    var all := ds + ZeroDigits(z);
    PlainValue(radix, all, dot);
    ToNatAppend(radix, ds, ZeroDigits(z));
    ToNatZeros(radix, ZeroDigits(z));
    ExpIsPow(radix, z);
    ExpAdd(radix, z, dot - |all|);
    ProductOfCasts(ToNat(radix, ds), Pow(radix, z));
    RMulAssoc(ToNat(radix, ds) as real, Exp(radix, z), Exp(radix, dot - |all|));
  }

  // ----- the layouts -----

  /** A text that stands for the digits below the `ee`th power of the radix, also for the reader if they are few. */
  ghost predicate Denotes(radix: nat, text: string, w: Written, ds: seq<nat>, ee: int)
    requires IsRadix(radix)
  {
    && WfWritten(radix, w) && text == Text(radix, w) && Exact(radix, w) == Back(ToNat(radix, ds), radix, ee - |ds|)
    && (Few(radix, |ds|) ==>
          Moderate(w) && Meaning(radix, w) == Back(ToNat(radix, ds), radix, ee - |ds|))
  }

  predicate Printable(radix: nat, ds: seq<nat>, ee: int) {
    IsRadix(radix) && DigitsOf(radix, ds) && ds != [] && -1100 <= ee <= 1100
  }

  lemma {:induction false} DigitTextAppend(a: seq<nat>, b: seq<nat>)
    requires DigitsOf(36, a) && DigitsOf(36, b)
    ensures DigitText(a + b) == DigitText(a) + DigitText(b)
    decreases |b|
  {
    hide DigitChar;
    if b == [] {
      assert a + b == a;
    } else {
      var n := |b| - 1;
      assert (a + b)[..|a + b| - 1] == a + b[..n];
      DigitTextAppend(a, b[..n]);
    }
  }

  method AppendZeros(text0: string, n: nat) returns (text: string)
    ensures text == text0 + DigitText(ZeroDigits(n))
  {
    text := text0;
    var i := 0;
    while i < n
      invariant 0 <= i <= n && text == text0 + DigitText(ZeroDigits(i))
    {
      ZerosSnoc(i);
      text := text + "0";
      i := i + 1;
    }
  }

  lemma ZerosSnoc(n: nat)
    ensures DigitText(ZeroDigits(n + 1)) == DigitText(ZeroDigits(n)) + "0"
  {
    assert ZeroDigits(n + 1)[..n] == ZeroDigits(n);
  }

  /** Whether digits are printed with an exponent. */
  predicate UsesExponent(ee: int, eMax: nat, mode: ExpMode) {
    mode == Enabled || (mode == Auto && (ee <= -6 || ee > eMax))
  }

  /**
   The digits that a text shows, the place of its point, and an exponent or none: of two for the radices 2, 4, 8 and
   16, without superfluous zeros, and negative only below zero.
   */
  ghost predicate LaidOut(radix: nat, w: Written, ds: seq<nat>, ee: int, exponent: bool) {
    if exponent then
      && w.ds == ds && w.dot == 1 && w.suffix.WithExponent? && w.suffix.ds != []
      && (w.suffix.ds[0] != 0 || (|w.suffix.ds| == 1 && !w.suffix.neg))
      && (w.suffix.isBin <==> radix in {2, 4, 8, 16})
    else
      && w.suffix.NoExponent?
      && if ee <= 0 then w.ds == ZeroDigits(1 - ee) + ds && w.dot == 1
         else w.ds == ds + ZeroDigits(Max(0, ee - |ds|)) && w.dot == ee
  }

  /** d.ddd with an exponent: of ten, of two for the radices 2, 4, 8 and 16, else of the radix. */
  method Exponential(ds: seq<nat>, radix: nat, ee: int) returns (text: string, w: Written)
    requires Printable(radix, ds, ee)
    ensures Denotes(radix, text, w, ds, ee) && LaidOut(radix, w, ds, ee, true)
  {
    hide ToNat, Back, RadixBits, DigitText, PointText, ReadValue, Few;
    text := PointText(ds, 1);
    var e, isBin := ee - 1, false;
    if radix != 10 && IsPow2(radix) && radix <= 16 {
      ShortBits(radix, ee - 1);
      e := e * RadixBits(radix);
      isBin := true;
    }
    var neg := e < 0;
    var digits := NatDigits(if neg then -e else e, 10);
    FourDigits(digits);
    text := text + ([Mark(radix, isBin), if neg then '-' else '+'] + DigitText(digits));
    w := Written(ds, 1, WithExponent(neg, digits, isBin));
    assert ExponentOf(w) == e;
    ExponentialValue(radix, ds, ee, isBin, e);
    FewAre(radix, |ds|);
  }

  lemma ShortBits(radix: nat, e: int)
    requires IsPow2(radix) && radix <= 16 && -1101 <= e <= 1099
    ensures -4404 <= e * RadixBits(radix) <= 4396
  {
    assert 1 <= RadixBits(radix) <= 4;
    hide RadixBits;
    var bits := RadixBits(radix);
    MulUpAny(e, 1099, bits);
    MulUpAny(-1101, e, bits);
  }

  lemma FourDigits(ds: seq<nat>)
    requires DigitsOf(10, ds) && ds != [] && ToNat(10, ds) <= 9999 && (ds[0] != 0 || |ds| == 1)
    ensures |ds| <= 4
  {
    hide ToNat, Pow;
    if |ds| > 4 {
      ToNatNonZero(10, ds, 0);
      PowUp(10, 4, |ds| - 1);
      PowIs(10, 4, 10000);
    }
  }

  /** 0.000ddd */
  method Fraction(ds: seq<nat>, radix: nat, ee: int) returns (text: string, w: Written)
    requires Printable(radix, ds, ee) && ee <= 0
    ensures Denotes(radix, text, w, ds, ee) && LaidOut(radix, w, ds, ee, false)
  {
    hide ToNat, Back, RadixBits, DigitText, ReadValue, Few;
    text := AppendZeros("0.", -ee);
    text := text + DigitText(ds);
    var all := ZeroDigits(1 - ee) + ds;
    w := Written(all, 1, NoExponent);
    FewAre(radix, |ds|);
    FractionValue(radix, ds, -ee);
    assert text == Text(radix, w) by {
      assert all[..1] == [0] && all[1..] == ZeroDigits(-ee) + ds;
      DigitTextAppend(ZeroDigits(-ee), ds);
      assert DigitText([0]) == "0" by {
        ZerosSnoc(0); assert ZeroDigits(1) == [0]; assert DigitText(ZeroDigits(0)) == "";
      }
    }
  }

  /** ddd.ddd, ddd or ddd000 */
  method Whole(ds: seq<nat>, radix: nat, ee: int) returns (text: string, w: Written)
    requires Printable(radix, ds, ee) && ee > 0
    ensures Denotes(radix, text, w, ds, ee) && LaidOut(radix, w, ds, ee, false)
  {
    hide ToNat, Back, RadixBits, DigitText, ReadValue, Few;
    var p := |ds|;
    FewAre(radix, |ds|);
    text := PointText(ds, Min(p, ee));
    text := AppendZeros(text, Max(0, ee - p));
    var all := ds + ZeroDigits(Max(0, ee - p));
    w := Written(all, ee, NoExponent);
    WholeValue(radix, ds, Max(0, ee - p), ee);
    assert text == Text(radix, w) by {
      DigitTextAppend(ds, ZeroDigits(Max(0, ee - p)));
      if ee < p {
        assert all == ds;
        assert DigitText(ZeroDigits(0)) == "";
      }
    }
  }

  /** Chooses the layout. */
  method Layout(ds: seq<nat>, radix: nat, ee: int, eMax: nat, mode: ExpMode) returns (text: string, w: Written)
    requires Printable(radix, ds, ee)
    ensures Denotes(radix, text, w, ds, ee) && LaidOut(radix, w, ds, ee, UsesExponent(ee, eMax, mode))
  {
    hide Denotes, LaidOut;
    if mode == Enabled || (mode == Auto && (ee <= -6 || ee > eMax)) {
      text, w := Exponential(ds, radix, ee);
    } else if ee <= 0 {
      text, w := Fraction(ds, radix, ee);
    } else {
      text, w := Whole(ds, radix, ee);
    }
  }

  // ----- printing a double -----

  /** A text that is read as the pattern `a` and as no other. */
  ghost predicate Prints(radix: nat, text: string, w: Written, a: nat)
    requires IsRadix(radix)
  {
    && WfWritten(radix, w) && Moderate(w) && text == Text(radix, w)
    && forall b :: CorrectBits(b, Meaning(radix, w)) ==> b == a
  }

  /** A normal double is the real it stands for, rounded. */
  lemma SourceRounds(m: nat, e: int, x: real)
    requires Source(m, e, x) && e >= -1021
    ensures RoundsToDouble(x, m, e, NearestEven)
  {
    hide Exp, Pow, Binade;
    SourceBinade(m, e, x);
    ExpInverse(2, e - 53);
    ProductTail(x, m as real, Exp(2, e - 53), Exp(2, 53 - e), 1.0);
    assert Units(x, e) == m as real;
    RoundedIntro(x, e, m, m, e, NearestEven);
  }

  /** A double without a fraction is an integer. */
  lemma IntegerSource(m: nat, e: int, x: real, d: nat, n: nat)
    requires Source(m, e, x) && 1 <= e <= 53 && d == Pow(2, 53 - e) && m == n * d
    ensures x == n as real && n < TWO53 && n > 0
  {
    hide Exp, Pow;
    PowPos(2, 53 - e);
    ExpIsPow(2, 53 - e);
    ExpInverse(2, e - 53);
    ProductOfCasts(n, d);
    ProductTail(m as real, n as real, d as real, Exp(2, e - 53), 1.0);
    MulUp(n, n, 1, d);
  }

  lemma IsSmallInteger(x: real, n: nat)
    requires x == n as real && 0 < n < TWO53
    ensures SmallInteger(x)
  {
  }

  /** Small integers are told by the exponent and the low bits of the mantissa. */
  lemma SmallIntegerBits(m: nat, e: int, x: real)
    requires Source(m, e, x) && SmallInteger(x)
    ensures 1 <= e <= 53 && Pow(2, 53 - e) > 0 && m % Pow(2, 53 - e) == 0
  {
    hide Exp, Pow;
    SourceBinade(m, e, x);
    TwoPow53();
    ExpZero(2);
    ExpIsPow(2, 53);
    if e < 1 {
      ExpUp(2, e, 0);
    } else if e > 53 {
      ExpUp(2, 53, e - 1);
    } else {
      var n, d := x.Floor, Pow(2, 53 - e);
      PowPos(2, 53 - e);
      ExpIsPow(2, 53 - e);
      ExpInverse(2, e - 53);
      ProductTail(x, m as real, Exp(2, e - 53), d as real, 1.0);
      ProductOfCasts(n, d);
      assert m == n * d;
      DivExact(n, d);
    }
  }

  /** The digits of an integer below 2^53 are not too many. */
  lemma IntegerDigits(radix: nat, ds: seq<nat>)
    requires IsRadix(radix) && DigitsOf(radix, ds) && ds != [] && ds[0] != 0 && ToNat(radix, ds) < TWO53
    ensures Few(radix, |ds|)
  {
    hide Pow, ToNat;
    MaxDigits(radix);
    DigitCount(radix, ds, DTOA_MAX_DIGITS[radix - 2]);
  }

  lemma DigitCount(radix: nat, ds: seq<nat>, p: nat)
    requires radix > 0 && ds != [] && ds[0] != 0 && p > 0 && ToNat(radix, ds) < Pow(radix, p - 1)
    ensures |ds| <= p
  {
    hide Pow, ToNat;
    ToNatNonZero(radix, ds, 0);
    if |ds| > p {
      PowUp(radix, p - 1, |ds| - 1);
    }
  }

  /** Integers are printed digit by digit. */
  method IntegerText(n: nat, radix: nat) returns (text: string, w: Written)
    requires IsRadix(radix) && 0 < n < TWO53
    ensures WfWritten(radix, w) && Moderate(w) && text == Text(radix, w) && Meaning(radix, w) == n as real
    ensures IsInteger(w) && Exact(radix, w) == n as real
  {
    hide ToNat, ReadValue, Exp, DigitText;
    var ds := NatDigits(n, radix);
    text := DigitText(ds);
    w := Written(ds, |ds|, NoExponent);
    IntegerDigits(radix, ds);
    FewEnough(radix);
    WholeValue(radix, ds, 0, |ds|);
    assert ds + ZeroDigits(0) == ds;
    ExpZero(radix);
  }

  /** Zero is printed as any digits would be. */
  method ZeroText(radix: nat, p: nat, eMax: nat, mode: ExpMode) returns (text: string, w: Written)
    requires IsRadix(radix) && p >= 1
    ensures WfWritten(radix, w) && text == Text(radix, w) && Exact(radix, w) == 0.0
    ensures LaidOut(radix, w, ZeroDigits(p), 1, UsesExponent(1, eMax, mode))
    ensures Few(radix, p) ==> Prints(radix, text, w, 0)
  {
    hide ToNat, Meaning, Exact, Exp, Moderate, Text, WfWritten, CorrectBits, Few;
    text, w := Layout(ZeroDigits(p), radix, 1, eMax, mode);
    ToNatZeros(radix, ZeroDigits(p));
    ExpPos(2, -1075);
    forall b | Few(radix, p) && CorrectBits(b, Meaning(radix, w)) ensures b == 0 {
      ZeroPattern(b, Meaning(radix, w));
    }
  }

  /** A positive integer below 2^53. */
  ghost predicate SmallInteger(x: real) {
    x == x.Floor as real && 0.0 < x < TWO53 as real
  }

  /** Small integers are printed as they are, unless an exponent is forced; the others with the digits of the search. */
  ghost predicate FreeAs(radix: nat, w: Written, a: nat, mode: ExpMode)
    requires IsRadix(radix)
  {
    if mode != Enabled && SmallInteger(BitsValue(a)) then IsInteger(w) && Exact(radix, w) == BitsValue(a)
    else a < INFINITE && exists ds, ee :: FreeLaidOut(radix, w, a, mode, ds, ee)
  }

  predicate IsInteger(w: Written) {
    w.suffix.NoExponent? && w.dot == |w.ds| && w.ds != [] && w.ds[0] != 0
  }

  /** The digits that the search chooses, the first and the last of them not zero, in the layout asked for. */
  ghost predicate FreeLaidOut(radix: nat, w: Written, a: nat, mode: ExpMode, ds: seq<nat>, ee: int)
    requires IsRadix(radix) && a < INFINITE
  {
    && ds != [] && Few(radix, |ds|) && LaidOut(radix, w, ds, ee, UsesExponent(ee, FreeMax(radix), mode))
    && if a == 0 then ds == [0] && ee == 1
       else && ds[0] != 0 && ds[|ds| - 1] != 0 && DigitsOf(radix, ds)
            && Exact(radix, w) == Back(ToNat(radix, ds), radix, ee - |ds|)
            && Chosen(BitsValue(a), radix, ToNat(radix, ds), |ds|, ee, Decode(a).0, Decode(a).1)
  }

  /** Free format: the fast path for integers, or the digits that the search found. */
  method FreeText(a: nat, radix: nat, mode: ExpMode) returns (text: string, w: Written)
    requires IsRadix(radix) && 0 < a < INFINITE
    ensures Prints(radix, text, w, a) && FreeAs(radix, w, a, mode)
  {
    hide Exp, Pow, Value, ToNat, Decode, BitsValue, RoundsToDouble, Back, Source, Meaning, CorrectBits, WfWritten,
         Moderate, Text, LaidOut, Exact, Chosen, SmallInteger;
    var m, e := Decode(a).0, Decode(a).1;
    DecodeSource(a);
    ghost var x := BitsValue(a);
    if SmallInteger(x) {
      SmallIntegerBits(m, e, x);
    }
    PowPos(2, 53);
    if 1 <= e <= 53 && mode != Enabled {
      PowPos(2, 53 - e);
      var d := Pow(2, 53 - e);
      if m % d == 0 {
        assert m == m / d * d;
        DivPositive(m, d);
        IntegerSource(m, e, x, d, m / d);
        IsSmallInteger(x, m / d);
        SourceRounds(m, e, x);
        text, w := IntegerText(m / d, radix);
        forall b | CorrectBits(b, Meaning(radix, w)) ensures b == a { ReadsSame(a, x, b); }
        return;
      }
    }
    var tmp := new Mpb(0);
    var mant, p, ee := FreeDigits(tmp, m, e, radix, x);
    MantissaFits(radix, p);
    tmp.SetU64(mant);
    var ds := OutputDigits(tmp, radix, p);
    DivUnique(mant, Pow(radix, p), 0, mant);
    text, w := Layout(ds, radix, ee, FreeMax(radix), mode);
    FirstNotZero(radix, ds);
    LastNotZero(radix, ds);
    assert FreeLaidOut(radix, w, a, mode, ds, ee);
    forall b | CorrectBits(b, Meaning(radix, w)) ensures b == a { ReadsSame(a, Back(mant, radix, ee - p), b); }
  }

  /** The value of digits that start below the `ee`th power of the radix. */
  lemma ValueRange(radix: nat, ds: seq<nat>, ee: int)
    requires IsRadix(radix) && DigitsOf(radix, ds) && ds != [] && ds[0] != 0
    ensures Exp(radix, ee - 1) <= Back(ToNat(radix, ds), radix, ee - |ds|) < Exp(radix, ee)
  {
    hide Exp, Pow, ToNat;
    var p, n, u := |ds|, ToNat(radix, ds), Exp(radix, ee - |ds|);
    ToNatNonZero(radix, ds, 0);
    ToNatBound(radix, ds);
    ExpPos(radix, ee - p);
    ExpIsPow(radix, p - 1);
    ExpIsPow(radix, p);
    ExpAdd(radix, p - 1, ee - p);
    ExpAdd(radix, p, ee - p);
    assert p - 1 + (ee - p) == ee - 1 && p + (ee - p) == ee;
    var v := Back(n, radix, ee - p);
    CompareProducts2(Pow(radix, p - 1) as real, n as real, u, Exp(radix, ee - 1), v);
    CompareProducts2(Pow(radix, p) as real, n as real, u, Exp(radix, ee), v);
  }

  /**
   In the automatic mode a number is printed with an exponent if and only if it is below radix^-6 or not below
   radix^FreeMax, which is 10^21 for decimal numbers.
   */
  lemma FreeExponent(radix: nat, w: Written, a: nat)
    requires IsRadix(radix) && 0 < a < INFINITE && FreeAs(radix, w, a, Auto)
    ensures w.suffix.WithExponent? <==>
            Exact(radix, w) < Exp(radix, -6) || Exact(radix, w) >= Exp(radix, FreeMax(radix))
    ensures FreeMax(10) == 21
  {
    hide Exp, Pow, ToNat, Exact, BitsValue, Chosen, Decode;
    var x, top := Exact(radix, w), FreeMax(radix);
    if SmallInteger(BitsValue(a)) {
      MaxDigits(radix);
      ExpZero(radix);
      ExpUp(radix, -6, 0);
      ExpIsPow(radix, DTOA_MAX_DIGITS[radix - 2] - 1);
      ExpUp(radix, DTOA_MAX_DIGITS[radix - 2] - 1, top);
    } else {
      var ds: seq<nat>, ee: int :| FreeLaidOut(radix, w, a, Auto, ds, ee);
      ValueRange(radix, ds, ee);
      ExponentRange(radix, ee, top, x);
    }
  }

  lemma ExponentRange(radix: nat, ee: int, top: nat, x: real)
    requires IsRadix(radix) && Exp(radix, ee - 1) <= x < Exp(radix, ee)
    ensures ee <= -6 || ee > top <==> x < Exp(radix, -6) || x >= Exp(radix, top)
  {
    hide Exp;
    if ee <= -6 {
      ExpUp(radix, ee, -6);
    } else {
      ExpUp(radix, -6, ee - 1);
    }
    if ee <= top {
      ExpUp(radix, ee, top);
    } else {
      ExpUp(radix, top, ee - 1);
    }
  }

  lemma FirstNotZero(radix: nat, ds: seq<nat>)
    requires IsRadix(radix) && DigitsOf(radix, ds) && ds != [] && ToNat(radix, ds) >= Pow(radix, |ds| - 1)
    ensures ds[0] != 0
  {
    hide Pow, ToNat;
    if ds[0] == 0 {
      ZeroDropped(radix, ds);
      ToNatBound(radix, ds[1..]);
    }
  }

  lemma LastNotZero(radix: nat, ds: seq<nat>)
    requires IsRadix(radix) && ds != [] && ToNat(radix, ds) % radix != 0
    ensures ds[|ds| - 1] != 0
  {
    hide Pow;
    if ds[|ds| - 1] == 0 {
      DivExact(ToNat(radix, ds[..|ds| - 1]), radix);
    }
  }

  /** The text is the number rounded to `p` significant digits, ties away from zero. */
  ghost predicate FixedAs(radix: nat, w: Written, a: nat, p: nat, mode: ExpMode, ds: seq<nat>, ee: int)
    requires IsRadix(radix)
  {
    && |ds| == p && p > 0 && DigitsOf(radix, ds) && (a > 0 ==> ds[0] != 0)
    && Rounds(Digits(BitsValue(a), radix, p, ee), ToNat(radix, ds), NearestAway)
    && Exact(radix, w) == Back(ToNat(radix, ds), radix, ee - p) && LaidOut(radix, w, ds, ee, UsesExponent(ee, p, mode))
  }

  /** A number of `p` digits is printed with an exponent if and only if it is below radix^-6 or not below radix^p. */
  lemma FixedExponent(radix: nat, w: Written, a: nat, p: nat, ds: seq<nat>, ee: int)
    requires IsRadix(radix) && 0 < a && FixedAs(radix, w, a, p, Auto, ds, ee)
    ensures w.suffix.WithExponent? <==> Exact(radix, w) < Exp(radix, -6) || Exact(radix, w) >= Exp(radix, p)
  {
    hide Exp, Pow, ToNat, Exact, BitsValue;
    ValueRange(radix, ds, ee);
    ExponentRange(radix, ee, p, Exact(radix, w));
  }

  /** The text is the number rounded to `n` digits after the point, without superfluous leading zeros. */
  ghost predicate FracAs(radix: nat, w: Written, a: nat, n: nat, f: nat)
    requires IsRadix(radix)
  {
    && Rounds(Digits(BitsValue(a), radix, n, 0), f, NearestAway) && Exact(radix, w) == Back(f, radix, 0 - n)
    && |w.ds| == w.dot + n && (w.dot == 1 || (w.ds != [] && w.ds[0] != 0))
  }

  /** A given number of significant digits. */
  method FixedText(a: nat, radix: nat, p: nat, mode: ExpMode) returns (text: string, w: Written)
    requires IsRadix(radix) && 0 < a < INFINITE && p >= 1
    ensures WfWritten(radix, w) && text == Text(radix, w) && exists ds, ee :: FixedAs(radix, w, a, p, mode, ds, ee)
  {
    hide Exp, Pow, Value, ToNat, Decode, BitsValue, Rounds, Digits, Back, Source, Meaning, Exact, WfWritten,
         Moderate, Text, Guess, MulLog2Radix, LaidOut;
    var m, e := Decode(a).0, Decode(a).1;
    DecodeSource(a);
    ghost var x := BitsValue(a);
    SourceMantissa(m, e, x);
    var tmp := new Mpb(0);
    var mantMax := new Mpb(0);
    var ee := FixedDigits(tmp, mantMax, m, e, radix, p, x);
    GuessIs(radix, e);
    GuessBound(radix, e, 1 + MulLog2Radix(e - 1, radix));
    ghost var f := Value(tmp.tab);
    var ds := OutputDigits(tmp, radix, p);
    DivUnique(f, Pow(radix, p), 0, f);
    FirstNotZero(radix, ds);
    text, w := Layout(ds, radix, ee, p, mode);
    assert FixedAs(radix, w, a, p, mode, ds, ee);
  }

  /** A given number of digits after the point; the digit added on the left is removed again if it is not needed. */
  method FracText(a: nat, radix: nat, n: nat) returns (text: string, w: Written)
    requires IsRadix(radix) && 0 < a < INFINITE
    ensures WfWritten(radix, w) && text == Text(radix, w) && w.suffix.NoExponent?
    ensures exists f: nat :: FracAs(radix, w, a, n, f)
  {
    hide Exp, Pow, Value, ToNat, Decode, BitsValue, Rounds, Digits, Back, Source, Exact, Guess, DigitText;
    var m, e := Decode(a).0, Decode(a).1;
    DecodeSource(a);
    ghost var x := BitsValue(a);
    var tmp := new Mpb(0);
    var ds, ee := FracDigits(tmp, m, e, radix, n, x);
    ghost var f := ToNat(radix, ds);
    SourceBinade(m, e, x);
    var dot := Max(ee + 1, 1);
    text := PointText(ds, dot);
    FirstChars(ds, dot);
    FracLead(x, radix, e, ee, n, ds);
    if text[0] == '0' && |text| >= 2 && text[1] != '.' {
      WithoutFirst(ds, dot);
      text := text[1..];
      ds, dot := ds[1..], dot - 1;
    }
    w := Written(ds, dot, NoExponent);
    PlainValue(radix, ds, dot);
    ExactPlain(radix, w);
    assert FracAs(radix, w, a, n, f);
  }

  lemma ExactPlain(radix: nat, w: Written)
    requires IsRadix(radix) && w.suffix.NoExponent?
    ensures Exact(radix, w) == Numeral(radix, w.ds, w.dot, false, 0)
  {
  }

  /** The first two characters of a text tell a leading zero and the point. */
  lemma FirstChars(ds: seq<nat>, dot: nat)
    requires DigitsOf(36, ds) && 1 <= dot <= |ds|
    ensures var t := PointText(ds, dot);
            && |t| >= 1 && (t[0] == '0' <==> ds[0] == 0) && (|t| >= 2 ==> (t[1] != '.' <==> dot >= 2))
            && (dot >= 2 ==> |t| >= 2)
  {
    hide DigitText;
    ToDigitOfChar(ds[0]);
    CharAt(ds[..dot], 0);
    assert dot == |ds| ==> ds[..dot] == ds;
    if dot >= 2 {
      CharAt(ds[..dot], 1);
      ToDigitOfChar(ds[1]);
    }
  }

  lemma WithoutFirst(ds: seq<nat>, dot: nat)
    requires DigitsOf(36, ds) && 2 <= dot <= |ds|
    ensures DigitsOf(36, ds[1..]) && PointText(ds, dot)[1..] == PointText(ds[1..], dot - 1)
  {
    hide DigitText;
    FirstOut(ds);
    FirstOut(ds[..dot]);
    assert ds[..dot][1..] == ds[1..][..dot - 1] && ds[dot..] == ds[1..][dot - 1..];
  }

  lemma FirstOut(ds: seq<nat>)
    requires DigitsOf(36, ds) && ds != []
    ensures DigitText(ds)[1..] == DigitText(ds[1..])
  {
    hide DigitText;
    assert ds == ds[..1] + ds[1..];
    DigitTextAppend(ds[..1], ds[1..]);
  }

  /** At most one digit on the left is superfluous. */
  lemma FracLead(x: real, radix: nat, e: int, ee: int, n: nat, ds: seq<nat>)
    requires IsRadix(radix) && Guess(radix, e, ee) && Binade(x, e) && DigitsOf(radix, ds)
    requires |ds| == Max(ee + 1, 1) + n && Rounds(Digits(x, radix, n, 0), ToNat(radix, ds), NearestAway)
    ensures ds[0] == 0 && ee >= 1 ==> ds[1] != 0 && ToNat(radix, ds[1..]) == ToNat(radix, ds)
  {
    hide Exp, Pow, ToNat, Rounds, Digits, Guess, Binade;
    if ds[0] == 0 && ee >= 1 {
      DigitsShifted(x, radix, n, ee);
      DigitsLower(x, radix, e, ee, ee + n);
      RoundsMonotone(Digits(x, radix, n, 0), ToNat(radix, ds), NearestAway, Pow(radix, ee + n - 1));
      ZeroDropped(radix, ds);
      if ds[1] == 0 {
        ZeroDropped(radix, ds[1..]);
        ToNatBound(radix, ds[1..][1..]);
        assert false;
      }
    }
  }

  lemma ZeroDropped(radix: nat, ds: seq<nat>)
    requires ds != [] && ds[0] == 0
    ensures ToNat(radix, ds[1..]) == ToNat(radix, ds)
  {
    hide Pow, ToNat;
    assert ds == ds[..1] + ds[1..];
    ToNatAppend(radix, ds[..1], ds[1..]);
    ToNatZeros(radix, ds[..1]);
  }

  /** What the formats promise about the text of a finite double. */
  ghost predicate Shows(radix: nat, w: Written, a: nat, fmt: Format, mode: ExpMode)
    requires WfWritten(radix, w)
  {
    match fmt
    case Free => Prints(radix, Text(radix, w), w, a) && FreeAs(radix, w, a, mode)
    case Fixed(p) => exists ds, ee :: FixedAs(radix, w, a, p, mode, ds, ee)
    case Frac(n) =>
      if a == 0 && mode == Enabled then LaidOut(radix, w, ZeroDigits(n + 1), 1, true) && Exact(radix, w) == 0.0
      else w.suffix.NoExponent? && exists f: nat :: FracAs(radix, w, a, n, f)
  }

  predicate IsFormat(fmt: Format) {
    match fmt
    case Free => true
    case Fixed(p) => 1 <= p <= 101
    case Frac(n) => n <= 101
  }

  /** The text of a zero, which takes the same layouts in all formats. */
  method ZeroIn(radix: nat, fmt: Format, mode: ExpMode) returns (text: string, w: Written)
    requires IsRadix(radix) && IsFormat(fmt)
    ensures WfWritten(radix, w) && text == Text(radix, w) && Shows(radix, w, 0, fmt, mode)
  {
    hide Prints, Text, WfWritten, Rounds, Exact, Pow, BitsValue, Few, LaidOut, FreeMax;
    var p := match fmt case Free => 1 case Fixed(p) => p case Frac(n) => n + 1;
    var eMax := if fmt.Fixed? then p else FreeMax(radix);
    text, w := ZeroText(radix, p, eMax, mode);
    match fmt {
      case Free =>
        FewAre(radix, 1);
        ZeroBits(0);
        assert FreeLaidOut(radix, w, 0, mode, ZeroDigits(1), 1);
      case Fixed(_) =>
        ZeroFixed(radix, w, p, mode);
      case Frac(n) =>
        if mode != Enabled {
          ZeroFrac(radix, w, n);
        }
    }
  }

  lemma ZeroFixed(radix: nat, w: Written, p: nat, mode: ExpMode)
    requires IsRadix(radix) && Exact(radix, w) == 0.0 && p >= 1
    requires LaidOut(radix, w, ZeroDigits(p), 1, UsesExponent(1, p, mode))
    ensures FixedAs(radix, w, 0, p, mode, ZeroDigits(p), 1)
  {
    hide Exp, ToNat, Exact, LaidOut;
    ZeroBits(0);
    ToNatZeros(radix, ZeroDigits(p));
  }

  lemma ZeroFrac(radix: nat, w: Written, n: nat)
    requires IsRadix(radix) && Exact(radix, w) == 0.0 && LaidOut(radix, w, ZeroDigits(n + 1), 1, false)
    ensures FracAs(radix, w, 0, n, 0) && w.suffix.NoExponent?
  {
    hide Exp, Exact;
    ZeroBits(0);
  }

  /** The text of a finite double without its sign. */
  method FiniteText(a: nat, radix: nat, fmt: Format, mode: ExpMode) returns (text: string, w: Written)
    requires IsRadix(radix) && a < INFINITE && IsFormat(fmt)
    ensures WfWritten(radix, w) && text == Text(radix, w) && Shows(radix, w, a, fmt, mode)
  {
    hide Prints, Text, WfWritten, FixedAs, FracAs, FreeAs, LaidOut;
    if a == 0 {
      text, w := ZeroIn(radix, fmt, mode);
    } else {
      match fmt {
        case Free =>
          text, w := FreeText(a, radix, mode);
          PrintsText(radix, text, w, a);
        case Fixed(p) =>
          text, w := FixedText(a, radix, p, mode);
        case Frac(n) =>
          text, w := FracText(a, radix, n);
      }
    }
  }

  /** The sign, and infinity or the digits; minus zero shows its sign only on request. */
  method Dtoa(neg: bool, a: nat, radix: nat, fmt: Format, mode: ExpMode, minusZero: bool)
    returns (text: string, w: Written)
    requires IsRadix(radix) && a <= INFINITE && IsFormat(fmt)
    ensures if a == INFINITE then text == (if neg then "-Infinity" else "Infinity")
            else && WfWritten(radix, w) && Shows(radix, w, a, fmt, mode)
                 && text == (if neg && (a > 0 || minusZero) then "-" else "") + Text(radix, w)
  {
    hide Shows, Text;
    if a == INFINITE {
      text, w := SignText(neg) + INFINITY_TEXT, Written([0], 1, NoExponent);
    } else {
      text, w := FiniteText(a, radix, fmt, mode);
      text := SignText(neg && (a > 0 || minusZero)) + text;
    }
  }

  lemma PrintsText(radix: nat, text: string, w: Written, a: nat)
    requires IsRadix(radix) && Prints(radix, text, w, a)
    ensures WfWritten(radix, w) && text == Text(radix, w) && Prints(radix, Text(radix, w), w, a)
  {
  }

  // ----- the round trip -----

  lemma ScanInfinity(neg: bool, radix: nat)
    requires IsRadix(radix)
    ensures Scan(SignText(neg) + INFINITY_TEXT, Plainly(radix)) == Infinite(neg)
  {
    InfinityScans(SignText(neg) + INFINITY_TEXT, Plainly(radix), SignText(neg));
  }

  lemma ShortText(radix: nat, neg: bool, w: Written)
    requires WfWritten(radix, w) && Moderate(w)
    ensures |SignText(neg) + Text(radix, w)| <= INT32_MAX
  {
    hide DigitText, ExponentOf;
  }

  /** What is read for a printed text. */
  lemma PrintedIsRead(radix: nat, neg: bool, w: Written, a: nat, r: Option<(bool, nat)>, p: nat)
    requires IsRadix(radix) && WfWritten(radix, w) && Prints(radix, Text(radix, w), w, a)
    requires Agrees(Scan(SignText(neg) + Text(radix, w), Plainly(radix)), r, p)
    ensures r == Some((neg, a))
  {
    hide Scan, Text, ReadAs, CorrectBits, Moderate, Meaning;
    ScanText(radix, neg, w);
    ToNatZeros(10, []);
    ModerateReads(radix, w, r.value.1);
  }

  /**
   Printing a double in free format and reading the text back gives the same double: for every radix, with the
   exponent forced, forbidden or chosen, infinity included. Only the sign of a zero can be lost.
   */
  method RoundTrip(neg: bool, a: nat, radix: nat, mode: ExpMode, minusZero: bool)
    returns (text: string, r: Option<(bool, nat)>)
    requires IsRadix(radix) && a <= INFINITE
    ensures r == Some((neg && (a > 0 || minusZero), a))
  {
    hide Scan, Prints, Text;
    var w;
    text, w := Dtoa(neg, a, radix, Free, mode, minusZero);
    if a == INFINITE {
      ScanInfinity(neg, radix);
      assert text == SignText(neg) + INFINITY_TEXT;
    } else {
      assert |text| <= INT32_MAX by { PrintedShort(radix, neg && (a > 0 || minusZero), w, a); }
    }
    var p;
    r, p := AtodText(text, Plainly(radix));
    if a < INFINITE {
      PrintedIsRead(radix, neg && (a > 0 || minusZero), w, a, r, p);
    }
  }

  lemma PrintedShort(radix: nat, neg: bool, w: Written, a: nat)
    requires IsRadix(radix) && WfWritten(radix, w) && Prints(radix, Text(radix, w), w, a)
    ensures |SignText(neg) + Text(radix, w)| <= INT32_MAX
  {
    hide Text, Moderate, Meaning, CorrectBits;
    ShortText(radix, neg, w);
  }
}
