/**
 When a numeral with a large exponent is read as the number it stands for, in terms of its digit count, the position
 of its point and its exponent; and numerals that are read as another number.
 */
module ReadingLimits {
  import opened Basics
  import opened Int32
  import opened Powers
  import opened RealPowers
  import opened FloorLog
  import opened Doubles
  import opened ReadingTables
  import opened Reading

  /** Up to this length the position of the leading digit cannot make up for the exponent. */
  const SHORT := INT32_MAX - 2048

  // ----- from exponents to reals -----

  /** The number stored lies as far below its top as the number written does. */
  lemma StoredBounds(radix: nat, ds: seq<nat>, dot: int, isBin: bool, expn: int)
    requires IsRadix(radix) && DigitsOf(radix, ds) && LeadingZeros(ds) < |ds|
    ensures var y, w := StoredValue(radix, ds, dot, isBin, expn), Wrap32(Top(radix, ds, dot, isBin, expn));
            Exp(Unit(radix), w - Step(radix)) <= y < Exp(Unit(radix), w)
  {
    hide Exp, ReadValue, Top, LeadingZeros, Wrap32, Unit, Step;
    TopBounds(radix, ds, dot, isBin, expn);
    var x, y := ReadValue(radix, ds, dot, isBin, expn), StoredValue(radix, ds, dot, isBin, expn);
    var top, u, s := Top(radix, ds, dot, isBin, expn), Unit(radix), Step(radix);
    var w := Wrap32(top);
    UnitPositive(radix);
    ExpPos(u, w - top);
    ExpAdd(u, top - s, w - top);
    ExpAdd(u, top, w - top);
    CompareProducts2(Exp(u, top - s), x, Exp(u, w - top), Exp(u, w - s), y);
    CompareProducts2(Exp(u, top), x, Exp(u, w - top), Exp(u, w), y);
  }

  lemma UnitPositive(radix: nat)
    requires IsRadix(radix)
    ensures Unit(radix) > 1
  {
  }

  /** A number with this top is rounded to infinity, whatever its digits. */
  function SurelyHuge(radix: nat): int
    requires IsRadix(radix)
  {
    if IsPow2(radix) then 1024 + RadixBits(radix) else MAX_EXPONENT[radix - 2] + 1
  }

  /** A number with this top is rounded to zero, whatever its digits. */
  function SurelyTiny(radix: nat): int
    requires IsRadix(radix)
  {
    if IsPow2(radix) then -1075 else MIN_EXPONENT[radix - 2]
  }

  /** A number with this top is not rounded to infinity. */
  function NotHuge(radix: nat): int
    requires IsRadix(radix)
  {
    if IsPow2(radix) then 1023 else 0
  }

  /** A number with this top is not rounded to zero. */
  function NotTiny(radix: nat): int
    requires IsRadix(radix)
  {
    if IsPow2(radix) then RadixBits(radix) - 1074 else 1
  }

  /** The four tops mean what they say. */
  lemma TopDecides(radix: nat, x: real, top: int)
    requires IsRadix(radix) && Exp(Unit(radix), top - Step(radix)) <= x < Exp(Unit(radix), top)
    ensures top >= SurelyHuge(radix) ==> x >= Huge()
    ensures top <= SurelyTiny(radix) ==> x <= Tiny()
    ensures top <= NotHuge(radix) ==> x < Huge()
    ensures top >= NotTiny(radix) ==> x > Tiny()
  {
    hide Exp, RadixBits;
    var u, s := Unit(radix), Step(radix);
    OneBetween();
    if IsPow2(radix) {
      if top >= 1024 + s { ExpUp(2, 1024, top - s); }
      if top <= -1075 { ExpUp(2, top, -1075); }
      if top <= 1023 { ExpUp(2, top, 1023); }
      if top >= s - 1074 { ExpUp(2, -1074, top - s); }
    } else {
      Limits(radix);
      ExpZero(radix);
      if top >= SurelyHuge(radix) { ExpUp(radix, MAX_EXPONENT[radix - 2], top - 1); }
      if top <= SurelyTiny(radix) { ExpUp(radix, top, MIN_EXPONENT[radix - 2]); }
      if top <= 0 { ExpUp(radix, top, 0); }
      if top >= 1 { ExpUp(radix, 0, top - 1); }
    }
  }

  lemma OneBetween()
    ensures Tiny() < Exp(2, -1074) <= 1.0 <= Exp(2, 1023) < Huge() < Exp(2, 1024)
  {
    hide Exp;
    ExpUpStrict(2, -1075, -1074);
    ExpUp(2, -1074, 0);
    ExpZero(2);
    ExpUp(2, 0, 1023);
    ExpSucc(2, 1023);
    ExpPos(2, 970);
    ExpUpStrict(2, 970, 1023);
  }

  // ----- exponents that are stored -----

  /** An exponent that does not fit 32 bits is judged by what is left of it. */
  lemma WrappedReads(radix: nat, ds: seq<nat>, dot: int, isBin: bool, expn: int)
    requires IsRadix(radix) && DigitsOf(radix, ds) && LeadingZeros(ds) < |ds| && -EXPONENT_LIMIT < expn < EXPONENT_LIMIT
    requires !IsI32(Top(radix, ds, dot, isBin, expn))
    ensures var top := Top(radix, ds, dot, isBin, expn);
            var w, exact := Wrap32(top), ReadsExactly(radix, ds, dot, isBin, expn);
            && (top > 0 ==> (w >= SurelyHuge(radix) ==> exact) && (w <= NotHuge(radix) ==> !exact))
            && (top < 0 ==> (w <= SurelyTiny(radix) ==> exact) && (w >= NotTiny(radix) ==> !exact))
  {
    hide Exp, ReadValue, StoredValue, Top, LeadingZeros, Wrap32, SurelyHuge, SurelyTiny, NotHuge, NotTiny, Unit,
         Step, Huge, Tiny;
    StoredBounds(radix, ds, dot, isBin, expn);
    TopDecides(radix, StoredValue(radix, ds, dot, isBin, expn), Wrap32(Top(radix, ds, dot, isBin, expn)));
  }

  /** An exponent that is too long to be stored is judged by the exponent itself. */
  lemma FlaggedReads(radix: nat, ds: seq<nat>, dot: int, isBin: bool, expn: int)
    requires IsRadix(radix) && DigitsOf(radix, ds) && LeadingZeros(ds) < |ds|
    ensures var top, exact := Top(radix, ds, dot, isBin, expn), ReadsExactly(radix, ds, dot, isBin, expn);
            && (expn >= EXPONENT_LIMIT ==> (top >= SurelyHuge(radix) ==> exact) && (top <= NotHuge(radix) ==> !exact))
            && (expn <= -EXPONENT_LIMIT ==> (top <= SurelyTiny(radix) ==> exact) && (top >= NotTiny(radix) ==> !exact))
  {
    hide Exp, ReadValue, StoredValue, Top, LeadingZeros, SurelyHuge, SurelyTiny, NotHuge, NotTiny, Unit, Step, Huge,
         Tiny;
    TopBounds(radix, ds, dot, isBin, expn);
    TopDecides(radix, ReadValue(radix, ds, dot, isBin, expn), Top(radix, ds, dot, isBin, expn));
  }

  lemma ModerateTops(radix: nat)
    requires IsRadix(radix)
    ensures SurelyHuge(radix) <= 1029 && SurelyTiny(radix) >= -1075 && NotHuge(radix) >= 0 && NotTiny(radix) <= 1
  {
    hide RadixBits;
    if IsPow2(radix) {
      SmallRadixBits(radix);
    } else {
      ModerateLimits(radix);
    }
  }

  /**
   The radices that are not powers of two, among them ten: an exponent that can be stored is read exactly if and only
   if it fits 32 bits above the leading digit; one that cannot is, in a numeral of up to SHORT digits.
   */
  lemma OtherRadices(radix: nat, ds: seq<nat>, dot: int, expn: int)
    requires IsRadix(radix) && !IsPow2(radix) && DigitsOf(radix, ds) && 0 <= dot <= |ds| <= INT32_MAX
    requires LeadingZeros(ds) < |ds|
    ensures -EXPONENT_LIMIT < expn < EXPONENT_LIMIT ==>
              (ReadsExactly(radix, ds, dot, false, expn) <==> IsI32(expn + dot - LeadingZeros(ds)))
    ensures (expn >= EXPONENT_LIMIT || expn <= -EXPONENT_LIMIT) && |ds| <= SHORT ==>
            ReadsExactly(radix, ds, dot, false, expn)
  {
    hide Exp, ReadsExactly, LeadingZeros, SurelyHuge, SurelyTiny, NotHuge, NotTiny;
    ModerateTops(radix);
    var top := Top(radix, ds, dot, false, expn);
    if expn >= EXPONENT_LIMIT || expn <= -EXPONENT_LIMIT {
      FlaggedReads(radix, ds, dot, false, expn);
    } else if IsI32(top) {
      FittingReads(radix, ds, dot, false, expn);
    } else {
      WrappedReads(radix, ds, dot, false, expn);
    }
  }

  /** An exponent whose top fits 32 bits is read exactly, in every radix. */
  lemma FittingReads(radix: nat, ds: seq<nat>, dot: int, isBin: bool, expn: int)
    requires IsRadix(radix) && -EXPONENT_LIMIT < expn < EXPONENT_LIMIT && IsI32(Top(radix, ds, dot, isBin, expn))
    ensures ReadsExactly(radix, ds, dot, isBin, expn)
  {
    hide Top, ReadValue, StoredValue, LeadingZeros;
  }

  /** Power-of-two radices: an exponent too long to be stored is answered correctly for numerals of up to SHORT bits. */
  lemma FlaggedBinary(radix: nat, ds: seq<nat>, dot: int, isBin: bool, expn: int)
    requires IsPow2(radix) && DigitsOf(radix, ds) && 0 <= dot <= |ds| && |ds| * RadixBits(radix) <= SHORT
    requires LeadingZeros(ds) < |ds| && (expn >= EXPONENT_LIMIT || expn <= -EXPONENT_LIMIT)
    ensures ReadsExactly(radix, ds, dot, isBin, expn)
  {
    hide Exp, ReadsExactly, LeadingZeros, SurelyHuge, SurelyTiny, NotHuge, NotTiny, RadixBits;
    ModerateTops(radix);
    SmallRadixBits(radix);
    FlaggedReads(radix, ds, dot, isBin, expn);
    var bits, lead := RadixBits(radix), dot - LeadingZeros(ds);
    MulUpAny(lead, |ds|, bits);
    MulUpAny(-lead, |ds|, bits);
    assert -lead * bits == -(lead * bits);
    if !isBin {
      Larger(expn, bits);
    }
  }

  lemma Larger(e: int, k: int)
    requires k >= 1
    ensures e >= 0 ==> e * k >= e
    ensures e <= 0 ==> e * k <= e
  {
  }

  // ----- numerals that are read as another number -----

  lemma NoLeadingZeros(ds: seq<nat>)
    requires ds != [] && ds[0] != 0
    ensures LeadingZeros(ds) == 0
  {
  }

  /** 100000000e2147483639 is read as zero. */
  lemma DecimalOverflow()
    ensures var ds := [1, 0, 0, 0, 0, 0, 0, 0, 0];
            !ReadsExactly(10, ds, 9, false, 2147483639) && Wrap32(Top(10, ds, 9, false, 2147483639)) == -0x8000_0000
  {
    hide ReadsExactly, LeadingZeros;
    var ds := [1, 0, 0, 0, 0, 0, 0, 0, 0];
    NoLeadingZeros(ds);
    OtherRadices(10, ds, 9, 2147483639);
  }

  /** 0.00000000001e-2147483639 is read as infinity. */
  lemma DecimalUnderflow()
    ensures var ds := [0, 0, 0, 0, 0, 0, 0, 0, 0, 0, 0, 1];
            !ReadsExactly(10, ds, 1, false, -2147483639) && Wrap32(Top(10, ds, 1, false, -2147483639)) == INT32_MAX
  {
    hide ReadsExactly, LeadingZeros;
    var ds := [0, 0, 0, 0, 0, 0, 0, 0, 0, 0, 0, 1];
    ZerosUnique(ds, 11);
    OtherRadices(10, ds, 1, -2147483639);
  }

  /** In radix 16, 1@600000000 is read as zero, but 1@1610612000 as infinity, which is right. */
  lemma HexadecimalOverflow()
    ensures !ReadsExactly(16, [1], 1, false, 600_000_000) && ReadsExactly(16, [1], 1, false, 1_610_612_000)
  {
    hide ReadsExactly, LeadingZeros;
    NoLeadingZeros([1]);
    WrappedReads(16, [1], 1, false, 600_000_000);
    WrappedReads(16, [1], 1, false, 1_610_612_000);
  }

  /** In radix 8, 1@1000000000 is read as zero and 1@-1000000000 as infinity. */
  lemma OctalWrap()
    ensures !ReadsExactly(8, [1], 1, false, 1_000_000_000) && !ReadsExactly(8, [1], 1, false, -1_000_000_000)
  {
    hide ReadsExactly, LeadingZeros;
    NoLeadingZeros([1]);
    WrappedReads(8, [1], 1, false, 1_000_000_000);
    WrappedReads(8, [1], 1, false, -1_000_000_000);
  }

  /** A point, 536870911 hexadecimal zeros, a one and p2147483648: the number one, read as infinity. */
  lemma FlaggedOverflow(ds: seq<nat>)
    requires |ds| == 536_870_912 && (forall i :: 0 <= i < |ds| - 1 ==> ds[i] == 0) && ds[|ds| - 1] == 1
    ensures !ReadsExactly(16, ds, 0, true, 2147483648)
  {
    hide ReadsExactly, LeadingZeros;
    ZerosUnique(ds, |ds| - 1);
    FlaggedReads(16, ds, 0, true, 2147483648);
  }
}
