/**
 Which digits of a numeral count: how many each radix keeps, and what is lost by cutting the others.
 */
module ReadingDigits {
  import opened Basics
  import opened Powers
  import opened RealPowers
  import opened Rounding
  import opened FloorLog
  import opened Scaling
  import opened Doubles
  import opened DoubleBits
  import opened ConversionTables
  import opened ReadingTables
  import opened Reading
  import opened ReadingLimits
  import opened DigitOutput

  // ----- how many digits are kept -----

  ghost predicate KeptOk(radix: nat)
    requires IsRadix(radix)
  {
    var k, top := ATOD_MAX_DIGITS[radix - 2], if IsPow2(radix) then 64 else 128;
    Pow(radix, k) <= Pow(2, top) < Pow(radix, k + 1)
  }

  /** The power-of-two radices keep as many digits as fit in 64 bits, the others as many as fit in 128 bits. */
  lemma KeptDigits(radix: nat)
    requires IsRadix(radix)
    ensures KeptOk(radix)
  {
    hide KeptOk;
    if IsPow2(radix) {
      KeptPow2(radix);
    } else if radix <= 13 {
      Kept3(radix);
    } else if radix <= 24 {
      Kept14(radix);
    } else {
      Kept25(radix);
    }
  }

  lemma KeptIs(radix: nat, k: nat, v: nat)
    requires IsRadix(radix) && k == ATOD_MAX_DIGITS[radix - 2] && v == FastPow(radix, k)
    requires v <= (if IsPow2(radix) then 0x1_0000_0000_0000_0000 else 0x1_0000_0000_0000_0000_0000_0000_0000_0000)
    requires (if IsPow2(radix) then 0x1_0000_0000_0000_0000
             else 0x1_0000_0000_0000_0000_0000_0000_0000_0000) < radix * v
    ensures KeptOk(radix)
  {
    hide Pow, FastPow;
    FastPowIs(radix, k);
    Successor(radix, k + 1);
    TwoPowers();
  }

  lemma TwoPowers()
    ensures Pow(2, 64) == 0x1_0000_0000_0000_0000
    ensures Pow(2, 128) == 0x1_0000_0000_0000_0000_0000_0000_0000_0000
  {
    hide Pow;
    PowIs(2, 64, 0x1_0000_0000_0000_0000);
    PowIs(2, 128, 0x1_0000_0000_0000_0000_0000_0000_0000_0000);
  }

  lemma KeptPow2(radix: nat)
    requires IsPow2(radix)
    ensures KeptOk(radix)
  {
    hide KeptOk;
    match radix
    case 2 => KeptIn2();
    case 4 => KeptIn4();
    case 8 => KeptIn8();
    case 16 => KeptIn16();
    case 32 => KeptIn32();
  }

  lemma Kept3(radix: nat)
    requires 3 <= radix <= 13 && !IsPow2(radix)
    ensures KeptOk(radix)
  {
    hide KeptOk;
    match radix
    case 3 => KeptIn3();
    case 5 => KeptIn5();
    case 6 => KeptIn6();
    case 7 => KeptIn7();
    case 9 => KeptIn9();
    case 10 => KeptIn10();
    case 11 => KeptIn11();
    case 12 => KeptIn12();
    case 13 => KeptIn13();
  }

  lemma Kept14(radix: nat)
    requires 14 <= radix <= 24 && !IsPow2(radix)
    ensures KeptOk(radix)
  {
    hide KeptOk;
    match radix
    case 14 => KeptIn14();
    case 15 => KeptIn15();
    case 17 => KeptIn17();
    case 18 => KeptIn18();
    case 19 => KeptIn19();
    case 20 => KeptIn20();
    case 21 => KeptIn21();
    case 22 => KeptIn22();
    case 23 => KeptIn23();
    case 24 => KeptIn24();
  }

  lemma Kept25(radix: nat)
    requires 25 <= radix <= 36 && !IsPow2(radix)
    ensures KeptOk(radix)
  {
    hide KeptOk;
    match radix
    case 25 => KeptIn25();
    case 26 => KeptIn26();
    case 27 => KeptIn27();
    case 28 => KeptIn28();
    case 29 => KeptIn29();
    case 30 => KeptIn30();
    case 31 => KeptIn31();
    case 33 => KeptIn33();
    case 34 => KeptIn34();
    case 35 => KeptIn35();
    case 36 => KeptIn36();
  }

  lemma KeptIn2() ensures KeptOk(2) { hide KeptOk; KeptIs(2, 64, 0x10000000000000000); }
  lemma KeptIn3() ensures KeptOk(3) { hide KeptOk; KeptIs(3, 80, 0x6f32f1ef8b18a2bc3cea59789c79d441); }
  lemma KeptIn4() ensures KeptOk(4) { hide KeptOk; KeptIs(4, 32, 0x10000000000000000); }
  lemma KeptIn5() ensures KeptOk(5) { hide KeptOk; KeptIs(5, 55, 0xd0cf4b50cfe20765fff4b4e3f741cf6d); }
  lemma KeptIn6() ensures KeptOk(6) { hide KeptOk; KeptIs(6, 49, 0x6558e2a0921fe0694286000000000000); }
  lemma KeptIn7() ensures KeptOk(7) { hide KeptOk; KeptIs(7, 45, 0x5080c7b7d0e31ba75911a67ddd3d35e7); }
  lemma KeptIn8() ensures KeptOk(8) { hide KeptOk; KeptIs(8, 21, 0x8000000000000000); }
  lemma KeptIn9() ensures KeptOk(9) { hide KeptOk; KeptIs(9, 40, 0x6f32f1ef8b18a2bc3cea59789c79d441); }
  lemma KeptIn10() ensures KeptOk(10) { hide KeptOk; KeptIs(10, 38, 0x4b3b4ca85a86c47a098a224000000000); }
  lemma KeptIn11() ensures KeptOk(11) { hide KeptOk; KeptIs(11, 37, 0xffd1390a0adc2fb8dabbb8174d95c99b); }
  lemma KeptIn12() ensures KeptOk(12) { hide KeptOk; KeptIs(12, 35, 0x2c6fdb364c25e6c00000000000000000); }
  lemma KeptIn13() ensures KeptOk(13) { hide KeptOk; KeptIs(13, 34, 0x384bacd642c343b4e90c427213506d29); }
  lemma KeptIn14() ensures KeptOk(14) { hide KeptOk; KeptIs(14, 33, 0x31f5db32a34aced60bf13a0e00000000); }
  lemma KeptIn15() ensures KeptOk(15) { hide KeptOk; KeptIs(15, 32, 0x20753adafd1e839f53686d013143ee01); }
  lemma KeptIn16() ensures KeptOk(16) { hide KeptOk; KeptIs(16, 16, 0x10000000000000000); }
  lemma KeptIn17() ensures KeptOk(17) { hide KeptOk; KeptIs(17, 31, 0x68ca11d6b4f6d1d1faa826678073c2f1); }
  lemma KeptIn18() ensures KeptOk(18) { hide KeptOk; KeptIs(18, 30, 0x223e493bb3bb69ffa4b87d6c40000000); }
  lemma KeptIn19() ensures KeptOk(19) { hide KeptOk; KeptIs(19, 30, 0xad62418d14ea824701c4b4886cc66f59); }
  lemma KeptIn20() ensures KeptOk(20) { hide KeptOk; KeptIs(20, 29, 0x2863c1f5cdae42f95400000000000000); }
  lemma KeptIn21() ensures KeptOk(21) { hide KeptOk; KeptIs(21, 29, 0xa63fd833b9386b0736039e82be651b25); }
  lemma KeptIn22() ensures KeptOk(22) { hide KeptOk; KeptIs(22, 28, 0x1d1f7a9cd087a14d28cdf3d510000000); }
  lemma KeptIn23() ensures KeptOk(23) { hide KeptOk; KeptIs(23, 28, 0x651b5095c2ea8fc1b30e2c5777aaf7e1); }
  lemma KeptIn24() ensures KeptOk(24) { hide KeptOk; KeptIs(24, 27, 0xddef20eff7600000000000000000000); }
  lemma KeptIn25() ensures KeptOk(25) { hide KeptOk; KeptIs(25, 27, 0x29c30f1029939b146664242d97d9f649); }
  lemma KeptIn26() ensures KeptOk(26) { hide KeptOk; KeptIs(26, 27, 0x786a435ae9558b0e6aaf6d63a8000000); }
  lemma KeptIn27() ensures KeptOk(27) { hide KeptOk; KeptIs(27, 26, 0xc5afe6ff302bcbf94fd9829d87f5079); }
  lemma KeptIn28() ensures KeptOk(28) { hide KeptOk; KeptIs(28, 26, 0x1fce575ce16927060710000000000000); }
  lemma KeptIn29() ensures KeptOk(29) { hide KeptOk; KeptIs(29, 26, 0x4f34497c8597e14436e9180200528229); }
  lemma KeptIn30() ensures KeptOk(30) { hide KeptOk; KeptIs(30, 26, 0xbf3a8e1d41ef21707802130d84000000); }
  lemma KeptIn31() ensures KeptOk(31) { hide KeptOk; KeptIs(31, 25, 0xe7819e17f1eb0fb6ee4fb8901d9531f); }
  lemma KeptIn32() ensures KeptOk(32) { hide KeptOk; KeptIs(32, 12, 0x1000000000000000); }
  lemma KeptIn33() ensures KeptOk(33) { hide KeptOk; KeptIs(33, 25, 0x4510460dd9e879c014a823752f22b321); }
  lemma KeptIn34() ensures KeptOk(34) { hide KeptOk; KeptIs(34, 25, 0x91abce3c4b4117ade76d35db22000000); }
  lemma KeptIn35() ensures KeptOk(35) { hide KeptOk; KeptIs(35, 24, 0x8973ea355d75bc22e42c391727d69e1); }
  lemma KeptIn36() ensures KeptOk(36) { hide KeptOk; KeptIs(36, 24, 0x10e425c56daffabc35c1000000000000); }

  // ----- what is lost -----

  /** The digits kept stand for the number cut below the last of them; nothing is lost if the others are zeros. */
  lemma CutExactly(radix: nat, ds: seq<nat>, dot: int, expn: int)
    requires IsRadix(radix) && !IsPow2(radix) && DigitsOf(radix, ds)
    ensures var x, y := ReadValue(radix, ds, dot, false, expn), Numeral(radix, ds, dot, false, expn);
            x <= y && (x == y <==> forall i :: Kept(radix, ds) <= i < |ds| ==> ds[i] == 0)
  {
    hide Exp, Pow, ToNat, Kept;
    var k := Kept(radix, ds);
    var d, n, u := Pow(radix, |ds| - k), ToNat(radix, ds), Exp(radix, dot - |ds|) * Scale(radix, false, expn);
    SplitDigits(radix, ds, 0, k);
    ExpPos(radix, dot - |ds|);
    ExpPos(radix, expn);
    PositiveProduct(Exp(radix, dot - |ds|), Scale(radix, false, expn));
    ExpIsPow(radix, |ds| - k);
    ExpAdd(radix, |ds| - k, dot - |ds|);
    assert |ds| - k + (dot - |ds|) == dot - k;
    CutProducts(n, d, Exp(radix, dot - |ds|), Scale(radix, false, expn), Exp(radix, dot - k));
  }

  lemma PositiveProduct(a: real, b: real)
    requires a > 0.0 && b > 0.0
    ensures a * b > 0.0
  {
  }

  lemma CutProducts(n: nat, d: nat, a: real, s: real, da: real)
    requires d > 0 && a * s > 0.0 && da == d as real * a
    ensures var x, y := (n / d) as real * da * s, n as real * a * s; x <= y && (x == y <==> n % d == 0)
  {
    var q, r, u := n / d, n % d, a * s;
    var x, y := q as real * da * s, n as real * a * s;
    assert n == q * d + r;
    ProductOfCasts(q, d);
    assert n as real == q as real * d as real + r as real;
    Regrouped(q as real, d as real, r as real, a, s);
    assert y == x + r as real * u;
    if r > 0 {
      RMulStrict(0.0, r as real, u);
    }
  }

  lemma Regrouped(q: real, d: real, r: real, a: real, s: real)
    ensures (q * d + r) * a * s == q * (d * a) * s + r * (a * s)
  {
  }

  /** 9007199254740993, half way between two doubles. */
  const TIE: seq<nat> := [9, 0, 0, 7, 1, 9, 9, 2, 5, 4, 7, 4, 0, 9, 9, 3]

  lemma TieIs()
    ensures ToNat(10, TIE) == TWO53 + 1
  {
    var a, b, c, d := [9, 0, 0, 7], [1, 9, 9, 2], [5, 4, 7, 4], [0, 9, 9, 3];
    hide ToNat, Pow;
    assert TIE == a + b + c + d;
    FourDigits(9, 0, 0, 7);
    FourDigits(1, 9, 9, 2);
    FourDigits(5, 4, 7, 4);
    FourDigits(0, 9, 9, 3);
    ToNatAppend(10, a, b);
    ToNatAppend(10, a + b, c);
    ToNatAppend(10, a + b + c, d);
    PowIs(10, 4, 10000);
  }

  lemma FourDigits(a: nat, b: nat, c: nat, d: nat)
    ensures ToNat(10, [a, b, c, d]) == 1000 * a + 100 * b + 10 * c + d
  {
    var s := [a, b, c, d];
    assert s[..4] == s && s[..0] == [];
    ToNatSnoc(10, s, 0);
    ToNatSnoc(10, s, 1);
    ToNatSnoc(10, s, 2);
    ToNatSnoc(10, s, 3);
  }

  /** A one at the 39th place. */
  const LONG: seq<nat> := TIE + seq(22, _ => 0) + [1]

  lemma LongIs()
    ensures |LONG| == 39 && LeadingZeros(LONG) == 0 && LONG[38] == 1 && DigitsOf(10, LONG)
    ensures LONG[..38] == TIE + seq(22, _ => 0)
    ensures Kept(10, LONG) == 38
  {
    assert LONG[0] == 9;
  }

  lemma LongValues()
    ensures ReadValue(10, LONG, 16, false, 0) == (TWO53 + 1) as real
    ensures (TWO53 + 1) as real < Numeral(10, LONG, 16, false, 0) < (TWO53 + 2) as real
  {
    hide Exp, Pow, ToNat;
    LongIs();
    TieIs();
    var zeros := seq(22, _ => 0);
    ToNatAppend(10, TIE, zeros);
    ToNatZeros(10, zeros);
    CutNumeral(10, LONG[..38], 16, 0, -22, Numeral(10, LONG[..38], 16, false, 0));
    ExpIsPow(10, 22);
    ExpInverse(10, 22);
    PowPos(10, 22);
    ProductOfCasts(TWO53 + 1, Pow(10, 22));
    ProductTail(ToNat(10, LONG[..38]) as real, (TWO53 + 1) as real, Exp(10, 22), Exp(10, -22), 1.0);
    CutExactly(10, LONG, 16, 0);
    LongBelow();
  }

  lemma LongBelow()
    ensures Numeral(10, LONG, 16, false, 0) < (TWO53 + 2) as real
  {
    hide Exp, Pow, ToNat;
    LongIs();
    TieIs();
    var zeros, n, p := seq(22, _ => 0), TWO53 + 2, Pow(10, 23);
    ToNatAppend(10, TIE, zeros);
    ToNatZeros(10, zeros);
    assert LONG == LONG[..38] + [1];
    ToNatAppend(10, LONG[..38], [1]);
    OneDigit();
    Successor(10, 23);
    PowPos(10, 22);
    assert ToNat(10, LONG) == (TWO53 + 1) * p + 1 < n * p;
    CutNumeral(10, LONG, 16, 0, -23, Numeral(10, LONG, 16, false, 0));
    ExpIsPow(10, 23);
    ExpInverse(10, 23);
    ExpPos(10, -23);
    ProductOfCasts(n, p);
    ProductTail((n * p) as real, n as real, Exp(10, 23), Exp(10, -23), 1.0);
    RMulStrict(ToNat(10, LONG) as real, (n * p) as real, Exp(10, -23));
  }

  lemma OneDigit()
    ensures ToNat(10, [1]) == 1 && Pow(10, 1) == 10
  {
    assert [1][..0] == [];
    PowIs(10, 1, 10);
  }

  /** The doubles next to the middle: 2^53 and 2^53 + 2. */
  const BELOW := 1076 * TWO52
  const ABOVE := 1076 * TWO52 + 1

  /**
   Cutting can change the double that is read: 9007199254740993 and a one at the 39th digit is read as 2^53, the even
   neighbour of the middle, where the number written is nearer to 2^53 + 2.
   */
  lemma LongDecimal(a: nat)
    ensures CorrectBits(a, ReadValue(10, LONG, 16, false, 0)) ==> a == BELOW
    ensures CorrectBits(a, Numeral(10, LONG, 16, false, 0)) ==> a == ABOVE
  {
    hide Exp, Pow, ToNat, CorrectBits, Numeral, ReadValue, Decode;
    LongValues();
    var x, y := ReadValue(10, LONG, 16, false, 0), Numeral(10, LONG, 16, false, 0);
    HalfWay(x, TWO52);
    HalfWay(y, TWO52 + 1);
    DecodeNeighbours();
    if CorrectBits(a, x) {
      ReadsSame(BELOW, x, a);
    }
    if CorrectBits(a, y) {
      ReadsSame(ABOVE, y, a);
    }
  }

  lemma DecodeNeighbours()
    ensures Decode(BELOW) == (TWO52, 54) && Decode(ABOVE) == (TWO52 + 1, 54)
  {
  }

  lemma HalfWay(x: real, m: nat)
    requires (TWO53 + 1) as real <= x < (TWO53 + 2) as real
    requires m == if x == (TWO53 + 1) as real then TWO52 else TWO52 + 1
    ensures RoundsToDouble(x, m, 54, NearestEven)
  {
    hide Exp, Pow;
    TwoPow53();
    ExpIsPow(2, 53);
    ExpSucc(2, 53);
    ExpZero(2);
    ExpInverse(2, 1);
    var u := Exp(2, -1);
    assert 2.0 * u == 1.0;
    assert Units(x, 54) == x * u;
    RoundedIntro(x, 54, m, m, 54, NearestEven);
  }

  /** A numeral that loses no digit, and whose exponent fits, is read as the correctly rounded number it stands for. */
  lemma ShortReads(a: nat, radix: nat, ds: seq<nat>, dot: int, isBin: bool, expn: int)
    requires IsRadix(radix) && DigitsOf(radix, ds) && (isBin ==> IsPow2(radix))
    requires ReadAs(a, radix, ds, dot, isBin, expn)
    requires -EXPONENT_LIMIT < expn < EXPONENT_LIMIT && IsI32(Top(radix, ds, dot, isBin, expn))
    requires !IsPow2(radix) ==> forall i :: Kept(radix, ds) <= i < |ds| ==> ds[i] == 0
    ensures CorrectBits(a, Numeral(radix, ds, dot, isBin, expn))
  {
    hide Exp, Pow, ToNat, Kept, CorrectBits, Top, ReadsExactly, StoredValue, Numeral;
    FittingReads(radix, ds, dot, isBin, expn);
    if !IsPow2(radix) {
      CutExactly(radix, ds, dot, expn);
    }
  }
}
