/** The constant tables of the number conversions, and what makes them right. */
module ConversionTables {
  import opened Powers
  import opened LimbDivision
  import opened BigNumbers
  import opened FloorLog

  /** How many digits of each radix, from 2 on, fit in a limb. */
  const DIGITS_PER_LIMB: seq<nat> := [
    32, 20, 16, 13, 12, 11, 10, 10, 9, 9, 8, 8, 8, 8, 8, 7, 7, 7, 7, 7, 7, 7, 6, 6, 6, 6, 6, 6, 6, 6, 6, 6, 6, 6, 6
  ]

  function PerLimbDigits(radix: nat): (d: nat)
    requires IsRadix(radix)
    ensures 6 <= d <= 32
  {
    DIGITS_PER_LIMB[radix - 2]
  }

  /** The radix to that power, with 0 for 2^32. */
  const RADIX_BASE: seq<limb> := [
    0x00000000, 0xcfd41b91, 0x00000000, 0x48c27395, 0x81bf1000, 0x75db9c97, 0x40000000, 0xcfd41b91,
    0x3b9aca00, 0x8c8b6d2b, 0x19a10000, 0x309f1021, 0x57f6c100, 0x98c29b81, 0x00000000, 0x18754571,
    0x247dbc80, 0x3547667b, 0x4c4b4000, 0x6b5a6e1d, 0x94ace180, 0xcaf18367, 0x0b640000, 0x0e8d4a51,
    0x1269ae40, 0x17179149, 0x1cb91000, 0x23744899, 0x2b73a840, 0x34e63b41, 0x40000000, 0x4cfa3cc1,
    0x5c13d840, 0x6d91b519, 0x81bf1000
  ]

  /** The largest number of digits of free-format printing. */
  const DTOA_MAX_DIGITS: seq<nat> := [
    54, 35, 28, 24, 22, 20, 19, 18, 17, 17, 16, 16, 15, 15, 15, 14, 14, 14, 14, 14, 13, 13, 13, 13, 13, 13, 13,
    12, 12, 12, 12, 12, 12, 12, 12
  ]

  const POW5: seq<limb> := [
    0x00000005, 0x00000019, 0x0000007d, 0x00000271, 0x00000c35, 0x00003d09, 0x0001312d, 0x0005f5e1, 0x001dcd65,
    0x009502f9, 0x02e90edd, 0x0e8d4a51, 0x48c27395, 0x6bcc41e9, 0x1afd498d, 0x86f26fc1, 0xa2bc2ec5
  ]

  /** The high words of the powers of five from the 14th on. */
  const POW5_HIGH: seq<limb> := [0x01, 0x07, 0x23, 0xb1]

  /** The inverses of the normalised powers of five. */
  const POW5_INVERSE: seq<limb> := [
    0x99999999, 0x47ae147a, 0x0624dd2f, 0xa36e2eb1, 0x4f8b588e, 0x0c6f7a0b, 0xad7f29ab, 0x5798ee23, 0x12e0be82,
    0xb7cdfd9d, 0x5fd7fe17, 0x19799812, 0xc25c2684
  ]

  /** The digits of a limb stay below 2^32, and the table of their powers is right. */
  lemma PerLimb(radix: nat)
    requires IsRadix(radix)
    ensures Pow(radix, DIGITS_PER_LIMB[radix - 2]) == if RADIX_BASE[radix - 2] == 0 then BASE else RADIX_BASE[radix - 2]
  {
    hide Pow;
    TablePowers(radix);
  }

  /** The largest number of digits is enough to tell doubles apart, and the mantissas fit in 64 bits. */
  lemma MaxDigits(radix: nat)
    requires IsRadix(radix)
    ensures var p := DTOA_MAX_DIGITS[radix - 2]; p > 0 && 2 * Pow(radix, p) < TWO64
    ensures var p := DTOA_MAX_DIGITS[radix - 2]; Pow(radix, p - 1) >= 0x20_0000_0000_0000 + (if radix > 2 then 1 else 0)
  {
    hide Pow;
    Successor(radix, DTOA_MAX_DIGITS[radix - 2]);
    TablePowers(radix);
  }

  /** One digit less would not be enough. */
  lemma LeastDigits(radix: nat)
    requires IsRadix(radix)
    ensures var p := DTOA_MAX_DIGITS[radix - 2];
            p >= 2 && Pow(radix, p - 2) < 0x20_0000_0000_0000 + (if radix > 2 then 1 else 0)
  {
    hide Pow;
    var p, c := DTOA_MAX_DIGITS[radix - 2], 0x20_0000_0000_0000 + (if radix > 2 then 1 else 0);
    Successor(radix, p - 1);
    TablePowers(radix);
    CancelFactor(Pow(radix, p - 2), c, radix);
  }

  lemma CancelFactor(a: nat, b: nat, c: nat)
    requires c * a < c * b
    ensures a < b
  {
  }

  function MaxDigitsOf(radix: nat): (p: nat)
    requires IsRadix(radix)
    ensures 12 <= p <= 54
  {
    DTOA_MAX_DIGITS[radix - 2]
  }

  ghost predicate PowersChecked(radix: nat)
    requires IsRadix(radix)
  {
    var p, b := MaxDigitsOf(radix), RADIX_BASE[radix - 2];
    && Pow(radix, DIGITS_PER_LIMB[radix - 2]) == (if b == 0 then BASE else b)
    && Pow(radix, p - 1) >= 0x20_0000_0000_0000 + (if radix > 2 then 1 else 0)
    && 2 * (radix * Pow(radix, p - 1)) < TWO64
    && Pow(radix, p - 1) < radix * (0x20_0000_0000_0000 + (if radix > 2 then 1 else 0))
  }

  lemma TablePowers(radix: nat)
    requires IsRadix(radix)
    ensures PowersChecked(radix)
  {
    hide PowersChecked;
    if radix <= 10 { TablePowers2(radix); }
    else if radix <= 19 { TablePowers11(radix); }
    else if radix <= 28 { TablePowers20(radix); }
    else { TablePowers29(radix); }
  }

  lemma TablePowers2(radix: nat)
    requires 2 <= radix <= 10
    ensures PowersChecked(radix)
  {
    hide Pow;
    match radix
    case 2 => Powers2();
    case 3 => Powers3();
    case 4 => Powers4();
    case 5 => Powers5();
    case 6 => Powers6();
    case 7 => Powers7();
    case 8 => Powers8();
    case 9 => Powers9();
    case 10 => Powers10();
  }

  lemma TablePowers11(radix: nat)
    requires 11 <= radix <= 19
    ensures PowersChecked(radix)
  {
    hide Pow;
    match radix
    case 11 => Powers11();
    case 12 => Powers12();
    case 13 => Powers13();
    case 14 => Powers14();
    case 15 => Powers15();
    case 16 => Powers16();
    case 17 => Powers17();
    case 18 => Powers18();
    case 19 => Powers19();
  }

  lemma TablePowers20(radix: nat)
    requires 20 <= radix <= 28
    ensures PowersChecked(radix)
  {
    hide Pow;
    match radix
    case 20 => Powers20();
    case 21 => Powers21();
    case 22 => Powers22();
    case 23 => Powers23();
    case 24 => Powers24();
    case 25 => Powers25();
    case 26 => Powers26();
    case 27 => Powers27();
    case 28 => Powers28();
  }

  lemma TablePowers29(radix: nat)
    requires 29 <= radix <= 36
    ensures PowersChecked(radix)
  {
    hide Pow;
    match radix
    case 29 => Powers29();
    case 30 => Powers30();
    case 31 => Powers31();
    case 32 => Powers32();
    case 33 => Powers33();
    case 34 => Powers34();
    case 35 => Powers35();
    case 36 => Powers36();
  }

  lemma PowIs(b: nat, n: nat, v: nat)
    requires FastPow(b, n) == v
    ensures Pow(b, n) == v
  {
    FastPowIs(b, n);
  }

  lemma Powers2()
    ensures Pow(2, 32) == 0x100000000 && Pow(2, 53) == 0x20000000000000
  {
    hide Pow;
    PowIs(2, 32, 0x100000000);
    PowIs(2, 53, 0x20000000000000);
  }

  lemma Powers3()
    ensures Pow(3, 20) == 0xcfd41b91 && Pow(3, 34) == 0x3b3fcef3103289
  {
    hide Pow;
    PowIs(3, 20, 0xcfd41b91);
    PowIs(3, 34, 0x3b3fcef3103289);
  }

  lemma Powers4()
    ensures Pow(4, 16) == 0x100000000 && Pow(4, 27) == 0x40000000000000
  {
    hide Pow;
    PowIs(4, 16, 0x100000000);
    PowIs(4, 27, 0x40000000000000);
  }

  lemma Powers5()
    ensures Pow(5, 13) == 0x48c27395 && Pow(5, 23) == 0x2a5a058fc295ed
  {
    hide Pow;
    PowIs(5, 13, 0x48c27395);
    PowIs(5, 23, 0x2a5a058fc295ed);
  }

  lemma Powers6()
    ensures Pow(6, 12) == 0x81bf1000 && Pow(6, 21) == 0x4def8a56600000
  {
    hide Pow;
    PowIs(6, 12, 0x81bf1000);
    PowIs(6, 21, 0x4def8a56600000);
  }

  lemma Powers7()
    ensures Pow(7, 11) == 0x75db9c97 && Pow(7, 19) == 0x287f3c1a5b27d7
  {
    hide Pow;
    PowIs(7, 11, 0x75db9c97);
    PowIs(7, 19, 0x287f3c1a5b27d7);
  }

  lemma Powers8()
    ensures Pow(8, 10) == 0x40000000 && Pow(8, 18) == 0x40000000000000
  {
    hide Pow;
    PowIs(8, 10, 0x40000000);
    PowIs(8, 18, 0x40000000000000);
  }

  lemma Powers9()
    ensures Pow(9, 10) == 0xcfd41b91 && Pow(9, 17) == 0x3b3fcef3103289
  {
    hide Pow;
    PowIs(9, 10, 0xcfd41b91);
    PowIs(9, 17, 0x3b3fcef3103289);
  }

  lemma Powers10()
    ensures Pow(10, 9) == 0x3b9aca00 && Pow(10, 16) == 0x2386f26fc10000
  {
    hide Pow;
    PowIs(10, 9, 0x3b9aca00);
    PowIs(10, 16, 0x2386f26fc10000);
  }

  lemma Powers11()
    ensures Pow(11, 9) == 0x8c8b6d2b && Pow(11, 16) == 0xa33f092e0b1ac1
  {
    hide Pow;
    PowIs(11, 9, 0x8c8b6d2b);
    PowIs(11, 16, 0xa33f092e0b1ac1);
  }

  lemma Powers12()
    ensures Pow(12, 8) == 0x19a10000 && Pow(12, 15) == 0x36bc9ac0000000
  {
    hide Pow;
    PowIs(12, 8, 0x19a10000);
    PowIs(12, 15, 0x36bc9ac0000000);
  }

  lemma Powers13()
    ensures Pow(13, 8) == 0x309f1021 && Pow(13, 15) == 0xb5d94c6a9db405
  {
    hide Pow;
    PowIs(13, 8, 0x309f1021);
    PowIs(13, 15, 0xb5d94c6a9db405);
  }

  lemma Powers14()
    ensures Pow(14, 8) == 0x57f6c100 && Pow(14, 14) == 0x277a4fb3944000
  {
    hide Pow;
    PowIs(14, 8, 0x57f6c100);
    PowIs(14, 14, 0x277a4fb3944000);
  }

  lemma Powers15()
    ensures Pow(15, 8) == 0x98c29b81 && Pow(15, 14) == 0x67b6cfc1b29a21
  {
    hide Pow;
    PowIs(15, 8, 0x98c29b81);
    PowIs(15, 14, 0x67b6cfc1b29a21);
  }

  lemma Powers16()
    ensures Pow(16, 8) == 0x100000000 && Pow(16, 14) == 0x100000000000000
  {
    hide Pow;
    PowIs(16, 8, 0x100000000);
    PowIs(16, 14, 0x100000000000000);
  }

  lemma Powers17()
    ensures Pow(17, 7) == 0x18754571 && Pow(17, 13) == 0x233029474d2ed1
  {
    hide Pow;
    PowIs(17, 7, 0x18754571);
    PowIs(17, 13, 0x233029474d2ed1);
  }

  lemma Powers18()
    ensures Pow(18, 7) == 0x247dbc80 && Pow(18, 13) == 0x49fa604ffd2000
  {
    hide Pow;
    PowIs(18, 7, 0x247dbc80);
    PowIs(18, 13, 0x49fa604ffd2000);
  }

  lemma Powers19()
    ensures Pow(19, 7) == 0x3547667b && Pow(19, 13) == 0x9566f7350361a3
  {
    hide Pow;
    PowIs(19, 7, 0x3547667b);
    PowIs(19, 13, 0x9566f7350361a3);
  }

  lemma Powers20()
    ensures Pow(20, 7) == 0x4c4b4000 && Pow(20, 13) == 0x12309ce54000000
  {
    hide Pow;
    PowIs(20, 7, 0x4c4b4000);
    PowIs(20, 13, 0x12309ce54000000);
  }

  lemma Powers21()
    ensures Pow(21, 7) == 0x6b5a6e1d && Pow(21, 13) == 0x224cbcf22c00b65
  {
    hide Pow;
    PowIs(21, 7, 0x6b5a6e1d);
    PowIs(21, 13, 0x224cbcf22c00b65);
  }

  lemma Powers22()
    ensures Pow(22, 7) == 0x94ace180 && Pow(22, 12) == 0x2dab8e89691000
  {
    hide Pow;
    PowIs(22, 7, 0x94ace180);
    PowIs(22, 12, 0x2dab8e89691000);
  }

  lemma Powers23()
    ensures Pow(23, 7) == 0xcaf18367 && Pow(23, 12) == 0x4ddb3c1ca81b61
  {
    hide Pow;
    PowIs(23, 7, 0xcaf18367);
    PowIs(23, 12, 0x4ddb3c1ca81b61);
  }

  lemma Powers24()
    ensures Pow(24, 6) == 0xb640000 && Pow(24, 12) == 0x81bf1000000000
  {
    hide Pow;
    PowIs(24, 6, 0xb640000);
    PowIs(24, 12, 0x81bf1000000000);
  }

  lemma Powers25()
    ensures Pow(25, 6) == 0xe8d4a51 && Pow(25, 12) == 0xd3c21bcecceda1
  {
    hide Pow;
    PowIs(25, 6, 0xe8d4a51);
    PowIs(25, 12, 0xd3c21bcecceda1);
  }

  lemma Powers26()
    ensures Pow(26, 6) == 0x1269ae40 && Pow(26, 12) == 0x1530821671b1000
  {
    hide Pow;
    PowIs(26, 6, 0x1269ae40);
    PowIs(26, 12, 0x1530821671b1000);
  }

  lemma Powers27()
    ensures Pow(27, 6) == 0x17179149 && Pow(27, 12) == 0x2153e468b91c6d1
  {
    hide Pow;
    PowIs(27, 6, 0x17179149);
    PowIs(27, 12, 0x2153e468b91c6d1);
  }

  lemma Powers28()
    ensures Pow(28, 6) == 0x1cb91000 && Pow(28, 12) == 0x339014821000000
  {
    hide Pow;
    PowIs(28, 6, 0x1cb91000);
    PowIs(28, 12, 0x339014821000000);
  }

  lemma Powers29()
    ensures Pow(29, 6) == 0x23744899 && Pow(29, 11) == 0x2b584c8aa9e065
  {
    hide Pow;
    PowIs(29, 6, 0x23744899);
    PowIs(29, 11, 0x2b584c8aa9e065);
  }

  lemma Powers30()
    ensures Pow(30, 6) == 0x2b73a840 && Pow(30, 11) == 0x3eef6d00cd7800
  {
    hide Pow;
    PowIs(30, 6, 0x2b73a840);
    PowIs(30, 11, 0x3eef6d00cd7800);
  }

  lemma Powers31()
    ensures Pow(31, 6) == 0x34e63b41 && Pow(31, 11) == 0x5a44e007b1a55f
  {
    hide Pow;
    PowIs(31, 6, 0x34e63b41);
    PowIs(31, 11, 0x5a44e007b1a55f);
  }

  lemma Powers32()
    ensures Pow(32, 6) == 0x40000000 && Pow(32, 11) == 0x80000000000000
  {
    hide Pow;
    PowIs(32, 6, 0x40000000);
    PowIs(32, 11, 0x80000000000000);
  }

  lemma Powers33()
    ensures Pow(33, 6) == 0x4cfa3cc1 && Pow(33, 11) == 0xb38fc730f35d61
  {
    hide Pow;
    PowIs(33, 6, 0x4cfa3cc1);
    PowIs(33, 11, 0xb38fc730f35d61);
  }

  lemma Powers34()
    ensures Pow(34, 6) == 0x5c13d840 && Pow(34, 11) == 0xf95c61a43d8800
  {
    hide Pow;
    PowIs(34, 6, 0x5c13d840);
    PowIs(34, 11, 0xf95c61a43d8800);
  }

  lemma Powers35()
    ensures Pow(35, 6) == 0x6d91b519 && Pow(35, 11) == 0x15702f27495705b
  {
    hide Pow;
    PowIs(35, 6, 0x6d91b519);
    PowIs(35, 11, 0x15702f27495705b);
  }

  lemma Powers36()
    ensures Pow(36, 6) == 0x81bf1000 && Pow(36, 11) == 0x1d39d3e06400000
  {
    hide Pow;
    PowIs(36, 6, 0x81bf1000);
    PowIs(36, 11, 0x1d39d3e06400000);
  }

  lemma Successor(b: nat, n: nat)
    requires n > 0
    ensures Pow(b, n) == b * Pow(b, n - 1)
  {
  }

  /** A radix of several digits per limb. */
  lemma PerLimbFits(radix: nat, n: nat)
    requires IsRadix(radix) && !IsPow2(radix) && n <= PerLimbDigits(radix)
    ensures 1 <= Pow(radix, n) < BASE
  {
    hide Pow;
    PerLimb(radix);
    PowUp(radix, n, DIGITS_PER_LIMB[radix - 2]);
    PowPos(radix, n);
  }

  /** A power of five from the tables. */
  function TablePow5(b: nat): (r: nat)
    requires 1 <= b <= 17
  {
    POW5[b - 1] + (if b >= 14 then POW5_HIGH[b - 14] * BASE else 0)
  }

  lemma {:induction false} Pow5Table(b: nat)
    requires 1 <= b <= 17
    ensures TablePow5(b) == Pow(5, b)
  {
    hide Pow;
    Successor(5, b);
    if b == 1 {
      PowIs(5, 0, 1);
    } else {
      Pow5Table(b - 1);
    }
  }

  function TableInverse(b: nat): (r: limb)
    requires 1 <= b <= 13
  {
    POW5_INVERSE[b - 1]
  }

  /** The table of their inverses. */
  lemma Pow5InverseTable(b: nat, shift: nat)
    requires 1 <= b <= 13 && Normalised(TablePow5(b) * Pow(2, shift))
    ensures TableInverse(b) == UDiv1NormInit(TablePow5(b) * Pow(2, shift))
  {
    hide Pow, UDiv1NormInit;
    match b
    case 1 => Inverse1(shift);
    case 2 => Inverse2(shift);
    case 3 => Inverse3(shift);
    case 4 => Inverse4(shift);
    case 5 => Inverse5(shift);
    case 6 => Inverse6(shift);
    case 7 => Inverse7(shift);
    case 8 => Inverse8(shift);
    case 9 => Inverse9(shift);
    case 10 => Inverse10(shift);
    case 11 => Inverse11(shift);
    case 12 => Inverse12(shift);
    case 13 => Inverse13(shift);
  }

  ghost predicate InverseAt(r: nat, shift: nat, v: int) {
    Normalised(r * Pow(2, shift)) ==> UDiv1NormInit(r * Pow(2, shift)) == v
  }

  lemma InverseFor(r: nat, shift: nat, s: nat, d: limb, v: int)
    requires Normalised(d) && d == r * FastPow(2, s)
    requires (BASE + v) * d <= BASE2 - 1 < (BASE + v + 1) * d
    ensures InverseAt(r, shift, v)
  {
    hide Pow, FastPow, UDiv1NormInit;
    if Normalised(r * Pow(2, shift)) {
      NormalisedShift(r, shift, s);
      InverseIs(d, v);
    }
  }

  lemma Inverse1(shift: nat)
    ensures InverseAt(0x5, shift, 0x99999999)
  {
    hide InverseAt;
    InverseFor(0x5, shift, 29, 0xa0000000, 0x99999999);
  }

  lemma Inverse2(shift: nat)
    ensures InverseAt(0x19, shift, 0x47ae147a)
  {
    hide InverseAt;
    InverseFor(0x19, shift, 27, 0xc8000000, 0x47ae147a);
  }

  lemma Inverse3(shift: nat)
    ensures InverseAt(0x7d, shift, 0x624dd2f)
  {
    hide InverseAt;
    InverseFor(0x7d, shift, 25, 0xfa000000, 0x624dd2f);
  }

  lemma Inverse4(shift: nat)
    ensures InverseAt(0x271, shift, 0xa36e2eb1)
  {
    hide InverseAt;
    InverseFor(0x271, shift, 22, 0x9c400000, 0xa36e2eb1);
  }

  lemma Inverse5(shift: nat)
    ensures InverseAt(0xc35, shift, 0x4f8b588e)
  {
    hide InverseAt;
    InverseFor(0xc35, shift, 20, 0xc3500000, 0x4f8b588e);
  }

  lemma Inverse6(shift: nat)
    ensures InverseAt(0x3d09, shift, 0xc6f7a0b)
  {
    hide InverseAt;
    InverseFor(0x3d09, shift, 18, 0xf4240000, 0xc6f7a0b);
  }

  lemma Inverse7(shift: nat)
    ensures InverseAt(0x1312d, shift, 0xad7f29ab)
  {
    hide InverseAt;
    InverseFor(0x1312d, shift, 15, 0x98968000, 0xad7f29ab);
  }

  lemma Inverse8(shift: nat)
    ensures InverseAt(0x5f5e1, shift, 0x5798ee23)
  {
    hide InverseAt;
    InverseFor(0x5f5e1, shift, 13, 0xbebc2000, 0x5798ee23);
  }

  lemma Inverse9(shift: nat)
    ensures InverseAt(0x1dcd65, shift, 0x12e0be82)
  {
    hide InverseAt;
    InverseFor(0x1dcd65, shift, 11, 0xee6b2800, 0x12e0be82);
  }

  lemma Inverse10(shift: nat)
    ensures InverseAt(0x9502f9, shift, 0xb7cdfd9d)
  {
    hide InverseAt;
    InverseFor(0x9502f9, shift, 8, 0x9502f900, 0xb7cdfd9d);
  }

  lemma Inverse11(shift: nat)
    ensures InverseAt(0x2e90edd, shift, 0x5fd7fe17)
  {
    hide InverseAt;
    InverseFor(0x2e90edd, shift, 6, 0xba43b740, 0x5fd7fe17);
  }

  lemma Inverse12(shift: nat)
    ensures InverseAt(0xe8d4a51, shift, 0x19799812)
  {
    hide InverseAt;
    InverseFor(0xe8d4a51, shift, 4, 0xe8d4a510, 0x19799812);
  }

  lemma Inverse13(shift: nat)
    ensures InverseAt(0x48c27395, shift, 0xc25c2684)
  {
    hide InverseAt;
    InverseFor(0x48c27395, shift, 1, 0x9184e72a, 0xc25c2684);
  }

  /** Only one shift normalises a number. */
  lemma NormalisedShift(r: nat, shift: nat, s: nat)
    requires Normalised(r * Pow(2, shift)) && Normalised(r * FastPow(2, s))
    ensures shift == s && r * Pow(2, shift) == r * FastPow(2, s)
  {
    hide Pow, FastPow;
    FastPowIs(2, s);
    if shift < s {
      ShiftDoubles(r, shift, s);
    } else if s < shift {
      ShiftDoubles(r, s, shift);
    }
  }

  lemma ShiftDoubles(r: nat, m: nat, n: nat)
    requires m < n
    ensures 2 * (r * Pow(2, m)) <= r * Pow(2, n)
  {
    PowUp(2, m + 1, n);
    MulUp(r, r, Pow(2, m + 1), Pow(2, n));
    assert r * Pow(2, m + 1) == 2 * (r * Pow(2, m));
  }

  lemma InverseIs(d: limb, v: int)
    requires Normalised(d) && (BASE + v) * d <= BASE2 - 1 < (BASE + v + 1) * d
    ensures UDiv1NormInit(d) == v
  {
    var w := UDiv1NormInit(d);
    if w < v {
      MulUpAny(BASE + w + 1, BASE + v, d);
    } else if v < w {
      MulUpAny(BASE + v + 1, BASE + w, d);
    }
  }
}
