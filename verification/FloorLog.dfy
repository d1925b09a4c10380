/**
 The estimate of a logarithm in the radix: multiplication by a rounded 24-bit
 constant. It is the exact floor for every exponent in range, because between
 the constant and the true ratio there is no fraction with so small a
 denominator. The neighbouring fractions that show it are in a table here.
 */
module FloorLog {
  import opened Powers
  import opened RealPowers

  predicate IsRadix(radix: int) { 2 <= radix <= 36 }

  predicate IsPow2(radix: int) { radix == 2 || radix == 4 || radix == 8 || radix == 16 || radix == 32 }

  /** 2^24 / log2(radix), rounded, from radix 2 on; 0 for the powers of two. */
  const MUL_LOG2_RADIX: seq<nat> := [
    0x000000, 0xa1849d, 0x000000, 0x6e40d2, 0x6308c9, 0x5b3065, 0x000000,
    0x50c24e, 0x4d104d, 0x4a0027, 0x4768ce, 0x452e54, 0x433d00, 0x418677,
    0x000000, 0x3ea16b, 0x3d645a, 0x3c43c2, 0x3b3b9a, 0x3a4899, 0x39680b,
    0x3897b3, 0x37d5af, 0x372069, 0x367686, 0x35d6df, 0x354072, 0x34b261,
    0x342bea, 0x33ac62, 0x000000, 0x32bfd9, 0x3251dd, 0x31e8d6, 0x318465
  ]

  /** For each radix, fractions p1/q1 and p2/q2 on both sides of 1 / log2(radix), neighbours in a Farey sequence. */
  const NEIGHBOURS: seq<(nat, nat, nat, nat)> := [
    (0, 1, 1, 1), (971, 1539, 665, 1054), (0, 1, 1, 1), (643, 1493, 789, 1832),
    (306, 791, 665, 1719), (571, 1603, 680, 1909), (0, 1, 1, 1), (153, 485, 512, 1623),
    (497, 1651, 146, 485), (37, 128, 579, 2003), (306, 1097, 359, 1287), (227, 840, 464, 1717),
    (462, 1759, 109, 415), (290, 1133, 247, 965), (0, 1, 1, 1), (343, 1402, 263, 1075),
    (153, 638, 359, 1497), (121, 514, 480, 2039), (351, 1517, 146, 631), (339, 1489, 130, 571),
    (37, 165, 431, 1922), (403, 1823, 191, 864), (306, 1403, 359, 1646), (424, 1969, 73, 339),
    (227, 1067, 237, 1114), (102, 485, 359, 1707), (353, 1697, 109, 524), (169, 821, 345, 1676),
    (290, 1423, 247, 1212), (131, 649, 371, 1838), (0, 1, 1, 1), (45, 227, 383, 1932),
    (343, 1745, 263, 1338), (379, 1944, 263, 1349), (153, 791, 359, 1856)
  ]

  /** The base-two logarithm of a power-of-two radix. */
  function RadixBits(radix: nat): (b: nat)
    requires IsPow2(radix)
    ensures 1 <= b <= 5 && Pow(2, b) == radix
  {
    FastPowIs(2, 1); FastPowIs(2, 2); FastPowIs(2, 3); FastPowIs(2, 4); FastPowIs(2, 5);
    if radix == 2 then 1 else if radix == 4 then 2 else if radix == 8 then 3 else if radix == 16 then 4 else 5
  }

  /** Division that truncates towards zero. */
  function TruncDiv(a: int, b: int): int
    requires b > 0
  {
    if a >= 0 then a / b else -((-a) / b)
  }

  /** floor(a / log2(radix)). */
  function MulLog2Radix(a: int, radix: nat): (r: int)
    requires IsRadix(radix)
  {
    if IsPow2(radix) then
      var bits := RadixBits(radix);
      TruncDiv(if a < 0 then a - (bits - 1) else a, bits)
    else
      a * MUL_LOG2_RADIX[radix - 2] / 0x100_0000
  }

  // ----- the certificate -----

  /**
   The fractions enclose both the constant and the logarithm, and no fraction with denominator up to 2048 lies
   between them.
   */
  ghost predicate Encloses(radix: nat, mult: nat, c: (nat, nat, nat, nat)) {
    && c.2 * c.1 == c.0 * c.3 + 1 && c.1 > 0 && c.3 > 0 && c.1 + c.3 > 2048
    && c.0 * 0x100_0000 < mult * c.1 && mult * c.3 < c.2 * 0x100_0000
    && Pow(radix, c.0) < Pow(2, c.1) && Pow(2, c.3) < Pow(radix, c.2)
  }

  /** An eighth power times what is left of the exponent. */
  lemma EighthPower(b: nat, n: nat, j: nat)
    ensures Pow(b, 8 * n + j) == Pow(Pow(b, n), 8) * Pow(b, j)
  {
    PowOfPow(b, n, 8);
    PowAdd(b, n * 8, j);
  }

  /** A power is below a power of two, by a mantissa `h` above its eighth root. */
  lemma PowBelow(b: nat, n: nat, j: nat, h: nat, k: nat, q: nat)
    requires FastPow(b, n) <= h * FastPow(2, k)
    requires FastPow(h, 8) * FastPow(b, j) < FastPow(2, q)
    ensures Pow(b, 8 * n + j) < Pow(2, q + 8 * k)
  {
    hide FastPow, Pow;
    FastPowIs(b, n);
    FastPowIs(b, j);
    FastPowIs(2, k);
    FastPowIs(h, 8);
    FastPowIs(2, q);
    EighthPower(b, n, j);
    ScaledPower(h, k, b, j);
    PowBase(Pow(b, n), h * Pow(2, k), 8);
    MulUp(Pow(Pow(b, n), 8), Pow(h * Pow(2, k), 8), Pow(b, j), Pow(b, j));
    PowPos(2, 8 * k);
    MulStrict(Pow(h, 8) * Pow(b, j), Pow(2, q), Pow(2, 8 * k));
    PowAdd(2, q, 8 * k);
  }

  /** A power is above a power of two, by a mantissa `l` below its eighth root. */
  lemma PowAbove(b: nat, n: nat, j: nat, l: nat, k: nat, q: nat)
    requires l * FastPow(2, k) <= FastPow(b, n)
    requires FastPow(2, q) < FastPow(l, 8) * FastPow(b, j)
    ensures Pow(2, q + 8 * k) < Pow(b, 8 * n + j)
  {
    hide FastPow, Pow;
    FastPowIs(b, n);
    FastPowIs(b, j);
    FastPowIs(2, k);
    FastPowIs(l, 8);
    FastPowIs(2, q);
    EighthPower(b, n, j);
    ScaledPower(l, k, b, j);
    PowBase(l * Pow(2, k), Pow(b, n), 8);
    MulUp(Pow(l * Pow(2, k), 8), Pow(Pow(b, n), 8), Pow(b, j), Pow(b, j));
    PowPos(2, 8 * k);
    MulStrict(Pow(2, q), Pow(l, 8) * Pow(b, j), Pow(2, 8 * k));
    PowAdd(2, q, 8 * k);
  }

  lemma ScaledPower(h: nat, k: nat, b: nat, j: nat)
    ensures Pow(h * Pow(2, k), 8) * Pow(b, j) == (Pow(h, 8) * Pow(b, j)) * Pow(2, 8 * k)
  {
    hide Pow;
    PowOfProduct(h, Pow(2, k), 8);
    PowOfPow(2, k, 8);
    var x, y, z := Pow(h, 8), Pow(2, 8 * k), Pow(b, j);
    assert (x * y) * z == (x * z) * y;
  }

  // ----- the floor is exact -----

  /** No fraction n / a with a positive denominator up to 2048 lies strictly between the neighbours. */
  lemma NoFractionBetween(c: (nat, nat, nat, nat), n: int, a: int)
    requires c.2 * c.1 == c.0 * c.3 + 1 && c.1 > 0 && c.3 > 0 && c.1 + c.3 > 2048 && a <= 2048
    requires c.0 * a < n * c.1
    ensures n * c.3 >= c.2 * a
  {
    var x, y := n * c.1 - c.0 * a, c.2 * a - n * c.3;
    if y >= 1 {
      assert c.3 * x + c.1 * y == a * (c.2 * c.1 - c.0 * c.3) by {
        assert c.3 * x == c.3 * (n * c.1) - c.3 * (c.0 * a);
        assert c.1 * y == c.1 * (c.2 * a) - c.1 * (n * c.3);
        assert c.3 * (n * c.1) == c.1 * (n * c.3);
        assert a * (c.2 * c.1 - c.0 * c.3) == c.1 * (c.2 * a) - c.3 * (c.0 * a);
      }
      MulUp(c.3, c.3, 1, x);
      MulUp(c.1, c.1, 1, y);
    }
  }

  /** Comparing powers of powers compares the products of the exponents. */
  lemma CompareProducts(x: nat, m: nat, y: nat, n: nat, k: nat, l: nat)
    requires x > 0 && y > 0 && Pow(x, m) < Pow(y, n) && Pow(y, k) <= Pow(x, l) && k > 0
    ensures m * k < l * n
  {
    hide Pow;
    MulUp(0, m, 0, k);
    MulUp(0, l, 0, n);
    MulUp(0, n, 0, k);
    var e, f, g := m * k, l * n, n * k;
    PowPowIs(x, m, k, e);
    PowPowIs(x, l, n, f);
    PowPowIs(y, n, k, g);
    PowPowIs(y, k, n, g);
    ChainPowers(x, e, Pow(x, m), Pow(y, n), Pow(y, k), Pow(x, l), f, k, n);
  }

  lemma PowPowIs(b: nat, m: nat, n: nat, e: nat)
    requires e == m * n
    ensures Pow(Pow(b, m), n) == Pow(b, e)
  {
    PowOfPow(b, m, n);
  }

  lemma ChainPowers(b: nat, e: nat, s: nat, t: nat, u: nat, v: nat, f: nat, k: nat, n: nat)
    requires b > 0 && k > 0 && s < t && u <= v
    requires Pow(b, e) == Pow(s, k) && Pow(t, k) == Pow(u, n) && Pow(v, n) == Pow(b, f)
    ensures e < f
  {
    hide Pow;
    PowStrict(s, t, k);
    PowBase(u, v, n);
    PowOrder(b, e, f);
  }

  lemma PowOrder(b: nat, m: nat, n: nat)
    requires b > 0 && Pow(b, m) < Pow(b, n)
    ensures m < n
  {
    if m >= n {
      PowUp(b, n, m);
    }
  }

  lemma {:induction false} PowStrict(a: nat, b: nat, n: nat)
    requires a < b && n > 0
    ensures Pow(a, n) < Pow(b, n)
    decreases n
  {
    if n > 1 {
      PowStrict(a, b, n - 1);
      MulUp(a, b, Pow(a, n - 1), Pow(b, n - 1));
      MulStrict(Pow(a, n - 1), Pow(b, n - 1), b);
      MulUpAny(a, b, Pow(a, n - 1));
    }
  }

  /** The radix power at the rounded-down estimate is at most the power of two, and the next one is above it. */
  lemma FloorUp(radix: nat, n: nat, a: nat)
    requires IsRadix(radix) && !IsPow2(radix) && 0 < a <= 2048
    requires n == a * MUL_LOG2_RADIX[radix - 2] / 0x100_0000
    ensures Pow(radix, n) <= Pow(2, a) < Pow(radix, n + 1)
  {
    hide Pow;
    var c, mult := NEIGHBOURS[radix - 2], MUL_LOG2_RADIX[radix - 2];
    Certified(radix);
    if Pow(radix, n) > Pow(2, a) {
      CompareProducts(radix, c.0, 2, c.1, a, n);
      NoFractionBetween(c, n, a);
      ScaleUpper(c, mult, n, a);
    }
    if Pow(radix, n + 1) <= Pow(2, a) {
      CompareProducts(2, c.3, radix, c.2, n + 1, a);
      ScaleLower(c, mult, n + 1, a);
      NoFractionBetween(c, n + 1, a);
    }
  }

  /** The same below zero: the estimate of -a is rounded away from zero. */
  lemma FloorDown(radix: nat, k: nat, a: nat)
    requires IsRadix(radix) && !IsPow2(radix) && 0 < a <= 2048 && k > 0
    requires 0 - k == (0 - a) * MUL_LOG2_RADIX[radix - 2] / 0x100_0000
    ensures Pow(radix, k - 1) < Pow(2, a) <= Pow(radix, k)
  {
    hide Pow;
    var c, mult := NEIGHBOURS[radix - 2], MUL_LOG2_RADIX[radix - 2];
    Certified(radix);
    assert (0 - a) * mult == 0 - a * mult;
    assert (k - 1) * 0x100_0000 < a * mult <= k * 0x100_0000;
    if Pow(radix, k) < Pow(2, a) {
      CompareProducts(2, c.3, radix, c.2, k, a);
      ScaleLower(c, mult, k, a);
      NoFractionBetween(c, k, a);
    }
    if Pow(radix, k - 1) >= Pow(2, a) {
      CompareProducts(radix, c.0, 2, c.1, a, k - 1);
      NoFractionBetween(c, k - 1, a);
      ScaleUpper(c, mult, k - 1, a);
    }
  }

  lemma ScaleUpper(c: (nat, nat, nat, nat), mult: nat, n: int, a: nat)
    requires mult * c.3 < c.2 * 0x100_0000 && n * 0x100_0000 <= a * mult && a > 0 && c.3 > 0
    ensures n * c.3 < c.2 * a
  {
    MulUpAny(n * 0x100_0000, a * mult, c.3);
    MulStrict(mult * c.3, c.2 * 0x100_0000, a);
    assert (a * mult) * c.3 == (mult * c.3) * a;
    assert (n * 0x100_0000) * c.3 == (n * c.3) * 0x100_0000;
    assert (c.2 * 0x100_0000) * a == (c.2 * a) * 0x100_0000;
    CancelLt(n * c.3, c.2 * a, 0x100_0000);
  }

  lemma ScaleLower(c: (nat, nat, nat, nat), mult: nat, n: int, a: nat)
    requires c.0 * 0x100_0000 < mult * c.1 && a * mult <= n * 0x100_0000 && a > 0 && c.1 > 0
    ensures c.0 * a < n * c.1
  {
    MulUpAny(a * mult, n * 0x100_0000, c.1);
    MulStrict(c.0 * 0x100_0000, mult * c.1, a);
    assert (a * mult) * c.1 == (mult * c.1) * a;
    assert (n * 0x100_0000) * c.1 == (n * c.1) * 0x100_0000;
    assert (c.0 * 0x100_0000) * a == (c.0 * a) * 0x100_0000;
    CancelLt(c.0 * a, n * c.1, 0x100_0000);
  }

  lemma NegativeExp(b: nat, n: nat)
    requires b > 0
    ensures Pow(b, n) as real * Exp(b, 0 - n) == 1.0
  {
    ExpIsPow(b, n);
    ExpInverse(b, n);
  }

  lemma InverseOrder(x: real, y: real, xi: real, yi: real)
    requires x > 0.0 && y > 0.0 && x * xi == 1.0 && y * yi == 1.0
    ensures xi > 0.0 && yi > 0.0
    ensures x <= y <==> yi <= xi
  {
    assert xi > 0.0 by { if xi <= 0.0 { RMulUp(xi, 0.0, x); } }
    assert yi > 0.0 by { if yi <= 0.0 { RMulUp(yi, 0.0, y); } }
    if x <= y {
      RMulUp(x, y, xi * yi);
    } else {
      RMulStrict(y, x, xi * yi);
    }
    assert x * (xi * yi) == yi && y * (xi * yi) == xi;
  }

  /** A larger base lies further from one. */
  lemma BaseUp(b: nat, e: int, f: int)
    requires b >= 2 && e <= 0 <= f
    ensures Exp(b, e) <= Exp(2, e) && Exp(2, f) <= Exp(b, f)
  {
    hide Exp, Pow;
    ExpIsPow(b, f);
    ExpIsPow(2, f);
    PowBase(2, b, f);
    PowBase(2, b, -e);
    PowPos(b, -e);
    PowPos(2, -e);
    NegativeExp(b, -e);
    NegativeExp(2, -e);
    InverseOrder(Pow(2, -e) as real, Pow(b, -e) as real, Exp(2, e), Exp(b, e));
  }

  /** The estimate is the floor of the logarithm, for every exponent from -2048 to 2048. */
  lemma MulLog2RadixIsFloor(a: int, radix: nat)
    requires IsRadix(radix) && -2048 <= a <= 2048
    ensures var n := MulLog2Radix(a, radix); Exp(radix, n) <= Exp(2, a) < Exp(radix, n + 1)
  {
    hide Exp, Pow;
    var n := MulLog2Radix(a, radix);
    if IsPow2(radix) {
      FloorPow2(a, radix);
    } else if a == 0 {
      assert n == 0;
      ExpZero(2);
      ExpZero(radix);
    } else if a > 0 {
      FloorUp(radix, n, a);
      ExpIsPow(radix, n);
      ExpIsPow(radix, n + 1);
      ExpIsPow(2, a);
    } else {
      FloorNegative(a, radix, n);
    }
  }

  lemma FloorNegative(a: int, radix: nat, n: int)
    requires IsRadix(radix) && !IsPow2(radix) && -2048 <= a < 0 && n == a * MUL_LOG2_RADIX[radix - 2] / 0x100_0000
    ensures Exp(radix, n) <= Exp(2, a) < Exp(radix, n + 1)
  {
    hide Exp, Pow;
    assert MUL_LOG2_RADIX[radix - 2] > 0;
    assert a * MUL_LOG2_RADIX[radix - 2] < 0 by { MulUpAny(a, -1, MUL_LOG2_RADIX[radix - 2]); }
    FloorDown(radix, -n, -a);
    var k := 0 - n;
    PowPos(radix, k);
    PowPos(radix, k - 1);
    PowPos(2, -a);
    NegativeExp(radix, k);
    NegativeExp(radix, k - 1);
    NegativeExp(2, -a);
    InverseOrder(Pow(2, -a) as real, Pow(radix, k) as real, Exp(2, a), Exp(radix, n));
    InverseOrder(Pow(2, -a) as real, Pow(radix, k - 1) as real, Exp(2, a), Exp(radix, n + 1));
  }

  lemma FloorPow2(a: int, radix: nat)
    requires IsPow2(radix)
    ensures var n := MulLog2Radix(a, radix); Exp(radix, n) <= Exp(2, a) < Exp(radix, n + 1)
  {
    hide Exp, Pow;
    var n, bits := MulLog2Radix(a, radix), RadixBits(radix);
    ExpOfPow2(bits, n);
    ExpOfPow2(bits, n + 1);
    FloorDivide(a, bits, n);
    ExpUp(2, bits * n, a);
    ExpUpStrict(2, a, bits * (n + 1));
  }

  lemma FloorDivide(a: int, bits: int, n: int)
    requires bits > 0 && n == TruncDiv(if a < 0 then a - (bits - 1) else a, bits)
    ensures bits * n <= a < bits * (n + 1)
  {
    if a >= 0 {
      DivPositive(a, bits);
    } else {
      var x := bits - 1 - a;
      DivPositive(x, bits);
      assert n == -(x / bits);
      assert bits * n == -(x / bits * bits);
    }
    assert bits * (n + 1) == bits * n + bits;
  }

  // ----- the numeric checks -----

  /** Every constant of the table is enclosed with its logarithm. */
  lemma Certified(radix: nat)
    requires IsRadix(radix) && !IsPow2(radix)
    ensures Encloses(radix, MUL_LOG2_RADIX[radix - 2], NEIGHBOURS[radix - 2])
  {
    hide Pow, Encloses;
    if radix <= 9 { Certified3(radix); }
    else if radix <= 14 { Certified10(radix); }
    else if radix <= 20 { Certified15(radix); }
    else if radix <= 25 { Certified21(radix); }
    else if radix <= 30 { Certified26(radix); }
    else { Certified31(radix); }
  }

  lemma Certified3(radix: nat)
    requires 3 <= radix <= 9 && !IsPow2(radix)
    ensures Encloses(radix, MUL_LOG2_RADIX[radix - 2], NEIGHBOURS[radix - 2])
  {
    hide Pow;
    match radix
    case 3 => Below3(); Above3();
    case 5 => Below5(); Above5();
    case 6 => Below6(); Above6();
    case 7 => Below7(); Above7();
    case 9 => Below9(); Above9();
  }

  lemma Certified10(radix: nat)
    requires 10 <= radix <= 14 && !IsPow2(radix)
    ensures Encloses(radix, MUL_LOG2_RADIX[radix - 2], NEIGHBOURS[radix - 2])
  {
    hide Pow;
    match radix
    case 10 => Below10(); Above10();
    case 11 => Below11(); Above11();
    case 12 => Below12(); Above12();
    case 13 => Below13(); Above13();
    case 14 => Below14(); Above14();
  }

  lemma Certified15(radix: nat)
    requires 15 <= radix <= 20 && !IsPow2(radix)
    ensures Encloses(radix, MUL_LOG2_RADIX[radix - 2], NEIGHBOURS[radix - 2])
  {
    hide Pow;
    match radix
    case 15 => Below15(); Above15();
    case 17 => Below17(); Above17();
    case 18 => Below18(); Above18();
    case 19 => Below19(); Above19();
    case 20 => Below20(); Above20();
  }

  lemma Certified21(radix: nat)
    requires 21 <= radix <= 25 && !IsPow2(radix)
    ensures Encloses(radix, MUL_LOG2_RADIX[radix - 2], NEIGHBOURS[radix - 2])
  {
    hide Pow;
    match radix
    case 21 => Below21(); Above21();
    case 22 => Below22(); Above22();
    case 23 => Below23(); Above23();
    case 24 => Below24(); Above24();
    case 25 => Below25(); Above25();
  }

  lemma Certified26(radix: nat)
    requires 26 <= radix <= 30 && !IsPow2(radix)
    ensures Encloses(radix, MUL_LOG2_RADIX[radix - 2], NEIGHBOURS[radix - 2])
  {
    hide Pow;
    match radix
    case 26 => Below26(); Above26();
    case 27 => Below27(); Above27();
    case 28 => Below28(); Above28();
    case 29 => Below29(); Above29();
    case 30 => Below30(); Above30();
  }

  lemma Certified31(radix: nat)
    requires 31 <= radix <= 36 && !IsPow2(radix)
    ensures Encloses(radix, MUL_LOG2_RADIX[radix - 2], NEIGHBOURS[radix - 2])
  {
    hide Pow;
    match radix
    case 31 => Below31(); Above31();
    case 33 => Below33(); Above33();
    case 34 => Below34(); Above34();
    case 35 => Below35(); Above35();
    case 36 => Below36(); Above36();
  }

  lemma Below3() ensures Pow(3, 971) < Pow(2, 1539) { hide Pow; PowBelow(3, 121, 3, 3688693028, 160, 259); }
  lemma Above3()
    ensures Pow(2, 1054) < Pow(3, 665)
  {
    hide Pow;
    assert FastPow(3, 83) == 3990838394187339929534246675572349035227;
    PowAbove(3, 83, 1, 3148216388, 100, 254);
  }

  lemma Below5() ensures Pow(5, 643) < Pow(2, 1493) { hide Pow; PowBelow(5, 80, 3, 3622271632, 154, 261); }
  lemma Above5() ensures Pow(2, 1832) < Pow(5, 789) { hide Pow; PowAbove(5, 98, 5, 3141819817, 196, 264); }
  lemma Below6() ensures Pow(6, 306) < Pow(2, 791) { hide Pow; PowBelow(6, 38, 2, 2516157400, 67, 255); }
  lemma Above6() ensures Pow(2, 1719) < Pow(6, 665) { hide Pow; PowAbove(6, 83, 1, 3148216388, 183, 255); }
  lemma Below7() ensures Pow(7, 571) < Pow(2, 1603) { hide Pow; PowBelow(7, 71, 3, 2684859536, 168, 259); }
  lemma Above7() ensures Pow(2, 1909) < Pow(7, 680) { hide Pow; PowAbove(7, 85, 0, 3312259075, 207, 253); }
  lemma Below9() ensures Pow(9, 153) < Pow(2, 485) { hide Pow; PowBelow(9, 19, 1, 2516157400, 29, 253); }
  lemma Above9() ensures Pow(2, 1623) < Pow(9, 512) { hide Pow; PowAbove(9, 64, 0, 3939048658, 171, 255); }
  lemma Below10() ensures Pow(10, 497) < Pow(2, 1651) { hide Pow; PowBelow(10, 62, 1, 4176194860, 174, 259); }
  lemma Above10() ensures Pow(2, 485) < Pow(10, 146) { hide Pow; PowAbove(10, 18, 2, 3725290298, 28, 261); }
  lemma Below11() ensures Pow(11, 37) < Pow(2, 128) { hide Pow; PowBelow(11, 4, 5, 14641, 0, 128); }
  lemma Above11() ensures Pow(2, 2003) < Pow(11, 579) { hide Pow; PowAbove(11, 72, 3, 2268476458, 218, 259); }
  lemma Below12() ensures Pow(12, 306) < Pow(2, 1097) { hide Pow; PowBelow(12, 38, 2, 2516157400, 105, 257); }
  lemma Above12() ensures Pow(2, 1287) < Pow(12, 359) { hide Pow; PowAbove(12, 44, 7, 3582575671, 126, 279); }
  lemma Below13() ensures Pow(13, 227) < Pow(2, 840) { hide Pow; PowBelow(13, 28, 3, 3282873716, 72, 264); }
  lemma Above13() ensures Pow(2, 1717) < Pow(13, 464) { hide Pow; PowAbove(13, 58, 0, 3313028922, 183, 253); }
  lemma Below14() ensures Pow(14, 462) < Pow(2, 1759) { hide Pow; PowBelow(14, 57, 6, 2176300392, 186, 271); }
  lemma Above14() ensures Pow(2, 415) < Pow(14, 109) { hide Pow; PowAbove(14, 13, 5, 3027781575, 18, 271); }
  lemma Below15() ensures Pow(15, 290) < Pow(2, 1133) { hide Pow; PowBelow(15, 36, 2, 3365238112, 109, 261); }
  lemma Above15() ensures Pow(2, 965) < Pow(15, 247) { hide Pow; PowAbove(15, 30, 7, 2478324353, 86, 277); }
  lemma Below17() ensures Pow(17, 343) < Pow(2, 1402) { hide Pow; PowBelow(17, 42, 7, 3424958433, 140, 282); }
  lemma Above17() ensures Pow(2, 1075) < Pow(17, 263) { hide Pow; PowAbove(17, 32, 7, 3735905768, 99, 283); }
  lemma Below18() ensures Pow(18, 153) < Pow(2, 638) { hide Pow; PowBelow(18, 19, 1, 2516157400, 48, 254); }
  lemma Above18() ensures Pow(2, 1497) < Pow(18, 359) { hide Pow; PowAbove(18, 44, 7, 2988346024, 152, 281); }
  lemma Below19() ensures Pow(19, 121) < Pow(2, 514) { hide Pow; PowBelow(19, 15, 1, 3534631578, 32, 258); }
  lemma Above19() ensures Pow(2, 2039) < Pow(19, 480) { hide Pow; PowAbove(19, 60, 0, 3940279453, 223, 255); }
  lemma Below20() ensures Pow(20, 351) < Pow(2, 1517) { hide Pow; PowBelow(20, 43, 7, 3851859889, 154, 285); }
  lemma Above20() ensures Pow(2, 631) < Pow(20, 146) { hide Pow; PowAbove(20, 18, 2, 3725290298, 46, 263); }
  lemma Below21() ensures Pow(21, 339) < Pow(2, 1489) { hide Pow; PowBelow(21, 42, 3, 2989654778, 153, 265); }
  lemma Above21() ensures Pow(2, 571) < Pow(21, 130) { hide Pow; PowAbove(21, 16, 2, 2602189288, 39, 259); }
  lemma Below22() ensures Pow(22, 37) < Pow(2, 165) { hide Pow; PowBelow(22, 4, 5, 234256, 0, 165); }
  lemma Above22() ensures Pow(2, 1922) < Pow(22, 431) { hide Pow; PowAbove(22, 53, 7, 2736862458, 205, 282); }
  lemma Below23() ensures Pow(23, 403) < Pow(2, 1823) { hide Pow; PowBelow(23, 50, 3, 2429644014, 195, 263); }
  lemma Above23() ensures Pow(2, 864) < Pow(23, 191) { hide Pow; PowAbove(23, 23, 7, 2210805543, 73, 280); }
  lemma Below24() ensures Pow(24, 306) < Pow(2, 1403) { hide Pow; PowBelow(24, 38, 2, 2516157400, 143, 259); }
  lemma Above24() ensures Pow(2, 1646) < Pow(24, 359) { hide Pow; PowAbove(24, 44, 7, 3582575671, 170, 286); }
  lemma Below25() ensures Pow(25, 424) < Pow(2, 1969) { hide Pow; PowBelow(25, 53, 0, 2340838178, 215, 249); }
  lemma Above25() ensures Pow(2, 339) < Pow(25, 73) { hide Pow; PowAbove(25, 9, 1, 3725290298, 10, 259); }
  lemma Below26() ensures Pow(26, 227) < Pow(2, 1067) { hide Pow; PowBelow(26, 28, 3, 3282873716, 100, 267); }
  lemma Above26() ensures Pow(2, 1114) < Pow(26, 237) { hide Pow; PowAbove(26, 29, 5, 2667334894, 105, 274); }
  lemma Below27() ensures Pow(27, 102) < Pow(2, 485) { hide Pow; PowBelow(27, 12, 6, 2236584355, 26, 277); }
  lemma Above27() ensures Pow(2, 1707) < Pow(27, 359) { hide Pow; PowAbove(27, 44, 7, 2492679228, 178, 283); }
  lemma Below28() ensures Pow(28, 353) < Pow(2, 1697) { hide Pow; PowBelow(28, 44, 1, 3087124608, 180, 257); }
  lemma Above28() ensures Pow(2, 524) < Pow(28, 109) { hide Pow; PowAbove(28, 13, 5, 3027781575, 31, 276); }
  lemma Below29() ensures Pow(29, 169) < Pow(2, 821) { hide Pow; PowBelow(29, 21, 1, 2173843444, 71, 253); }
  lemma Above29() ensures Pow(2, 1676) < Pow(29, 345) { hide Pow; PowAbove(29, 43, 1, 3988454822, 177, 260); }
  lemma Below30() ensures Pow(30, 290) < Pow(2, 1423) { hide Pow; PowBelow(30, 36, 2, 3365238112, 145, 263); }
  lemma Above30() ensures Pow(2, 1212) < Pow(30, 247) { hide Pow; PowAbove(30, 30, 7, 2478324353, 116, 284); }
  lemma Below31() ensures Pow(31, 131) < Pow(2, 649) { hide Pow; PowBelow(31, 16, 3, 2584326075, 48, 265); }
  lemma Above31() ensures Pow(2, 1838) < Pow(31, 371) { hide Pow; PowAbove(31, 46, 3, 3988033210, 196, 270); }
  lemma Below33() ensures Pow(33, 45) < Pow(2, 227) { hide Pow; PowBelow(33, 5, 5, 39135393, 0, 227); }
  lemma Above33() ensures Pow(2, 1932) < Pow(33, 383) { hide Pow; PowAbove(33, 47, 7, 2280216413, 206, 284); }
  lemma Below34() ensures Pow(34, 343) < Pow(2, 1745) { hide Pow; PowBelow(34, 42, 7, 3424958433, 182, 289); }
  lemma Above34() ensures Pow(2, 1338) < Pow(34, 263) { hide Pow; PowAbove(34, 32, 7, 3735905768, 131, 290); }
  lemma Below35() ensures Pow(35, 379) < Pow(2, 1944) { hide Pow; PowBelow(35, 47, 3, 2264117675, 210, 264); }
  lemma Above35() ensures Pow(2, 1349) < Pow(35, 263) { hide Pow; PowAbove(35, 32, 7, 2361500250, 133, 285); }
  lemma Below36() ensures Pow(36, 153) < Pow(2, 791) { hide Pow; PowBelow(36, 19, 1, 2516157400, 67, 255); }
  lemma Above36() ensures Pow(2, 1856) < Pow(36, 359) { hide Pow; PowAbove(36, 44, 7, 2988346024, 196, 288); }
}
