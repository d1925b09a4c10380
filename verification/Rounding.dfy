/**
 Rounding of exact values to integers: to nearest with ties to even, to nearest
 with ties away from zero, and towards zero.
 */
module Rounding {
  import opened Powers
  import opened RealPowers

  datatype Mode = NearestEven | NearestAway | TowardsZero

  /** `f` is the fraction n / d rounded. */
  ghost predicate IsRounded(n: int, d: int, f: int, mode: Mode) {
    match mode
    case NearestEven => (2 * f - 1) * d <= 2 * n <= (2 * f + 1) * d
                        && (2 * n == (2 * f - 1) * d || 2 * n == (2 * f + 1) * d ==> f % 2 == 0)
    case NearestAway => (2 * f - 1) * d <= 2 * n < (2 * f + 1) * d
    case TowardsZero => f * d <= n < (f + 1) * d
  }

  /** The same with the product of the rounded value and the denominator given. */
  predicate RoundedAt(n: int, d: int, f: int, fd: int, mode: Mode) {
    match mode
    case NearestEven => 2 * fd - d <= 2 * n <= 2 * fd + d && (2 * n == 2 * fd - d || 2 * n == 2 * fd + d ==> f % 2 == 0)
    case NearestAway => 2 * fd - d <= 2 * n < 2 * fd + d
    case TowardsZero => fd <= n < fd + d
  }

  lemma RoundedProduct(n: int, d: int, f: int, fd: int, mode: Mode)
    requires fd == f * d
    ensures IsRounded(n, d, f, mode) <==> RoundedAt(n, d, f, fd, mode)
  {
    assert (2 * f - 1) * d == 2 * (f * d) - d;
    assert (2 * f + 1) * d == 2 * (f * d) + d;
    assert (f + 1) * d == f * d + d;
  }

  /** `f` is the non-negative real `x` rounded. */
  ghost predicate Rounds(x: real, f: int, mode: Mode) {
    var y := f as real;
    match mode
    case NearestEven => y - 0.5 <= x <= y + 0.5 && (x == y - 0.5 || x == y + 0.5 ==> f % 2 == 0)
    case NearestAway => y - 0.5 <= x < y + 0.5
    case TowardsZero => y <= x < y + 1.0
  }

  /** The two definitions agree on the value of a fraction. */
  lemma RoundsFraction(x: real, n: int, d: int, f: int, mode: Mode)
    requires d > 0 && x * d as real == n as real
    ensures IsRounded(n, d, f, mode) <==> Rounds(x, f, mode)
  {
    var s, y := d as real, f as real;
    CompareScaled(x, y - 0.5, s, n, (2 * f - 1) * d);
    CompareScaled(x, y + 0.5, s, n, (2 * f + 1) * d);
    CompareScaled(x, y, s, n, (2 * f) * d);
    CompareScaled(x, y + 1.0, s, n, (2 * f + 2) * d);
    assert (2 * f) * d == 2 * (f * d) && (2 * f + 2) * d == 2 * ((f + 1) * d);
    assert ((2 * f - 1) * d) as real == (2 * f - 1) as real * s;
    assert ((2 * f + 1) * d) as real == (2 * f + 1) as real * s;
  }

  lemma CompareScaled(x: real, z: real, s: real, n: int, k: int)
    requires s > 0.0 && x * s == n as real
    ensures (z * s) * 2.0 == k as real ==> (x < z <==> 2 * n < k) && (x <= z <==> 2 * n <= k)
  {
    if x < z {
      RMulStrict(x, z, s);
    } else if x > z {
      RMulStrict(z, x, s);
    }
  }

  /** There is only one rounded value. */
  lemma RoundsUnique(x: real, f: int, g: int, mode: Mode)
    requires Rounds(x, f, mode) && Rounds(x, g, mode)
    ensures f == g
  {
    assert f < g ==> f as real + 1.0 <= g as real;
    assert g < f ==> g as real + 1.0 <= f as real;
  }

  /** Rounding to nearest is off by at most one half. */
  lemma RoundsClose(x: real, f: int, mode: Mode)
    requires Rounds(x, f, mode) && mode != TowardsZero
    ensures f as real - 0.5 <= x <= f as real + 0.5
  {
  }

  /** A real not below an integer does not round below it, and the other way round. */
  lemma RoundsMonotone(x: real, f: int, mode: Mode, k: int)
    requires Rounds(x, f, mode)
    ensures x >= k as real ==> f >= k
    ensures x <= k as real ==> f <= k
  {
    assert f < k ==> f as real + 1.0 <= k as real;
    assert f > k ==> f as real >= k as real + 1.0;
  }

  /** A larger real does not round lower. */
  lemma RoundsOrder(x: real, f: int, y: real, g: int)
    requires Rounds(x, f, NearestEven) && Rounds(y, g, NearestEven) && x <= y
    ensures f <= g
  {
    if g < f {
      assert g as real + 1.0 <= f as real;
      RoundsUnique(x, f, g, NearestEven);
    }
  }

  lemma RoundsInteger(k: int, mode: Mode)
    ensures Rounds(k as real, k, mode)
  {
  }

  // ----- the rounding decision from bits -----

  /** Whether to add one after dropping `low` bits: from the highest dropped bit, the others and the lowest kept bit. */
  function AddOne(mode: Mode, high: bool, rest: bool, odd: bool): bool {
    match mode
    case TowardsZero => false
    case NearestEven => high && (rest || odd)
    case NearestAway => high
  }

  /** Dropping s bits with that decision rounds v / 2^s. */
  lemma BitsRounded(v: nat, h: nat, mode: Mode)
    requires h > 0
    ensures var d := 2 * h;
            var high, rest, odd := v / h % 2 == 1, v % h != 0, v / d % 2 == 1;
            IsRounded(v, d, v / d + (if AddOne(mode, high, rest, odd) then 1 else 0), mode)
  {
    hide IsRounded;
    var d := 2 * h;
    var q, r := v / d, v % d;
    HighBit(v, h);
    DivPositive(v, d);
    var qd := q * d;
    assert (q + 1) * d == qd + d;
    RoundedProduct(v, d, q, qd, mode);
    RoundedProduct(v, d, q + 1, qd + d, mode);
  }

  /** The highest dropped bit says whether the dropped part reaches one half. */
  lemma HighBit(v: nat, h: nat)
    requires h > 0
    ensures v / h % 2 == 1 <==> v % (2 * h) >= h
    ensures v % h == if v % (2 * h) >= h then v % (2 * h) - h else v % (2 * h)
  {
    var d := 2 * h;
    var q, r := v / d, v % d;
    assert v == q * d + r;
    assert q * d == (2 * q) * h;
    if r >= h {
      assert (2 * q + 1) * h == (2 * q) * h + h;
      DivUnique(v, h, 2 * q + 1, r - h);
    } else {
      DivUnique(v, h, 2 * q, r);
    }
  }

  // ----- the sticky bit -----

  /** The quotient with its lowest bit set when the division is not exact. */
  function Sticky(n: nat, d: nat): (r: nat)
    requires d > 0
  {
    if n % d != 0 && n / d % 2 == 0 then n / d + 1 else n / d
  }

  /** The sticky quotient compares with every even number as the fraction does. */
  lemma StickyCompare(n: nat, d: nat, e: int)
    requires d > 0 && e % 2 == 0
    ensures Sticky(n, d) < e <==> n < e * d
    ensures Sticky(n, d) == e <==> n == e * d
  {
    var q, r := n / d, n % d;
    assert n == q * d + r;
    if q < e {
      MulUpAny(q + 1, e, d);
      assert (q + 1) * d == q * d + d;
    } else if q > e {
      MulUpAny(e + 1, q, d);
      assert (e + 1) * d == e * d + d;
    }
  }

  /** Rounding the sticky quotient at a multiple of four rounds the fraction. */
  lemma StickyRounded(n: nat, d: nat, h: nat, f: int, mode: Mode)
    requires d > 0 && h > 0 && h % 2 == 0
    ensures IsRounded(Sticky(n, d), 2 * h, f, mode) <==> IsRounded(n, d * (2 * h), f, mode)
  {
    hide IsRounded, Sticky, RoundedAt;
    var fh, hd := f * h, h * d;
    var y := fh * d;
    StickyRoundedAt(n, d, h, f, fh, hd, y, mode);
    assert f * (2 * h) == 2 * fh;
    RoundedProduct(Sticky(n, d), 2 * h, f, 2 * fh, mode);
    DoubledProducts(d, h, f, fh, hd, y);
    RoundedProduct(n, d * (2 * h), f, 2 * y, mode);
  }

  lemma DoubledProducts(d: nat, h: nat, f: int, fh: int, hd: int, y: int)
    requires fh == f * h && hd == h * d && y == fh * d
    ensures d * (2 * h) == 2 * hd && f * (d * (2 * h)) == 2 * y
  {
    MulAssoc(f, h, d);
    assert f * (2 * hd) == 2 * (f * hd);
  }

  lemma StickyRoundedAt(n: nat, d: nat, h: nat, f: int, fh: int, hd: int, y: int, mode: Mode)
    requires d > 0 && h > 0 && h % 2 == 0 && fh == f * h && hd == h * d && y == fh * d
    ensures RoundedAt(Sticky(n, d), 2 * h, f, 2 * fh, mode) <==> RoundedAt(n, 2 * hd, f, 2 * y, mode)
  {
    hide Sticky;
    StickyMultiple(n, d, h, f, -1, fh, hd, y);
    StickyMultiple(n, d, h, f, 0, fh, hd, y);
    StickyMultiple(n, d, h, f, 1, fh, hd, y);
    StickyMultiple(n, d, h, f, 2, fh, hd, y);
  }

  lemma StickyMultiple(n: nat, d: nat, h: nat, f: int, j: int, fh: int, hd: int, y: int)
    requires d > 0 && h % 2 == 0 && fh == f * h && hd == h * d && y == fh * d && -1 <= j <= 2
    ensures Sticky(n, d) < 2 * fh + j * h <==> n < 2 * y + j * hd
    ensures Sticky(n, d) == 2 * fh + j * h <==> n == 2 * y + j * hd
  {
    hide Sticky;
    assert (2 * f + j) * h == 2 * fh + j * h;
    assert (2 * fh + j * h) * d == 2 * y + j * hd;
    StickyAt(n, d, h, 2 * f + j, 2 * fh + j * h, 2 * y + j * hd);
  }

  lemma StickyAt(n: nat, d: nat, h: nat, k: int, kh: int, khd: int)
    requires d > 0 && h % 2 == 0 && kh == k * h && khd == kh * d
    ensures Sticky(n, d) < kh <==> n < khd
    ensures Sticky(n, d) == kh <==> n == khd
  {
    EvenProduct(k, h);
    StickyCompare(n, d, kh);
  }

  lemma EvenProduct(k: int, h: int)
    requires h % 2 == 0
    ensures (k * h) % 2 == 0
  {
    var x := h / 2;
    assert k * h == 2 * (k * x);
  }
}
