/**
 Division of two limbs by a normalised limb with a precomputed inverse. Machine
 words are integers with the wrap-around written out.
 */
module LimbDivision {
  import opened Powers

  const BASE := 0x1_0000_0000
  const BASE2 := 0x1_0000_0000_0000_0000

  type limb = x: int | 0 <= x < 0x1_0000_0000

  predicate Normalised(d: int) { BASE / 2 <= d < BASE }

  /** The inverse of a normalised divisor. */
  function UDiv1NormInit(d: limb): (v: int)
    requires Normalised(d)
    ensures 0 <= v < BASE && (BASE + v) * d <= BASE2 - 1 < (BASE + v + 1) * d
  {
    var a1, a0 := (0 - d - 1) % BASE, BASE - 1;
    var v := (a1 * BASE + a0) / d;
    assert a1 == BASE - d - 1 by { DivUnique(0 - d - 1, BASE, -1, BASE - d - 1); }
    InverseBounds(d, v, BASE2 - d * BASE - 1);
    v
  }

  lemma InverseBounds(d: int, v: int, n: int)
    requires Normalised(d) && n == BASE2 - d * BASE - 1 && v == n / d
    ensures 0 <= v < BASE && (BASE + v) * d <= BASE2 - 1 < (BASE + v + 1) * d
  {
    assert n == v * d + n % d;
    assert n < BASE * d;
    if v >= BASE {
      MulUpAny(BASE, v, d);
    }
    if v < 0 {
      MulUpAny(v, -1, d);
    }
  }

  /** The high word of `a0`, as a mask: 0 or all ones. */
  function SignMask(a0: limb): (m: limb) {
    if a0 >= BASE / 2 then BASE - 1 else 0
  }

  /** The bitwise and with a mask that is 0 or all ones. */
  function Masked(mask: limb, d: limb): (r: limb) {
    if mask == 0 then 0 else d
  }

  /** The estimate of the quotient. */
  function Estimate(a1: limb, a0: limb, d: limb, dInv: limb): (q: limb) {
    var n1m := SignMask(a0);
    var nAdj := (a0 + Masked(n1m, d)) % BASE;
    var a := (dInv * ((a1 - n1m) % BASE) + nAdj) % BASE2;
    (a / BASE + a1) % BASE
  }

  /** The quotient and the remainder of a1 * 2^32 + a0 by d. */
  function UDiv1Norm(a1: limb, a0: limb, d: limb, dInv: limb): (r: (limb, limb)) {
    var q := Estimate(a1, a0, d, dInv);
    var a := (a1 * BASE + a0 - q * d - d) % BASE2;
    var ah := a / BASE;
    ((q + 1 + ah) % BASE, (a % BASE + Masked(ah, d)) % BASE)
  }

  /** How far the scaled estimate is from the dividend, as a polynomial identity. */
  lemma EstimateIdentity(a1: int, a0: int, d: int, v: int, h: int, k: int, w: int)
    requires w == BASE - d && (BASE + v) * d == BASE2 - 1 - k && (h == 0 || h == 1)
    ensures (v * (a1 + h) + a0 + h * (d - BASE) + a1 * BASE) * d
         == (a1 * BASE + a0) * BASE + h * (w * w) - a0 * w - (1 + k) * (a1 + h)
  {
    assert v * d == BASE2 - 1 - k - BASE * d;
    assert (v * (a1 + h)) * d == (BASE2 - 1 - k - BASE * d) * (a1 + h) by {
      assert (v * (a1 + h)) * d == (v * d) * (a1 + h);
    }
    if h == 0 {
      assert (v * a1 + a0 + a1 * BASE) * d == (v * a1) * d + a0 * d + (a1 * BASE) * d;
      assert (BASE2 - 1 - k - BASE * d) * a1 == BASE2 * a1 - (1 + k) * a1 - (BASE * d) * a1;
      assert (BASE * d) * a1 == (a1 * BASE) * d;
      assert a0 * w == a0 * BASE - a0 * d;
    } else {
      assert (v * (a1 + 1) + a0 + (d - BASE) + a1 * BASE) * d
          == (v * (a1 + 1)) * d + a0 * d + (d - BASE) * d + (a1 * BASE) * d;
      assert (BASE2 - 1 - k - BASE * d) * (a1 + 1) == BASE2 * (a1 + 1) - (1 + k) * (a1 + 1) - (BASE * d) * (a1 + 1);
      assert (BASE * d) * (a1 + 1) == (a1 * BASE) * d + BASE * d;
      assert a0 * w == a0 * BASE - a0 * d;
      assert w * w == BASE2 - 2 * BASE * d + d * d;
      assert (d - BASE) * d == d * d - BASE * d;
    }
  }

  /** The estimate without wrap-around. */
  lemma EstimateExact(a1: limb, a0: limb, d: limb, v: limb, h: int)
    requires Normalised(d) && a1 < d && h == (if a0 >= BASE / 2 then 1 else 0)
    ensures Estimate(a1, a0, d, v) == ((v * (a1 + h) + a0 + h * (d - BASE)) / BASE + a1) % BASE
    ensures 0 <= v * (a1 + h) + a0 + h * (d - BASE) < BASE2
  {
    hide SignMask, Masked, Estimate;
    var n1m, nAdj := SignMask(a0), a0 + h * (d - BASE);
    AdjustedWords(a1, a0, d, h);
    ProductBound(v, a1 + h, nAdj);
    EstimateIs(a1, a0, d, v, a1 + h, nAdj, v * (a1 + h) + nAdj);
  }

  lemma EstimateIs(a1: limb, a0: limb, d: limb, v: limb, x: int, y: int, z: int)
    requires (a1 - SignMask(a0)) % BASE == x && (a0 + Masked(SignMask(a0), d)) % BASE == y
    requires z == v * x + y && 0 <= z < BASE2
    ensures Estimate(a1, a0, d, v) == (z / BASE + a1) % BASE
  {
    hide SignMask, Masked;
    DivUnique(z, BASE2, 0, z);
  }

  lemma AdjustedWords(a1: limb, a0: limb, d: limb, h: int)
    requires Normalised(d) && a1 < d && h == (if a0 >= BASE / 2 then 1 else 0)
    ensures (a1 - SignMask(a0)) % BASE == a1 + h
    ensures (a0 + Masked(SignMask(a0), d)) % BASE == a0 + h * (d - BASE)
    ensures 0 <= a0 + h * (d - BASE) < BASE
  {
    DivUnique(a1 - SignMask(a0), BASE, -h, a1 + h);
    DivUnique(a0 + Masked(SignMask(a0), d), BASE, h, a0 + h * (d - BASE));
  }

  lemma ProductBound(v: int, x: int, y: int)
    requires 0 <= v < BASE && 0 <= x < BASE && 0 <= y < BASE
    ensures 0 <= v * x + y < BASE2
  {
    MulUp(0, v, 0, x);
    MulUp(v, BASE - 1, x, BASE - 1);
  }

  /** The estimate is the quotient or one less. */
  lemma EstimateClose(a1: limb, a0: limb, d: limb, q: int, v: int)
    requires Normalised(d) && a1 < d && 0 <= v < BASE && (BASE + v) * d <= BASE2 - 1 < (BASE + v + 1) * d
    requires var h := if a0 >= BASE / 2 then 1 else 0;
             q == (v * (a1 + h) + a0 + h * (d - BASE)) / BASE + a1
    ensures q * d <= a1 * BASE + a0 < (q + 2) * d
  {
    var h := if a0 >= BASE / 2 then 1 else 0;
    var k, w := BASE2 - 1 - (BASE + v) * d, BASE - d;
    var y := v * (a1 + h) + a0 + h * (d - BASE) + a1 * BASE;
    var n := a1 * BASE + a0;
    EstimateIdentity(a1, a0, d, v, h, k, w);
    assert 0 <= k < d by { assert (BASE + v + 1) * d == (BASE + v) * d + d; }
    QuotientOf(y - a1 * BASE, a1, q);
    EstimateAbove(a1, a0, d, h, k, w);
    EstimateBelow(a1, a0, d, h, k, w);
    ScaledBounds(n, y, q, d, y * d - n * BASE);
  }

  lemma QuotientOf(x: int, a1: int, q: int)
    requires q == x / BASE + a1
    ensures q * BASE <= x + a1 * BASE < (q + 1) * BASE
  {
  }

  lemma ScaledBounds(n: int, y: int, q: int, d: int, err: int)
    requires d > 0 && q * BASE <= y < (q + 1) * BASE
    requires y * d == n * BASE + err && err <= 0 && err + d + d * BASE > 0
    ensures q * d <= n < (q + 2) * d
  {
    assert q * d <= n by {
      MulUpAny(q * BASE, y, d);
      assert (q * BASE) * d == (q * d) * BASE;
      CancelLe(q * d, n, BASE);
    }
    assert n < (q + 2) * d by {
      MulUpAny(y + 1, (q + 1) * BASE, d);
      assert (y + 1) * d == y * d + d;
      assert ((q + 1) * BASE) * d == (q * d) * BASE + d * BASE;
      assert (q + 2) * d == q * d + 2 * d;
    }
  }

  lemma EstimateAbove(a1: limb, a0: limb, d: limb, h: int, k: int, w: int)
    requires Normalised(d) && a1 < d && h == (if a0 >= BASE / 2 then 1 else 0) && w == BASE - d && 0 <= k < d
    ensures h * (w * w) - a0 * w - (1 + k) * (a1 + h) <= 0
  {
    MulUp(0, 1 + k, 0, a1 + h);
    if h == 1 {
      MulUpAny(w, a0, w);
    } else {
      MulUp(0, a0, 0, w);
    }
  }

  lemma EstimateBelow(a1: limb, a0: limb, d: limb, h: int, k: int, w: int)
    requires Normalised(d) && a1 < d && h == (if a0 >= BASE / 2 then 1 else 0) && w == BASE - d && 0 <= k < d
    ensures h * (w * w) - a0 * w - (1 + k) * (a1 + h) + d + d * BASE > 0
  {
    if h == 1 {
      MulUp(1 + k, d, a1 + 1, d);
      MulUp(0, w, 0, BASE - a0);
      assert w * (BASE - a0) == w * d + w * w - a0 * w;
      assert d * BASE == d * w + d * d;
    } else {
      MulUp(1 + k, d, a1, d - 1);
      MulUp(0, w, 0, d - a0);
      assert w * (d - a0) == w * d - a0 * w;
      assert d * (d - 1) == d * d - d;
      assert d * BASE == d * w + d * d;
    }
  }

  /** The correction of an estimate that is the quotient or one less. */
  lemma Correction(n: int, d: limb, q: int, dd: int)
    requires Normalised(d) && 0 <= q < BASE && 0 <= n && dd == n - q * d - d && dd + d >= 0 && dd < d
    ensures var a := dd % BASE2;
            var ah := a / BASE;
            && 0 <= ah < BASE
            && (dd >= 0 ==> ah == 0 && a % BASE == dd)
            && (dd < 0 ==> ah == BASE - 1 && a % BASE == BASE + dd)
  {
    if dd >= 0 {
      DivUnique(dd, BASE2, 0, dd);
    } else {
      DivUnique(dd, BASE2, -1, BASE2 + dd);
      DivUnique(BASE2 + dd, BASE, BASE - 1, BASE + dd);
    }
  }

  /** Division by the precomputed inverse is exact. */
  lemma UDiv1NormExact(a1: limb, a0: limb, d: limb)
    requires Normalised(d) && a1 < d
    ensures var n := a1 * BASE + a0;
            UDiv1Norm(a1, a0, d, UDiv1NormInit(d)) == (n / d, n % d)
  {
    hide Estimate, UDiv1NormInit, Masked, SignMask, UDiv1Norm;
    var n, v := a1 * BASE + a0, UDiv1NormInit(d);
    var h := if a0 >= BASE / 2 then 1 else 0;
    EstimateExact(a1, a0, d, v, h);
    var q := (v * (a1 + h) + a0 + h * (d - BASE)) / BASE + a1;
    EstimateClose(a1, a0, d, q, v);
    assert n < BASE * d by { MulUpAny(a1, d - 1, BASE); }
    assert q >= 0;
    CancelLt(q, BASE, d);
    CorrectedExact(a1, a0, d, v, q);
  }

  lemma CorrectedExact(a1: limb, a0: limb, d: limb, v: limb, q: int)
    requires Normalised(d) && 0 <= q < BASE && Estimate(a1, a0, d, v) == q
    requires var n := a1 * BASE + a0; q * d <= n < (q + 2) * d && n < BASE * d
    ensures var n := a1 * BASE + a0; UDiv1Norm(a1, a0, d, v) == (n / d, n % d)
  {
    hide Estimate, Masked, SignMask, UDiv1Norm;
    var n := a1 * BASE + a0;
    var dd := n - q * d - d;
    assert (q + 2) * d == q * d + 2 * d;
    Correction(n, d, q, dd);
    MaskIs(d);
    if dd >= 0 {
      assert (q + 1) * d == q * d + d;
      DivUnique(n, d, q + 1, dd);
      assert q + 1 < BASE by { CancelLt(q + 1, BASE, d); }
      UDiv1NormIs(a1, a0, d, v, q, dd, 0, dd, q + 1, dd);
    } else {
      DivUnique(n, d, q, dd + d);
      UDiv1NormIs(a1, a0, d, v, q, dd, BASE - 1, BASE + dd, q, dd + d);
    }
  }

  lemma UDiv1NormIs(a1: limb, a0: limb, d: limb, v: limb, q: int, dd: int, ah: int, al: int, q1: int, r: int)
    requires Estimate(a1, a0, d, v) == q && dd == a1 * BASE + a0 - q * d - d
    requires var a := dd % BASE2; a / BASE == ah && a % BASE == al
    requires 0 <= q1 < BASE && 0 <= r < BASE && d >= 0
    requires (ah == 0 && q1 == q + 1 && r == al) || (ah == BASE - 1 && q1 == q && r == al + d - BASE)
    ensures UDiv1Norm(a1, a0, d, v) == (q1, r)
  {
    hide Estimate, Masked, SignMask;
    MaskIs(d);
    if ah != 0 {
      DivUnique(q + 1 + ah, BASE, 1, q1);
      DivUnique(al + d, BASE, 1, r);
    }
  }

  lemma MaskIs(d: limb)
    ensures Masked(0, d) == 0 && Masked(BASE - 1, d) == d
  {
  }
}
