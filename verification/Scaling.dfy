/** Multiplication of a big number by a power of the radix, exactly or with a sticky bit. */
module Scaling {
  import opened Basics
  import opened Powers
  import opened RealPowers
  import opened LimbDivision
  import opened Limbs
  import opened Rounding
  import opened BigNumbers
  import opened FloorLog
  import opened ConversionTables

  // ----- small powers -----

  lemma HalvedExponent(a: nat, b: nat, i: nat)
    ensures Pow(2, i) > 0 && Pow(2, i + 1) > 0
    ensures var x, y := b / Pow(2, i + 1), b / Pow(2, i);
            && y == 2 * x + y % 2
            && Pow(a, y) == Pow(a, x) * Pow(a, x) * (if y % 2 == 1 then a else 1)
  {
    hide Pow;
    PowPos(2, i);
    PowPos(2, i + 1);
    PowAdd(2, i, 1);
    PowSmall(2);
    DivDiv(b, Pow(2, i), 2);
    var x, y := b / Pow(2, i + 1), b / Pow(2, i);
    PowAdd(a, x, x);
    PowAdd(a, x + x, y % 2);
    PowSmall(a);
  }

  /** No intermediate result of the squaring loop exceeds the final one. */
  lemma NoWrap(a: nat, b: nat, i: nat)
    requires a > 0 && Pow(a, b) < TWO64
    ensures Pow(2, i) > 0 && Pow(a, b / Pow(2, i)) < TWO64
  {
    hide Pow;
    PowPos(2, i);
    QuotientBelow(b, Pow(2, i));
    PowUp(a, b / Pow(2, i), b);
  }

  lemma QuotientBelow(b: nat, d: nat)
    requires d > 0
    ensures 0 <= b / d <= b
  {
    DivPositive(b, d);
    MulUp(b / d, b / d, 1, d);
  }

  /** a^b in 64 bits. */
  method PowUi(a: nat, b: nat) returns (r: nat)
    requires 1 <= a < BASE && b < BASE && Pow(a, b) < TWO64
    ensures r == Pow(a, b)
  {
    hide Pow, TablePow5;
    PowSmall(a);
    if b == 0 {
      return 1;
    }
    if b == 1 {
      return a;
    }
    if (a == 5 || a == 10) && b <= 17 {
      Pow5Table(b);
      r := TablePow5(b);
      if a == 10 {
        PowOfProduct(5, 2, b);
        r := r * Pow(2, b) % TWO64;
      }
      return;
    }
    r := PowBySquaring(a, b);
  }

  method PowBySquaring(a: nat, b: nat) returns (r: nat)
    requires 1 <= a < BASE && 0 < b < BASE && Pow(a, b) < TWO64
    ensures r == Pow(a, b)
  {
    hide Pow, Clz32;
    PowSmall(a);
    r := a;
    var i := 31 - Clz32(b);
    LimbBits(b, Clz32(b));
    TopOne(b, i);
    while i > 0
      invariant 0 <= i && Pow(2, i) > 0 && r == Pow(a, b / Pow(2, i))
    {
      i := i - 1;
      HalvedExponent(a, b, i);
      NoWrap(a, b, i);
      r := SquareStep(r, a, b / Pow(2, i) % 2 == 1);
    }
    PowZero();
  }

  /** One step of the squaring loop, in 64 bits. */
  function SquareStep(r: nat, a: nat, odd: bool): (s: nat)
    requires a >= 1
    ensures r * r * (if odd then a else 1) < TWO64 ==> s == r * r * (if odd then a else 1)
  {
    MulUp(r * r, r * r, 1, a);
    if odd then (r * r % TWO64) * a % TWO64 else r * r % TWO64
  }

  lemma TopOne(b: nat, i: nat)
    requires Pow(2, i) <= b < Pow(2, i + 1)
    ensures Pow(2, i) > 0 && b / Pow(2, i) == 1
  {
    PowPos(2, i);
    DivUnique(b, Pow(2, i), 1, b - Pow(2, i));
  }

  /** a^b normalised, with its inverse and the normalising shift. */
  method PowUiInv(a: nat, b: nat) returns (r: limb, rInv: limb, shift: nat)
    requires 2 <= a < BASE && b < BASE && Pow(a, b) < BASE
    ensures shift < 32 && r == Pow(a, b) * Pow(2, shift) && Normalised(r) && rInv == UDiv1NormInit(r)
  {
    hide Pow, Clz32, UDiv1NormInit, TablePow5, TableInverse;
    PowPos(a, b);
    var p;
    if a == 5 && 1 <= b <= 13 {
      Pow5Table(b);
      p := TablePow5(b);
    } else {
      p := PowUi(a, b);
    }
    shift := Clz32(p);
    r := p * Pow(2, shift);
    if a == 5 && 1 <= b <= 13 {
      Pow5InverseTable(b, shift);
      rInv := TableInverse(b);
    } else {
      rInv := UDiv1NormInit(r);
    }
  }

  // ----- the two loops -----

  /** Multiplies by radix1^f. */
  method MulByPower(a: Mpb, radix1: nat, f: nat)
    requires 3 <= radix1 <= 36 && !IsPow2(radix1) && Normal(a.tab)
    modifies a
    ensures Normal(a.tab) && Value(a.tab) == old(Value(a.tab)) * Pow(radix1, f)
  {
    hide Pow, Value, PerLimbDigits;
    var d, left: nat, b: nat, n0: nat := PerLimbDigits(radix1), f, 0, 0;
    ghost var done: nat := 0;
    PowSmall(radix1);
    while left != 0
      invariant left + done == f && Normal(a.tab)
      invariant n0 != 0 ==> n0 <= d && b == Pow(radix1, n0)
      invariant Value(a.tab) == old(Value(a.tab)) * Pow(radix1, done)
      decreases left
    {
      var n := Min(left, d);
      PerLimbFits(radix1, n);
      if n != n0 {
        b := PowUi(radix1, n);
        n0 := n;
      }
      MulPowerStep(old(Value(a.tab)), radix1, done, n);
      MulOneLimb(a, b);
      left, done := left - n, done + n;
    }
  }

  method MulOneLimb(a: Mpb, b: limb)
    requires Normal(a.tab) && b > 0
    modifies a
    ensures Normal(a.tab) && Value(a.tab) == old(Value(a.tab)) * b
  {
    hide Pow, Value;
    var tab, h := MpMul1(a.tab, b, 0);
    NormalIncrement(a.tab);
    MulUp(Value(a.tab), Value(a.tab), 1, b);
    if h != 0 {
      ValueAppend(tab, [h]);
      ValueOne(h);
      a.tab := tab + [h];
    } else {
      a.tab := tab;
      TopLimb(tab);
    }
  }

  lemma MulPowerStep(v: nat, r: nat, m: nat, n: nat)
    ensures (v * Pow(r, m)) * Pow(r, n) == v * Pow(r, m + n)
  {
    hide Pow;
    PowAdd(r, m, n);
    MulAssoc(v, Pow(r, m), Pow(r, n));
  }

  /** Divides by radix1^g and says whether the division was inexact. */
  method DivByPower(a: Mpb, radix1: nat, g: nat) returns (inexact: bool)
    requires 3 <= radix1 <= 36 && !IsPow2(radix1) && Normal(a.tab)
    modifies a
    ensures Pow(radix1, g) > 0 && Normal(a.tab)
    ensures Value(a.tab) == old(Value(a.tab)) / Pow(radix1, g) && inexact == (old(Value(a.tab)) % Pow(radix1, g) != 0)
  {
    hide Pow, Value, PerLimbDigits, UDiv1NormInit;
    var d, left: nat, b: limb, bInv: limb, shift: nat, n0: nat := PerLimbDigits(radix1), g, 0, 0, 0, 0;
    ghost var done: nat := 0;
    PowSmall(radix1);
    inexact := false;
    while left != 0
      invariant left + done == g && Normal(a.tab) && Pow(radix1, done) > 0
      invariant n0 != 0 ==>
                shift < 32 && b == Pow(radix1, n0) * Pow(2, shift) && Normalised(b) && bInv == UDiv1NormInit(b)
      invariant Value(a.tab) == old(Value(a.tab)) / Pow(radix1, done)
                && inexact == (old(Value(a.tab)) % Pow(radix1, done) != 0)
      decreases left
    {
      var n := Min(left, d);
      PerLimbFits(radix1, n);
      if n != n0 {
        b, bInv, shift := PowUiInv(radix1, n);
        n0 := n;
      }
      var r;
      ghost var v := Value(a.tab);
      a.tab, r := MpDiv1Norm(a.tab, b, bInv, shift, Pow(radix1, n));
      a.Renorm();
      DivDiv(old(Value(a.tab)), Pow(radix1, done), Pow(radix1, n));
      PowAdd(radix1, done, n);
      inexact := inexact || r != 0;
      left, done := left - n, done + n;
    }
  }

  /** Sets the lowest bit when the division was inexact. */
  method SetSticky(a: Mpb, inexact: bool)
    requires Normal(a.tab)
    modifies a
    ensures Normal(a.tab)
    ensures Value(a.tab) == var v := old(Value(a.tab)); if inexact && v % 2 == 0 then v + 1 else v
  {
    LowestBit(a.tab);
    if inexact && a.tab[0] % 2 == 0 {
      ghost var tab := a.tab;
      a.tab := a.tab[0 := a.tab[0] + 1];
      assert a.tab[1..] == tab[1..];
    }
  }

  lemma LowestBit(tab: seq<limb>)
    requires |tab| >= 1
    ensures Value(tab) % 2 == tab[0] % 2
  {
    var r := Value(tab[1..]);
    assert Value(tab) == tab[0] + 2 * (BASE / 2 * r);
  }

  /** The bound on the divisor that fixes the number of limbs. */
  lemma DivisorBound(radix1: nat, g: nat, l: nat)
    requires 3 <= radix1 <= 36 && !IsPow2(radix1) && g <= l * PerLimbDigits(radix1)
    ensures 0 < Pow(radix1, g) <= Pow(2, 32 * l)
  {
    hide Pow;
    var d := PerLimbDigits(radix1);
    PowPos(radix1, g);
    PowUp(radix1, g, l * d);
    PowOfPow(radix1, d, l);
    assert l * d == d * l;
    PerLimbFits(radix1, d);
    PowBase(Pow(radix1, d), BASE, l);
    BasePow(l);
  }

  /** Enough bits remain after the division. */
  lemma QuotientBits(v: nat, fl: nat, e: nat, k: nat, l: nat, d: nat)
    requires Pow(2, fl) <= v && fl + k >= e + 32 * l && 0 < d <= Pow(2, 32 * l)
    ensures v * Pow(2, k) / d >= Pow(2, e)
  {
    hide Pow;
    PowAdd(2, fl, k);
    PowPos(2, k);
    MulUpAny(Pow(2, fl), v, Pow(2, k));
    PowUp(2, e + 32 * l, fl + k);
    PowAdd(2, e, 32 * l);
    PowPos(2, e);
    MulUp(Pow(2, e), Pow(2, e), d, Pow(2, 32 * l));
    DivCompare(v * Pow(2, k), d, Pow(2, e));
  }

  /** The exact value behind a big number: n / d = x * 2^eOffset, and the number is the sticky quotient. */
  ghost predicate Holds(v: nat, x: real, eOffset: int, n: nat, d: nat) {
    d > 0 && x * Exp(2, eOffset) * d as real == n as real && v == Sticky(n, d)
  }

  /** Scales by (radix1 * 2^radixShift)^f; the number then holds the product times 2^eOffset. */
  method MulPow(a: Mpb, radix1: nat, radixShift: nat, f: int, isInt: bool, e: int, ghost x: real)
    returns (eOffset: int, ghost n: nat, ghost d: nat)
    requires 1 <= radix1 <= 36 && (radix1 == 1 || !IsPow2(radix1)) && Normal(a.tab) && Value(a.tab) > 0
    requires radix1 * Pow(2, radixShift) > 0 && x == Value(a.tab) as real * Exp(radix1 * Pow(2, radixShift), f)
    modifies a
    ensures Normal(a.tab) && Value(a.tab) > 0 && Holds(Value(a.tab), x, eOffset, n, d)
    ensures f >= 0 || radix1 == 1 ==> d == 1 && eOffset == -f * radixShift
    ensures d > 1 ==> (if isInt then eOffset >= e + 2 else e >= 0 ==> Value(a.tab) >= Pow(2, e))
  {
    hide Pow, Value, PerLimbDigits, Exp, Holds, Sticky;
    eOffset := -f * radixShift;
    ghost var v := Value(a.tab);
    ghost var radix := radix1 * Pow(2, radixShift);
    if radix1 == 1 {
      n, d := v, 1;
      HoldsShifted(v, x, radix, radixShift, f, eOffset);
      return;
    }
    if f >= 0 {
      MulByPower(a, radix1, f);
      PowPos(radix1, f);
      MulUp(1, v, 1, Pow(radix1, f));
      n, d := Value(a.tab), 1;
      HoldsProduct(v, x, radix1, radix, radixShift, f, eOffset);
      return;
    }
    var perLimb, g := PerLimbDigits(radix1), -f;
    var l := (g + perLimb - 1) / perLimb;
    LimbCount(g, perLimb, l);
    eOffset := eOffset + l * 32;
    var extraBits, fl := Max(2 + e - eOffset, 0), 0;
    if !isInt {
      fl := a.FloorLog2();
      extraBits := Max(e - fl, 0);
    }
    eOffset := eOffset + extraBits;
    ghost var k := l * 32 + extraBits;
    a.ShrRound(-(l * 32 + extraBits), TowardsZero);
    d := Pow(radix1, g);
    n := v * Pow(2, k);
    assert Value(a.tab) == n;
    PowPos(2, k);
    MulUp(1, v, 1, Pow(2, k));
    var inexact := DivByPower(a, radix1, g);
    SetSticky(a, inexact);
    StickyIs(n, d);
    assert eOffset == g * radixShift + k by { assert -f * radixShift == g * radixShift; }
    HoldsQuotient(v, x, radix1, radix, radixShift, g, k, eOffset);
    assert !isInt && e >= 0 ==> Value(a.tab) >= Pow(2, e) by {
      if !isInt && e >= 0 {
        DivisorBound(radix1, g, l);
        QuotientBits(v, fl, e, k, l, d);
      }
    }
  }

  lemma StickyIs(n: nat, d: nat)
    requires d > 0
    ensures Sticky(n, d) == (if n % d != 0 && (n / d) % 2 == 0 then n / d + 1 else n / d) && Sticky(n, d) >= n / d
    ensures n > 0 ==> Sticky(n, d) > 0
  {
    if n / d == 0 {
      DivUnique(n, d, 0, n);
    } else {
      DivCompare(n, d, 0);
    }
  }

  lemma LimbCount(g: nat, d: nat, l: nat)
    requires d > 0 && l == (g + d - 1) / d
    ensures g <= l * d
  {
    DivPositive(g + d - 1, d);
  }

  lemma ExpOfRadix(radix1: nat, s: nat, f: int)
    requires radix1 > 0
    ensures Pow(2, s) > 0 && radix1 * Pow(2, s) > 0
    ensures Exp(radix1 * Pow(2, s), f) * Exp(2, -f * s) == Exp(radix1, f)
  {
    hide Exp, Pow;
    PowPos(2, s);
    ExpOfProduct(radix1, Pow(2, s), f);
    ExpOfPow2(s, f);
    assert s * f + -f * s == 0;
    ExpAdd(2, s * f, -f * s);
    ExpZero(2);
    RMulAssoc(Exp(radix1, f), Exp(2, s * f), Exp(2, -f * s));
  }

  lemma HoldsShifted(v: nat, x: real, radix: nat, s: nat, f: int, eOffset: int)
    requires 0 < radix == 1 * Pow(2, s) && eOffset == -f * s && x == v as real * Exp(radix, f)
    ensures Holds(v, x, eOffset, v, 1)
  {
    hide Exp, Pow, Holds;
    ExpOfRadix(1, s, f);
    ExpOfOne(f);
    ExactHolds(v, v, x, Exp(radix, f), eOffset, 1.0);
  }

  lemma HoldsProduct(v: nat, x: real, radix1: nat, radix: nat, s: nat, f: nat, eOffset: int)
    requires radix1 > 0 && 0 < radix == radix1 * Pow(2, s) && eOffset == -(f as int) * s
             && x == v as real * Exp(radix, f)
    ensures Holds(v * Pow(radix1, f), x, eOffset, v * Pow(radix1, f), 1)
  {
    hide Exp, Pow, Holds;
    ExpOfRadix(radix1, s, f);
    ExpIsPow(radix1, f);
    ExactHolds(v, v * Pow(radix1, f), x, Exp(radix, f), eOffset, Pow(radix1, f) as real);
  }

  lemma ExactHolds(v: nat, w: nat, x: real, b: real, eOffset: int, p: real)
    requires x == v as real * b && b * Exp(2, eOffset) == p && v as real * p == w as real
    ensures Holds(w, x, eOffset, w, 1)
  {
    hide Exp;
    ProductTail(x, v as real, b, Exp(2, eOffset), p);
    DivExact(w, 1);
  }

  lemma HoldsQuotient(v: nat, x: real, radix1: nat, radix: nat, s: nat, g: nat, k: nat, eOffset: int)
    requires radix1 > 0 && 0 < radix == radix1 * Pow(2, s) && eOffset == g * s + k && x == v as real * Exp(radix, 0 - g)
    ensures Pow(radix1, g) > 0
    ensures var n, d := v * Pow(2, k), Pow(radix1, g); Holds(Sticky(n, d), x, eOffset, n, d)
  {
    hide Exp, Pow, Sticky;
    ExpOfRadix(radix1, s, 0 - g);
    PowPos(radix1, g);
    ExpIsPow(radix1, g);
    ExpIsPow(2, k);
    ExpAdd(2, g * s, k);
    ExpInverse(radix1, g);
    assert -(0 - g) * s == g * s;
    var n := v * Pow(2, k);
    QuotientIdentity(x, v as real, Exp(radix, 0 - g), Exp(2, g * s), Exp(2, k), Exp(radix1, 0 - g), Exp(radix1, g),
      Exp(2, eOffset), n as real);
  }

  // ----- products of reals, a step at a time -----

  lemma ProductTail(x: real, v: real, b: real, s: real, p: real)
    requires x == v * b && b * s == p
    ensures x * s == v * p
  {
  }

  lemma QuotientIdentity(x: real, v: real, b: real, s: real, t: real, p: real, q: real, e: real, n: real)
    requires x == v * b && e == s * t && b * s == p && q * p == 1.0 && n == v * t
    ensures x * e * q == n
  {
    ProductTail(x, v, b, s, p);
    var y := x * s;
    SplitFactor(x, e, s, t, y);
    ProductTail(y, v, p, q, 1.0);
    var z := x * e;
    SwapFactor(z, y, t, q, v);
  }

  lemma SplitFactor(x: real, e: real, s: real, t: real, y: real)
    requires e == s * t && y == x * s
    ensures x * e == y * t
  {
  }

  lemma SwapFactor(z: real, y: real, t: real, q: real, v: real)
    requires z == y * t && v == y * q
    ensures z * q == v * t
  {
  }
}
