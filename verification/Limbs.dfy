/** Little-endian limb lists and the loops that work on them in place. */
module Limbs {
  import opened Powers
  import opened LimbDivision

  /** The number a limb list stands for. */
  function Value(s: seq<limb>): (v: nat) {
    if s == [] then 0 else s[0] + BASE * Value(s[1..])
  }

  lemma {:induction false} ValueAppend(a: seq<limb>, b: seq<limb>)
    ensures Value(a + b) == Value(a) + Pow(BASE, |a|) * Value(b)
    decreases |a|
  {
    if a == [] {
      assert a + b == b;
    } else {
      assert (a + b)[1..] == a[1..] + b;
      ValueAppend(a[1..], b);
      MulAssoc(BASE, Pow(BASE, |a| - 1), Value(b));
    }
  }

  lemma ValueOne(x: limb)
    ensures Value([x]) == x
  {
  }

  lemma ValueSnoc(s: seq<limb>, i: nat)
    requires i < |s|
    ensures Value(s[..i + 1]) == Value(s[..i]) + Pow(BASE, i) * s[i]
  {
    assert s[..i + 1] == s[..i] + [s[i]];
    ValueAppend(s[..i], [s[i]]);
    ValueOne(s[i]);
  }

  lemma ValueCons(s: seq<limb>, i: nat)
    requires i < |s|
    ensures Value(s[i..]) == s[i] + BASE * Value(s[i + 1..])
  {
    assert s[i..][1..] == s[i + 1..];
  }

  lemma {:induction false} ValueBound(s: seq<limb>)
    ensures Value(s) < Pow(BASE, |s|)
  {
    if s != [] {
      ValueBound(s[1..]);
      MulUpAny(Value(s[1..]) + 1, Pow(BASE, |s| - 1), BASE);
    }
  }

  lemma {:induction false} ValueZeros(s: seq<limb>)
    requires forall i :: 0 <= i < |s| ==> s[i] == 0
    ensures Value(s) == 0
  {
    if s != [] {
      ValueZeros(s[1..]);
    }
  }

  lemma {:induction false} ZeroValue(s: seq<limb>)
    requires Value(s) == 0
    ensures forall i :: 0 <= i < |s| ==> s[i] == 0
  {
    if s != [] {
      ZeroValue(s[1..]);
      forall i | 0 <= i < |s| ensures s[i] == 0 {
        if i > 0 { assert s[i] == s[1..][i - 1]; }
      }
    }
  }

  /** Splitting a number at a limb boundary is division by a power of the base. */
  lemma ValueSplit(s: seq<limb>, l: nat)
    requires l <= |s|
    ensures Pow(BASE, l) > 0
    ensures Value(s) / Pow(BASE, l) == Value(s[l..]) && Value(s) % Pow(BASE, l) == Value(s[..l])
  {
    assert s == s[..l] + s[l..];
    ValueAppend(s[..l], s[l..]);
    ValueBound(s[..l]);
    DivUnique(Value(s), Pow(BASE, l), Value(s[l..]), Value(s[..l]));
  }

  /** Powers of two that fit in a limb. */
  lemma TwoParts(shift: nat)
    requires shift <= 32
    ensures Pow(2, shift) * Pow(2, 32 - shift) == BASE && Pow(2, shift) >= 1 && Pow(2, 32 - shift) >= 1
  {
    PowAdd(2, shift, 32 - shift);
    PowPos(2, shift);
    PowPos(2, 32 - shift);
    TwoPow32();
  }

  lemma TwoPow32()
    ensures Pow(2, 32) == BASE
  {
    FastPowIs(2, 32);
    assert FastPow(2, 32) == 0x1_0000_0000;
  }

  lemma BasePow(n: nat)
    ensures Pow(BASE, n) == Pow(2, 32 * n)
  {
    TwoPow32();
    PowOfPow(2, 32, n);
  }

  // ----- steps of the loops -----

  lemma MulStep(va: nat, vr: nat, p: nat, l: nat, a: limb, b: limb, l0: nat, t: nat)
    requires vr + p * l == va * b + l0 && t == a * b + l
    ensures (vr + p * (t % BASE)) + (BASE * p) * (t / BASE) == (va + p * a) * b + l0
  {
    assert p * t == p * (a * b) + p * l;
    assert p * t == p * (t % BASE) + p * (BASE * (t / BASE));
    assert p * (BASE * (t / BASE)) == (BASE * p) * (t / BASE);
    assert (va + p * a) * b == va * b + p * (a * b);
  }

  /** A limb shifted left with the bits `l` from below: the low word and the bits above. */
  function ShlWord(a: limb, l: limb, two: nat, rest: nat): (w: (limb, limb))
    requires two * rest == BASE && rest > 0 && l < two
    ensures w.0 + BASE * w.1 == a * two + l && w.1 < two
  {
    var h, g := a / rest, a % rest;
    assert a == h * rest + g;
    MulUpAny(g + 1, rest, two);
    MulUp(0, g, 0, two);
    DivCompare(a, rest, two);
    assert a * two == h * BASE + g * two by { assert (h * rest) * two == h * (two * rest); }
    TwoFits(two, rest);
    (g * two + l, h)
  }

  lemma TwoFits(two: nat, rest: nat)
    requires two * rest == BASE && rest > 0
    ensures 1 <= two <= BASE
  {
    if two > BASE { MulUp(BASE + 1, two, 1, rest); }
  }

  lemma ShlStep(va: nat, vr: nat, p: nat, l: nat, a: nat, two: nat, low: nat, w0: nat, w1: nat)
    requires vr + p * l == va * two + low && w0 + BASE * w1 == a * two + l
    ensures (vr + p * w0) + (BASE * p) * w1 == (va + p * a) * two + low
  {
    assert p * (w0 + BASE * w1) == p * w0 + (BASE * p) * w1;
    assert p * (a * two + l) == p * (a * two) + p * l;
    assert (va + p * a) * two == va * two + p * (a * two);
  }

  /** A limb shifted right with the bits `l` from above: the word and the bits below. */
  function ShrWord(a: limb, l: limb, two: nat, rest: nat): (w: limb)
    requires two * rest == BASE && rest > 0 && two > 0
    ensures a + BASE * (l % two) == w * two + a % two
  {
    ShiftedWord(l, two, rest);
    ShrWordFits(a, l % two, two, rest, a / two, a % two);
    a / two + l * rest % BASE
  }

  lemma ShrWordFits(a: limb, g: nat, two: nat, rest: nat, h: nat, m: nat)
    requires two * rest == BASE && rest > 0 && two > 0 && g < two && h == a / two && m == a % two
    ensures h + g * rest < BASE && a + BASE * g == (h + g * rest) * two + m
  {
    assert a == h * two + m;
    assert (g * rest) * two == BASE * g by { MulAssoc(g, rest, two); }
    assert (h + g * rest) * two == h * two + (g * rest) * two;
    MulUpAny(g + 1, two, rest);
    DivCompare(a, two, rest);
  }

  lemma ShrStep(vo: nat, vr: nat, l: nat, a: nat, two: nat, w: nat, bits: nat)
    requires vo == vr * two + l && a + BASE * l == w * two + bits
    ensures a + BASE * vo == (w + BASE * vr) * two + bits
  {
    assert BASE * vo == (BASE * vr) * two + BASE * l;
    assert (w + BASE * vr) * two == w * two + (BASE * vr) * two;
  }

  lemma DivStep(vo: nat, vr: nat, r: nat, a: limb, b: nat)
    requires b > 0 && vo == vr * b + r && r < b
    ensures var n := r * BASE + a; a + BASE * vo == (n / b + BASE * vr) * b + n % b
    ensures 0 <= (r * BASE + a) / b < BASE && 0 <= (r * BASE + a) % b < b
  {
    var n := r * BASE + a;
    assert n == n / b * b + n % b;
    assert BASE * vo == (BASE * vr) * b + BASE * r;
    MulUpAny(r + 1, b, BASE);
    DivCompare(n, b, BASE);
    DivCompare(n, b, 0);
  }

  lemma ValueEmpty()
    ensures Value([]) == 0 && Pow(BASE, 0) == 1
  {
  }

  lemma PowStep(i: nat)
    requires i > 0
    ensures Pow(BASE, i) == BASE * Pow(BASE, i - 1)
  {
  }

  lemma SmallMod(x: nat, d: nat)
    requires x < d
    ensures x % d == x
  {
  }

  // ----- the loops -----

  /** Adds a limb; the carry out. */
  method MpAddUi(tab: seq<limb>, b: limb) returns (r: seq<limb>, k: limb)
    ensures |r| == |tab| && Value(r) + Pow(BASE, |tab|) * k == Value(tab) + b
  {
    hide Value, Pow;
    r, k := tab, b;
    var i := 0;
    assert tab[..0] == [];
    ValueEmpty();
    ghost var p := 1;
    while i < |tab|
      invariant 0 <= i <= |tab| && |r| == |tab| && r[i..] == tab[i..]
      invariant p == Pow(BASE, i) && Value(r[..i]) + p * k == Value(tab[..i]) + b
    {
      if k == 0 {
        assert r == r[..i] + r[i..] && tab == tab[..i] + tab[i..];
        ValueAppend(r[..i], r[i..]);
        ValueAppend(tab[..i], tab[i..]);
        break;
      }
      var t := r[i] + k;
      var a := t % BASE;
      ValueSnoc(tab, i);
      AddStep(p, tab[i], k);
      k := if a < k then 1 else 0;
      r := r[i := a];
      assert r[..i + 1][..i] == r[..i];
      ValueSnoc(r, i);
      i := i + 1;
      PowStep(i);
      p := BASE * p;
    }
    if i == |tab| {
      assert r[..i] == r && tab[..i] == tab;
    }
  }

  lemma AddStep(p: nat, x: limb, k: limb)
    ensures var a := (x + k) % BASE;
            p * a + (BASE * p) * (if a < k then 1 else 0) == p * x + p * k
  {
    var a := (x + k) % BASE;
    if x + k < BASE {
      assert a == x + k;
      assert p * a == p * x + p * k;
    } else {
      assert a == x + k - BASE;
      assert p * (x + k - BASE) == p * x + p * k - p * BASE;
    }
  }

  /** Multiplies by a limb and adds one; the carry out. */
  method MpMul1(tab: seq<limb>, b: limb, l0: limb) returns (r: seq<limb>, l: limb)
    ensures |r| == |tab| && Value(r) + Pow(BASE, |tab|) * l == Value(tab) * b + l0
  {
    r, l := tab, l0;
    var i := 0;
    assert tab[..0] == [];
    while i < |tab|
      invariant 0 <= i <= |tab| && |r| == |tab| && r[i..] == tab[i..]
      invariant Value(r[..i]) + Pow(BASE, i) * l == Value(tab[..i]) * b + l0
    {
      var t := tab[i] * b + l;
      ProductBound(tab[i], b, l);
      ValueSnoc(tab, i);
      MulStep(Value(tab[..i]), Value(r[..i]), Pow(BASE, i), l, tab[i], b, l0, t);
      l := t / BASE;
      r := r[i := t % BASE];
      assert r[..i + 1][..i] == r[..i];
      ValueSnoc(r, i);
      i := i + 1;
    }
    assert r[..i] == r && tab[..i] == tab;
  }

  /** Shifts left and adds `low`; the bits shifted out. */
  method MpShl(tab: seq<limb>, shift: nat, low: limb) returns (r: seq<limb>, l: limb)
    requires 1 <= shift < 32 && low < Pow(2, shift)
    ensures |r| == |tab| && Value(r) + Pow(BASE, |tab|) * l == Value(tab) * Pow(2, shift) + low
    ensures l < Pow(2, shift)
  {
    hide Value, Pow, ShlWord;
    r, l := tab, low;
    var two, rest := Pow(2, shift), Pow(2, 32 - shift);
    TwoParts(shift);
    ValueEmpty();
    ghost var p := 1;
    var i := 0;
    assert tab[..0] == [];
    while i < |tab|
      invariant 0 <= i <= |tab| && |r| == |tab| && r[i..] == tab[i..] && l < two
      invariant p == Pow(BASE, i) && Value(r[..i]) + p * l == Value(tab[..i]) * two + low
    {
      var a := tab[i];
      ValueSnoc(tab, i);
      var w := ShlWord(a, l, two, rest);
      ShlStep(Value(tab[..i]), Value(r[..i]), p, l, a, two, low, w.0, w.1);
      r, l := r[i := w.0], w.1;
      assert r[..i + 1][..i] == r[..i];
      ValueSnoc(r, i);
      i := i + 1;
      PowStep(i);
      p := BASE * p;
    }
    assert r[..i] == r && tab[..i] == tab;
  }

  /** Shifts right; the bits shifted out. */
  method MpShr(tab: seq<limb>, shift: nat, high: limb) returns (r: seq<limb>, rem: limb)
    requires 1 <= shift < 32 && high < Pow(2, shift)
    ensures |r| == |tab| && Value(tab) + Pow(BASE, |tab|) * high == Value(r) * Pow(2, shift) + rem
    ensures rem < Pow(2, shift)
  {
    hide Value, Pow, ShrWord;
    var two, rest := Pow(2, shift), Pow(2, 32 - shift);
    TwoParts(shift);
    ValueEmpty();
    r := tab;
    var l, i := high, |tab|;
    ghost var p, top: nat := 1, high;
    SmallMod(high, two);
    assert tab[i..] == [];
    while i > 0
      invariant 0 <= i <= |tab| && |r| == |tab| && r[..i] == tab[..i]
      invariant p == Pow(BASE, |tab| - i) && top == p * high
      invariant Value(tab[i..]) + top == Value(r[i..]) * two + l % two
    {
      i := i - 1;
      var a := tab[i];
      ValueCons(tab, i);
      var w := ShrWord(a, l, two, rest);
      ShrStep(Value(tab[i + 1..]) + top, Value(r[i + 1..]), l % two, a, two, w, a % two);
      ghost var r0 := r;
      r := r[i := w];
      assert r[i + 1..] == r0[i + 1..];
      ValueCons(r, i);
      l := a;
      PowStep(|tab| - i);
      MulAssoc(BASE, p, high);
      p, top := BASE * p, BASE * top;
    }
    assert r[i..] == r && tab[i..] == tab;
    rem := l % two;
  }

  /** A left shift that drops the bits above the word keeps the low bits only. */
  lemma ShiftedWord(l: nat, two: nat, rest: nat)
    requires two * rest == BASE && two > 0 && rest > 0
    ensures l * rest % BASE == l % two * rest
  {
    var h, g := l / two, l % two;
    assert l == h * two + g;
    assert l * rest == h * BASE + g * rest by { MulAssoc(h, two, rest); }
    MulUpAny(g + 1, two, rest);
    MulUp(0, g, 0, rest);
    DivUnique(l * rest, BASE, h, g * rest);
  }

  /** Divides by a limb, with `r0` above the number; the remainder. */
  method MpDiv1(tab: seq<limb>, b: limb, r0: limb) returns (q: seq<limb>, r: limb)
    requires r0 < b
    ensures |q| == |tab| && Value(tab) + Pow(BASE, |tab|) * r0 == Value(q) * b + r && r < b
  {
    hide Value, Pow;
    q, r := tab, r0;
    var i := |tab|;
    ghost var p, top: nat := 1, r0;
    ValueEmpty();
    assert tab[i..] == [];
    while i > 0
      invariant 0 <= i <= |tab| && |q| == |tab| && q[..i] == tab[..i] && r < b
      invariant p == Pow(BASE, |tab| - i) && top == p * r0
      invariant Value(tab[i..]) + top == Value(q[i..]) * b + r
    {
      i := i - 1;
      ValueCons(tab, i);
      DivStep(Value(tab[i + 1..]) + top, Value(q[i + 1..]), r, tab[i], b);
      PowStep(|tab| - i);
      MulAssoc(BASE, p, r0);
      p, top := BASE * p, BASE * top;
      ghost var q0 := q;
      var a1 := r * BASE + tab[i];
      q := q[i := a1 / b];
      r := a1 % b;
      assert q[i + 1..] == q0[i + 1..];
      ValueCons(q, i);
    }
    assert q[i..] == q && tab[i..] == tab;
  }

  /** The division loop with a normalised divisor and its inverse. */
  method DivideNormalised(tab: seq<limb>, b: limb, bInv: limb, r0: limb) returns (q: seq<limb>, r: limb)
    requires Normalised(b) && bInv == UDiv1NormInit(b) && r0 < b
    ensures |q| == |tab| && Value(tab) + Pow(BASE, |tab|) * r0 == Value(q) * b + r && r < b
  {
    hide UDiv1NormInit, UDiv1Norm, Value, Pow;
    q, r := tab, r0;
    var i := |tab|;
    ghost var p, top: nat := 1, r0;
    ValueEmpty();
    assert tab[i..] == [];
    while i > 0
      invariant 0 <= i <= |tab| && |q| == |tab| && q[..i] == tab[..i] && r < b
      invariant p == Pow(BASE, |tab| - i) && top == p * r0
      invariant Value(tab[i..]) + top == Value(q[i..]) * b + r
    {
      i := i - 1;
      ValueCons(tab, i);
      DivStep(Value(tab[i + 1..]) + top, Value(q[i + 1..]), r, tab[i], b);
      PowStep(|tab| - i);
      MulAssoc(BASE, p, r0);
      p, top := BASE * p, BASE * top;
      ghost var q0 := q;
      UDiv1NormExact(r, tab[i], b);
      var qr := UDiv1Norm(r, tab[i], b, bInv);
      q := q[i := qr.0];
      r := qr.1;
      assert q[i + 1..] == q0[i + 1..];
      ValueCons(q, i);
    }
    assert q[i..] == q && tab[i..] == tab;
  }

  /** Divides by `d`, given as d * 2^shift normalised with its inverse; the remainder. */
  method MpDiv1Norm(tab: seq<limb>, b: limb, bInv: limb, shift: nat, ghost d: nat) returns (q: seq<limb>, r: limb)
    requires Normalised(b) && bInv == UDiv1NormInit(b) && shift < 32 && b == d * Pow(2, shift)
    ensures |q| == |tab| && Value(q) == Value(tab) / d && r == Value(tab) % d
  {
    hide UDiv1NormInit;
    var two := Pow(2, shift);
    PowPos(2, shift);
    var top: limb := 0;
    q := tab;
    if shift != 0 {
      q, top := MpShl(tab, shift, 0);
      ShiftedTop(shift, top, b);
    }
    ghost var n := Value(q) + Pow(BASE, |tab|) * top;
    assert n == Value(tab) * two;
    q, r := DivideNormalised(q, b, bInv, top);
    UnshiftedDivision(Value(tab), two, d, b, Value(q), r);
    r := r / two;
  }

  lemma ShiftedTop(shift: nat, top: nat, b: nat)
    requires 1 <= shift < 32 && top < Pow(2, shift) && Normalised(b)
    ensures top < b
  {
    PowUp(2, shift, 31);
    PowAdd(2, 1, 31);
    TwoPow32();
    assert Pow(2, 1) == 2;
  }

  lemma UnshiftedDivision(v: nat, two: nat, d: nat, b: nat, q: nat, r: nat)
    requires two > 0 && b == d * two && v * two == q * b + r && r < b
    ensures d > 0 && v / d == q && v % d == r / two && r / two < BASE * d
  {
    if d == 0 {
      assert false;
    }
    assert q * b == (q * d) * two by { MulAssoc(q, d, two); }
    assert r == (v - q * d) * two;
    var x := v - q * d;
    assert x >= 0 by { if x < 0 { MulUpAny(x, -1, two); } }
    DivExact(x, two);
    CancelLt(x, d, two);
    DivUnique(v, d, q, x);
  }
}
