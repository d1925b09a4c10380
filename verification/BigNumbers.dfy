/** The multi-precision numbers of the conversions: a limb list that the operations change in place. */
module BigNumbers {
  import opened Basics
  import opened Powers
  import opened LimbDivision
  import opened Limbs
  import opened Rounding

  /** Leading zero bits of a non-zero limb. */
  function Clz32(v: limb): (c: nat)
    requires v > 0
    ensures c < 32 && Normalised(v * Pow(2, c))
    decreases BASE - v
  {
    if v >= BASE / 2 then
      assert Pow(2, 0) == 1;
      0
    else
      var c := Clz32(2 * v);
      assert v * Pow(2, c + 1) == (2 * v) * Pow(2, c);
      assert c + 1 < 32 by { ClzBound(v, c + 1); }
      c + 1
  }

  lemma ClzBound(v: limb, c: nat)
    requires v > 0 && Normalised(v * Pow(2, c))
    ensures c < 32
  {
    if c >= 32 {
      PowUp(2, 32, c);
      TwoPow32();
      MulUp(1, v, BASE, Pow(2, c));
    }
  }

  ghost predicate Normal(tab: seq<limb>) {
    |tab| >= 1 && (|tab| > 1 ==> tab[|tab| - 1] != 0)
  }

  /** A normal list with a non-zero top limb is at least the matching power of the base. */
  lemma NormalBound(tab: seq<limb>)
    requires Normal(tab) && (Value(tab) > 0 || |tab| > 1)
    ensures Pow(BASE, |tab| - 1) <= Value(tab) < Pow(BASE, |tab|) && tab[|tab| - 1] > 0
  {
    var n := |tab| - 1;
    assert tab == tab[..n] + [tab[n]];
    ValueAppend(tab[..n], [tab[n]]);
    ValueOne(tab[n]);
    ValueBound(tab);
    if n == 0 {
      assert tab[..0] == [];
    }
    MulUp(Pow(BASE, n), Pow(BASE, n), 1, tab[n]);
  }

  /** The bit of a number at a limb index and an offset inside the limb. */
  lemma BitOfLimb(tab: seq<limb>, l: nat, k: nat)
    requires k < 32
    ensures Pow(2, 32 * l + k) > 0 && Pow(2, k) > 0
    ensures Value(tab) / Pow(2, 32 * l + k) % 2 == if l < |tab| then tab[l] / Pow(2, k) % 2 else 0
    ensures Value(tab) / Pow(2, 32 * l + k) == if l < |tab| then Value(tab[l..]) / Pow(2, k) else 0
    ensures Value(tab) % Pow(2, 32 * l + k) == 0 <==>
            Value(tab[..Min(l, |tab|)]) == 0 && (l < |tab| ==> tab[l] % Pow(2, k) == 0)
  {
    hide Value, Pow;
    PowPos(2, k);
    PowPos(2, 32 * l);
    PowPos(2, 32 * l + k);
    PowAdd(2, 32 * l, k);
    BasePow(l);
    if l < |tab| {
      ValueSplit(tab, l);
      DivDiv(Value(tab), Pow(2, 32 * l), Pow(2, k));
      ValueCons(tab, l);
      LowLimbBits(tab[l], Value(tab[l + 1..]), k);
    } else {
      assert tab[..|tab|] == tab;
      ValueBound(tab);
      PowUp(BASE, |tab|, l);
      PowUp(2, 32 * l, 32 * l + k);
      DivUnique(Value(tab), Pow(2, 32 * l + k), 0, Value(tab));
    }
  }

  /** Bits below 32 of a number are those of its lowest limb. */
  lemma LowLimbBits(x: limb, rest: nat, k: nat)
    requires k < 32
    ensures Pow(2, k) > 0
    ensures (x + BASE * rest) / Pow(2, k) % 2 == x / Pow(2, k) % 2
    ensures (x + BASE * rest) % Pow(2, k) == x % Pow(2, k)
  {
    hide Pow;
    var p, q := Pow(2, k), Pow(2, 32 - k);
    TwoParts(k);
    var h := Pow(2, 31 - k);
    PowTwice(31 - k);
    DivPositive(x, p);
    assert BASE * rest == (q * rest) * p by { MulAssoc(p, q, rest); }
    DivUnique(x + BASE * rest, p, x / p + q * rest, x % p);
    MulAssoc(2, h, rest);
    EvenSum(x / p, h * rest);
  }

  lemma EvenSum(a: int, b: int)
    ensures (a + 2 * b) % 2 == a % 2
  {
  }

  /** Compares two normal numbers: -1, 0 or 1. */
  method MpbCmp(a: seq<limb>, b: seq<limb>) returns (c: int)
    requires Normal(a) && Normal(b)
    ensures c == if Value(a) < Value(b) then -1 else if Value(a) > Value(b) then 1 else 0
  {
    if |a| < |b| {
      LongerIsGreater(a, b);
      return -1;
    } else if |a| > |b| {
      LongerIsGreater(b, a);
      return 1;
    }
    var i := |a|;
    assert a[i..] == [] && b[i..] == [];
    while i > 0
      invariant 0 <= i <= |a| && a[i..] == b[i..]
    {
      i := i - 1;
      if a[i] != b[i] {
        if a[i] < b[i] {
          FirstDifference(a, b, i);
          return -1;
        } else {
          FirstDifference(b, a, i);
          return 1;
        }
      }
      assert a[i..] == [a[i]] + a[i + 1..] && b[i..] == [b[i]] + b[i + 1..];
    }
    assert a == a[0..] && b == b[0..];
    return 0;
  }

  lemma LongerIsGreater(a: seq<limb>, b: seq<limb>)
    requires Normal(a) && Normal(b) && |a| < |b|
    ensures Value(a) < Value(b)
  {
    ValueBound(a);
    NormalBound(b);
    PowUp(BASE, |a|, |b| - 1);
  }

  lemma FirstDifference(a: seq<limb>, b: seq<limb>, i: nat)
    requires |a| == |b| && i < |a| && a[i + 1..] == b[i + 1..] && a[i] < b[i]
    ensures Value(a) < Value(b)
  {
    hide Value, Pow;
    var p := Pow(BASE, i);
    assert a == a[..i] + a[i..] && b == b[..i] + b[i..];
    ValueAppend(a[..i], a[i..]);
    ValueAppend(b[..i], b[i..]);
    ValueCons(a, i);
    ValueCons(b, i);
    ValueBound(a[..i]);
    HighPart(Value(a[..i]), Value(a[i..]), Value(b[..i]), Value(b[i..]), p);
  }

  lemma HighPart(x: nat, h: nat, y: nat, k: nat, p: nat)
    requires x < p && h < k
    ensures x + p * h < y + p * k
  {
    MulUpAny(h + 1, k, p);
  }

  const TWO64 := 0x1_0000_0000_0000_0000

  class Mpb {
    var tab: seq<limb>

    constructor (m: nat)
      requires m < TWO64
      ensures Normal(tab) && Value(tab) == m
    {
      tab := if m / BASE == 0 then [m % BASE] else [m % BASE, m / BASE];
      new;
      assert m / BASE != 0 ==> tab[1..] == [m / BASE];
      ValueOne(m / BASE);
      assert m / BASE == 0 ==> m % BASE == m;
    }

    method SetU64(m: nat)
      requires m < TWO64
      modifies this
      ensures Normal(tab) && Value(tab) == m
    {
      tab := [m % BASE, m / BASE];
      assert tab[1..] == [m / BASE];
      ValueOne(m / BASE);
      if tab[1] == 0 {
        tab := [tab[0]];
        ValueOne(tab[0]);
      }
    }

    /** The two low limbs. */
    method GetU64() returns (m: nat)
      requires Normal(tab)
      ensures m < TWO64 && m == Value(tab) % TWO64
    {
      if |tab| == 1 {
        ValueOne(tab[0]);
        assert tab == [tab[0]];
        return tab[0];
      }
      m := tab[0] + BASE * tab[1];
      assert tab[..2] == [tab[0], tab[1]];
      assert [tab[0], tab[1]][1..] == [tab[1]];
      ValueOne(tab[1]);
      ValueSplit(tab, 2);
      PowBase2();
    }

    method Renorm()
      requires |tab| >= 1
      modifies this
      ensures Normal(tab) && Value(tab) == old(Value(tab))
    {
      while |tab| > 1 && tab[|tab| - 1] == 0
        invariant |tab| >= 1 && Value(tab) == old(Value(tab))
        decreases |tab|
      {
        var n := |tab| - 1;
        assert tab == tab[..n] + [tab[n]];
        ValueAppend(tab[..n], [tab[n]]);
        ValueOne(tab[n]);
        tab := tab[..n];
      }
    }

    /** The bit of weight 2^k. */
    method GetBit(k: nat) returns (b: bool)
      ensures Pow(2, k) > 0 && b == (Value(tab) / Pow(2, k) % 2 == 1)
    {
      var l, j := k / 32, k % 32;
      BitOfLimb(tab, l, j);
      if l >= |tab| {
        return false;
      }
      return tab[l] / Pow(2, j) % 2 == 1;
    }

    /** Position of the highest bit, or -1. */
    method FloorLog2() returns (r: int)
      requires Normal(tab)
      ensures Value(tab) == 0 ==> r == -1
      ensures Value(tab) > 0 ==> r >= 0 && Pow(2, r) <= Value(tab) < Pow(2, r + 1)
    {
      var n := |tab| - 1;
      var v := tab[n];
      if v == 0 {
        assert tab == [0];
        ValueOne(0);
        return -1;
      }
      r := |tab| * 32 - 1 - Clz32(v);
      TopBit(tab, Clz32(v));
    }

    /** Whether some bit below the one of weight 2^k is set. */
    method AnyBitBelow(k: nat) returns (b: bool)
      ensures Pow(2, k) > 0 && b == (Value(tab) % Pow(2, k) != 0)
    {
      var l, j := k / 32, k % 32;
      BitOfLimb(tab, l, j);
      b := false;
      var i := 0;
      while i < Min(l, |tab|)
        invariant 0 <= i <= Min(l, |tab|)
        invariant b == exists x :: 0 <= x < i && tab[x] != 0
      {
        b := b || tab[i] != 0;
        i := i + 1;
      }
      LowLimbsZero(tab, i);
      if l < |tab| {
        b := b || tab[l] % Pow(2, j) != 0;
      }
    }

    /** Multiplies by a power of two. */
    method ShiftLeft(n: nat)
      requires Normal(tab)
      modifies this
      ensures |tab| >= 1 && Value(tab) == old(Value(tab)) * Pow(2, n)
      ensures old(Value(tab)) > 0 ==> Normal(tab)
    {
      var l, shift := n / 32, n % 32;
      if shift != 0 {
        var h;
        PowPos(2, shift);
        ghost var v := Value(tab);
        tab, h := MpShl(tab, shift, 0);
        ValueAppend(tab, [h]);
        ValueOne(h);
        tab := tab + [h];
        Renorm();
      } else {
        PowZero();
      }
      ShiftedLimbs(tab, l, shift, n, old(Value(tab)));
      tab := Zeros(l) + tab;
    }

    /** Drops the low bits. */
    method ShiftRight(n: nat)
      requires Normal(tab) && n / 32 < |tab|
      modifies this
      ensures Pow(2, n) > 0 && Normal(tab) && Value(tab) == old(Value(tab)) / Pow(2, n)
    {
      hide Value, Pow;
      var l, shift := n / 32, n % 32;
      BitOfLimb(tab, l, shift);
      tab := tab[l..];
      if shift != 0 {
        PowPos(2, shift);
        var rem;
        ghost var v := Value(tab);
        tab, rem := MpShr(tab, shift, 0);
        DivUnique(v, Pow(2, shift), Value(tab), rem);
        Renorm();
      } else {
        PowZero();
      }
    }

    /** The decision to round up when `shift` bits are dropped. */
    method RoundsUp(shift: nat, mode: Mode) returns (up: bool)
      requires shift > 0
      ensures var h := Pow(2, shift - 1); h > 0 && Pow(2, shift) == 2 * h
      ensures var h := Pow(2, shift - 1); var v := Value(tab);
              up == AddOne(mode, v / h % 2 == 1, v % h != 0, v / (2 * h) % 2 == 1)
    {
      PowPos(2, shift - 1);
      if mode == TowardsZero {
        return false;
      }
      var bit1 := GetBit(shift - 1);
      if !bit1 {
        return false;
      }
      var bit2 := true;
      if mode != NearestAway {
        bit2 := AnyBitBelow(shift - 1);
      }
      if bit2 {
        return true;
      }
      up := GetBit(shift);
    }

    method Increment()
      requires Normal(tab)
      modifies this
      ensures Normal(tab) && Value(tab) == old(Value(tab)) + 1
    {
      var a;
      ghost var n := |tab|;
      NormalIncrement(tab);
      tab, a := MpAddUi(tab, 1);
      if a != 0 {
        ValueAppend(tab, [a]);
        ValueOne(a);
        tab := tab + [a];
      } else {
        TopLimb(tab);
      }
    }

    /** Rounds the number divided by 2^shift; a negative shift multiplies. */
    method ShrRound(shift: int, mode: Mode)
      requires Normal(tab)
      modifies this
      ensures shift >= 0 ==> Normal(tab) && IsRounded(old(Value(tab)), Pow(2, shift), Value(tab), mode)
      ensures shift < 0 ==> |tab| >= 1 && Value(tab) == old(Value(tab)) * Pow(2, -shift)
      ensures shift < 0 && old(Value(tab)) > 0 ==> Normal(tab)
    {
      hide IsRounded, Value, AddOne;
      if shift == 0 {
        PowZero();
        ShiftByZero(Value(tab), mode);
        return;
      }
      if shift < 0 {
        ShiftLeft(-shift);
        return;
      }
      var up := RoundsUp(shift, mode);
      BitsRounded(Value(tab), Pow(2, shift - 1), mode);
      BitOfLimb(tab, shift / 32, shift % 32);
      if shift / 32 >= |tab| {
        tab := [if up then 1 else 0];
        ValueOne(tab[0]);
      } else {
        ShiftRight(shift);
        if up {
          Increment();
        }
      }
    }

    /** Appends digits: multiplies by the base (2^32 when it is 0) and adds. */
    method Mul1Base(radixBase: limb, a: limb)
      requires Normal(tab)
      modifies this
      ensures Normal(tab) && Value(tab) == old(Value(tab)) * (if radixBase == 0 then BASE else radixBase) + a
    {
      if tab[0] == 0 && |tab| == 1 {
        assert tab == [0];
        ValueOne(0);
        tab := [a];
        ValueOne(a);
        return;
      }
      if radixBase == 0 {
        assert ([a] + tab)[1..] == tab;
        tab := [a] + tab;
      } else {
        var h;
        tab, h := MpMul1(tab, radixBase, a);
        ValueAppend(tab, [h]);
        ValueOne(h);
        tab := tab + [h];
      }
      Renorm();
    }
  }

  lemma PowZero()
    ensures Pow(2, 0) == 1
  {
  }

  lemma PowBase2()
    ensures Pow(BASE, 2) == TWO64
  {
    assert Pow(BASE, 0) == 1;
    assert Pow(BASE, 1) == BASE;
  }

  function Zeros(n: nat): (s: seq<limb>)
    ensures |s| == n && forall i :: 0 <= i < n ==> s[i] == 0
  {
    seq(n, _ => 0)
  }

  lemma ShiftedLimbs(tab: seq<limb>, l: nat, shift: nat, n: nat, v: nat)
    requires n == 32 * l + shift && Value(tab) == v * Pow(2, shift) && Normal(tab)
    ensures Value(Zeros(l) + tab) == v * Pow(2, n)
    ensures v > 0 ==> Normal(Zeros(l) + tab)
  {
    hide Value, Pow;
    ValueZeros(Zeros(l));
    ValueAppend(Zeros(l), tab);
    BasePow(l);
    PowAdd(2, 32 * l, shift);
    var p, q := Pow(2, 32 * l), Pow(2, shift);
    assert p * (v * q) == v * (p * q);
    if v > 0 {
      PowPos(2, shift);
      MulUp(1, v, 1, q);
      NormalBound(tab);
    }
  }

  lemma ShiftByZero(v: nat, mode: Mode)
    ensures IsRounded(v, 1, v, mode)
  {
  }

  lemma TopBit(tab: seq<limb>, c: nat)
    requires Normal(tab) && tab[|tab| - 1] > 0 && c == Clz32(tab[|tab| - 1])
    ensures var r := |tab| * 32 - 1 - c; r >= 0 && Pow(2, r) <= Value(tab) < Pow(2, r + 1)
  {
    hide Value, Pow;
    var n := |tab| - 1;
    var v: int, p := tab[n], Pow(BASE, n);
    assert tab == tab[..n] + [tab[n]];
    ValueAppend(tab[..n], [tab[n]]);
    ValueOne(tab[n]);
    ValueBound(tab[..n]);
    BasePow(n);
    LimbBits(v, c);
    PowAdd(2, 32 * n, 31 - c);
    PowAdd(2, 32 * n, 32 - c);
    MulUp(p, p, Pow(2, 31 - c), v);
    MulUp(p, p, v + 1, Pow(2, 32 - c));
    assert p * (v + 1) == p * v + p;
  }

  lemma LimbBits(v: limb, c: nat)
    requires v > 0 && c == Clz32(v)
    ensures c < 32 && Pow(2, 31 - c) <= v < Pow(2, 32 - c)
  {
    hide Pow, Clz32;
    TwoParts(c);
    PowAdd(2, c, 31 - c);
    assert Pow(2, 31) * 2 == BASE by { PowAdd(2, 31, 1); PowSmall(2); TwoPow32(); }
    PowPos(2, c);
    CancelLe(Pow(2, 31 - c), v, Pow(2, c));
    CancelLt(v, Pow(2, 32 - c), Pow(2, c));
  }

  lemma LowLimbsZero(tab: seq<limb>, n: nat)
    requires n <= |tab|
    ensures Value(tab[..n]) == 0 <==> forall x :: 0 <= x < n ==> tab[x] == 0
  {
    if Value(tab[..n]) == 0 {
      ZeroValue(tab[..n]);
      forall x | 0 <= x < n ensures tab[x] == 0 { assert tab[..n][x] == tab[x]; }
    }
    if forall x :: 0 <= x < n ==> tab[x] == 0 {
      ValueZeros(tab[..n]);
    }
  }

  lemma NormalIncrement(tab: seq<limb>)
    requires Normal(tab)
    ensures |tab| > 1 ==> Pow(BASE, |tab| - 1) <= Value(tab)
  {
    if |tab| > 1 {
      NormalBound(tab);
    }
  }

  /** A list whose value reaches the weight of its top limb is normal. */
  lemma TopLimb(tab: seq<limb>)
    requires |tab| >= 1 && (|tab| > 1 ==> Pow(BASE, |tab| - 1) <= Value(tab))
    ensures Normal(tab)
  {
    var n := |tab| - 1;
    if n > 0 && tab[n] == 0 {
      assert tab == tab[..n] + [tab[n]];
      ValueAppend(tab[..n], [tab[n]]);
      ValueOne(tab[n]);
      ValueBound(tab[..n]);
    }
  }
}
