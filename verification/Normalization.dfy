/**
 Canonical decomposition: recursive decomposition, Hangul syllables by rule, and
 the canonical ordering of combining marks. The decomposition mapping and the
 combining classes are parameters.
 */
module Normalization {

  // ----- decomposition -----

  /** The decomposition of a code point, empty if it has none. */
  datatype Mapping = Mapping(of: int -> seq<int>, rank: int -> nat)

  const HANGUL_FIRST := 0xac00
  const HANGUL_END := 0xd7a4

  predicate IsHangul(c: int) { HANGUL_FIRST <= c < HANGUL_END }

  /** A syllable as two or three conjoining jamo. */
  function Jamo(c: int): (r: seq<int>)
    requires IsHangul(c)
  {
    var s := c - HANGUL_FIRST;
    [0x1100 + s / 588, 0x1161 + s % 588 / 28] + (if s % 28 != 0 then [0x11a7 + s % 28] else [])
  }

  /** The mapping is well founded and leaves conjoining jamo alone. */
  ghost predicate WellFounded(m: Mapping) {
    && (forall c, i :: 0 <= i < |m.of(c)| ==> m.rank(m.of(c)[i]) < m.rank(c))
    && (forall c :: (0x1100 <= c < 0x1113 || 0x1161 <= c < 0x1176 || 0x11a8 <= c < 0x11c3) ==> m.of(c) == [])
  }

  ghost predicate Ranked(m: Mapping, src: seq<int>, bound: nat) {
    forall i :: 0 <= i < |src| ==> m.rank(src[i]) < bound
  }

  /** The full decomposition of a string whose code points rank below `bound`. */
  ghost function Decomposed(m: Mapping, src: seq<int>, bound: nat): (r: seq<int>)
    requires WellFounded(m) && Ranked(m, src, bound)
    decreases bound, |src| + 1
  {
    if src == [] then []
    else
      var n := |src| - 1;
      Decomposed(m, src[..n], bound) + DecomposedOne(m, src[n])
  }

  ghost function DecomposedOne(m: Mapping, c: int): (r: seq<int>)
    requires WellFounded(m)
    decreases m.rank(c) + 1, 0
  {
    if IsHangul(c) then Jamo(c) else if m.of(c) == [] then [c] else Decomposed(m, m.of(c), m.rank(c))
  }

  /** A code point that decomposition leaves alone. */
  predicate Stable(m: Mapping, c: int) { !IsHangul(c) && m.of(c) == [] }

  ghost predicate AllStable(m: Mapping, s: seq<int>) {
    forall i :: 0 <= i < |s| ==> Stable(m, s[i])
  }

  /** Full decomposition leaves nothing to decompose. */
  lemma {:induction false} DecomposedStable(m: Mapping, src: seq<int>, bound: nat)
    requires WellFounded(m) && Ranked(m, src, bound)
    ensures AllStable(m, Decomposed(m, src, bound))
    decreases bound, |src|
  {
    if src != [] {
      var n := |src| - 1;
      var c := src[n];
      DecomposedStable(m, src[..n], bound);
      if IsHangul(c) {
        JamoStable(m, c);
      } else if m.of(c) != [] {
        DecomposedStable(m, m.of(c), m.rank(c));
      }
    }
  }

  lemma JamoStable(m: Mapping, c: int)
    requires WellFounded(m) && IsHangul(c)
    ensures AllStable(m, Jamo(c))
  {
    var s := c - HANGUL_FIRST;
    assert 0 <= s / 588 < 19 && 0 <= s % 588 / 28 < 21;
  }

  /** A stable string is its own decomposition. */
  lemma {:induction false} StableFixed(m: Mapping, s: seq<int>, bound: nat)
    requires WellFounded(m) && Ranked(m, s, bound) && AllStable(m, s)
    ensures Decomposed(m, s, bound) == s
    decreases |s|
  {
    if s != [] {
      StableFixed(m, s[..|s| - 1], bound);
    }
  }

  // ----- the decomposition is the one of the standard -----

  /** The syllable of a leading consonant, a vowel and, if it is not zero, the index of a trailing consonant. */
  function Syllable(l: int, v: int, t: int): int {
    0xac00 + (l - 0x1100) * 588 + (v - 0x1161) * 28 + t
  }

  predicate IsLeading(l: int) { 0x1100 <= l < 0x1100 + 19 }
  predicate IsVowel(v: int) { 0x1161 <= v < 0x1161 + 21 }
  predicate IsTrailing(t: int) { 0x11a7 < t < 0x11a7 + 28 }

  /** The jamo `r` make up the syllable `c`. */
  predicate Composes(c: int, r: seq<int>) {
    && 2 <= |r| <= 3 && IsLeading(r[0]) && IsVowel(r[1]) && (|r| == 3 ==> IsTrailing(r[2]))
    && c == Syllable(r[0], r[1], if |r| == 3 then r[2] - 0x11a7 else 0)
  }

  /** One step: a syllable gives way to its jamo, another code point to its mapping. */
  predicate Splits(m: Mapping, c: int, r: seq<int>) {
    if IsHangul(c) then Composes(c, r) else m.of(c) != [] && r == m.of(c)
  }

  /** Every syllable is made up of its jamo and of no others. */
  lemma JamoCompose(c: int, r: seq<int>)
    requires IsHangul(c)
    ensures Composes(c, r) <==> r == Jamo(c)
  {
    var s := c - HANGUL_FIRST;
    var l, v, t := s / 588, s % 588 / 28, s % 28;
    assert 0 <= l < 19 && 0 <= v < 21 && s % 588 % 28 == t;
    assert s == l * 588 + v * 28 + t;
    if Composes(c, r) {
      SyllableUnique(r[0] - 0x1100, r[1] - 0x1161, if |r| == 3 then r[2] - 0x11a7 else 0, l, v, t);
    }
  }

  /** The code points made up of jamo are the syllables. */
  lemma HangulIff(c: int)
    ensures IsHangul(c) <==> exists r: seq<int> :: Composes(c, r)
  {
    if IsHangul(c) {
      JamoCompose(c, Jamo(c));
    }
  }

  lemma SyllableUnique(l: int, v: int, t: int, l': int, v': int, t': int)
    requires 0 <= v < 21 && 0 <= t < 28 && 0 <= v' < 21 && 0 <= t' < 28
    requires l * 588 + v * 28 + t == l' * 588 + v' * 28 + t'
    ensures l == l' && v == v' && t == t'
  {
    assert l == l' by { assert 0 <= v * 28 + t < 588 && 0 <= v' * 28 + t' < 588; }
  }

  /** `t` comes from `s` by `n` steps, each at any place. */
  ghost predicate SplitsTo(m: Mapping, s: seq<int>, t: seq<int>, n: nat)
    decreases n
  {
    if n == 0 then s == t
    else exists i: nat, r: seq<int> :: i < |s| && Splits(m, s[i], r) && SplitsTo(m, Spliced(s, i, r), t, n - 1)
  }

  function Spliced(s: seq<int>, i: nat, r: seq<int>): seq<int>
    requires i < |s|
  {
    s[..i] + r + s[i + 1..]
  }

  /** The full decompositions of the code points in a row. */
  ghost function Flat(m: Mapping, s: seq<int>): (r: seq<int>)
    requires WellFounded(m)
  {
    if s == [] then [] else Flat(m, s[..|s| - 1]) + DecomposedOne(m, s[|s| - 1])
  }

  lemma {:induction false} DecomposedFlat(m: Mapping, s: seq<int>, bound: nat)
    requires WellFounded(m) && Ranked(m, s, bound)
    ensures Decomposed(m, s, bound) == Flat(m, s)
    decreases |s|
  {
    hide DecomposedOne;
    if s != [] {
      DecomposedFlat(m, s[..|s| - 1], bound);
    }
  }

  lemma {:induction false} FlatAppend(m: Mapping, a: seq<int>, b: seq<int>)
    requires WellFounded(m)
    ensures Flat(m, a + b) == Flat(m, a) + Flat(m, b)
    decreases |b|
  {
    hide DecomposedOne;
    if b == [] {
      assert a + b == a;
    } else {
      var n := |b| - 1;
      assert (a + b)[..|a + b| - 1] == a + b[..n];
      FlatAppend(m, a, b[..n]);
    }
  }

  lemma {:induction false} FlatStable(m: Mapping, s: seq<int>)
    requires WellFounded(m) && AllStable(m, s)
    ensures Flat(m, s) == s
    decreases |s|
  {
    if s != [] {
      FlatStable(m, s[..|s| - 1]);
    }
  }

  lemma FlatOne(m: Mapping, c: int)
    requires WellFounded(m)
    ensures Flat(m, [c]) == DecomposedOne(m, c)
  {
    hide DecomposedOne;
    assert [c][..0] == [];
  }

  /** A step does not change the full decomposition. */
  lemma SplitKeeps(m: Mapping, c: int, r: seq<int>)
    requires WellFounded(m) && Splits(m, c, r)
    ensures Flat(m, r) == DecomposedOne(m, c)
  {
    if IsHangul(c) {
      JamoCompose(c, r);
      JamoStable(m, c);
      FlatStable(m, r);
    } else {
      MappedRanked(m, c);
      DecomposedFlat(m, m.of(c), m.rank(c));
    }
  }

  lemma SpliceKeeps(m: Mapping, s: seq<int>, i: nat, r: seq<int>)
    requires WellFounded(m) && i < |s| && Splits(m, s[i], r)
    ensures Flat(m, Spliced(s, i, r)) == Flat(m, s)
  {
    hide Flat, DecomposedOne, WellFounded, Splits;
    var a, b := s[..i], s[i + 1..];
    assert s == a + [s[i]] + b;
    SplitKeeps(m, s[i], r);
    FlatOne(m, s[i]);
    FlatAppend(m, a, r);
    FlatAppend(m, a + r, b);
    FlatAppend(m, a, [s[i]]);
    FlatAppend(m, a + [s[i]], b);
  }

  /** Whatever order the steps are taken in, the string that has none left is the same. */
  lemma {:induction false} SplitsUnique(m: Mapping, s: seq<int>, t: seq<int>, n: nat)
    requires WellFounded(m) && SplitsTo(m, s, t, n) && AllStable(m, t)
    ensures t == Flat(m, s)
    decreases n
  {
    hide Flat, WellFounded, Splits, Spliced;
    if n == 0 {
      FlatStable(m, t);
    } else {
      var i: nat, r: seq<int> :| i < |s| && Splits(m, s[i], r) && SplitsTo(m, Spliced(s, i, r), t, n - 1);
      SpliceKeeps(m, s, i, r);
      SplitsUnique(m, Spliced(s, i, r), t, n - 1);
    }
  }

  lemma {:induction false} SplitsTrans(m: Mapping, s: seq<int>, t: seq<int>, u: seq<int>, k: nat, n: nat)
    requires SplitsTo(m, s, t, k) && SplitsTo(m, t, u, n)
    ensures SplitsTo(m, s, u, k + n)
    decreases k
  {
    hide Splits, Spliced;
    if k > 0 {
      var i: nat, r: seq<int> :| i < |s| && Splits(m, s[i], r) && SplitsTo(m, Spliced(s, i, r), t, k - 1);
      SplitsTrans(m, Spliced(s, i, r), t, u, k - 1, n);
    }
  }

  /** Steps inside a longer string. */
  lemma {:induction false} SplitsInside(m: Mapping, a: seq<int>, s: seq<int>, t: seq<int>, b: seq<int>, n: nat)
    requires SplitsTo(m, s, t, n)
    ensures SplitsTo(m, a + s + b, a + t + b, n)
    decreases n
  {
    hide Splits, Spliced, SplitsTo;
    if n == 0 {
      NoSteps(m, s, t);
      NoStep(m, a + s + b);
    } else {
      var i, r := FirstStep(m, s, t, n);
      SplitsInside(m, a, Spliced(s, i, r), t, b, n - 1);
      SplicedInside(a, s, b, i, r);
      StepFirst(m, a + s + b, |a| + i, r, a + t + b, n);
    }
  }

  lemma SplicedInside(a: seq<int>, s: seq<int>, b: seq<int>, i: nat, r: seq<int>)
    requires i < |s|
    ensures (a + s + b)[|a| + i] == s[i] && Spliced(a + s + b, |a| + i, r) == a + Spliced(s, i, r) + b
  {
  }

  lemma FirstStep(m: Mapping, s: seq<int>, t: seq<int>, n: nat) returns (i: nat, r: seq<int>)
    requires n > 0 && SplitsTo(m, s, t, n)
    ensures i < |s| && Splits(m, s[i], r) && SplitsTo(m, Spliced(s, i, r), t, n - 1)
  {
    hide Splits, Spliced;
    i, r :| i < |s| && Splits(m, s[i], r) && SplitsTo(m, Spliced(s, i, r), t, n - 1);
  }

  lemma StepFirst(m: Mapping, s: seq<int>, i: nat, r: seq<int>, t: seq<int>, n: nat)
    requires n > 0 && i < |s| && Splits(m, s[i], r) && SplitsTo(m, Spliced(s, i, r), t, n - 1)
    ensures SplitsTo(m, s, t, n)
  {
  }

  lemma OneStep(m: Mapping, c: int, r: seq<int>)
    requires Splits(m, c, r)
    ensures SplitsTo(m, [c], r, 1)
  {
    assert [c][0] == c && Spliced([c], 0, r) == r;
    assert SplitsTo(m, r, r, 0);
  }

  /** Steps lead from a string to its full decomposition. */
  lemma {:induction false} SplitsReached(m: Mapping, s: seq<int>, bound: nat) returns (n: nat)
    requires WellFounded(m) && Ranked(m, s, bound)
    ensures SplitsTo(m, s, Flat(m, s), n)
    decreases bound, |s| + 1
  {
    if s == [] {
      n := 0;
    } else {
      hide SplitsTo, DecomposedOne, WellFounded;
      var k := |s| - 1;
      var a := SplitsReached(m, s[..k], bound);
      var b := SplitReached(m, s[k], bound);
      SplitsSnoc(m, s, k, Flat(m, s[..k]), DecomposedOne(m, s[k]), a, b);
      n := a + b;
    }
  }

  lemma SplitsSnoc(m: Mapping, s: seq<int>, k: nat, f: seq<int>, d: seq<int>, a: nat, b: nat)
    requires |s| == k + 1 && SplitsTo(m, s[..k], f, a) && SplitsTo(m, [s[k]], d, b)
    ensures SplitsTo(m, s, f + d, a + b)
  {
    hide SplitsTo;
    SplitsInside(m, [], s[..k], f, [s[k]], a);
    SplitsInside(m, f, [s[k]], d, [], b);
    assert [] + s[..k] + [s[k]] == s && [] + f + [s[k]] == f + [s[k]] == f + [s[k]] + [] && f + d + [] == f + d;
    SplitsTrans(m, s, f + [s[k]], f + d, a, b);
  }

  lemma {:induction false} SplitReached(m: Mapping, c: int, bound: nat) returns (n: nat)
    requires WellFounded(m) && m.rank(c) < bound
    ensures SplitsTo(m, [c], DecomposedOne(m, c), n)
    decreases bound, 0
  {
    hide SplitsTo, WellFounded;
    n := 0;
    if IsHangul(c) {
      JamoCompose(c, Jamo(c));
      OneStep(m, c, Jamo(c));
      n := 1;
    } else if m.of(c) != [] {
      MappedRanked(m, c);
      n := SplitsReached(m, m.of(c), m.rank(c));
      OneStep(m, c, m.of(c));
      DecomposedFlat(m, m.of(c), m.rank(c));
      SplitsTrans(m, [c], m.of(c), DecomposedOne(m, c), 1, n);
      n := n + 1;
    } else {
      NoStep(m, [c]);
    }
  }

  lemma NoStep(m: Mapping, s: seq<int>)
    ensures SplitsTo(m, s, s, 0)
  {
  }

  lemma NoSteps(m: Mapping, s: seq<int>, t: seq<int>)
    requires SplitsTo(m, s, t, 0)
    ensures s == t
  {
  }

  /** Steps lead from `s` to `d`, and none is left. */
  ghost predicate FullySplit(m: Mapping, s: seq<int>, d: seq<int>) {
    AllStable(m, d) && exists n: nat :: SplitsTo(m, s, d, n)
  }

  /** The full decomposition is the string without further steps that steps lead to, and there is no other. */
  lemma DecomposedExact(m: Mapping, s: seq<int>, bound: nat, t: seq<int>)
    requires WellFounded(m) && Ranked(m, s, bound)
    ensures t == Decomposed(m, s, bound) <==> FullySplit(m, s, t)
  {
    hide SplitsTo, WellFounded, AllStable, Decomposed, Flat;
    DecomposedFlat(m, s, bound);
    if t == Decomposed(m, s, bound) {
      DecomposedStable(m, s, bound);
      var n := SplitsReached(m, s, bound);
    } else if FullySplit(m, s, t) {
      var n: nat :| SplitsTo(m, s, t, n);
      SplitsUnique(m, s, t, n);
    }
  }

  /** A growing buffer of code points. */
  class Buffer {
    var data: seq<int>

    constructor ()
      ensures data == []
    {
      data := [];
    }

    method Put(c: int)
      modifies this
      ensures data == old(data) + [c]
    {
      data := data + [c];
    }

    /** Appends the full decomposition of a string. */
    method ToNfd(m: Mapping, src: seq<int>, ghost bound: nat)
      requires WellFounded(m) && Ranked(m, src, bound)
      modifies this
      ensures data == old(data) + Decomposed(m, src, bound)
      ensures FullySplit(m, src, data[|old(data)|..])
      decreases bound, 1
    {
      hide WellFounded, Decomposed, DecomposedOne, Ranked;
      var i := 0;
      DecomposedEmpty(m, src, bound);
      while i < |src|
        invariant 0 <= i <= |src| && Ranked(m, src[..i], bound) && data == old(data) + Decomposed(m, src[..i], bound)
      {
        DecomposedSnoc(m, src, i, bound);
        PutDecomposed(m, src[i], bound);
        i := i + 1;
      }
      assert src[..i] == src;
      DecomposedExact(m, src, bound, Decomposed(m, src, bound));
      assert data[|old(data)|..] == Decomposed(m, src, bound);
    }

    /** Appends the decomposition of one code point. */
    method PutDecomposed(m: Mapping, c: int, ghost bound: nat)
      requires WellFounded(m) && m.rank(c) < bound
      modifies this
      ensures data == old(data) + DecomposedOne(m, c)
      decreases bound, 0
    {
      hide WellFounded, Decomposed, Ranked;
      if IsHangul(c) {
        PutJamo(c);
      } else {
        var res := m.of(c);
        if res != [] {
          MappedRanked(m, c);
          ToNfd(m, res, m.rank(c));
        } else {
          Put(c);
        }
      }
    }

    /** Appends the jamo of a Hangul syllable. */
    method PutJamo(c: int)
      requires IsHangul(c)
      modifies this
      ensures data == old(data) + Jamo(c)
    {
      var s := c - HANGUL_FIRST;
      Put(0x1100 + s / 588);
      Put(0x1161 + s % 588 / 28);
      var v := s % 28;
      if v != 0 {
        Put(0x11a7 + v);
      }
    }
  }

  lemma DecomposedEmpty(m: Mapping, src: seq<int>, bound: nat)
    requires WellFounded(m)
    ensures Ranked(m, src[..0], bound) && Decomposed(m, src[..0], bound) == []
  {
  }

  lemma DecomposedSnoc(m: Mapping, src: seq<int>, i: nat, bound: nat)
    requires WellFounded(m) && Ranked(m, src, bound) && i < |src|
    ensures Ranked(m, src[..i], bound) && Ranked(m, src[..i + 1], bound) && m.rank(src[i]) < bound
    ensures Decomposed(m, src[..i + 1], bound) == Decomposed(m, src[..i], bound) + DecomposedOne(m, src[i])
  {
    assert src[..i + 1][..i] == src[..i];
  }

  lemma MappedRanked(m: Mapping, c: int)
    requires WellFounded(m)
    ensures Ranked(m, m.of(c), m.rank(c))
  {
  }

  // ----- canonical ordering -----

  /** Puts `x` after the marks of lower or equal class at the end of `t`; starters and non-marks do not move. */
  function Inserted(cc: int -> nat, t: seq<int>, x: int): (r: seq<int>)
    ensures |r| == |t| + 1
  {
    if t == [] || cc(x) == 0 || cc(t[|t| - 1]) <= cc(x) then t + [x]
    else Inserted(cc, t[..|t| - 1], x) + [t[|t| - 1]]
  }

  /** The canonical ordering of a string. */
  function Reordered(cc: int -> nat, s: seq<int>): (r: seq<int>)
    ensures |r| == |s|
  {
    if s == [] then [] else Inserted(cc, Reordered(cc, s[..|s| - 1]), s[|s| - 1])
  }

  /** Two neighbours that the canonical ordering algorithm of the Unicode Standard exchanges. */
  predicate Reorderable(cc: int -> nat, s: seq<int>, i: nat)
    requires i + 1 < |s|
  {
    cc(s[i]) > cc(s[i + 1]) > 0
  }

  ghost predicate InOrder(cc: int -> nat, s: seq<int>) {
    forall i: nat :: i + 1 < |s| ==> !Reorderable(cc, s, i)
  }

  /** Ordering only permutes. */
  lemma {:induction false} ReorderedPermutes(cc: int -> nat, s: seq<int>)
    ensures multiset(Reordered(cc, s)) == multiset(s)
    decreases |s|
  {
    if s != [] {
      hide Inserted;
      var n := |s| - 1;
      ReorderedPermutes(cc, s[..n]);
      InsertedPermutes(cc, Reordered(cc, s[..n]), s[n]);
      MultisetSnoc(s);
    }
  }

  lemma MultisetSnoc(s: seq<int>)
    requires s != []
    ensures multiset(s) == multiset(s[..|s| - 1]) + multiset{s[|s| - 1]}
  {
    assert s == s[..|s| - 1] + [s[|s| - 1]];
  }

  lemma {:induction false} InsertedPermutes(cc: int -> nat, t: seq<int>, x: int)
    ensures multiset(Inserted(cc, t, x)) == multiset(t) + multiset{x}
    decreases |t|
  {
    if t != [] {
      var n := |t| - 1;
      InsertedPermutes(cc, t[..n], x);
      MultisetSnoc(t);
    }
  }

  /** After ordering no two neighbours can be exchanged. */
  lemma {:induction false} ReorderedInOrder(cc: int -> nat, s: seq<int>)
    ensures InOrder(cc, Reordered(cc, s))
    decreases |s|
  {
    if s != [] {
      ReorderedInOrder(cc, s[..|s| - 1]);
      InsertedInOrder(cc, Reordered(cc, s[..|s| - 1]), s[|s| - 1]);
    }
  }

  lemma {:induction false} InsertedInOrder(cc: int -> nat, t: seq<int>, x: int)
    requires InOrder(cc, t)
    ensures InOrder(cc, Inserted(cc, t, x))
    decreases |t|
  {
    var r := Inserted(cc, t, x);
    if t == [] || cc(x) == 0 || cc(t[|t| - 1]) <= cc(x) {
      forall i: nat | i + 1 < |r| ensures !Reorderable(cc, r, i) {
        if i + 1 < |t| {
          assert !Reorderable(cc, t, i);
        }
      }
    } else {
      var n := |t| - 1;
      PrefixInOrder(cc, t, n);
      InsertedInOrder(cc, t[..n], x);
      LastOfInserted(cc, t[..n], x);
      var q := Inserted(cc, t[..n], x);
      forall i: nat | i + 1 < |r| ensures !Reorderable(cc, r, i) {
        if i + 1 < |q| {
          assert !Reorderable(cc, q, i);
        } else if n > 0 {
          assert !Reorderable(cc, t, n - 1);
        }
      }
    }
  }

  lemma PrefixInOrder(cc: int -> nat, t: seq<int>, n: nat)
    requires InOrder(cc, t) && n <= |t|
    ensures InOrder(cc, t[..n])
  {
    forall i: nat | i + 1 < n ensures !Reorderable(cc, t[..n], i) {
      assert !Reorderable(cc, t, i);
    }
  }

  /** The last element after an insertion is the new one or the old last one. */
  lemma LastOfInserted(cc: int -> nat, t: seq<int>, x: int)
    ensures var r := Inserted(cc, t, x); r[|t|] == x || (t != [] && r[|t|] == t[|t| - 1])
  {
  }

  /** A string in order stays as it is. */
  lemma {:induction false} InOrderFixed(cc: int -> nat, s: seq<int>)
    requires InOrder(cc, s)
    ensures Reordered(cc, s) == s
    decreases |s|
  {
    if s != [] {
      var n := |s| - 1;
      PrefixInOrder(cc, s, n);
      InOrderFixed(cc, s[..n]);
      if n > 0 {
        assert !Reorderable(cc, s, n - 1);
      }
    }
  }

  // ----- the ordering is the one of the standard -----

  function Exchanged(s: seq<int>, i: nat): (r: seq<int>)
    requires i + 1 < |s|
  {
    s[i := s[i + 1]][i + 1 := s[i]]
  }

  /** Insertions of marks of different classes commute. */
  lemma {:induction false} InsertionsCommute(cc: int -> nat, t: seq<int>, x: int, y: int)
    requires cc(x) > cc(y) > 0
    ensures Inserted(cc, Inserted(cc, t, x), y) == Inserted(cc, Inserted(cc, t, y), x)
    decreases |t|
  {
    if t == [] || cc(t[|t| - 1]) <= cc(x) {
      assert (t + [x])[..|t|] == t;
      LastOfInserted(cc, t, y);
    } else {
      var n := |t| - 1;
      InsertionsCommute(cc, t[..n], x, y);
      var a, b := Inserted(cc, t[..n], x), Inserted(cc, t[..n], y);
      assert (a + [t[n]])[..n + 1] == a && (b + [t[n]])[..n + 1] == b;
    }
  }

  lemma LastTwo(cc: int -> nat, s: seq<int>)
    requires |s| >= 2
    ensures var n := |s|; Reordered(cc, s) == Inserted(cc, Inserted(cc, Reordered(cc, s[..n - 2]), s[n - 2]), s[n - 1])
  {
    var n := |s|;
    assert s[..n - 1][..n - 2] == s[..n - 2];
  }

  /** Exchanging a reorderable pair does not change the canonical ordering. */
  lemma {:induction false} ExchangeKeepsOrdering(cc: int -> nat, s: seq<int>, i: nat)
    requires i + 1 < |s| && Reorderable(cc, s, i)
    ensures Reordered(cc, Exchanged(s, i)) == Reordered(cc, s)
    decreases |s|
  {
    hide Inserted;
    var n, r := |s| - 1, Exchanged(s, i);
    if i + 1 < n {
      assert r[..n] == Exchanged(s[..n], i);
      ExchangeKeepsOrdering(cc, s[..n], i);
    } else {
      var t := Reordered(cc, s[..i]);
      LastTwo(cc, s);
      LastTwo(cc, r);
      assert r[..i] == s[..i];
      InsertionsCommute(cc, t, s[i], s[i + 1]);
    }
  }

  /** `t` comes from `s` by `n` exchanges of reorderable pairs. */
  ghost predicate ExchangesTo(cc: int -> nat, s: seq<int>, t: seq<int>, n: nat)
    decreases n
  {
    if n == 0 then s == t
    else exists i: nat :: i + 1 < |s| && Reorderable(cc, s, i) && ExchangesTo(cc, Exchanged(s, i), t, n - 1)
  }

  /** Whatever order the pairs are exchanged in, the result without reorderable pairs is the same. */
  lemma {:induction false} OrderingUnique(cc: int -> nat, s: seq<int>, t: seq<int>, n: nat)
    requires ExchangesTo(cc, s, t, n) && InOrder(cc, t)
    ensures t == Reordered(cc, s)
    decreases n
  {
    if n == 0 {
      InOrderFixed(cc, t);
    } else {
      var i: nat :| i + 1 < |s| && Reorderable(cc, s, i) && ExchangesTo(cc, Exchanged(s, i), t, n - 1);
      ExchangeKeepsOrdering(cc, s, i);
      OrderingUnique(cc, Exchanged(s, i), t, n - 1);
    }
  }

  /** Exchanges in a row. */
  lemma {:induction false} ExchangesTrans(cc: int -> nat, s: seq<int>, t: seq<int>, u: seq<int>, m: nat, n: nat)
    requires ExchangesTo(cc, s, t, m) && ExchangesTo(cc, t, u, n)
    ensures ExchangesTo(cc, s, u, m + n)
    decreases m
  {
    if m > 0 {
      var i: nat :| i + 1 < |s| && Reorderable(cc, s, i) && ExchangesTo(cc, Exchanged(s, i), t, m - 1);
      ExchangesTrans(cc, Exchanged(s, i), t, u, m - 1, n);
    }
  }

  /** Exchanges before one more element. */
  lemma {:induction false} ExchangesBefore(cc: int -> nat, s: seq<int>, t: seq<int>, n: nat, x: int)
    requires ExchangesTo(cc, s, t, n)
    ensures ExchangesTo(cc, s + [x], t + [x], n)
    decreases n
  {
    if n > 0 {
      var i: nat :| i + 1 < |s| && Reorderable(cc, s, i) && ExchangesTo(cc, Exchanged(s, i), t, n - 1);
      ExchangesBefore(cc, Exchanged(s, i), t, n - 1, x);
      assert Exchanged(s + [x], i) == Exchanged(s, i) + [x] && Reorderable(cc, s + [x], i);
    }
  }

  lemma {:induction false} InsertedByExchanges(cc: int -> nat, t: seq<int>, x: int) returns (n: nat)
    ensures ExchangesTo(cc, t + [x], Inserted(cc, t, x), n)
    decreases |t|
  {
    if t == [] || cc(x) == 0 || cc(t[|t| - 1]) <= cc(x) {
      n := 0;
    } else {
      var k := |t| - 1;
      var y := t[k];
      var m := InsertedByExchanges(cc, t[..k], x);
      ExchangesBefore(cc, t[..k] + [x], Inserted(cc, t[..k], x), m, y);
      assert Exchanged(t + [x], k) == t[..k] + [x] + [y] && Reorderable(cc, t + [x], k);
      n := m + 1;
    }
  }

  /** The canonical ordering is reached by exchanging reorderable pairs. */
  lemma {:induction false} OrderingReached(cc: int -> nat, s: seq<int>) returns (n: nat)
    ensures ExchangesTo(cc, s, Reordered(cc, s), n)
    decreases |s|
  {
    if s == [] {
      n := 0;
    } else {
      hide Inserted, ExchangesTo;
      var k := |s| - 1;
      var m := OrderingReached(cc, s[..k]);
      var r := Reordered(cc, s[..k]);
      ExchangesBefore(cc, s[..k], r, m, s[k]);
      assert s == s[..k] + [s[k]];
      var l := InsertedByExchanges(cc, r, s[k]);
      ExchangesTrans(cc, s, r + [s[k]], Inserted(cc, r, s[k]), m, l);
      n := m + l;
    }
  }

  /** Exchanges lead from `d` to `r`, and none is left. */
  ghost predicate FullyExchanged(cc: int -> nat, d: seq<int>, r: seq<int>) {
    InOrder(cc, r) && exists n: nat :: ExchangesTo(cc, d, r, n)
  }

  /** The canonical ordering algorithm of the standard ends with this string and no other. */
  lemma OrderingExact(cc: int -> nat, s: seq<int>, t: seq<int>)
    ensures t == Reordered(cc, s) <==> FullyExchanged(cc, s, t)
  {
    hide ExchangesTo, InOrder, Reordered;
    if t == Reordered(cc, s) {
      ReorderedInOrder(cc, s);
      var n := OrderingReached(cc, s);
    } else if FullyExchanged(cc, s, t) {
      var n: nat :| ExchangesTo(cc, s, t, n);
      OrderingUnique(cc, s, t, n);
    }
  }

  // ----- the ordering is stable -----

  /** The code points of one class, in the order of the string. */
  function OfClass(cc: int -> nat, s: seq<int>, k: nat): (r: seq<int>) {
    if s == [] then []
    else OfClass(cc, s[..|s| - 1], k) + (if cc(s[|s| - 1]) == k then [s[|s| - 1]] else [])
  }

  lemma OfClassSnoc(cc: int -> nat, s: seq<int>, x: int, k: nat)
    ensures OfClass(cc, s + [x], k) == OfClass(cc, s, k) + (if cc(x) == k then [x] else [])
  {
    assert (s + [x])[..|s|] == s;
  }

  lemma {:induction false} InsertedStable(cc: int -> nat, t: seq<int>, x: int, k: nat)
    ensures OfClass(cc, Inserted(cc, t, x), k) == OfClass(cc, t + [x], k)
    decreases |t|
  {
    if t != [] && cc(x) > 0 && cc(t[|t| - 1]) > cc(x) {
      var n := |t| - 1;
      InsertedStable(cc, t[..n], x, k);
      OfClassSnoc(cc, Inserted(cc, t[..n], x), t[n], k);
      OfClassSnoc(cc, t[..n], x, k);
      OfClassSnoc(cc, t[..n], t[n], k);
      OfClassSnoc(cc, t, x, k);
      assert t == t[..n] + [t[n]];
    }
  }

  /** Ordering is stable: code points of the same class stay in their order. */
  lemma {:induction false} ReorderedStable(cc: int -> nat, s: seq<int>, k: nat)
    ensures OfClass(cc, Reordered(cc, s), k) == OfClass(cc, s, k)
    decreases |s|
  {
    if s != [] {
      hide Inserted;
      var n := |s| - 1;
      var r := Reordered(cc, s[..n]);
      ReorderedStable(cc, s[..n], k);
      InsertedStable(cc, r, s[n], k);
      OfClassSnoc(cc, r, s[n], k);
    }
  }

  lemma {:induction false} InsertedStarters(cc: int -> nat, t: seq<int>, x: int, i: nat)
    requires i <= |t|
    ensures var u, r := t + [x], Inserted(cc, t, x); cc(u[i]) == 0 || cc(r[i]) == 0 ==> r[i] == u[i]
    decreases |t|
  {
    if t != [] && cc(x) > 0 && cc(t[|t| - 1]) > cc(x) && i < |t| {
      InsertedStarters(cc, t[..|t| - 1], x, i);
    }
  }

  /** Code points of class zero do not move, and nothing else moves to their places. */
  lemma {:induction false} StartersStay(cc: int -> nat, s: seq<int>, i: nat)
    requires i < |s| && (cc(s[i]) == 0 || cc(Reordered(cc, s)[i]) == 0)
    ensures Reordered(cc, s)[i] == s[i]
    decreases |s|
  {
    hide Inserted;
    var n := |s| - 1;
    var r := Reordered(cc, s[..n]);
    InsertedStarters(cc, r, s[n], i);
    if i < n {
      assert (r + [s[n]])[i] == r[i];
      if cc(s[i]) == 0 || cc(r[i]) == 0 {
        StartersStay(cc, s[..n], i);
      }
    }
  }

  // ----- sorting in place -----

  /** Insertion at an index: after `k`, before the marks of higher class. */
  lemma {:induction false} InsertedAt(cc: int -> nat, t: seq<int>, x: int, k: nat)
    requires cc(x) > 0 && k <= |t| && (forall m :: k <= m < |t| ==> cc(t[m]) > cc(x))
             && (k > 0 ==> cc(t[k - 1]) <= cc(x))
    ensures Inserted(cc, t, x) == t[..k] + [x] + t[k..]
    decreases |t|
  {
    var n := |t| - 1;
    if k < |t| {
      InsertedAt(cc, t[..n], x, k);
      assert t[..n][..k] == t[..k] && t[..n][k..] + [t[n]] == t[k..];
    } else {
      assert t[..k] == t && t[k..] == [];
    }
  }

  /** Moves the mark at `j` before the marks of higher class that end there. */
  method ShiftDown(buf: array<int>, start: nat, j: nat, cc: int -> nat)
    requires start < j < buf.Length && cc(buf[j]) > 0 && (start > 0 ==> cc(buf[start - 1]) == 0)
    modifies buf
    ensures buf[..j + 1] == Inserted(cc, old(buf[..j]), old(buf[j])) && buf[j + 1..] == old(buf[j + 1..])
    ensures start > 0 ==> buf[start - 1] == old(buf[start - 1])
  {
    hide Inserted;
    ghost var t, was := buf[..j], buf[..];
    var ch1 := buf[j];
    var k := j;
    while k > start && cc(buf[k - 1]) > cc(ch1)
      invariant start <= k <= j && Shifted(was, buf[..], j, k)
      invariant forall m :: k <= m < j ==> cc(t[m]) > cc(ch1)
    {
      ghost var s := buf[..];
      buf[k] := buf[k - 1];
      ShiftOne(was, s, buf[..], j, k);
      k := k - 1;
    }
    InsertedAt(cc, t, ch1, k);
    ghost var s := buf[..];
    buf[k] := ch1;
    ShiftEnd(was, s, buf[..], j, k);
  }

  /** The elements from `k` to `j` have moved up by one. */
  ghost predicate Shifted(was: seq<int>, s: seq<int>, j: nat, k: nat)
    requires k <= j < |was|
  {
    && |s| == |was|
    && (forall m :: 0 <= m < k ==> s[m] == was[m])
    && (forall m :: k < m <= j ==> s[m] == was[m - 1])
    && (forall m :: j < m < |was| ==> s[m] == was[m])
  }

  lemma ShiftOne(was: seq<int>, s: seq<int>, r: seq<int>, j: nat, k: nat)
    requires 0 < k <= j < |was| && Shifted(was, s, j, k) && r == s[k := s[k - 1]]
    ensures Shifted(was, r, j, k - 1)
  {
  }

  lemma ShiftEnd(was: seq<int>, s: seq<int>, r: seq<int>, j: nat, k: nat)
    requires k <= j < |was| && Shifted(was, s, j, k) && r == s[k := was[j]]
    ensures r[..j + 1] == was[..j][..k] + [was[j]] + was[..j][k..] && r[j + 1..] == was[j + 1..]
    ensures forall m :: 0 <= m < k ==> r[m] == was[m]
  {
  }

  lemma ReorderedSnoc(cc: int -> nat, s: seq<int>, i: nat)
    requires i < |s|
    ensures Reordered(cc, s[..i + 1]) == Inserted(cc, Reordered(cc, s[..i]), s[i])
  {
    assert s[..i + 1][..i] == s[..i];
  }

  lemma InsertedStays(cc: int -> nat, t: seq<int>, x: int)
    requires cc(x) == 0 || t == [] || cc(t[|t| - 1]) == 0
    ensures Inserted(cc, t, x) == t + [x]
  {
  }

  /** Orders the run of marks that starts at `start`; the index after it. */
  method SortRun(buf: array<int>, start: nat, cc: int -> nat, ghost was: seq<int>) returns (j: nat)
    requires start < buf.Length == |was| && cc(buf[start]) > 0 && (start > 0 ==> cc(buf[start - 1]) == 0)
    requires buf[..start] == Reordered(cc, was[..start]) && buf[start..] == was[start..]
    modifies buf
    ensures start < j <= buf.Length && buf[..j] == Reordered(cc, was[..j]) && buf[j..] == was[j..]
    ensures j < buf.Length ==> cc(buf[j]) == 0
  {
    hide Inserted, Reordered;
    j := start + 1;
    ReorderedSnoc(cc, was, start);
    assert start > 0 ==> buf[..start][start - 1] == buf[start - 1];
    InsertedStays(cc, buf[..start], buf[start]);
    assert buf[start..][0] == was[start] && buf[..j] == buf[..start] + [buf[start]];
    assert buf[j..] == buf[start..][1..] == was[j..];
    while j < buf.Length
      invariant start < j <= buf.Length && buf[..j] == Reordered(cc, was[..j]) && buf[j..] == was[j..]
      invariant start > 0 ==> cc(buf[start - 1]) == 0
    {
      assert buf[j] == buf[j..][0] == was[j];
      if cc(buf[j]) == 0 {
        break;
      }
      ReorderedSnoc(cc, was, j);
      assert buf[j + 1..] == buf[j..][1..] == was[j + 1..];
      ShiftDown(buf, start, j, cc);
      j := j + 1;
    }
  }

  /** The canonical ordering, in place. */
  method SortCc(buf: array<int>, cc: int -> nat)
    modifies buf
    ensures buf[..] == Reordered(cc, old(buf[..]))
  {
    hide Inserted, Reordered;
    ghost var was := buf[..];
    var i := 0;
    NothingReordered(cc, was);
    while i < buf.Length
      invariant 0 <= i && (i <= buf.Length ==> buf[..i] == Reordered(cc, was[..i]) && buf[i..] == was[i..])
      invariant 0 < i <= buf.Length ==> cc(buf[i - 1]) == 0
      invariant i > buf.Length ==> buf[..] == Reordered(cc, was)
    {
      var j := i;
      if cc(buf[i]) != 0 {
        j := SortRun(buf, i, cc, was);
      }
      if j < buf.Length {
        ReorderedSnoc(cc, was, j);
        assert buf[j] == buf[j..][0] == was[j];
        InsertedStays(cc, buf[..j], buf[j]);
        assert buf[..j + 1] == buf[..j] + [buf[j]] && buf[j + 1..] == buf[j..][1..] == was[j + 1..];
      } else {
        assert buf[..j] == buf[..] && was[..j] == was;
      }
      i := j + 1;
    }
    if i == buf.Length {
      assert buf[..i] == buf[..] && was[..i] == was;
    }
  }

  lemma NothingReordered(cc: int -> nat, s: seq<int>)
    ensures Reordered(cc, s[..0]) == [] && s[0..] == s
  {
  }

  // ----- the normal form -----

  /** The canonical decomposition: decomposed, then ordered. */
  ghost function Nfd(m: Mapping, cc: int -> nat, src: seq<int>, bound: nat): (r: seq<int>)
    requires WellFounded(m) && Ranked(m, src, bound)
  {
    Reordered(cc, Decomposed(m, src, bound))
  }

  /** `r` is reached from `s` by decomposing as long as possible, then exchanging marks as long as possible. */
  ghost predicate NormalForm(m: Mapping, cc: int -> nat, s: seq<int>, r: seq<int>) {
    exists d: seq<int> :: FullySplit(m, s, d) && FullyExchanged(cc, d, r)
  }

  /** The canonical decomposition of the standard is this string and no other. */
  lemma NfdExact(m: Mapping, cc: int -> nat, s: seq<int>, bound: nat, r: seq<int>)
    requires WellFounded(m) && Ranked(m, s, bound)
    ensures r == Nfd(m, cc, s, bound) <==> NormalForm(m, cc, s, r)
  {
    hide WellFounded, Decomposed, Reordered, FullySplit, FullyExchanged;
    var d := Decomposed(m, s, bound);
    DecomposedExact(m, s, bound, d);
    OrderingExact(cc, d, r);
    if NormalForm(m, cc, s, r) {
      var d' :| FullySplit(m, s, d') && FullyExchanged(cc, d', r);
      DecomposedExact(m, s, bound, d');
    }
  }

  /** Normalises a string. */
  method Normalize(m: Mapping, cc: int -> nat, src: seq<int>, ghost bound: nat) returns (r: seq<int>)
    requires WellFounded(m) && Ranked(m, src, bound)
    ensures r == Nfd(m, cc, src, bound) && NormalForm(m, cc, src, r)
  {
    hide WellFounded, Decomposed, Reordered, NormalForm;
    var dbuf := new Buffer();
    dbuf.ToNfd(m, src, bound);
    var data := dbuf.data;
    assert data == Decomposed(m, src, bound);
    var buf := new int[|data|](i requires 0 <= i < |data| => data[i]);
    assert buf[..] == data;
    SortCc(buf, cc);
    r := buf[..];
    NfdExact(m, cc, src, bound, r);
  }

  /** Normalising twice changes nothing more. */
  lemma NfdIdempotent(m: Mapping, cc: int -> nat, src: seq<int>, bound: nat, bound': nat)
    requires WellFounded(m) && Ranked(m, src, bound) && Ranked(m, Nfd(m, cc, src, bound), bound')
    ensures Nfd(m, cc, Nfd(m, cc, src, bound), bound') == Nfd(m, cc, src, bound)
  {
    hide WellFounded, Decomposed, Reordered, Ranked;
    var d := Decomposed(m, src, bound);
    var r := Reordered(cc, d);
    DecomposedStable(m, src, bound);
    ReorderedPermutes(cc, d);
    SameStable(m, d, r);
    StableFixed(m, r, bound');
    ReorderedInOrder(cc, d);
    InOrderFixed(cc, r);
  }

  lemma SameStable(m: Mapping, d: seq<int>, r: seq<int>)
    requires multiset(d) == multiset(r) && AllStable(m, d)
    ensures AllStable(m, r)
  {
    forall i | 0 <= i < |r| ensures Stable(m, r[i]) {
      assert r[i] in multiset(r);
      assert r[i] in d;
    }
  }
}
