/**
 Case-insensitive classes: the set of canonical forms of a set, computed with a
 mask of the code points that the case table changes.
 */
module CaseSets {
  import opened Basics
  import opened CharSet
  import opened CharRanges
  import opened CaseFolding
  import opened Overlaps

  // ----- appending intervals -----

  /** A list that can take an interval from `p` on. */
  ghost predicate Open(pts: seq<int>, p: int) {
    |pts| % 2 == 0 && Sorted(pts) && Bounded(pts, UINT32_MAX) && forall i :: 0 <= i < |pts| ==> pts[i] <= p
  }

  lemma AppendInterval(pts: seq<int>, p: int, q: int)
    requires Open(pts, p) && 0 <= p <= q <= UINT32_MAX
    ensures Open(pts + [p, q], q)
    ensures forall x :: InSet(pts + [p, q], x) <==> InSet(pts, x) || p <= x < q
  {
    var out := pts + [p, q];
    assert out == pts + [p] + [q];
    forall x ensures InSet(out, x) <==> InSet(pts, x) || p <= x < q {
      InSetPush(pts, p, x);
      InSetPush(pts + [p], q, x);
      if p <= x {
        AllBelow(pts, x);
      }
    }
  }

  // ----- the mask -----

  /** Some of the first `n` runs puts `x` into the mask. */
  ghost predicate InMask(t: Table, n: nat, unicode: bool, x: int) {
    x >= 0 && exists k :: 0 <= k < n <= |t.runs| && MaskedIn(t.runs[k], x, unicode)
  }

  lemma MaskStep(t: Table, n: nat, unicode: bool, x: int)
    requires n < |t.runs|
    ensures InMask(t, n + 1, unicode, x) <==> InMask(t, n, unicode, x) || (x >= 0 && MaskedIn(t.runs[n], x, unicode))
  {
    if InMask(t, n, unicode, x) {
      var k :| 0 <= k < n && MaskedIn(t.runs[k], x, unicode);
      assert MaskedIn(t.runs[k], x, unicode);
    }
  }

  /** Adds the code points of one run to the mask. */
  method AddRun(cr: CharRange, v: nat, unicode: bool)
    requires v < 0x1_0000_0000 && Open(cr.points, CodeOf(v)) && LenOf(v) > 0
    requires (KindOf(v) == RUN_UL ==> LenOf(v) % 2 == 0) && (KindOf(v) == RUN_LSU ==> LenOf(v) == 3)
    modifies cr
    ensures Open(cr.points, CodeOf(v) + LenOf(v))
    ensures forall x :: InSet(cr.points, x) <==> InSet(old(cr.points), x) || (x >= 0 && MaskedIn(v, x, unicode))
  {
    hide InSet, MaskedIn, Open;
    var code, len, kind := CodeOf(v), LenOf(v), KindOf(v);
    ghost var was := cr.points;
    var first := if unicode then code else code + 1;
    ghost var top := code + len;
    if !MaskedKind(kind, unicode) {
      OpenUp(cr.points, code, top);
      forall x: nat ensures !MaskedIn(v, x, unicode) { NotMasked(v, x, unicode); }
    } else if kind == RUN_UL {
      OpenUp(cr.points, code, first);
      AddAlternating(cr, first, len);
      OpenUp(cr.points, first + len - 1, top);
      forall x: nat ensures MaskedIn(v, x, unicode) <==> first <= x < first + len && (x - first) % 2 == 0 {
        MaskedUL(v, x, unicode);
      }
    } else if kind == RUN_LSU {
      OpenUp(cr.points, code, first);
      AddTwo(cr, first);
      OpenUp(cr.points, first + 2, top);
      forall x: nat ensures MaskedIn(v, x, unicode) <==> first <= x < first + 2 { MaskedLSU(v, x, unicode); }
    } else {
      AppendInterval(cr.points, code, code + len);
      cr.AddInterval(code, code + len);
      forall x: nat ensures MaskedIn(v, x, unicode) <==> code <= x < code + len { MaskedWhole(v, x, unicode); }
    }
  }

  lemma OpenUp(pts: seq<int>, p: int, q: int)
    ensures Open(pts, p) && p <= q ==> Open(pts, q)
  {
  }

  lemma NotMasked(v: nat, x: nat, unicode: bool)
    requires !MaskedKind(KindOf(v), unicode)
    ensures !MaskedIn(v, x, unicode)
  {
  }

  lemma MaskedUL(v: nat, x: nat, unicode: bool)
    requires KindOf(v) == RUN_UL && LenOf(v) % 2 == 0
    ensures var first := if unicode then CodeOf(v) else CodeOf(v) + 1;
            MaskedIn(v, x, unicode) <==> first <= x < first + LenOf(v) && (x - first) % 2 == 0
  {
    hide CodeOf, LenOf, KindOf, MaskedKind;
    AlternatingMasked(unicode);
    OddPlaces(x, CodeOf(v), LenOf(v));
  }

  lemma AlternatingMasked(unicode: bool)
    ensures MaskedKind(RUN_UL, unicode) && MaskedKind(RUN_LSU, unicode)
  {
  }

  lemma OddPlaces(x: int, code: int, len: int)
    requires len % 2 == 0
    ensures code <= x < code + len && (x - code) % 2 == 1 <==>
            code + 1 <= x < code + 1 + len && (x - (code + 1)) % 2 == 0
  {
    var a := x - code;
    assert (x - (code + 1)) % 2 == (a - 1) % 2;
  }

  lemma MaskedLSU(v: nat, x: nat, unicode: bool)
    requires KindOf(v) == RUN_LSU && LenOf(v) == 3
    ensures var first := if unicode then CodeOf(v) else CodeOf(v) + 1;
            MaskedIn(v, x, unicode) <==> first <= x < first + 2
  {
    hide CodeOf, LenOf, KindOf, MaskedKind;
    AlternatingMasked(unicode);
  }

  lemma MaskedWhole(v: nat, x: nat, unicode: bool)
    requires KindOf(v) != RUN_UL && KindOf(v) != RUN_LSU && MaskedKind(KindOf(v), unicode)
    ensures MaskedIn(v, x, unicode) <==> InRun(v, x)
  {
  }

  /** Adds two neighbouring code points. */
  method AddTwo(cr: CharRange, first: nat)
    requires first + 2 <= UINT32_MAX && Open(cr.points, first)
    modifies cr
    ensures Open(cr.points, first + 2)
    ensures forall x :: InSet(cr.points, x) <==> InSet(old(cr.points), x) || first <= x < first + 2
  {
    hide InSet, Open;
    AppendInterval(cr.points, first, first + 1);
    cr.AddInterval(first, first + 1);
    AppendInterval(cr.points, first + 1, first + 2);
    cr.AddInterval(first + 1, first + 2);
  }

  /** Adds every second code point of a run. */
  method AddAlternating(cr: CharRange, code: nat, len: nat)
    requires code + len <= UINT32_MAX && Open(cr.points, code) && len % 2 == 0
    modifies cr
    ensures Open(cr.points, Max(code, code + len - 1))
    ensures forall x :: InSet(cr.points, x) <==>
            InSet(old(cr.points), x) || (code <= x < code + len && (x - code) % 2 == 0)
  {
    hide InSet, Open;
    var i := 0;
    while i < len
      invariant 0 <= i <= len && i % 2 == 0 && Open(cr.points, Max(code, code + i - 1))
      invariant forall x :: InSet(cr.points, x) <==>
                InSet(old(cr.points), x) || (code <= x < code + i && (x - code) % 2 == 0)
    {
      OpenUp(cr.points, Max(code, code + i - 1), code + i);
      AppendInterval(cr.points, code + i, code + i + 1);
      cr.AddInterval(code + i, code + i + 1);
      i := i + 2;
    }
  }

  /** The mask: every code point that the conversion may change. */
  method CaseMask(t: Table, unicode: bool) returns (cr: CharRange)
    requires WellFormed(t, unicode)
    ensures fresh(cr) && Sorted(cr.points) && |cr.points| % 2 == 0 && Bounded(cr.points, UINT32_MAX)
    ensures forall x :: InSet(cr.points, x) <==> InMask(t, |t.runs|, unicode, x)
  {
    hide InSet, MaskedIn, AsciiAgrees;
    cr := new CharRange();
    var idx := 0;
    forall x ensures !InSet(cr.points, x) { NothingInSet(x); }
    while idx < |t.runs|
      invariant 0 <= idx <= |t.runs| && fresh(cr)
      invariant Open(cr.points, if idx < |t.runs| then CodeOf(t.runs[idx]) else UINT32_MAX)
      invariant forall x :: InSet(cr.points, x) <==> InMask(t, idx, unicode, x)
    {
      ghost var before := cr.points;
      AddRun(cr, t.runs[idx], unicode);
      ghost var now, next := cr.points, idx + 1;
      forall x ensures InSet(now, x) <==> InMask(t, next, unicode, x) {
        MaskStep(t, idx, unicode, x);
      }
      idx := idx + 1;
    }
  }

  lemma NothingInSet(x: int)
    ensures !InSet([], x)
  {
  }

  // ----- the image of the mask -----

  /** The canonical forms of the code points of a set below `c`. */
  ghost predicate Image(t: Table, unicode: bool, set0: seq<int>, c: int, y: int)
    requires |t.low| == |t.runs|
  {
    exists x: nat :: InSet(set0, x) && x < c && Canonical(t, x, unicode) == y
  }

  lemma ImageStep(t: Table, unicode: bool, set0: seq<int>, c: nat, y: int)
    requires |t.low| == |t.runs| && InSet(set0, c)
    ensures Image(t, unicode, set0, c + 1, y) <==> Image(t, unicode, set0, c, y) || y == Canonical(t, c, unicode)
  {
    hide InSet, Canonical;
    if x: nat :| InSet(set0, x) && x < c && Canonical(t, x, unicode) == y {
      assert x < c + 1;
    }
    if x: nat :| InSet(set0, x) && x < c + 1 && Canonical(t, x, unicode) == y {
      assert x < c || x == c;
    }
  }

  lemma ImageGap(t: Table, unicode: bool, set0: seq<int>, c: int, d: int, y: int)
    requires |t.low| == |t.runs| && c <= d && forall x :: c <= x < d ==> !InSet(set0, x)
    ensures Image(t, unicode, set0, c, y) <==> Image(t, unicode, set0, d, y)
  {
    hide InSet, Canonical;
    if x: nat :| InSet(set0, x) && x < d && Canonical(t, x, unicode) == y {
      assert x < c;
    }
    if x: nat :| InSet(set0, x) && x < c && Canonical(t, x, unicode) == y {
      assert x < d;
    }
  }

  /** The intervals written so far and the one being extended; -1 stands for none. */
  ghost predicate Gathered(pts: seq<int>, dStart: int, dEnd: int, y: int) {
    Covered(pts, y) || (dStart != -1 && dStart <= y < dEnd)
  }

  ghost predicate Gathering(pts: seq<int>, dStart: int, dEnd: int) {
    Proper(pts) && (dStart != -1 ==> 0 <= dStart < dEnd)
  }

  /** Extends the current interval by `d`, or starts a new one. */
  method PutPoint(result: CharRange, dStart0: int, dEnd0: int, d: nat) returns (dStart: int, dEnd: int)
    requires Gathering(result.points, dStart0, dEnd0)
    modifies result
    ensures Gathering(result.points, dStart, dEnd)
    ensures forall y :: Gathered(result.points, dStart, dEnd, y) <==>
            Gathered(old(result.points), dStart0, dEnd0, y) || y == d
  {
    hide Covered;
    dStart, dEnd := dStart0, dEnd0;
    if dStart == -1 {
      dStart, dEnd := d, d + 1;
    } else if dEnd == d {
      dEnd := dEnd + 1;
    } else {
      ghost var was := result.points;
      ProperPush(was, dStart, dEnd);
      result.AddInterval(dStart, dEnd);
      ghost var now := result.points;
      forall y ensures Covered(now, y) <==> Covered(was, y) || dStart0 <= y < dEnd0 {
        CoveredPush(was, dStart0, dEnd0, y);
      }
      dStart, dEnd := d, d + 1;
    }
  }

  lemma ProperPush(pts: seq<int>, p: int, q: int)
    requires Proper(pts) && p < q
    ensures Proper(pts + [p, q])
  {
    var now := pts + [p, q];
    forall k: nat | 2 * k + 1 < |now| ensures Start(now, k) < End(now, k) {
      if 2 * k + 1 < |pts| {
        assert Start(pts, k) < End(pts, k);
      }
    }
  }

  /** Every run before `idx` ends at or before `c`. */
  ghost predicate Passed(t: Table, idx: nat, c: int)
    requires idx <= |t.runs|
  {
    forall k :: 0 <= k < idx ==> CodeOf(t.runs[k]) + LenOf(t.runs[k]) <= c
  }

  /** Scans the table forward to the run that holds `c`; the scan never leaves the table. */
  method ScanTo(t: Table, unicode: bool, c: nat, idx0: nat) returns (idx: nat)
    requires WellFormed(t, unicode) && idx0 <= |t.runs| && Passed(t, idx0, c) && InMask(t, |t.runs|, unicode, c)
    ensures idx0 <= idx < |t.runs| && Passed(t, idx, c) && InRun(t.runs[idx], c) && MaskedIn(t.runs[idx], c, unicode)
  {
    hide AsciiAgrees;
    idx := idx0;
    ghost var k :| 0 <= k < |t.runs| && MaskedIn(t.runs[k], c, unicode);
    while !InRun(t.runs[idx], c)
      invariant idx0 <= idx <= k && Passed(t, idx, c)
      decreases k - idx
    {
      idx := idx + 1;
    }
    RunUnique(t, c, idx);
    RunUnique(t, c, k);
  }

  /** Folds one interval of the set. */
  method FoldInterval(t: Table, unicode: bool, result: CharRange, start: nat, end: nat, idx0: nat, dStart0: int,
                      dEnd0: int, ghost set0: seq<int>)
    returns (idx: nat, dStart: int, dEnd: int)
    requires WellFormed(t, unicode) && start <= end && idx0 <= |t.runs| && Passed(t, idx0, start)
    requires forall x :: start <= x < end ==> InSet(set0, x) && InMask(t, |t.runs|, unicode, x)
    requires Gathering(result.points, dStart0, dEnd0)
    requires forall y :: Gathered(result.points, dStart0, dEnd0, y) <==> Image(t, unicode, set0, start, y)
    modifies result
    ensures idx <= |t.runs| && Passed(t, idx, end) && Gathering(result.points, dStart, dEnd)
    ensures forall y :: Gathered(result.points, dStart, dEnd, y) <==> Image(t, unicode, set0, end, y)
  {
    hide InSet, Image, Gathered, Gathering, WellFormed, Canonical, InMask, MaskedIn;
    WellFormedOrdered(t, unicode);
    idx, dStart, dEnd := idx0, dStart0, dEnd0;
    var c := start;
    while c < end
      invariant start <= c <= end && idx <= |t.runs| && Passed(t, idx, c) && Gathering(result.points, dStart, dEnd)
      invariant forall y :: Gathered(result.points, dStart, dEnd, y) <==> Image(t, unicode, set0, c, y)
    {
      idx := ScanTo(t, unicode, c, idx);
      FoldIsCanonical(t, unicode, c, idx);
      var d := FoldEntry(t, c, idx, unicode);
      dStart, dEnd := PutPoint(result, dStart, dEnd, d);
      ghost var next := c + 1;
      forall y ensures Image(t, unicode, set0, next, y) <==> Image(t, unicode, set0, c, y) || y == d {
        ImageStep(t, unicode, set0, c, y);
      }
      c := c + 1;
    }
  }

  lemma WellFormedOrdered(t: Table, unicode: bool)
    requires WellFormed(t, unicode)
    ensures Ordered(t)
  {
  }

  lemma FoldIsCanonical(t: Table, unicode: bool, c: nat, idx: nat)
    requires WellFormed(t, unicode) && idx < |t.runs| && InRun(t.runs[idx], c) && MaskedIn(t.runs[idx], c, unicode)
    ensures FoldEntry(t, c, idx, unicode) == Canonical(t, c, unicode)
  {
    hide FoldEntry, Canonical, AsciiAgrees, MaskedIn;
    MaskedCanonical(t, c, unicode);
    RunUnique(t, c, idx);
  }

  /** The intervals that cover the canonical forms of a set inside the mask. */
  method FoldSet(t: Table, unicode: bool, inter: seq<int>) returns (result: CharRange)
    requires WellFormed(t, unicode) && StrictlySorted(inter) && |inter| % 2 == 0 && Bounded(inter, UINT32_MAX)
    requires forall x :: InSet(inter, x) ==> InMask(t, |t.runs|, unicode, x)
    ensures fresh(result) && Proper(result.points)
    ensures forall y :: Covered(result.points, y) <==> Image(t, unicode, inter, UINT32_MAX, y)
  {
    hide InSet, Image, Gathered, Gathering, WellFormed, InMask, Covered, Passed;
    WellFormedOrdered(t, unicode);
    result := new CharRange();
    var dStart, dEnd, idx: nat, i: nat := -1, -1, 0, 0;
    ghost var seen := 0;
    NothingGathered(t, unicode, inter);
    while i < |inter|
      invariant 0 <= i <= |inter| && i % 2 == 0 && fresh(result) && idx <= |t.runs| && 0 <= seen
                && (i < |inter| ==> seen <= inter[i])
      invariant seen == if i == 0 then 0 else inter[i - 1]
      invariant Passed(t, idx, seen) && Gathering(result.points, dStart, dEnd)
      invariant forall y :: Gathered(result.points, dStart, dEnd, y) <==> Image(t, unicode, inter, seen, y)
    {
      var start, end := inter[i], inter[i + 1];
      NoneBetween(inter, i);
      forall y ensures Image(t, unicode, inter, seen, y) <==> Image(t, unicode, inter, start, y) {
        ImageGap(t, unicode, inter, seen, start, y);
      }
      PassedUp(t, idx, seen, start);
      idx, dStart, dEnd := FoldInterval(t, unicode, result, start, end, idx, dStart, dEnd, inter);
      seen := end;
      i := i + 2;
    }
    NoneAfter(inter, seen);
    forall y ensures Image(t, unicode, inter, seen, y) <==> Image(t, unicode, inter, UINT32_MAX, y) {
      ImageGap(t, unicode, inter, seen, UINT32_MAX, y);
    }
    ghost var pts := result.points;
    FlushGathered(pts, dStart, dEnd);
    if dStart != -1 {
      result.AddInterval(dStart, dEnd);
    }
  }

  lemma PassedUp(t: Table, idx: nat, c: int, d: int)
    requires idx <= |t.runs| && Passed(t, idx, c) && c <= d
    ensures Passed(t, idx, d)
  {
  }

  lemma NothingGathered(t: Table, unicode: bool, inter: seq<int>)
    requires |t.low| == |t.runs|
    ensures Gathering([], -1, -1) && Passed(t, 0, 0)
    ensures forall y :: Gathered([], -1, -1, y) <==> Image(t, unicode, inter, 0, y)
  {
  }

  lemma FlushGathered(pts: seq<int>, dStart: int, dEnd: int)
    requires Gathering(pts, dStart, dEnd)
    ensures var out := if dStart != -1 then pts + [dStart, dEnd] else pts;
            Proper(out) && forall y :: Covered(out, y) <==> Gathered(pts, dStart, dEnd, y)
  {
    hide Covered;
    if dStart != -1 {
      ProperPush(pts, dStart, dEnd);
      var out := pts + [dStart, dEnd];
      forall y ensures Covered(out, y) <==> Gathered(pts, dStart, dEnd, y) { CoveredPush(pts, dStart, dEnd, y); }
    }
  }

  /** The interval at `i` belongs to the set, the gap before it does not. */
  lemma NoneBetween(pts: seq<int>, i: nat)
    requires StrictlySorted(pts) && |pts| % 2 == 0 && i % 2 == 0 && i + 1 < |pts| && Bounded(pts, UINT32_MAX)
    ensures forall x :: pts[i] <= x < pts[i + 1] ==> InSet(pts, x)
    ensures forall x :: (if i == 0 then 0 else pts[i - 1]) <= x < pts[i] ==> !InSet(pts, x)
  {
    var lo, mid, hi := if i == 0 then 0 else pts[i - 1], pts[i], pts[i + 1];
    forall x | mid <= x < hi ensures InSet(pts, x) { CountIsPrefix(pts, x, i + 1); }
    forall x | lo <= x < mid ensures !InSet(pts, x) { CountIsPrefix(pts, x, i); }
  }

  lemma NoneAfter(pts: seq<int>, seen: int)
    requires StrictlySorted(pts) && |pts| % 2 == 0 && seen == if pts == [] then 0 else pts[|pts| - 1]
    ensures forall x :: seen <= x ==> !InSet(pts, x)
  {
    forall x | seen <= x ensures !InSet(pts, x) { CountIsPrefix(pts, x, |pts|); }
  }

  // ----- the canonical set -----

  /** Replaces a set of code points by the set of their canonical forms. */
  method RegexpCanonicalize(cr: CharRange, t: Table, unicode: bool)
    requires WellFormed(t, unicode)
    requires Sorted(cr.points) && |cr.points| % 2 == 0 && Bounded(cr.points, UINT32_MAX)
    modifies cr
    ensures StrictlySorted(cr.points) && |cr.points| % 2 == 0 && Bounded(cr.points, UINT32_MAX)
    ensures forall y :: InSet(cr.points, y) <==>
            exists x: nat :: InSet(old(cr.points), x) && Canonical(t, x, unicode) == y
  {
    hide InSet, Image, WellFormed, InMask, Covered, Canonical;
    WellFormedOrdered(t, unicode);
    ghost var was := cr.points;
    var mask := CaseMask(t, unicode);
    var inter := new CharRange();
    inter.Op(mask.points, cr.points, Inter);
    BoundedFrom(inter.points, mask.points, cr.points);
    mask.Invert();
    var sub := new CharRange();
    sub.Op(mask.points, cr.points, Inter);
    ghost var inside, outside := inter.points, sub.points;
    var result := FoldSet(t, unicode, inter.points);
    SortAndRemoveOverlap(result);
    ghost var folded := result.points;
    cr.points := [];
    cr.Op(result.points, sub.points, Union);
    ghost var now := cr.points;
    forall y ensures InSet(now, y) <==> exists x: nat :: InSet(was, x) && Canonical(t, x, unicode) == y {
      assert InSet(now, y) <==> InSet(folded, y) || InSet(outside, y);
      assert InSet(folded, y) <==> Image(t, unicode, inside, UINT32_MAX, y);
      CanonicalMember(t, unicode, was, inside, outside, y);
    }
    FoldedBounded(t, unicode, was, now);
  }

  /** Canonical forms of code points are code points. */
  lemma FoldedBounded(t: Table, unicode: bool, was: seq<int>, now: seq<int>)
    requires WellFormed(t, unicode) && Sorted(was) && |was| % 2 == 0 && Bounded(was, UINT32_MAX)
    requires StrictlySorted(now) && |now| % 2 == 0
    requires forall y :: InSet(now, y) <==> exists x: nat :: InSet(was, x) && Canonical(t, x, unicode) == y
    ensures Bounded(now, UINT32_MAX)
  {
    hide InSet, Canonical;
    forall y | InSet(now, y) ensures 0 <= y < UINT32_MAX {
      var x: nat :| InSet(was, x) && Canonical(t, x, unicode) == y;
      BelowMax(was, x);
      CanonicalBelow(t, x, unicode, UINT32_MAX - 1);
    }
    EndsBounded(now);
  }

  /** The boundaries of a set are bounded when its members are. */
  lemma EndsBounded(pts: seq<int>)
    requires StrictlySorted(pts) && |pts| % 2 == 0 && forall y :: InSet(pts, y) ==> 0 <= y < UINT32_MAX
    ensures Bounded(pts, UINT32_MAX)
  {
    if pts != [] {
      var n := |pts|;
      CountIsPrefix(pts, pts[0], 1);
      assert InSet(pts, pts[0]);
      CountIsPrefix(pts, pts[n - 1] - 1, n - 1);
      assert InSet(pts, pts[n - 1] - 1);
    }
  }

  lemma BoundedFrom(pts: seq<int>, a: seq<int>, b: seq<int>)
    requires (forall i :: 0 <= i < |pts| ==> pts[i] in a || pts[i] in b) && Bounded(a, UINT32_MAX)
             && Bounded(b, UINT32_MAX)
    ensures Bounded(pts, UINT32_MAX)
  {
  }

  /** A code point is the canonical form of a member iff it folds from the mask or lies outside it. */
  lemma CanonicalMember(t: Table, unicode: bool, was: seq<int>, inside: seq<int>, outside: seq<int>, y: int)
    requires WellFormed(t, unicode) && Sorted(was) && |was| % 2 == 0 && Bounded(was, UINT32_MAX)
    requires forall x :: InSet(inside, x) <==> InMask(t, |t.runs|, unicode, x) && InSet(was, x)
    requires forall x :: InSet(outside, x) <==> 0 <= x < UINT32_MAX && !InMask(t, |t.runs|, unicode, x) && InSet(was, x)
    ensures Image(t, unicode, inside, UINT32_MAX, y) || InSet(outside, y) <==>
            exists x: nat :: InSet(was, x) && Canonical(t, x, unicode) == y
  {
    hide InSet, WellFormed, InMask, Canonical, Sorted;
    WellFormedOrdered(t, unicode);
    if x: nat :| InSet(was, x) && Canonical(t, x, unicode) == y {
      BelowMax(was, x);
      if InMask(t, |t.runs|, unicode, x) {
        assert InSet(inside, x);
      } else {
        UnmaskedCanonical(t, unicode, x);
        assert InSet(outside, x);
      }
    }
    if InSet(outside, y) {
      UnmaskedCanonical(t, unicode, y);
      assert InSet(was, y);
    }
  }

  lemma BelowMax(pts: seq<int>, x: int)
    requires Sorted(pts) && |pts| % 2 == 0 && Bounded(pts, UINT32_MAX) && InSet(pts, x)
    ensures 0 <= x < UINT32_MAX
  {
    if x >= UINT32_MAX {
      AllBelow(pts, x);
    } else if x < 0 {
      CountNone(pts, x);
    }
  }

  lemma UnmaskedCanonical(t: Table, unicode: bool, x: nat)
    requires WellFormed(t, unicode) && !InMask(t, |t.runs|, unicode, x)
    ensures Canonical(t, x, unicode) == x
  {
    hide AsciiAgrees, Canonical, MaskedIn;
    MaskedCanonical(t, x, unicode);
  }
}
