/** Interval lists that are neither sorted nor apart: sorting them and merging what overlaps. */
module Overlaps {
  import CharSet
  import opened CharRanges
  import Sorting
  import QuickSort

  predicate At(pts: seq<int>, k: nat, x: int)
    requires 2 * k + 1 < |pts|
  {
    pts[2 * k] <= x < pts[2 * k + 1]
  }

  /** Some interval of the list holds `x`. */
  ghost predicate Covered(pts: seq<int>, x: int) {
    exists k: nat :: 2 * k + 1 < |pts| && At(pts, k, x)
  }

  /** Every interval is non-empty. */
  ghost predicate Proper(pts: seq<int>) {
    |pts| % 2 == 0 && forall k: nat :: 2 * k + 1 < |pts| ==> Start(pts, k) < End(pts, k)
  }

  function Start(pts: seq<int>, k: nat): int
    requires 2 * k + 1 < |pts|
  {
    pts[2 * k]
  }

  function End(pts: seq<int>, k: nat): int
    requires 2 * k + 1 < |pts|
  {
    pts[2 * k + 1]
  }

  ghost predicate StartsSorted(pts: seq<int>) {
    forall k: nat, l: nat :: k < l && 2 * l + 1 < |pts| ==> Start(pts, k) <= Start(pts, l)
  }

  // ----- pairs -----

  function ToPairs(pts: seq<int>): (ps: seq<(int, int)>)
    ensures |ps| == |pts| / 2
    ensures forall k :: 0 <= k < |ps| ==> ps[k] == (pts[2 * k], pts[2 * k + 1])
  {
    seq(|pts| / 2, k requires 0 <= k < |pts| / 2 => (pts[2 * k], pts[2 * k + 1]))
  }

  function FromPairs(ps: seq<(int, int)>): (pts: seq<int>)
    ensures |pts| == 2 * |ps|
    ensures forall k :: 0 <= k < |ps| ==> pts[2 * k] == ps[k].0 && pts[2 * k + 1] == ps[k].1
  {
    seq(2 * |ps|, i requires 0 <= i < 2 * |ps| => if i % 2 == 0 then ps[i / 2].0 else ps[i / 2].1)
  }

  /** The comparison of two intervals: by their starts. */
  function PointCmp(a: (int, int), b: (int, int)): int {
    if a.0 > b.0 then 1 else if a.0 < b.0 then -1 else 0
  }

  lemma PointCmpOrder(cmp: Sorting.Comparator<(int, int)>)
    requires forall n, x, y :: cmp.answer(n, x, y) == PointCmp(x, y)
    ensures cmp.Consistent() && forall x, y :: cmp.Order()(x, y) == PointCmp(x, y)
  {
  }

  /** Sorts the intervals by their starts. */
  method SortPairs(pts: seq<int>) returns (r: seq<int>)
    requires Proper(pts)
    ensures |r| == |pts| && Proper(r) && StartsSorted(r)
    ensures forall x :: Covered(r, x) <==> Covered(pts, x)
  {
    var ps := ToPairs(pts);
    var a := new (int, int)[|ps|](k requires 0 <= k < |ps| => ps[k]);
    assert a[..] == ps;
    var cmp := new Sorting.Comparator((_, x, y) => PointCmp(x, y));
    QuickSort.Rqsort(a, cmp);
    PointCmpOrder(cmp);
    r := FromPairs(a[..]);
    PairsKept(pts, a[..], r);
  }

  lemma PairsKept(pts: seq<int>, qs: seq<(int, int)>, r: seq<int>)
    requires Proper(pts) && multiset(qs) == multiset(ToPairs(pts)) && Sorting.Sorted(PointCmp, qs) && r == FromPairs(qs)
    ensures |r| == |pts| && Proper(r) && StartsSorted(r)
    ensures forall x :: Covered(r, x) <==> Covered(pts, x)
  {
    var ps := ToPairs(pts);
    assert |qs| == |multiset(qs)| && |ps| == |multiset(ps)|;
    forall k: nat | 2 * k + 1 < |r| ensures Start(r, k) < End(r, k) {
      var m := SameElement(qs, ps, k);
      assert Start(pts, m) < End(pts, m);
    }
    forall k: nat, l: nat | k < l && 2 * l + 1 < |r| ensures Start(r, k) <= Start(r, l) {
      assert PointCmp(qs[k], qs[l]) <= 0;
    }
    forall x ensures Covered(r, x) <==> Covered(pts, x) {
      if k: nat :| 2 * k + 1 < |r| && At(r, k, x) {
        var m := SameElement(qs, ps, k);
        assert At(pts, m, x);
      }
      if k: nat :| 2 * k + 1 < |pts| && At(pts, k, x) {
        var m := SameElement(ps, qs, k);
        assert At(r, m, x);
      }
    }
  }

  lemma SameElement(qs: seq<(int, int)>, ps: seq<(int, int)>, k: nat) returns (m: nat)
    requires multiset(qs) == multiset(ps) && k < |qs|
    ensures m < |ps| && ps[m] == qs[k]
  {
    assert qs[k] in multiset(qs);
    assert qs[k] in ps;
    m :| 0 <= m < |ps| && ps[m] == qs[k];
  }

  // ----- merging -----

  /** The first `j` points, overwritten, cover what the first `i` original ones covered. */
  ghost predicate Joined(pts: seq<int>, was: seq<int>, i: nat, j: nat)
    requires j <= |pts| && i <= |was|
  {
    && CharSet.StrictlySorted(pts[..j]) && (j > 0 && i < |was| ==> pts[j - 1] < was[i])
    && (forall x :: Covered(pts[..j], x) <==> Covered(was[..i], x))
  }

  /** An interval list with one more interval. */
  lemma CoveredPush(a: seq<int>, p: int, q: int, x: int)
    requires |a| % 2 == 0
    ensures Covered(a + [p, q], x) <==> Covered(a, x) || p <= x < q
  {
    var b := a + [p, q];
    if k: nat :| 2 * k + 1 < |a| && At(a, k, x) {
      assert At(b, k, x);
    }
    if p <= x < q {
      assert At(b, |a| / 2, x);
    }
    if k: nat :| 2 * k + 1 < |b| && At(b, k, x) {
      if 2 * k + 1 < |a| {
        assert At(a, k, x);
      }
    }
  }

  lemma CoveredSnoc(pts: seq<int>, i: nat, x: int)
    requires i % 2 == 0 && i + 1 < |pts|
    ensures Covered(pts[..i + 2], x) <==> Covered(pts[..i], x) || pts[i] <= x < pts[i + 1]
  {
    assert pts[..i + 2] == pts[..i] + [pts[i], pts[i + 1]];
    CoveredPush(pts[..i], pts[i], pts[i + 1], x);
  }

  /** The current interval and the ones before cover what was covered so far. */
  ghost predicate Merging(out: seq<int>, start: int, end: int, was: seq<int>, i: nat)
    requires i <= |was|
  {
    && start < end && (forall k: nat :: 2 * k + 1 < |was| && i <= 2 * k ==> start <= Start(was, k))
    && (forall x :: Covered(was[..i], x) <==> Covered(out, x) || start <= x < end)
  }

  lemma MergeMore(out: seq<int>, start: int, end: int, was: seq<int>, i: nat, end': int)
    requires i % 2 == 0 && i + 1 < |was| && Proper(was) && Merging(out, start, end, was, i) && was[i] <= end
    requires end' == if was[i + 1] <= end then end else was[i + 1]
    ensures Merging(out, start, end', was, i + 2)
  {
    var after := was[..i + 2];
    assert start <= Start(was, i / 2) && Start(was, i / 2) < End(was, i / 2);
    forall x ensures Covered(after, x) <==> Covered(out, x) || start <= x < end' {
      CoveredSnoc(was, i, x);
    }
  }

  /** Merges the intervals that follow into the one given, as long as they overlap or touch it. */
  method MergeRun(points: seq<int>, start: int, end0: int, i0: nat, ghost out: seq<int>, ghost was: seq<int>)
    returns (end: int, i: nat)
    requires |points| == |was| && i0 % 2 == 0 && i0 <= |was| && points[i0..] == was[i0..] && Proper(was)
             && StartsSorted(was)
    requires Merging(out, start, end0, was, i0)
    ensures i0 <= i <= |was| && i % 2 == 0 && Merging(out, start, end, was, i) && (i < |was| ==> end < was[i])
  {
    hide Merging, Proper, StartsSorted;
    end, i := end0, i0;
    EvenLength(was);
    while i < |points|
      invariant i0 <= i <= |was| && i % 2 == 0 && Merging(out, start, end, was, i)
    {
      assert points[i] == points[i0..][i - i0] == was[i] && points[i + 1] == points[i0..][i + 1 - i0] == was[i + 1];
      if points[i] > end {
        break;
      }
      ghost var end' := if was[i + 1] <= end then end else was[i + 1];
      MergeMore(out, start, end, was, i, end');
      if points[i + 1] > end {
        end := points[i + 1];
      }
      i := i + 2;
    }
  }

  lemma EvenLength(was: seq<int>)
    requires Proper(was)
    ensures |was| % 2 == 0
  {
  }

  lemma MergeStart(pts: seq<int>, was: seq<int>, i: nat, j: nat)
    requires |pts| == |was| && j <= i && i % 2 == 0 && i + 1 < |was| && Proper(was) && StartsSorted(was)
             && Joined(pts, was, i, j)
    ensures Merging(pts[..j], was[i], was[i + 1], was, i + 2)
  {
    var after := was[..i + 2];
    assert Start(was, i / 2) < End(was, i / 2);
    forall x ensures Covered(after, x) <==> Covered(pts[..j], x) || was[i] <= x < was[i + 1] {
      CoveredSnoc(was, i, x);
      assert Covered(pts[..j], x) <==> Covered(was[..i], x);
    }
    forall k: nat | 2 * k + 1 < |was| && i + 2 <= 2 * k ensures was[i] <= Start(was, k) {
      assert Start(was, i / 2) <= Start(was, k);
    }
  }

  lemma JoinOne(pts: seq<int>, now: seq<int>, was: seq<int>, i: nat, i': nat, j: nat, end: int)
    requires |pts| == |was| && j % 2 == 0 && j <= i && i + 1 < |was| && i + 2 <= i' <= |was| && Joined(pts, was, i, j)
    requires Merging(pts[..j], was[i], end, was, i') && (i' < |was| ==> end < was[i'])
    requires now == pts[j := was[i]][j + 1 := end]
    ensures Joined(now, was, i', j + 2)
  {
    var head := pts[..j];
    assert now[..j + 2] == head + [was[i]] + [end];
    PushTwo(head, was[i], end);
    var out, after := now[..j + 2], was[..i'];
    assert out == head + [was[i], end];
    forall x ensures Covered(out, x) <==> Covered(after, x) {
      CoveredPush(head, was[i], end, x);
    }
  }

  /** Sorts the intervals and removes overlaps, in place. */
  method SortAndRemoveOverlap(cr: CharRange)
    requires Proper(cr.points)
    modifies cr
    ensures CharSet.StrictlySorted(cr.points) && |cr.points| % 2 == 0
    ensures forall x :: CharSet.InSet(cr.points, x) <==> Covered(old(cr.points), x)
  {
    hide Joined, Merging, Covered, Proper, StartsSorted;
    cr.points := SortPairs(cr.points);
    ghost var was := cr.points;
    var points := cr.points;
    var i, j := 0, 0;
    JoinedStart(was);
    EvenLength(was);
    while i < |points|
      invariant |points| == |was| && 0 <= j <= i <= |was| && i % 2 == 0 && j % 2 == 0
      invariant points[i..] == was[i..] && Joined(points, was, i, j)
    {
      assert points[i] == points[i..][0] && points[i + 1] == points[i..][1];
      var start, end := points[i], points[i + 1];
      MergeStart(points, was, i, j);
      assert points[i + 2..] == points[i..][2..] == was[i + 2..];
      var i';
      end, i' := MergeRun(points, start, end, i + 2, points[..j], was);
      JoinOne(points, points[j := start][j + 1 := end], was, i, i', j, end);
      ghost var before := points;
      points := points[j := start][j + 1 := end];
      assert points[i'..] == before[i'..] == before[i..][i' - i..] == was[i'..];
      i, j := i', j + 2;
    }
    JoinedEnd(points, was, j);
    cr.points := points[..j];
  }

  lemma JoinedStart(was: seq<int>)
    ensures Joined(was, was, 0, 0)
  {
    assert was[..0] == [];
  }

  lemma JoinedEnd(pts: seq<int>, was: seq<int>, j: nat)
    requires |pts| == |was| && j <= |was| && j % 2 == 0 && Joined(pts, was, |was|, j)
    ensures CharSet.StrictlySorted(pts[..j])
    ensures forall x :: CharSet.InSet(pts[..j], x) <==> Covered(was, x)
  {
    assert was[..|was|] == was;
    var out := pts[..j];
    forall x ensures CharSet.InSet(out, x) <==> Covered(was, x) {
      CharSet.InSetIsInterval(out, x);
      assert Covered(out, x) <==> Covered(was, x);
      if k :| 0 <= k < |out| / 2 && out[2 * k] <= x < out[2 * k + 1] {
        assert At(out, k, x);
      }
      if k: nat :| 2 * k + 1 < |out| && At(out, k, x) {
        assert out[2 * k] <= x < out[2 * k + 1];
      }
    }
  }
}
