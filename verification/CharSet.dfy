/**
 The meaning of a boundary list: a nondecreasing list of points stands for the
 set of code points that have an odd number of points at or below them.
 */
module CharSet {

  function CountLe(pts: seq<int>, x: int): (n: nat)
    ensures n <= |pts|
  {
    if pts == [] then 0
    else CountLe(pts[..|pts| - 1], x) + (if pts[|pts| - 1] <= x then 1 else 0)
  }

  predicate InSet(pts: seq<int>, x: int) {
    CountLe(pts, x) % 2 == 1
  }

  ghost predicate Sorted(pts: seq<int>) {
    forall i, j :: 0 <= i <= j < |pts| ==> pts[i] <= pts[j]
  }

  ghost predicate StrictlySorted(pts: seq<int>) {
    forall i, j :: 0 <= i < j < |pts| ==> pts[i] < pts[j]
  }

  ghost predicate Bounded(pts: seq<int>, max: int) {
    forall i :: 0 <= i < |pts| ==> 0 <= pts[i] <= max
  }

  /** In a sorted list the points at or below `x` are a prefix. */
  lemma {:induction false} CountIsPrefix(pts: seq<int>, x: int, k: nat)
    requires Sorted(pts) && k <= |pts|
    requires forall i :: 0 <= i < k ==> pts[i] <= x
    requires forall i :: k <= i < |pts| ==> x < pts[i]
    ensures CountLe(pts, x) == k
  {
    if pts != [] {
      var n := |pts| - 1;
      CountIsPrefix(pts[..n], x, if k <= n then k else n);
    }
  }

  lemma {:induction false} PrefixOfCount(pts: seq<int>, x: int)
    requires Sorted(pts)
    ensures forall i :: 0 <= i < CountLe(pts, x) ==> pts[i] <= x
    ensures forall i :: CountLe(pts, x) <= i < |pts| ==> x < pts[i]
  {
    if pts != [] {
      var n := |pts| - 1;
      PrefixOfCount(pts[..n], x);
    }
  }

  /** The parity meaning is the interval meaning. */
  lemma InSetIsInterval(pts: seq<int>, x: int)
    requires Sorted(pts) && |pts| % 2 == 0
    ensures InSet(pts, x) <==> exists i :: 0 <= i < |pts| / 2 && pts[2 * i] <= x < pts[2 * i + 1]
  {
    PrefixOfCount(pts, x);
    var n := CountLe(pts, x);
    if n % 2 == 1 {
      assert pts[2 * (n / 2)] <= x < pts[2 * (n / 2) + 1];
    }
    if i :| 0 <= i < |pts| / 2 && pts[2 * i] <= x < pts[2 * i + 1] {
      assert 2 * i < n && n <= 2 * i + 1;
    }
  }
}
