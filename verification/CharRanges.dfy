/**
 Sets of code points as boundary lists: the merge that computes the set
 operations, the removal of empty and touching intervals, and the complement.
 */
module CharRanges {
  import opened Basics
  import opened CharSet

  datatype SetOp = Union | Inter | Xor | Sub

  /** The set that a boundary list stands for. */
  ghost function Members(pts: seq<int>): iset<int> { iset x | InSet(pts, x) }

  ghost function Combined(op: SetOp, a: iset<int>, b: iset<int>): iset<int> {
    match op
    case Union => a + b
    case Inter => a * b
    case Xor => (a - b) + (b - a)
    case Sub => a - b
  }

  predicate Apply(op: SetOp, a: bool, b: bool) {
    match op
    case Union => a || b
    case Inter => a && b
    case Xor => a != b
    case Sub => a && !b
  }

  // ----- counting points -----

  function Le(p: int, x: int): nat { if p <= x then 1 else 0 }

  lemma CountSnoc(pts: seq<int>, i: nat, x: int)
    requires i < |pts|
    ensures CountLe(pts[..i + 1], x) == CountLe(pts[..i], x) + Le(pts[i], x)
  {
    assert pts[..i + 1][..i] == pts[..i];
  }

  lemma CountPush(pts: seq<int>, p: int, x: int)
    ensures CountLe(pts + [p], x) == CountLe(pts, x) + Le(p, x)
  {
    assert (pts + [p])[..|pts|] == pts;
  }

  lemma InSetPush(pts: seq<int>, p: int, x: int)
    ensures InSet(pts + [p], x) == (InSet(pts, x) != (p <= x))
  {
    CountPush(pts, p, x);
  }

  lemma InSetSnoc(pts: seq<int>, i: nat, x: int)
    requires i < |pts|
    ensures InSet(pts[..i + 1], x) == (InSet(pts[..i], x) != (pts[i] <= x))
  {
    CountSnoc(pts, i, x);
  }

  lemma {:induction false} CountAppend(a: seq<int>, b: seq<int>, x: int)
    ensures CountLe(a + b, x) == CountLe(a, x) + CountLe(b, x)
    decreases |b|
  {
    if b == [] {
      assert a + b == a;
    } else {
      var n := |b| - 1;
      assert (a + b)[..|a + b| - 1] == a + b[..n];
      CountAppend(a, b[..n], x);
    }
  }

  lemma {:induction false} CountAll(pts: seq<int>, x: int)
    requires forall i :: 0 <= i < |pts| ==> pts[i] <= x
    ensures CountLe(pts, x) == |pts|
    decreases |pts|
  {
    if pts != [] {
      CountAll(pts[..|pts| - 1], x);
    }
  }

  lemma {:induction false} CountNone(pts: seq<int>, x: int)
    requires forall i :: 0 <= i < |pts| ==> x < pts[i]
    ensures CountLe(pts, x) == 0
    decreases |pts|
  {
    if pts != [] {
      CountNone(pts[..|pts| - 1], x);
    }
  }

  // ----- canonical lists -----

  ghost predicate SameSet(a: seq<int>, b: seq<int>) {
    forall x :: InSet(a, x) == InSet(b, x)
  }

  /** Strictly increasing lists of the same set are equal. */
  lemma {:induction false} CanonicalUnique(a: seq<int>, b: seq<int>)
    requires StrictlySorted(a) && StrictlySorted(b) && SameSet(a, b)
    ensures a == b
    decreases |a| + |b|
  {
    if a == [] && b == [] {
      return;
    }
    if a == [] || (b != [] && a[|a| - 1] < b[|b| - 1]) {
      LastPointSeen(b, a);
    } else if b == [] || b[|b| - 1] < a[|a| - 1] {
      LastPointSeen(a, b);
    } else {
      var m, n := |a| - 1, |b| - 1;
      forall x ensures InSet(a[..m], x) == InSet(b[..n], x) {
        assert InSet(a, x) == InSet(b, x);
      }
      CanonicalUnique(a[..m], b[..n]);
      assert a == a[..m] + [a[m]] && b == b[..n] + [b[n]];
    }
  }

  /** The last point of a list shows in the set unless the other list reaches it. */
  lemma LastPointSeen(a: seq<int>, b: seq<int>)
    requires StrictlySorted(a) && StrictlySorted(b) && a != [] && (b == [] || b[|b| - 1] < a[|a| - 1])
    ensures !SameSet(a, b)
  {
    var v := a[|a| - 1];
    CountAll(a, v);
    CountAll(a[..|a| - 1], v - 1);
    CountAll(b, v);
    CountAll(b, v - 1);
    assert InSet(a, v) != InSet(a, v - 1) && InSet(b, v) == InSet(b, v - 1);
  }

  class CharRange {
    var points: seq<int>

    constructor ()
      ensures points == []
    {
      points := [];
    }

    method AddPoint(v: int)
      modifies this
      ensures points == old(points) + [v]
    {
      points := points + [v];
    }

    method AddInterval(c1: int, c2: int)
      modifies this
      ensures points == old(points) + [c1, c2]
    {
      points := points + [c1, c2];
    }

    /** Merges touching intervals and removes empty ones, in place. */
    method Compress()
      requires Sorted(points)
      modifies this
      ensures StrictlySorted(points) && |points| % 2 == 0
      ensures old(|points|) % 2 == 0 ==> SameSet(points, old(points))
      ensures forall i :: 0 <= i < |points| ==> points[i] in old(points)
    {
      hide InSet, RunParity, Compressed;
      ghost var was := points;
      var i, k, len := 0, 0, |points|;
      NothingYet(was);
      while i + 1 < len
        invariant 0 <= k <= i <= len == |points| && k % 2 == 0 && i % 2 == 0
        invariant points[i..] == was[i..] && Compressed(points, was, i, k)
      {
        assert points[i] == was[i] && points[i + 1] == was[i + 1];
        if points[i] == points[i + 1] {
          SkipEmpty(points, was, i, k);
          i := i + 2;
        } else {
          var j := RunEnd(i, was);
          ghost var pts := points;
          points := points[k := points[i]];
          points := points[k + 1 := points[j + 1]];
          CopyRun(pts, points, was, i, j, k);
          k := k + 2;
          i := j + 2;
        }
      }
      CompressDone(points, was, i, k);
      points := points[..k];
    }

    /** The run at `i` of a list whose part before `i` may have been overwritten. */
    method RunEnd(i: nat, ghost was: seq<int>) returns (j: nat)
      requires |points| == |was| && i + 1 < |was| && Sorted(was) && points[i..] == was[i..]
      ensures i <= j && j % 2 == i % 2 && j + 1 < |was| && (j + 3 < |was| ==> was[j + 1] < was[j + 2])
      ensures points[j + 1] == was[j + 1] && RunParity(was, i, j)
    {
      j := i;
      StartOfRun(was, i);
      while j + 3 < |points| && points[j + 1] == points[j + 2]
        invariant i <= j && j % 2 == i % 2 && j + 1 < |was|
        invariant RunParity(was, i, j)
      {
        assert points[i..][j + 1 - i] == was[j + 1] && points[i..][j + 2 - i] == was[j + 2];
        RunStep(was, i, j);
        j := j + 2;
      }
      assert points[i..][j + 1 - i] == was[j + 1];
      if j + 3 < |points| {
        assert points[i..][j + 2 - i] == was[j + 2];
      }
    }

    /** Merges two boundary lists point by point; a point is kept when the status changes. */
    method Op(a: seq<int>, b: seq<int>, op: SetOp)
      requires points == [] && Sorted(a) && Sorted(b) && |a| % 2 == 0 && |b| % 2 == 0
      modifies this
      ensures StrictlySorted(points) && |points| % 2 == 0
      ensures Members(points) == Combined(op, Members(a), Members(b))
      ensures forall x :: InSet(points, x) == Apply(op, InSet(a, x), InSet(b, x))
      ensures forall i :: 0 <= i < |points| ==> points[i] in a || points[i] in b
    {
      var aIdx: nat, bIdx: nat, v := 0, 0, 0;
      while aIdx < |a| || bIdx < |b|
        invariant aIdx <= |a| && bIdx <= |b| && Merged(points, a, b, aIdx, bIdx, op)
        decreases |a| - aIdx + |b| - bIdx
      {
        ghost var i, j := aIdx, bIdx;
        if aIdx < |a| && bIdx < |b| {
          if a[aIdx] < b[bIdx] {
            v, aIdx := a[aIdx], aIdx + 1;
          } else if a[aIdx] == b[bIdx] {
            v, aIdx, bIdx := a[aIdx], aIdx + 1, bIdx + 1;
          } else {
            v, bIdx := b[bIdx], bIdx + 1;
          }
        } else if aIdx < |a| {
          v, aIdx := a[aIdx], aIdx + 1;
        } else {
          v, bIdx := b[bIdx], bIdx + 1;
        }
        ghost var pts := points;
        var isIn := Apply(op, aIdx % 2 == 1, bIdx % 2 == 1);
        if isIn != (|points| % 2 == 1) {
          AddPoint(v);
        }
        MergeStep(pts, points, a, b, i, j, aIdx, bIdx, v, op);
      }
      MergeDone(points, a, b, op);
      Compress();
    }

    /** The set operation with this set as the first operand. */
    method Op1(b: seq<int>, op: SetOp)
      requires Sorted(points) && Sorted(b) && |points| % 2 == 0 && |b| % 2 == 0
      modifies this
      ensures StrictlySorted(points) && |points| % 2 == 0
      ensures Members(points) == Combined(op, Members(old(points)), Members(b))
      ensures forall x :: InSet(points, x) == Apply(op, InSet(old(points), x), InSet(b, x))
    {
      var a := points;
      points := [];
      Op(a, b, op);
    }

    /** Adds the interval from c1 to c2, both included. */
    method UnionInterval(c1: int, c2: int)
      requires Sorted(points) && |points| % 2 == 0 && c1 <= c2
      modifies this
      ensures StrictlySorted(points) && |points| % 2 == 0
      ensures forall x :: InSet(points, x) <==> InSet(old(points), x) || c1 <= x <= c2
    {
      var interval := [c1, c2 + 1];
      forall x ensures InSet(interval, x) <==> c1 <= x <= c2 { TwoPoints(c1, c2 + 1, x); }
      Op1(interval, Union);
    }

    /** The complement in [0, UINT32_MAX). */
    method Invert()
      requires Sorted(points) && |points| % 2 == 0 && Bounded(points, UINT32_MAX)
      modifies this
      ensures StrictlySorted(points) && |points| % 2 == 0 && Bounded(points, UINT32_MAX)
      ensures forall x :: InSet(points, x) <==> 0 <= x < UINT32_MAX && !InSet(old(points), x)
    {
      hide InSet;
      ghost var was := points;
      points := [0] + points + [UINT32_MAX];
      ghost var pts := points;
      forall x ensures InSet(pts, x) <==> 0 <= x < UINT32_MAX && !InSet(was, x) { InvertPoint(was, x); }
      Compress();
      ghost var now := points;
      forall i | 0 <= i < |now| ensures 0 <= now[i] <= UINT32_MAX { assert now[i] in pts; }
    }

    /** Two complements restore a canonical list. */
    method InvertTwice()
      requires StrictlySorted(points) && |points| % 2 == 0 && Bounded(points, UINT32_MAX)
      modifies this
      ensures points == old(points)
    {
      ghost var was := points;
      Invert();
      Invert();
      forall x ensures InSet(points, x) == InSet(was, x) {
        if x < 0 {
          CountNone(was, x);
        } else if x >= UINT32_MAX {
          CountAll(was, x);
        }
      }
      CanonicalUnique(points, was);
    }
  }

  // ----- compressing -----

  /** The first `k` points, overwritten, stand for the first `i` original ones. */
  ghost predicate Compressed(points: seq<int>, was: seq<int>, i: nat, k: nat)
    requires k <= |points| && i <= |was|
  {
    && StrictlySorted(points[..k]) && (k > 0 && i + 1 < |was| ==> points[k - 1] < was[i])
    && SameSet(points[..k], was[..i])
    && (forall n :: 0 <= n < k ==> points[n] in was)
  }

  /** A run of touching intervals counts like its two end points. */
  predicate RunAt(pts: seq<int>, i: nat, j: nat, x: int)
    requires i <= j && j + 1 < |pts|
  {
    InSet(pts[..j + 2], x) == (InSet(pts[..i], x) != ((pts[i] <= x) != (pts[j + 1] <= x)))
  }

  ghost predicate RunParity(pts: seq<int>, i: nat, j: nat)
    requires i <= j && j + 1 < |pts|
  {
    forall x :: RunAt(pts, i, j, x)
  }

  lemma StartOfRun(pts: seq<int>, i: nat)
    requires i + 1 < |pts|
    ensures RunParity(pts, i, i)
  {
    hide InSet;
    forall x ensures RunAt(pts, i, i, x) {
      InSetSnoc(pts, i, x);
      InSetSnoc(pts, i + 1, x);
    }
  }

  lemma RunStep(pts: seq<int>, i: nat, j: nat)
    requires i <= j && j + 3 < |pts| && RunParity(pts, i, j) && pts[j + 1] == pts[j + 2]
    ensures RunParity(pts, i, j + 2)
  {
    hide InSet;
    var next := j + 2;
    forall x ensures RunAt(pts, i, next, x) {
      InSetSnoc(pts, j + 2, x);
      InSetSnoc(pts, j + 3, x);
      assert RunAt(pts, i, j, x);
    }
  }

  lemma NothingYet(was: seq<int>)
    ensures Compressed(was, was, 0, 0)
  {
    assert was[..0] == [];
  }

  lemma SkipEmpty(points: seq<int>, was: seq<int>, i: nat, k: nat)
    requires k <= |points| && i + 1 < |was| && Sorted(was) && Compressed(points, was, i, k) && was[i] == was[i + 1]
    ensures Compressed(points, was, i + 2, k)
  {
    hide InSet;
    var after := was[..i + 2];
    forall x ensures InSet(points[..k], x) == InSet(after, x) {
      InSetSnoc(was, i, x);
      InSetSnoc(was, i + 1, x);
      assert InSet(points[..k], x) == InSet(was[..i], x);
    }
  }

  lemma CopyRun(pts: seq<int>, points: seq<int>, was: seq<int>, i: nat, j: nat, k: nat)
    requires |pts| == |points| == |was| && k <= i <= j && j + 1 < |was| && Sorted(was) && was[i] < was[i + 1]
    requires Compressed(pts, was, i, k) && RunParity(was, i, j) && pts[i..] == was[i..]
    requires j + 3 < |was| ==> was[j + 1] < was[j + 2]
    requires points == pts[k := was[i]][k + 1 := was[j + 1]]
    ensures Compressed(points, was, j + 2, k + 2) && points[j + 2..] == was[j + 2..]
  {
    hide InSet, RunParity;
    var head, p, q := pts[..k], was[i], was[j + 1];
    assert points[..k + 2] == head + [p] + [q];
    assert was[i + 1] <= q;
    CopyRunSet(head, was, i, j);
    PushTwo(head, p, q);
    var m := k + 2;
    forall n | 0 <= n < m ensures points[n] in was {
      if n < k {
        assert points[n] == pts[n];
      }
    }
    assert forall n :: j + 2 <= n < |was| ==> points[n] == pts[n] == pts[i..][n - i] == was[i..][n - i] == was[n];
  }

  lemma CopyRunSet(head: seq<int>, was: seq<int>, i: nat, j: nat)
    requires i <= j && j + 1 < |was| && SameSet(head, was[..i]) && RunParity(was, i, j)
    ensures SameSet(head + [was[i]] + [was[j + 1]], was[..j + 2])
  {
    hide InSet;
    var out, after := head + [was[i]] + [was[j + 1]], was[..j + 2];
    forall x ensures InSet(out, x) == InSet(after, x) {
      InSetPush(head, was[i], x);
      InSetPush(head + [was[i]], was[j + 1], x);
      assert RunAt(was, i, j, x);
      assert InSet(head, x) == InSet(was[..i], x);
    }
  }

  lemma PushTwo(head: seq<int>, p: int, q: int)
    requires StrictlySorted(head) && (head != [] ==> head[|head| - 1] < p) && p < q
    ensures StrictlySorted(head + [p] + [q])
  {
  }

  lemma CompressDone(points: seq<int>, was: seq<int>, i: nat, k: nat)
    requires k <= i <= |was| == |points| && i % 2 == 0 && !(i + 1 < |was|) && Compressed(points, was, i, k)
    ensures StrictlySorted(points[..k]) && (|was| % 2 == 0 ==> SameSet(points[..k], was))
    ensures forall n :: 0 <= n < k ==> points[..k][n] in was
  {
    if |was| % 2 == 0 {
      assert was[..i] == was;
    }
  }

  // ----- merging -----

  /** The points kept so far stand for the operation on the points seen so far. */
  ghost predicate Merged(points: seq<int>, a: seq<int>, b: seq<int>, i: nat, j: nat, op: SetOp)
    requires i <= |a| && j <= |b|
  {
    && Sorted(points) && (|points| % 2 == 1) == Apply(op, i % 2 == 1, j % 2 == 1)
    && (forall n :: 0 <= n < |points| ==> points[n] in a || points[n] in b)
    && (forall n :: 0 <= n < |points| ==> (i < |a| ==> points[n] <= a[i]) && (j < |b| ==> points[n] <= b[j]))
    && (forall n :: 0 <= n < i && j < |b| ==> a[n] <= b[j])
    && (forall n :: 0 <= n < j && i < |a| ==> b[n] <= a[i])
    && (forall x :: InSet(points, x) == Apply(op, InSet(a[..i], x), InSet(b[..j], x)))
  }

  lemma MergeStep(pts: seq<int>, points: seq<int>, a: seq<int>, b: seq<int>, i: nat, j: nat, i': nat, j': nat,
                  v: int, op: SetOp)
    requires Sorted(a) && Sorted(b) && i <= i' <= |a| && j <= j' <= |b| && i' <= i + 1 && j' <= j + 1 && i + j < i' + j'
    requires (i' > i ==> a[i] == v) && (j' > j ==> b[j] == v)
    requires (i' == i && i < |a| ==> v < a[i]) && (j' == j && j < |b| ==> v < b[j])
    requires Merged(pts, a, b, i, j, op)
    requires points == if Apply(op, i' % 2 == 1, j' % 2 == 1) != (|pts| % 2 == 1) then pts + [v] else pts
    ensures Merged(points, a, b, i', j', op)
  {
    hide InSet;
    assert forall n :: 0 <= n < |pts| ==> pts[n] <= v by { MergedBelow(pts, a, b, i, j, i', j', v, op); }
    assert v in a || v in b;
    var u, w := a[..i'], b[..j'];
    forall x ensures InSet(points, x) == Apply(op, InSet(u, x), InSet(w, x)) {
      MergePoint(pts, points, a, b, i, j, i', j', v, op, x);
    }
  }

  lemma MergePoint(pts: seq<int>, points: seq<int>, a: seq<int>, b: seq<int>, i: nat, j: nat, i': nat, j': nat,
                   v: int, op: SetOp, x: int)
    requires Sorted(a) && Sorted(b) && i <= i' <= |a| && j <= j' <= |b| && i' <= i + 1 && j' <= j + 1
    requires (i' > i ==> a[i] == v) && (j' > j ==> b[j] == v) && (i' > i || j' > j)
    requires Merged(pts, a, b, i, j, op)
    requires points == if Apply(op, i' % 2 == 1, j' % 2 == 1) != (|pts| % 2 == 1) then pts + [v] else pts
    ensures InSet(points, x) == Apply(op, InSet(a[..i'], x), InSet(b[..j'], x))
  {
    hide InSet, Sorted, Merged;
    MergedFacts(pts, a, b, i, j, op, x);
    if v <= x {
      assert forall n :: 0 <= n < i' ==> a[n] <= v by { MergedBelow(pts, a, b, i, j, i', j', v, op); }
      assert forall n :: 0 <= n < j' ==> b[n] <= v by { MergedBelow(pts, a, b, i, j, i', j', v, op); }
      assert forall n :: 0 <= n < |points| ==> points[n] <= v by { MergedBelow(pts, a, b, i, j, i', j', v, op); }
      AllBelow(a[..i'], x);
      AllBelow(b[..j'], x);
      AllBelow(points, x);
    } else {
      InSetPush(pts, v, x);
      if i' > i { InSetSnoc(a, i, x); }
      if j' > j { InSetSnoc(b, j, x); }
    }
  }

  lemma MergedFacts(pts: seq<int>, a: seq<int>, b: seq<int>, i: nat, j: nat, op: SetOp, x: int)
    requires i <= |a| && j <= |b| && Merged(pts, a, b, i, j, op)
    ensures InSet(pts, x) == Apply(op, InSet(a[..i], x), InSet(b[..j], x))
            && (|pts| % 2 == 1) == Apply(op, i % 2 == 1, j % 2 == 1)
  {
  }

  lemma MergedBelow(pts: seq<int>, a: seq<int>, b: seq<int>, i: nat, j: nat, i': nat, j': nat, v: int, op: SetOp)
    requires Sorted(a) && Sorted(b) && i <= i' <= |a| && j <= j' <= |b| && i' <= i + 1 && j' <= j + 1
    requires (i' > i ==> a[i] == v) && (j' > j ==> b[j] == v) && (i' > i || j' > j)
    requires Merged(pts, a, b, i, j, op)
    ensures (forall n :: 0 <= n < i' ==> a[n] <= v) && (forall n :: 0 <= n < j' ==> b[n] <= v)
    ensures forall n :: 0 <= n < |pts| ==> pts[n] <= v
  {
    hide InSet;
  }

  lemma AllBelow(pts: seq<int>, x: int)
    requires forall n :: 0 <= n < |pts| ==> pts[n] <= x
    ensures InSet(pts, x) == (|pts| % 2 == 1)
  {
    CountAll(pts, x);
  }

  lemma MergeDone(points: seq<int>, a: seq<int>, b: seq<int>, op: SetOp)
    requires |a| % 2 == 0 && |b| % 2 == 0 && Merged(points, a, b, |a|, |b|, op)
    ensures Sorted(points) && |points| % 2 == 0
    ensures forall x :: InSet(points, x) == Apply(op, InSet(a, x), InSet(b, x))
    ensures forall n :: 0 <= n < |points| ==> points[n] in a || points[n] in b
  {
    assert a[..|a|] == a && b[..|b|] == b;
  }

  // ----- complements -----

  lemma TwoPoints(p: int, q: int, x: int)
    requires p <= q
    ensures InSet([p, q], x) <==> p <= x < q
  {
    assert [p, q] == [] + [p] + [q];
    CountPush([p], q, x);
    CountPush([], p, x);
  }

  lemma InvertPoint(was: seq<int>, x: int)
    requires Sorted(was) && |was| % 2 == 0 && Bounded(was, UINT32_MAX)
    ensures InSet([0] + was + [UINT32_MAX], x) <==> 0 <= x < UINT32_MAX && !InSet(was, x)
    ensures Sorted([0] + was + [UINT32_MAX])
  {
    CountPush([0] + was, UINT32_MAX, x);
    CountAppend([0], was, x);
    CountPush([], 0, x);
    if x < 0 {
      CountNone(was, x);
    } else if x >= UINT32_MAX {
      CountAll(was, x);
    }
  }
}
