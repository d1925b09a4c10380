/**
 The in-place sort: three-way quicksort with an explicit stack of segments,
 heapsort when it goes too deep and insertion sort for short segments. For any
 comparator, even one that changes its mind, it stops and only permutes; for a
 total preorder it sorts.
 */
module Sorting {
  import opened Basics

  // ----- comparators -----

  ghost predicate TotalPreorder<T(!new)>(cmp: (T, T) -> int) {
    && (forall x, y :: cmp(x, y) < 0 <==> cmp(y, x) > 0)
    && (forall x, y, z :: cmp(x, y) <= 0 && cmp(y, z) <= 0 ==> cmp(x, z) <= 0)
  }

  /** A comparator with a state of its own: its answer to a question may differ from call to call. */
  class Comparator<T(!new)> {
    const answer: (nat, T, T) -> int
    var calls: nat

    constructor (answer: (nat, T, T) -> int)
      ensures this.answer == answer && calls == 0
    {
      this.answer := answer;
      calls := 0;
    }

    /** What the first call answers. */
    ghost function Order(): (T, T) -> int {
      (x, y) => answer(0, x, y)
    }

    /** Every call answers like the first. */
    ghost predicate Steady() {
      forall n: nat, x, y :: answer(n, x, y) == answer(0, x, y)
    }

    ghost predicate Consistent() {
      Steady() && TotalPreorder(Order())
    }

    method Compare(x: T, y: T) returns (r: int)
      modifies this
      ensures r == answer(old(calls), x, y) && calls == old(calls) + 1
      ensures Steady() ==> r == Order()(x, y)
    {
      r := answer(calls, x, y);
      calls := calls + 1;
    }
  }

  ghost predicate Sorted<T>(cmp: (T, T) -> int, s: seq<T>) {
    forall i, j :: 0 <= i < j < |s| ==> cmp(s[i], s[j]) <= 0
  }

  // ----- segments -----

  function Swapped<T>(s: seq<T>, i: nat, j: nat): (r: seq<T>)
    requires i < |s| && j < |s|
    ensures |r| == |s|
  {
    s[i := s[j]][j := s[i]]
  }

  lemma SwappedPermutes<T>(s: seq<T>, i: nat, j: nat)
    requires i < |s| && j < |s|
    ensures multiset(Swapped(s, i, j)) == multiset(s)
  {
  }

  /** Nothing outside the segment has changed, and inside it is a permutation. */
  ghost predicate Permuted<T>(was: seq<T>, now: seq<T>, lo: nat, hi: nat)
    requires lo <= hi <= |was|
  {
    && |now| == |was| && now[..lo] == was[..lo] && now[hi..] == was[hi..]
    && multiset(now[lo..hi]) == multiset(was[lo..hi])
  }

  lemma PermutedSwap<T>(was: seq<T>, s: seq<T>, lo: nat, hi: nat, i: nat, j: nat)
    requires lo <= hi <= |was| && Permuted(was, s, lo, hi) && lo <= i < hi && lo <= j < hi
    ensures Permuted(was, Swapped(s, i, j), lo, hi)
    ensures Swapped(s, i, j)[lo..hi] == Swapped(s[lo..hi], i - lo, j - lo)
  {
    var v, r := s[lo..hi], Swapped(s, i, j);
    assert r[lo..hi] == Swapped(v, i - lo, j - lo);
    SwappedPermutes(v, i - lo, j - lo);
    assert r[..lo] == s[..lo] && r[hi..] == s[hi..];
  }

  lemma PermutedTrans<T>(a: seq<T>, b: seq<T>, c: seq<T>, lo: nat, hi: nat)
    requires lo <= hi <= |a| && Permuted(a, b, lo, hi) && Permuted(b, c, lo, hi)
    ensures Permuted(a, c, lo, hi)
  {
  }

  /** A permutation of a part is a permutation of the whole. */
  lemma PermutedWiden<T>(was: seq<T>, now: seq<T>, lo: nat, hi: nat, l: nat, h: nat)
    requires l <= lo <= hi <= h <= |was| && Permuted(was, now, lo, hi)
    ensures Permuted(was, now, l, h)
  {
    assert was[l..h] == was[l..lo] + was[lo..hi] + was[hi..h];
    assert now[l..h] == now[l..lo] + now[lo..hi] + now[hi..h];
    assert now[l..lo] == now[..lo][l..] == was[..lo][l..] == was[l..lo];
    assert now[hi..h] == now[hi..][..h - hi] == was[hi..][..h - hi] == was[hi..h];
    assert now[..l] == now[..lo][..l] == was[..lo][..l] == was[..l];
    assert now[h..] == now[hi..][h - hi..] == was[hi..][h - hi..] == was[h..];
  }

  /** Every element of a permuted segment was in it before. */
  lemma PermutedElement<T>(was: seq<T>, now: seq<T>, lo: nat, hi: nat, k: nat) returns (m: nat)
    requires lo <= hi <= |was| && Permuted(was, now, lo, hi) && lo <= k < hi
    ensures lo <= m < hi && now[k] == was[m]
  {
    var v, w := now[lo..hi], was[lo..hi];
    assert v[k - lo] == now[k];
    assert now[k] in multiset(v);
    assert now[k] in w;
    var i :| 0 <= i < |w| && w[i] == now[k];
    m := lo + i;
  }

  method Swap<T>(a: array<T>, i: nat, j: nat)
    requires i < a.Length && j < a.Length
    modifies a
    ensures a[..] == Swapped(old(a[..]), i, j)
  {
    a[i], a[j] := a[j], a[i];
  }

  // ----- insertion sort -----

  /** Sorted but for the element at `j`, which may be too small for its place. */
  ghost predicate SortedBut<T>(cmp: (T, T) -> int, s: seq<T>, lo: nat, hi: nat, j: nat)
    requires lo <= hi <= |s|
  {
    && (forall i, k :: lo <= i < k < hi && i != j && k != j ==> cmp(s[i], s[k]) <= 0)
    && (forall k :: j < k < hi && lo <= j ==> cmp(s[j], s[k]) <= 0)
  }

  lemma InsertStep<T(!new)>(cmp: (T, T) -> int, s: seq<T>, lo: nat, hi: nat, j: nat)
    requires TotalPreorder(cmp) && lo < j < hi <= |s| && SortedBut(cmp, s, lo, hi, j) && cmp(s[j - 1], s[j]) > 0
    ensures SortedBut(cmp, Swapped(s, j - 1, j), lo, hi, j - 1)
  {
    assert cmp(s[j], s[j - 1]) < 0;
  }

  lemma InsertDone<T(!new)>(cmp: (T, T) -> int, s: seq<T>, lo: nat, hi: nat, j: nat)
    requires TotalPreorder(cmp) && lo <= j < hi <= |s| && SortedBut(cmp, s, lo, hi, j)
    requires j > lo ==> cmp(s[j - 1], s[j]) <= 0
    ensures SortedIn(cmp, s, lo, hi)
  {
    forall i, k | lo <= i < k < hi ensures cmp(s[i], s[k]) <= 0 {
      if k == j && i < j - 1 {
        assert cmp(s[i], s[j - 1]) <= 0;
      }
    }
  }

  ghost predicate SortedIn<T>(cmp: (T, T) -> int, s: seq<T>, lo: nat, hi: nat)
    requires lo <= hi <= |s|
  {
    forall i, j :: lo <= i < j < hi ==> cmp(s[i], s[j]) <= 0
  }

  lemma PermutedSelf<T>(s: seq<T>, lo: nat, hi: nat)
    requires lo <= hi <= |s|
    ensures Permuted(s, s, lo, hi)
  {
  }

  lemma SortedShort<T>(cmp: (T, T) -> int, s: seq<T>, lo: nat, hi: nat)
    requires lo <= hi <= |s| && hi <= lo + 1
    ensures SortedIn(cmp, s, lo, hi)
  {
  }

  lemma InsertStart<T>(cmp: (T, T) -> int, s: seq<T>, lo: nat, i: nat)
    requires lo <= i < |s| && SortedIn(cmp, s, lo, i)
    ensures SortedBut(cmp, s, lo, i + 1, i)
  {
  }

  /** Moves the element at `i` down to its place. */
  method Insert<T(!new)>(a: array<T>, base: nat, i: nat, hi: nat, cmp: Comparator<T>, ghost was: seq<T>)
    requires base <= i < hi <= a.Length && |was| == a.Length && Permuted(was, a[..], base, hi)
    requires cmp.Consistent() ==> SortedIn(cmp.Order(), a[..], base, i)
    modifies a, cmp
    ensures Permuted(was, a[..], base, hi)
    ensures cmp.Consistent() ==> SortedIn(cmp.Order(), a[..], base, i + 1)
  {
    hide Permuted, SortedBut, SortedIn, TotalPreorder, Swapped;
    var j := i;
    ghost var s := a[..];
    if cmp.Consistent() {
      InsertStart(cmp.Order(), s, base, i);
    }
    while j > base
      invariant base <= j <= i && s == a[..]
      invariant Permuted(was, s, base, hi)
      invariant cmp.Consistent() ==> SortedBut(cmp.Order(), s, base, i + 1, j)
    {
      var c := cmp.Compare(a[j - 1], a[j]);
      if c <= 0 {
        break;
      }
      PermutedSwap(was, s, base, hi, j - 1, j);
      if cmp.Consistent() {
        InsertStep(cmp.Order(), s, base, i + 1, j);
      }
      Swap(a, j - 1, j);
      s := a[..];
      j := j - 1;
    }
    if cmp.Consistent() {
      InsertDone(cmp.Order(), s, base, i + 1, j);
    }
  }

  /** Sorts the `n` elements from `base` on by insertion. */
  method InsertionSort<T(!new)>(a: array<T>, base: nat, n: nat, cmp: Comparator<T>)
    requires base + n <= a.Length
    modifies a, cmp
    ensures Permuted(old(a[..]), a[..], base, base + n)
    ensures cmp.Consistent() ==> SortedIn(cmp.Order(), a[..], base, base + n)
  {
    hide Permuted, SortedIn, TotalPreorder;
    var i, top := base + 1, base + n;
    PermutedSelf(a[..], base, top);
    SortedShort(cmp.Order(), a[..], base, Min(i, top));
    while i < top
      invariant base + 1 <= i && (n > 0 ==> i <= top)
      invariant Permuted(old(a[..]), a[..], base, top)
      invariant cmp.Consistent() ==> SortedIn(cmp.Order(), a[..], base, Min(i, top))
    {
      Insert(a, base, i, top, cmp, old(a[..]));
      i := i + 1;
    }
  }

  // ----- heapsort -----

  /** The element at `c` of the segment from `base` is not above the one at `p`. */
  predicate Under<T>(cmp: (T, T) -> int, s: seq<T>, base: nat, c: nat, p: nat)
    requires base + c < |s| && base + p < |s|
  {
    cmp(s[base + c], s[base + p]) <= 0
  }

  predicate UnderParent<T>(cmp: (T, T) -> int, s: seq<T>, base: nat, c: nat)
    requires c > 0 && base + c < |s|
  {
    Under(cmp, s, base, c, (c - 1) / 2)
  }

  /** Parents from `lo` on are above their children, among the first `n` elements of the segment. */
  ghost predicate Heap<T>(cmp: (T, T) -> int, s: seq<T>, base: nat, lo: nat, n: nat)
    requires base + n <= |s|
  {
    forall c :: 0 < c < n && (c - 1) / 2 >= lo ==> UnderParent(cmp, s, base, c)
  }

  /** A heap but for the element at `r`, which may be too small; its children are under its parent. */
  ghost predicate HeapBut<T>(cmp: (T, T) -> int, s: seq<T>, base: nat, lo: nat, n: nat, r: nat)
    requires base + n <= |s|
  {
    && (forall c :: 0 < c < n && (c - 1) / 2 >= lo && (c - 1) / 2 != r ==> UnderParent(cmp, s, base, c))
    && (r > 0 && (r - 1) / 2 >= lo ==>
          var p := (r - 1) / 2; forall c :: 0 < c < n && (c - 1) / 2 == r ==> Under(cmp, s, base, c, p))
  }

  /** `c` is a child of `r` that no other child exceeds. */
  ghost predicate BestChild<T>(cmp: (T, T) -> int, s: seq<T>, base: nat, n: nat, r: nat, c: nat)
    requires base + n <= |s|
  {
    && (c == 2 * r + 1 || c == 2 * r + 2) && c < n
    && (2 * r + 1 < n ==> cmp(s[base + 2 * r + 1], s[base + c]) <= 0)
    && (2 * r + 2 < n ==> cmp(s[base + 2 * r + 2], s[base + c]) <= 0)
  }

  lemma SiftStep<T(!new)>(cmp: (T, T) -> int, s: seq<T>, base: nat, lo: nat, n: nat, r: nat, c: nat)
    requires TotalPreorder(cmp) && base + n <= |s| && lo <= r && HeapBut(cmp, s, base, lo, n, r)
             && BestChild(cmp, s, base, n, r, c)
    requires cmp(s[base + r], s[base + c]) <= 0
    ensures HeapBut(cmp, Swapped(s, base + r, base + c), base, lo, n, c)
  {
    hide Under, UnderParent, Swapped;
    var w := Swapped(s, base + r, base + c);
    forall x | 0 < x < n && (x - 1) / 2 >= lo && (x - 1) / 2 != c ensures UnderParent(cmp, w, base, x) {
      SiftedChild(cmp, s, w, base, lo, n, r, c, x);
    }
    var p := (c - 1) / 2;
    forall x | 0 < x < n && (x - 1) / 2 == c && c > 0 && p >= lo ensures Under(cmp, w, base, x, p) {
      SiftedGrandchild(cmp, s, base, lo, n, r, c, x);
    }
  }

  lemma SiftedGrandchild<T(!new)>(cmp: (T, T) -> int, s: seq<T>, base: nat, lo: nat, n: nat, r: nat, c: nat, x: nat)
    requires base + n <= |s| && lo <= r && HeapBut(cmp, s, base, lo, n, r) && BestChild(cmp, s, base, n, r, c)
             && 0 < x < n && (x - 1) / 2 == c
    ensures Under(cmp, Swapped(s, base + r, base + c), base, x, (c - 1) / 2)
  {
    assert UnderParent(cmp, s, base, x) && (c - 1) / 2 == r;
  }

  lemma SiftedChild<T(!new)>(cmp: (T, T) -> int, s: seq<T>, w: seq<T>, base: nat, lo: nat, n: nat, r: nat, c: nat,
                      x: nat)
    requires TotalPreorder(cmp) && base + n <= |s| && lo <= r && HeapBut(cmp, s, base, lo, n, r)
             && BestChild(cmp, s, base, n, r, c)
    requires cmp(s[base + r], s[base + c]) <= 0 && w == Swapped(s, base + r, base + c)
    requires 0 < x < n && (x - 1) / 2 >= lo && (x - 1) / 2 != c
    ensures UnderParent(cmp, w, base, x)
  {
    var p := (x - 1) / 2;
    if p == r {
      SiftedUnder(cmp, s, base, n, r, c, x);
    } else if x == r {
      assert (c - 1) / 2 == r && Under(cmp, s, base, c, p);
    } else {
      assert UnderParent(cmp, s, base, x) && x != c;
    }
  }

  lemma SiftedUnder<T(!new)>(cmp: (T, T) -> int, s: seq<T>, base: nat, n: nat, r: nat, c: nat, x: nat)
    requires base + n <= |s| && BestChild(cmp, s, base, n, r, c) && cmp(s[base + r], s[base + c]) <= 0
    requires 0 < x < n && (x - 1) / 2 == r
    ensures UnderParent(cmp, Swapped(s, base + r, base + c), base, x)
  {
    assert x == 2 * r + 1 || x == 2 * r + 2;
  }

  lemma SiftDone<T(!new)>(cmp: (T, T) -> int, s: seq<T>, base: nat, lo: nat, n: nat, r: nat)
    requires TotalPreorder(cmp) && base + n <= |s| && lo <= r && HeapBut(cmp, s, base, lo, n, r)
    requires forall x :: 0 < x < n && (x - 1) / 2 == r ==> UnderParent(cmp, s, base, x)
    ensures Heap(cmp, s, base, lo, n)
  {
  }

  lemma BestIsAbove<T(!new)>(cmp: (T, T) -> int, s: seq<T>, base: nat, n: nat, r: nat, c: nat)
    requires TotalPreorder(cmp) && base + n <= |s| && BestChild(cmp, s, base, n, r, c)
             && cmp(s[base + r], s[base + c]) > 0
    ensures forall x :: 0 < x < n && (x - 1) / 2 == r ==> UnderParent(cmp, s, base, x)
  {
    assert cmp(s[base + c], s[base + r]) < 0;
    forall x | 0 < x < n && (x - 1) / 2 == r ensures UnderParent(cmp, s, base, x) {
      assert x == 2 * r + 1 || x == 2 * r + 2;
    }
  }

  lemma ChooseChild<T(!new)>(cmp: (T, T) -> int, s: seq<T>, base: nat, n: nat, r: nat, c: nat)
    requires TotalPreorder(cmp) && base + n <= |s| && 2 * r + 1 < n
    requires c == if 2 * r + 2 < n && cmp(s[base + 2 * r + 1], s[base + 2 * r + 2]) <= 0 then 2 * r + 2 else 2 * r + 1
    ensures BestChild(cmp, s, base, n, r, c)
  {
    assert cmp(s[base + c], s[base + c]) <= 0;
    if 2 * r + 2 < n && cmp(s[base + 2 * r + 1], s[base + 2 * r + 2]) > 0 {
      assert cmp(s[base + 2 * r + 2], s[base + 2 * r + 1]) < 0;
    }
  }

  /** Moves the element at `r0` down until the first `n` elements of the segment are a heap from `r0` on. */
  method Sift<T(!new)>(a: array<T>, base: nat, r0: nat, n: nat, cmp: Comparator<T>)
    requires base + n <= a.Length && r0 < n
    requires cmp.Consistent() ==> HeapBut(cmp.Order(), a[..], base, r0, n, r0)
    modifies a, cmp
    ensures Permuted(old(a[..]), a[..], base, base + n)
    ensures cmp.Consistent() ==> Heap(cmp.Order(), a[..], base, r0, n)
  {
    hide Permuted, HeapBut, Heap, BestChild, TotalPreorder, Swapped, UnderParent, Comparator.Steady, Comparator.Order;
    var r, c := r0, 2 * r0 + 1;
    ghost var s := a[..];
    PermutedSelf(s, base, base + n);
    while c < n
      invariant r0 <= r < n && c == 2 * r + 1 && s == a[..] && Permuted(old(a[..]), s, base, base + n)
      invariant cmp.Consistent() ==> HeapBut(cmp.Order(), s, base, r0, n, r)
      decreases n - r
    {
      if c + 1 < n {
        var d := cmp.Compare(a[base + c], a[base + c + 1]);
        if d <= 0 {
          c := c + 1;
        }
      }
      if cmp.Consistent() {
        ChooseChild(cmp.Order(), s, base, n, r, c);
      }
      var d := cmp.Compare(a[base + r], a[base + c]);
      if d > 0 {
        if cmp.Consistent() {
          BestIsAbove(cmp.Order(), s, base, n, r, c);
          SiftDone(cmp.Order(), s, base, r0, n, r);
        }
        return;
      }
      if cmp.Consistent() {
        SiftStep(cmp.Order(), s, base, r0, n, r, c);
      }
      PermutedSwap(old(a[..]), s, base, base + n, base + r, base + c);
      Swap(a, base + r, base + c);
      s := a[..];
      r, c := c, 2 * c + 1;
    }
    if cmp.Consistent() {
      SiftDone(cmp.Order(), s, base, r0, n, r);
    }
  }

  /** The root of a heap is above everything in it. */
  lemma {:induction false} HeapRoot<T(!new)>(cmp: (T, T) -> int, s: seq<T>, base: nat, n: nat, c: nat)
    requires TotalPreorder(cmp) && base + n <= |s| && Heap(cmp, s, base, 0, n) && c < n
    ensures Under(cmp, s, base, c, 0)
    decreases c
  {
    if c > 0 {
      assert UnderParent(cmp, s, base, c);
      HeapRoot(cmp, s, base, n, (c - 1) / 2);
    }
  }

  lemma HeapStart<T>(cmp: (T, T) -> int, s: seq<T>, base: nat, n: nat)
    requires base + n <= |s|
    ensures Heap(cmp, s, base, n / 2, n)
  {
  }

  lemma HeapExtend<T>(cmp: (T, T) -> int, s: seq<T>, base: nat, i: nat, n: nat)
    requires base + n <= |s| && Heap(cmp, s, base, i + 1, n)
    ensures HeapBut(cmp, s, base, i, n, i)
  {
  }

  /** The elements from `m` on are sorted and above all others. */
  ghost predicate TailDone<T>(cmp: (T, T) -> int, s: seq<T>, base: nat, m: nat, n: nat)
    requires base + n <= |s|
  {
    forall x, y :: 0 <= x < y < n && m <= y ==> Under(cmp, s, base, x, y)
  }

  /** Moving the root of the heap behind it extends the sorted tail. */
  lemma RootToTail<T(!new)>(cmp: (T, T) -> int, s: seq<T>, base: nat, i: nat, n: nat)
    requires TotalPreorder(cmp) && base + n <= |s| && 0 < i < n && Heap(cmp, s, base, 0, i + 1)
             && TailDone(cmp, s, base, i + 1, n)
    ensures var w := Swapped(s, base, base + i); HeapBut(cmp, w, base, 0, i, 0) && TailDone(cmp, w, base, i, n)
  {
    hide Under, UnderParent, Heap, TailDone, TotalPreorder, Swapped;
    var w := Swapped(s, base, base + i);
    forall c | 0 < c < i && (c - 1) / 2 >= 0 && (c - 1) / 2 != 0 ensures UnderParent(cmp, w, base, c) {
      StillUnder(cmp, s, base, i, c);
    }
    TailGrows(cmp, s, base, i, n);
  }

  lemma StillUnder<T(!new)>(cmp: (T, T) -> int, s: seq<T>, base: nat, i: nat, c: nat)
    requires base + i < |s| && Heap(cmp, s, base, 0, i + 1) && 0 < c < i && (c - 1) / 2 != 0
    ensures UnderParent(cmp, Swapped(s, base, base + i), base, c)
  {
    assert UnderParent(cmp, s, base, c);
  }

  lemma TailGrows<T(!new)>(cmp: (T, T) -> int, s: seq<T>, base: nat, i: nat, n: nat)
    requires TotalPreorder(cmp) && base + n <= |s| && 0 < i < n && Heap(cmp, s, base, 0, i + 1)
             && TailDone(cmp, s, base, i + 1, n)
    ensures TailDone(cmp, Swapped(s, base, base + i), base, i, n)
  {
    hide Heap, TotalPreorder;
    var w := Swapped(s, base, base + i);
    forall x, y | 0 <= x < y < n && i <= y ensures Under(cmp, w, base, x, y) {
      var x' := if x == 0 then i else if x == i then 0 else x;
      if y == i {
        HeapRoot(cmp, s, base, i + 1, x');
      } else {
        assert Under(cmp, s, base, x', y);
      }
    }
  }

  /** Permuting the elements before the tail keeps it above them. */
  lemma TailKept<T>(cmp: (T, T) -> int, s: seq<T>, w: seq<T>, base: nat, i: nat, n: nat)
    requires i <= n && base + n <= |s| && TailDone(cmp, s, base, i, n) && Permuted(s, w, base, base + i)
    ensures TailDone(cmp, w, base, i, n)
  {
    forall x, y | 0 <= x < y < n && i <= y ensures Under(cmp, w, base, x, y) {
      assert w[base + y] == w[base + i..][y - i] == s[base + y];
      if x < i {
        var m := PermutedElement(s, w, base, base + i, base + x);
        assert Under(cmp, s, base, m - base, y);
      } else {
        assert w[base + x] == w[base + i..][x - i] == s[base + x];
        assert Under(cmp, s, base, x, y);
      }
    }
  }

  lemma TailSorted<T>(cmp: (T, T) -> int, s: seq<T>, base: nat, m: nat, n: nat)
    requires base + n <= |s| && TailDone(cmp, s, base, m, n) && m <= 1
    ensures SortedIn(cmp, s, base, base + n)
  {
    forall i, j | base <= i < j < base + n ensures cmp(s[i], s[j]) <= 0 {
      assert Under(cmp, s, base, i - base, j - base);
    }
  }

  lemma NoTail<T>(cmp: (T, T) -> int, s: seq<T>, base: nat, n: nat)
    requires base + n <= |s|
    ensures TailDone(cmp, s, base, n, n)
  {
  }

  /** Makes the segment a heap. */
  method BuildHeap<T(!new)>(a: array<T>, base: nat, n: nat, cmp: Comparator<T>)
    requires base + n <= a.Length
    modifies a, cmp
    ensures Permuted(old(a[..]), a[..], base, base + n)
    ensures cmp.Consistent() ==> Heap(cmp.Order(), a[..], base, 0, n)
  {
    hide Permuted, HeapBut, Heap, TotalPreorder;
    var i := n / 2;
    PermutedSelf(a[..], base, base + n);
    HeapStart(cmp.Order(), a[..], base, n);
    while i > 0
      invariant 0 <= i <= n / 2 && Permuted(old(a[..]), a[..], base, base + n)
      invariant cmp.Consistent() ==> Heap(cmp.Order(), a[..], base, i, n)
    {
      i := i - 1;
      if cmp.Consistent() {
        HeapExtend(cmp.Order(), a[..], base, i, n);
      }
      ghost var s := a[..];
      Sift(a, base, i, n, cmp);
      PermutedTrans(old(a[..]), s, a[..], base, base + n);
    }
  }

  /** Sorts the `n` elements from `base` on by heapsort. */
  method HeapSort<T(!new)>(a: array<T>, base: nat, n: nat, cmp: Comparator<T>)
    requires base + n <= a.Length
    modifies a, cmp
    ensures Permuted(old(a[..]), a[..], base, base + n)
    ensures cmp.Consistent() ==> SortedIn(cmp.Order(), a[..], base, base + n)
  {
    hide Permuted, HeapBut, Heap, TotalPreorder, SortedIn, TailDone, Swapped;
    if n <= 1 {
      PermutedSelf(a[..], base, base + n);
      SortedShort(cmp.Order(), a[..], base, base + n);
      return;
    }
    BuildHeap(a, base, n, cmp);
    var i := n - 1;
    NoTail(cmp.Order(), a[..], base, n);
    while i > 0
      invariant 0 <= i < n && Permuted(old(a[..]), a[..], base, base + n)
      invariant cmp.Consistent() ==>
                  Heap(cmp.Order(), a[..], base, 0, i + 1) && TailDone(cmp.Order(), a[..], base, i + 1, n)
    {
      ghost var s := a[..];
      Extract(a, base, i, n, cmp);
      PermutedTrans(old(a[..]), s, a[..], base, base + n);
      i := i - 1;
    }
    if cmp.Consistent() {
      TailSorted(cmp.Order(), a[..], base, 1, n);
    }
  }

  /** Moves the largest element of the heap behind it. */
  method Extract<T(!new)>(a: array<T>, base: nat, i: nat, n: nat, cmp: Comparator<T>)
    requires base + n <= a.Length && 0 < i < n
    requires cmp.Consistent() ==>
               Heap(cmp.Order(), a[..], base, 0, i + 1) && TailDone(cmp.Order(), a[..], base, i + 1, n)
    modifies a, cmp
    ensures Permuted(old(a[..]), a[..], base, base + n)
    ensures cmp.Consistent() ==> Heap(cmp.Order(), a[..], base, 0, i) && TailDone(cmp.Order(), a[..], base, i, n)
  {
    hide Permuted, HeapBut, Heap, TotalPreorder, TailDone, Swapped;
    ghost var s := a[..];
    PermutedSelf(s, base, base + n);
    PermutedSwap(s, s, base, base + n, base, base + i);
    if cmp.Consistent() {
      RootToTail(cmp.Order(), s, base, i, n);
    }
    Swap(a, base, base + i);
    ghost var t := a[..];
    Sift(a, base, 0, i, cmp);
    PermutedWiden(t, a[..], base, base + i, base, base + n);
    PermutedTrans(s, t, a[..], base, base + n);
    if cmp.Consistent() {
      TailKept(cmp.Order(), t, a[..], base, i, n);
    }
  }
}
