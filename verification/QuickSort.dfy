/** The quicksort around the pieces of `Sorting`: partitioning and the stack of pending segments. */
module QuickSort {
  import opened Basics
  import opened Sorting

  // ----- partitioning -----

  /** How the pivot, at `p`, compares with the element `k` places after it. */
  function Side<T>(cmp: (T, T) -> int, s: seq<T>, p: nat, k: nat): int
    requires p + k < |s|
  {
    cmp(s[p], s[p + k])
  }

  /** Equal elements up to `lt` and from `gt` on, smaller ones from `lt` to `i`, greater ones from `j` to `gt`. */
  ghost predicate Parted<T>(cmp: (T, T) -> int, s: seq<T>, p: nat, n: nat, lt: nat, i: nat, j: nat, gt: nat) {
    && 1 <= lt <= i <= j <= gt <= n && p + n <= |s|
    && (forall k :: 1 <= k < lt ==> Side(cmp, s, p, k) == 0)
    && (forall k :: lt <= k < i ==> Side(cmp, s, p, k) > 0)
    && (forall k :: j <= k < gt ==> Side(cmp, s, p, k) < 0)
    && (forall k :: gt <= k < n ==> Side(cmp, s, p, k) == 0)
  }

  /** Where the element at `k` comes from when `x` and `y` are exchanged. */
  function Other(k: nat, x: nat, y: nat): nat {
    if k == x then y else if k == y then x else k
  }

  lemma SidesAfterSwap<T>(cmp: (T, T) -> int, s: seq<T>, w: seq<T>, p: nat, n: nat, x: nat, y: nat)
    requires p + n <= |s| && 0 < x < n && 0 < y < n && w == Swapped(s, p + x, p + y)
    ensures forall k :: 1 <= k < n ==> Side(cmp, w, p, k) == Side(cmp, s, p, Other(k, x, y))
  {
  }

  lemma PartEqualLow<T>(cmp: (T, T) -> int, s: seq<T>, p: nat, n: nat, lt: nat, i: nat, j: nat, gt: nat)
    requires Parted(cmp, s, p, n, lt, i, j, gt) && i < j && Side(cmp, s, p, i) == 0
    ensures Parted(cmp, Swapped(s, p + lt, p + i), p, n, lt + 1, i + 1, j, gt)
  {
    hide Side, Swapped;
    var w := Swapped(s, p + lt, p + i);
    SidesAfterSwap(cmp, s, w, p, n, lt, i);
    PartedIntro(cmp, s, w, p, n, lt, i, lt + 1, i + 1, j, gt);
  }

  lemma PartEqualHigh<T>(cmp: (T, T) -> int, s: seq<T>, p: nat, n: nat, lt: nat, i: nat, j: nat, gt: nat)
    requires Parted(cmp, s, p, n, lt, i, j, gt) && i < j && Side(cmp, s, p, j - 1) == 0
    ensures Parted(cmp, Swapped(s, p + gt - 1, p + j - 1), p, n, lt, i, j - 1, gt - 1)
  {
    hide Side, Swapped;
    var w := Swapped(s, p + gt - 1, p + j - 1);
    SidesAfterSwap(cmp, s, w, p, n, gt - 1, j - 1);
    PartedIntro(cmp, s, w, p, n, gt - 1, j - 1, lt, i, j - 1, gt - 1);
  }

  lemma PartExchange<T>(cmp: (T, T) -> int, s: seq<T>, p: nat, n: nat, lt: nat, i: nat, j: nat, gt: nat)
    requires Parted(cmp, s, p, n, lt, i, j, gt) && i < j - 1 && Side(cmp, s, p, i) < 0 && Side(cmp, s, p, j - 1) > 0
    ensures Parted(cmp, Swapped(s, p + i, p + j - 1), p, n, lt, i + 1, j - 1, gt)
  {
    hide Side, Swapped;
    var w := Swapped(s, p + i, p + j - 1);
    SidesAfterSwap(cmp, s, w, p, n, i, j - 1);
    PartedIntro(cmp, s, w, p, n, i, j - 1, lt, i + 1, j - 1, gt);
  }

  lemma PartedIntro<T>(cmp: (T, T) -> int, s: seq<T>, w: seq<T>, p: nat, n: nat, x: nat, y: nat, lt: nat, i: nat,
                       j: nat, gt: nat)
    requires 1 <= lt <= i <= j <= gt <= n && p + n <= |s| == |w| && 0 < x < n && 0 < y < n
    requires forall k :: 1 <= k < n ==> Side(cmp, w, p, k) == Side(cmp, s, p, Other(k, x, y))
    requires forall k :: 1 <= k < lt ==> Side(cmp, s, p, Other(k, x, y)) == 0
    requires forall k :: lt <= k < i ==> Side(cmp, s, p, Other(k, x, y)) > 0
    requires forall k :: j <= k < gt ==> Side(cmp, s, p, Other(k, x, y)) < 0
    requires forall k :: gt <= k < n ==> Side(cmp, s, p, Other(k, x, y)) == 0
    ensures Parted(cmp, w, p, n, lt, i, j, gt)
  {
  }

  /** Splits the segment around the pivot at its start. */
  method Part<T(!new)>(a: array<T>, p: nat, n: nat, cmp: Comparator<T>) returns (lt: nat, i: nat, gt: nat)
    requires p + n <= a.Length && n >= 1
    modifies a, cmp
    ensures Permuted(old(a[..]), a[..], p, p + n) && a[p] == old(a[p])
    ensures 1 <= lt <= i <= gt <= n
    ensures cmp.Steady() ==> Parted(cmp.Order(), a[..], p, n, lt, i, i, gt)
  {
    hide Permuted, Parted, Swapped;
    var j: nat := n;
    lt, i, gt := 1, 1, n;
    ghost var s := a[..];
    PermutedSelf(s, p, p + n);
    PartStart(cmp.Order(), s, p, n);
    while true
      invariant s == a[..] && Permuted(old(a[..]), s, p, p + n) && s[p] == old(a[p]) && 1 <= lt <= i <= j <= gt <= n
      invariant cmp.Steady() ==> Parted(cmp.Order(), s, p, n, lt, i, j, gt)
      decreases j - i
    {
      lt, i := SkipSmaller(a, p, n, lt, i, j, gt, cmp, old(a[..]));
      var jj;
      jj, gt := SkipGreater(a, p, n, lt, i, j, gt, cmp, old(a[..]));
      s := a[..];
      if i >= jj {
        break;
      }
      PermutedSwap(old(a[..]), s, p, p + n, p + i, p + jj);
      if cmp.Steady() {
        PartExchange(cmp.Order(), s, p, n, lt, i, jj + 1, gt);
      }
      PivotStays(s, p, p + i, p + jj);
      Swap(a, p + i, p + jj);
      s := a[..];
      i, j := i + 1, jj;
    }
  }

  lemma PartStart<T>(cmp: (T, T) -> int, s: seq<T>, p: nat, n: nat)
    requires p + n <= |s| && n >= 1
    ensures Parted(cmp, s, p, n, 1, 1, n, n)
  {
  }

  lemma PivotStays<T>(s: seq<T>, p: nat, x: nat, y: nat)
    requires p < |s| && x < |s| && y < |s| && p != x && p != y
    ensures Swapped(s, x, y)[p] == s[p]
  {
  }

  lemma PartGrowLow<T>(cmp: (T, T) -> int, s: seq<T>, p: nat, n: nat, lt: nat, i: nat, j: nat, gt: nat)
    requires Parted(cmp, s, p, n, lt, i, j, gt) && i < j && Side(cmp, s, p, i) > 0
    ensures Parted(cmp, s, p, n, lt, i + 1, j, gt)
  {
  }

  lemma PartGrowHigh<T>(cmp: (T, T) -> int, s: seq<T>, p: nat, n: nat, lt: nat, i: nat, j: nat, gt: nat)
    requires Parted(cmp, s, p, n, lt, i, j, gt) && i < j && Side(cmp, s, p, j - 1) < 0
    ensures Parted(cmp, s, p, n, lt, i, j - 1, gt)
  {
  }

  /** Advances over elements that are not greater, collecting the equal ones at the start. */
  method SkipSmaller<T(!new)>(a: array<T>, p: nat, n: nat, lt0: nat, i0: nat, j: nat, gt: nat, cmp: Comparator<T>,
                       ghost was: seq<T>)
    returns (lt: nat, i: nat)
    requires p + n <= a.Length && |was| == a.Length && Permuted(was, a[..], p, p + n)
    requires 1 <= lt0 <= i0 <= j <= gt <= n && (cmp.Steady() ==> Parted(cmp.Order(), a[..], p, n, lt0, i0, j, gt))
    modifies a, cmp
    ensures Permuted(was, a[..], p, p + n) && a[p] == old(a[p]) && 1 <= lt <= i <= j && i0 <= i
    ensures cmp.Steady() ==>
              Parted(cmp.Order(), a[..], p, n, lt, i, j, gt) && (i < j ==> Side(cmp.Order(), a[..], p, i) < 0)
  {
    hide Permuted, Parted, Swapped, Comparator.Steady;
    lt, i := lt0, i0;
    ghost var s := a[..];
    while i < j
      invariant s == a[..] && Permuted(was, s, p, p + n) && s[p] == old(a[p]) && 1 <= lt <= i <= j && i0 <= i
      invariant cmp.Steady() ==> Parted(cmp.Order(), s, p, n, lt, i, j, gt)
      decreases j - i
    {
      var c := cmp.Compare(a[p], a[p + i]);
      if c < 0 {
        break;
      }
      if c == 0 {
        PermutedSwap(was, s, p, p + n, p + lt, p + i);
        if cmp.Steady() {
          PartEqualLow(cmp.Order(), s, p, n, lt, i, j, gt);
        }
        PivotStays(s, p, p + lt, p + i);
        Swap(a, p + lt, p + i);
        s := a[..];
        lt := lt + 1;
      } else if cmp.Steady() {
        PartGrowLow(cmp.Order(), s, p, n, lt, i, j, gt);
      }
      i := i + 1;
    }
  }

  /** Goes back over elements that are not smaller, collecting the equal ones at the end. */
  method SkipGreater<T(!new)>(a: array<T>, p: nat, n: nat, lt: nat, i: nat, j: nat, gt0: nat, cmp: Comparator<T>,
                       ghost was: seq<T>)
    returns (jj: nat, gt: nat)
    requires p + n <= a.Length && |was| == a.Length && Permuted(was, a[..], p, p + n)
    requires 1 <= lt <= i <= j <= gt0 <= n
    requires cmp.Steady() ==>
               Parted(cmp.Order(), a[..], p, n, lt, i, j, gt0) && (i < j ==> Side(cmp.Order(), a[..], p, i) < 0)
    modifies a, cmp
    ensures Permuted(was, a[..], p, p + n) && a[p] == old(a[p]) && jj < j && i <= gt <= n && jj < gt
    ensures cmp.Steady() && i < jj ==>
              && Parted(cmp.Order(), a[..], p, n, lt, i, jj + 1, gt)
              && Side(cmp.Order(), a[..], p, i) < 0 && Side(cmp.Order(), a[..], p, jj) > 0
    ensures cmp.Steady() && i >= jj ==> Parted(cmp.Order(), a[..], p, n, lt, i, i, gt)
  {
    hide Permuted, Parted, Swapped, Comparator.Steady;
    ghost var s := a[..];
    jj, gt := j - 1, gt0;
    while i < jj
      invariant i <= jj + 1 <= j && jj < gt <= n && s == a[..] && Permuted(was, s, p, p + n) && s[p] == old(a[p])
      invariant i < j ==> i <= jj
      invariant cmp.Steady() ==>
                  Parted(cmp.Order(), s, p, n, lt, i, jj + 1, gt) && (i < j ==> Side(cmp.Order(), s, p, i) < 0)
      decreases jj
    {
      var c := cmp.Compare(a[p], a[p + jj]);
      if c > 0 {
        return;
      }
      if c == 0 {
        PermutedSwap(was, s, p, p + n, p + gt - 1, p + jj);
        if cmp.Steady() {
          PartEqualHigh(cmp.Order(), s, p, n, lt, i, jj + 1, gt);
        }
        PivotStays(s, p, p + gt - 1, p + jj);
        PivotStays(s, p + i, p + gt - 1, p + jj);
        gt := gt - 1;
        Swap(a, p + gt, p + jj);
        s := a[..];
      } else if cmp.Steady() {
        PartGrowHigh(cmp.Order(), s, p, n, lt, i, jj + 1, gt);
      }
      jj := jj - 1;
    }
    if i < j && cmp.Steady() {
      PartGrowHigh(cmp.Order(), s, p, n, lt, i, i + 1, gt);
    }
  }

  // ----- moving the equal elements to the middle -----

  /** Where the element at `k` comes from when the blocks of length `len` at `x` and `y` are exchanged. */
  function BlockOther(k: nat, x: nat, y: nat, len: nat): nat
    requires x + len <= y
  {
    if x <= k < x + len then k + (y - x) else if y <= k < y + len then k - (y - x) else k
  }

  ghost predicate BlocksSwapped<T>(s: seq<T>, w: seq<T>, x: nat, y: nat, len: nat)
    requires x + len <= y && y + len <= |s|
  {
    |w| == |s| && forall k :: 0 <= k < |s| ==> w[k] == s[BlockOther(k, x, y, len)]
  }

  lemma BlockStep<T>(s: seq<T>, w: seq<T>, x: nat, y: nat, len: nat)
    requires x + len < y && y + len < |s| && BlocksSwapped(s, w, x, y, len) && x + len + 1 <= y
    ensures BlocksSwapped(s, Swapped(w, x + len, y + len), x, y, len + 1)
  {
  }

  /** Exchanges two blocks that do not overlap. */
  method SwapBlock<T>(a: array<T>, x: nat, y: nat, len: nat, lo: nat, hi: nat)
    requires x + len <= y && y + len <= hi <= a.Length && lo <= x
    modifies a
    ensures BlocksSwapped(old(a[..]), a[..], x, y, len)
    ensures Permuted(old(a[..]), a[..], lo, hi)
  {
    hide Permuted, Swapped, BlocksSwapped;
    var k := 0;
    ghost var s := a[..];
    PermutedSelf(s, lo, hi);
    BlockStart(s, x, y);
    while k < len
      invariant 0 <= k <= len && s == a[..] && Permuted(old(a[..]), s, lo, hi) && BlocksSwapped(old(a[..]), s, x, y, k)
    {
      BlockStep(old(a[..]), s, x, y, k);
      PermutedSwap(old(a[..]), s, lo, hi, x + k, y + k);
      Swap(a, x + k, y + k);
      s := a[..];
      k := k + 1;
    }
  }

  lemma BlockStart<T>(s: seq<T>, x: nat, y: nat)
    requires x <= y <= |s|
    ensures BlocksSwapped(s, s, x, y, 0)
  {
  }

  /** The segment in three parts: below, equal to and above a pivot. */
  ghost predicate ThreeWay<T>(cmp: (T, T) -> int, s: seq<T>, p: nat, n: nat, lt: nat, gt: nat, pivot: T) {
    && lt < gt <= n && p + n <= |s|
    && (forall k :: p <= k < p + lt ==> cmp(pivot, s[k]) > 0)
    && (forall k :: p + lt <= k < p + gt ==> cmp(pivot, s[k]) == 0)
    && (forall k :: p + gt <= k < p + n ==> cmp(pivot, s[k]) < 0)
  }

  /** The first exchange brings the smaller elements to the start. */
  lemma FirstBlock<T(!new)>(cmp: (T, T) -> int, s: seq<T>, w: seq<T>, p: nat, n: nat, lt: nat, i: nat, gt: nat,
                     span: nat)
    requires TotalPreorder(cmp) && Parted(cmp, s, p, n, lt, i, i, gt) && span == Min(lt, i - lt)
             && p + span <= p + i - span
    requires BlocksSwapped(s, w, p, p + i - span, span)
    ensures forall k :: p <= k < p + i - lt ==> cmp(s[p], w[k]) > 0
    ensures forall k :: p + i - lt <= k < p + i ==> cmp(s[p], w[k]) == 0
    ensures forall k :: p + i <= k < p + gt ==> cmp(s[p], w[k]) < 0
    ensures forall k :: p + gt <= k < p + n ==> cmp(s[p], w[k]) == 0
  {
    forall k | p <= k < p + n ensures
        (k < p + i - lt ==> cmp(s[p], w[k]) > 0) && (p + i - lt <= k < p + i ==> cmp(s[p], w[k]) == 0)
        && (p + i <= k < p + gt ==> cmp(s[p], w[k]) < 0) && (p + gt <= k ==> cmp(s[p], w[k]) == 0)
    {
      var o := BlockOther(k, p, p + i - span, span);
      assert w[k] == s[o];
      assert o > p ==> Side(cmp, s, p, o - p) == cmp(s[p], s[o]);
    }
  }

  /** The second exchange brings the equal elements of the end to the middle. */
  lemma SecondBlock<T>(cmp: (T, T) -> int, w: seq<T>, r: seq<T>, p: nat, n: nat, lt: nat, i: nat, gt: nat, span: nat,
                       pivot: T)
    requires lt < i <= gt <= n && p + n <= |w| && span == Min(n - gt, gt - i) && p + i + span <= p + n - span
    requires BlocksSwapped(w, r, p + i, p + n - span, span)
    requires forall k :: p <= k < p + lt ==> cmp(pivot, w[k]) > 0
    requires forall k :: p + lt <= k < p + i ==> cmp(pivot, w[k]) == 0
    requires forall k :: p + i <= k < p + gt ==> cmp(pivot, w[k]) < 0
    requires forall k :: p + gt <= k < p + n ==> cmp(pivot, w[k]) == 0
    ensures ThreeWay(cmp, r, p, n, lt, n - (gt - i), pivot)
  {
    forall k | p <= k < p + n ensures
        (k < p + lt ==> cmp(pivot, r[k]) > 0) && (p + lt <= k < p + (n - (gt - i)) ==> cmp(pivot, r[k]) == 0)
        && (p + (n - (gt - i)) <= k ==> cmp(pivot, r[k]) < 0)
    {
      assert r[k] == w[BlockOther(k, p + i, p + n - span, span)];
    }
  }

  /** One of the elements at `x` and `y` is not above the one at `m`, and the other is not below it. */
  ghost predicate Between<T>(cmp: (T, T) -> int, s: seq<T>, x: nat, m: nat, y: nat)
    requires x < |s| && m < |s| && y < |s|
  {
    (cmp(s[x], s[m]) <= 0 && cmp(s[m], s[y]) <= 0) || (cmp(s[y], s[m]) <= 0 && cmp(s[m], s[x]) <= 0)
  }

  /** The median of three elements. */
  method Med3<T(!new)>(s: array<T>, a: nat, b: nat, c: nat, cmp: Comparator<T>) returns (m: nat)
    requires a < s.Length && b < s.Length && c < s.Length
    modifies cmp
    ensures m == a || m == b || m == c
    ensures cmp.Consistent() ==>
              || (m == a && Between(cmp.Order(), s[..], b, a, c))
              || (m == b && Between(cmp.Order(), s[..], a, b, c))
              || (m == c && Between(cmp.Order(), s[..], a, c, b))
  {
    var ab := cmp.Compare(s[a], s[b]);
    var bc := cmp.Compare(s[b], s[c]);
    if ab < 0 {
      if bc < 0 {
        return b;
      }
      var ac := cmp.Compare(s[a], s[c]);
      m := if ac < 0 then c else a;
    } else {
      if bc > 0 {
        return b;
      }
      var ac := cmp.Compare(s[a], s[c]);
      m := if ac < 0 then a else c;
    }
  }

  /** Moves the pivot to the start of the segment. */
  method ChoosePivot<T(!new)>(a: array<T>, p: nat, n: nat, cmp: Comparator<T>)
    requires p + n <= a.Length && n > 6
    modifies a, cmp
    ensures Permuted(old(a[..]), a[..], p, p + n)
  {
    hide Permuted, Swapped;
    var m4 := n / 4;
    var m := Med3(a, p + m4, p + 2 * m4, p + 3 * m4, cmp);
    PermutedSelf(a[..], p, p + n);
    PermutedSwap(a[..], a[..], p, p + n, p, m);
    Swap(a, p, m);
  }

  /** Moves the elements equal to the pivot to the middle. */
  method Regroup<T(!new)>(a: array<T>, p: nat, n: nat, lt0: nat, i: nat, gt0: nat, ghost cmp: Comparator<T>)
    returns (lt: nat, gt: nat)
    requires p + n <= a.Length && 1 <= lt0 <= i <= gt0 <= n
    requires cmp.Steady() ==> Parted(cmp.Order(), a[..], p, n, lt0, i, i, gt0)
    modifies a
    ensures Permuted(old(a[..]), a[..], p, p + n) && lt < gt <= n
    ensures cmp.Consistent() ==> ThreeWay(cmp.Order(), a[..], p, n, lt, gt, old(a[p]))
  {
    hide Permuted, Parted, BlocksSwapped, TotalPreorder, ThreeWay;
    ghost var s := a[..];
    var span: nat := Min(lt0, i - lt0);
    SwapBlock(a, p, p + i - span, span, p, p + n);
    ghost var w := a[..];
    var span2: nat := Min(n - gt0, gt0 - i);
    SwapBlock(a, p + i, p + n - span2, span2, p, p + n);
    PermutedTrans(s, w, a[..], p, p + n);
    lt, gt := i - lt0, n - (gt0 - i);
    if cmp.Consistent() {
      FirstBlock(cmp.Order(), s, w, p, n, lt0, i, gt0, span);
      SecondBlock(cmp.Order(), w, a[..], p, n, lt, i, gt0, span2, s[p]);
    }
  }

  /** Partitions a segment: [0, lt) below the pivot, [lt, gt) equal to it, [gt, n) above it. */
  method Partition<T(!new)>(a: array<T>, p: nat, n: nat, cmp: Comparator<T>) returns (lt: nat, gt: nat, ghost pivot: T)
    requires p + n <= a.Length && n > 6
    modifies a, cmp
    ensures Permuted(old(a[..]), a[..], p, p + n) && lt < gt <= n
    ensures cmp.Consistent() ==> ThreeWay(cmp.Order(), a[..], p, n, lt, gt, pivot)
  {
    hide Permuted, Parted, TotalPreorder, ThreeWay;
    ghost var s0 := a[..];
    ChoosePivot(a, p, n, cmp);
    ghost var s1 := a[..];
    var lt0, i, gt0 := Part(a, p, n, cmp);
    ghost var s2 := a[..];
    pivot := a[p];
    PermutedTrans(s0, s1, s2, p, p + n);
    lt, gt := Regroup(a, p, n, lt0, i, gt0, cmp);
    PermutedTrans(s0, s2, a[..], p, p + n);
  }

  // ----- pending segments -----

  datatype Segment = Segment(base: nat, count: nat, depth: nat)

  predicate Inside(g: Segment, i: nat) { g.base <= i < g.base + g.count }

  /** The segments lie in the array and do not overlap. */
  ghost predicate Apart(gs: seq<Segment>, len: nat) {
    && (forall k :: 0 <= k < |gs| ==> gs[k].base + gs[k].count <= len)
    && (forall k, l, i :: 0 <= k < l < |gs| && Inside(gs[k], i) ==> !Inside(gs[l], i))
  }

  ghost predicate Together(gs: seq<Segment>, i: nat, j: nat) {
    exists k :: 0 <= k < |gs| && Inside(gs[k], i) && Inside(gs[k], j)
  }

  /** Only elements of the same pending segment may be out of order. */
  ghost predicate Settled<T>(cmp: (T, T) -> int, s: seq<T>, gs: seq<Segment>) {
    forall i, j :: 0 <= i < j < |s| && !Together(gs, i, j) ==> cmp(s[i], s[j]) <= 0
  }

  /** Permuting one pending segment leaves the others alone. */
  lemma SegmentPermuted<T>(cmp: (T, T) -> int, s: seq<T>, w: seq<T>, gs: seq<Segment>, k: nat)
    requires k < |gs| && Apart(gs, |s|) && Settled(cmp, s, gs) && Permuted(s, w, gs[k].base, gs[k].base + gs[k].count)
    ensures Settled(cmp, w, gs)
  {
    var lo, hi := gs[k].base, gs[k].base + gs[k].count;
    forall i, j | 0 <= i < j < |w| && !Together(gs, i, j) ensures cmp(w[i], w[j]) <= 0 {
      var i', j' := i, j;
      if lo <= i < hi {
        i' := PermutedElement(s, w, lo, hi, i);
      } else {
        OutsideSame(s, w, lo, hi, i);
      }
      if lo <= j < hi {
        j' := PermutedElement(s, w, lo, hi, j);
      } else {
        OutsideSame(s, w, lo, hi, j);
      }
      assert !(Inside(gs[k], i) && Inside(gs[k], j));
      MovedApart(gs, |s|, k, i, j, i', j');
    }
  }

  lemma OutsideSame<T>(s: seq<T>, w: seq<T>, lo: nat, hi: nat, i: nat)
    requires lo <= hi <= |s| && Permuted(s, w, lo, hi) && i < |s| && !(lo <= i < hi)
    ensures w[i] == s[i]
  {
    if i < lo {
      assert w[i] == w[..lo][i];
    } else {
      assert w[i] == w[hi..][i - hi];
    }
  }

  /** Elements of different segments stay in different segments, and in order. */
  lemma MovedApart(gs: seq<Segment>, len: nat, k: nat, i: nat, j: nat, i': nat, j': nat)
    requires k < |gs| && Apart(gs, len) && !Together(gs, i, j) && i < j
    requires if Inside(gs[k], i) then Inside(gs[k], i') else i' == i
    requires if Inside(gs[k], j) then Inside(gs[k], j') else j' == j
    ensures i' < j' && !Together(gs, i', j')
  {
    assert !(Inside(gs[k], i) && Inside(gs[k], j));
  }

  lemma ThreeWayOrder<T(!new)>(cmp: (T, T) -> int, s: seq<T>, p: nat, n: nat, lt: nat, gt: nat, pivot: T, i: nat,
                        j: nat)
    requires TotalPreorder(cmp) && ThreeWay(cmp, s, p, n, lt, gt, pivot) && p <= i < j < p + n
    requires !(j < p + lt) && !(p + gt <= i)
    ensures cmp(s[i], s[j]) <= 0
  {
    assert cmp(s[i], pivot) <= 0;
    assert cmp(pivot, s[j]) <= 0;
  }

  /** After a partition the outer parts of the segment are pending instead of it. */
  lemma SegmentSplit<T(!new)>(cmp: (T, T) -> int, s: seq<T>, rest: seq<Segment>, g: Segment, lt: nat, gt: nat,
                       pivot: T, a: Segment, b: Segment)
    requires TotalPreorder(cmp) && Apart(rest + [g], |s|) && Settled(cmp, s, rest + [g])
    requires ThreeWay(cmp, s, g.base, g.count, lt, gt, pivot)
    requires forall i: nat :: Inside(a, i) || Inside(b, i) <==>
             g.base <= i < g.base + lt || g.base + gt <= i < g.base + g.count
    requires forall i: nat, j: nat :: i < j && (j < g.base + lt || g.base + gt <= i) && Inside(g, i) && Inside(g, j) ==>
               (Inside(a, i) && Inside(a, j)) || (Inside(b, i) && Inside(b, j))
    ensures Settled(cmp, s, rest + [a] + [b])
  {
    var was, now := rest + [g], rest + [a] + [b];
    assert now[|rest|] == a && now[|rest| + 1] == b && was[|rest|] == g;
    forall i, j | 0 <= i < j < |s| && !Together(now, i, j) ensures cmp(s[i], s[j]) <= 0 {
      assert !(Inside(a, i) && Inside(a, j)) && !(Inside(b, i) && Inside(b, j));
      if Inside(g, i) && Inside(g, j) {
        ThreeWayOrder(cmp, s, g.base, g.count, lt, gt, pivot, i, j);
      } else {
        assert forall k :: 0 <= k < |rest| ==> now[k] == was[k];
        assert !Together(was, i, j);
      }
    }
  }

  lemma SplitApart(rest: seq<Segment>, g: Segment, a: Segment, b: Segment, len: nat)
    requires Apart(rest + [g], len) && a.base + a.count <= len && b.base + b.count <= len
    requires forall i :: Inside(a, i) ==> Inside(g, i) && !Inside(b, i)
    requires forall i :: Inside(b, i) ==> Inside(g, i)
    ensures Apart(rest + [a] + [b], len)
  {
    var was, now := rest + [g], rest + [a] + [b];
    assert forall k :: 0 <= k < |rest| ==> was[k] == now[k];
    assert now[|rest|] == a && now[|rest| + 1] == b && was[|rest|] == g;
    forall k, l, i | 0 <= k < l < |now| && Inside(now[k], i) ensures !Inside(now[l], i) {
      if l >= |rest| && k < |rest| {
        assert !Inside(was[|rest|], i);
      }
    }
  }

  /** A sorted segment is no longer pending. */
  lemma SegmentDone<T>(cmp: (T, T) -> int, s: seq<T>, rest: seq<Segment>, g: Segment)
    requires Apart(rest + [g], |s|) && Settled(cmp, s, rest + [g]) && g.base + g.count <= |s|
             && SortedIn(cmp, s, g.base, g.base + g.count)
    ensures Settled(cmp, s, rest) && Apart(rest, |s|)
  {
    var was := rest + [g];
    assert was[|rest|] == g && forall k :: 0 <= k < |rest| ==> was[k] == rest[k];
    forall i, j | 0 <= i < j < |s| && !Together(rest, i, j) ensures cmp(s[i], s[j]) <= 0 {
      if !(Inside(g, i) && Inside(g, j)) {
        assert !Together(was, i, j);
      }
    }
  }

  /** Pending work: bounds the steps that are left. */
  function Weight(gs: seq<Segment>): nat {
    if gs == [] then 0 else Weight(gs[..|gs| - 1]) + 2 * gs[|gs| - 1].count + 1
  }

  lemma WeightPush(gs: seq<Segment>, g: Segment)
    ensures Weight(gs + [g]) == Weight(gs) + 2 * g.count + 1
  {
    assert (gs + [g])[..|gs|] == gs;
  }

  const MAX_DEPTH := 50

  /** The depth of each entry is at least the number of entries below it. */
  ghost predicate Deepening(gs: seq<Segment>) {
    forall k :: 0 <= k < |gs| ==> k <= gs[k].depth <= MAX_DEPTH
  }

  /** What holds of the array and the pending segments between two steps. */
  ghost predicate Progress<T(!new)>(cmp: Comparator<T>, was: seq<T>, s: seq<T>, gs: seq<Segment>) {
    && |s| == |was| && Permuted(was, s, 0, |s|) && Apart(gs, |s|)
    && (cmp.Consistent() ==> Settled(cmp.Order(), s, gs))
  }

  lemma ProgressPermuted<T(!new)>(cmp: Comparator<T>, was: seq<T>, s: seq<T>, w: seq<T>, gs: seq<Segment>, k: nat)
    requires k < |gs| && Progress(cmp, was, s, gs) && gs[k].base + gs[k].count <= |s|
             && Permuted(s, w, gs[k].base, gs[k].base + gs[k].count)
    ensures Progress(cmp, was, w, gs)
  {
    hide Permuted, Settled, TotalPreorder;
    var lo, hi := gs[k].base, gs[k].base + gs[k].count;
    PermutedLength(s, w, lo, hi);
    PermutedWiden(s, w, lo, hi, 0, |s|);
    PermutedTrans(was, s, w, 0, |s|);
    if cmp.Consistent() {
      SegmentPermuted(cmp.Order(), s, w, gs, k);
    }
  }

  lemma PermutedLength<T>(s: seq<T>, w: seq<T>, lo: nat, hi: nat)
    requires lo <= hi <= |s| && Permuted(s, w, lo, hi)
    ensures |w| == |s|
  {
  }

  lemma ProgressDone<T(!new)>(cmp: Comparator<T>, was: seq<T>, s: seq<T>, rest: seq<Segment>, g: Segment)
    requires Progress(cmp, was, s, rest + [g]) && g.base + g.count <= |s|
             && (cmp.Consistent() ==> SortedIn(cmp.Order(), s, g.base, g.base + g.count))
    ensures Progress(cmp, was, s, rest)
  {
    hide Permuted, Settled, TotalPreorder;
    if cmp.Consistent() {
      SegmentDone(cmp.Order(), s, rest, g);
    }
    ApartPrefix(rest, g, |s|);
  }

  lemma ApartPrefix(rest: seq<Segment>, g: Segment, len: nat)
    requires Apart(rest + [g], len)
    ensures Apart(rest, len)
  {
    assert forall k :: 0 <= k < |rest| ==> (rest + [g])[k] == rest[k];
  }

  /** The two outer parts of a segment, the larger one first. */
  function Halves(g: Segment, lt: nat, gt: nat, depth: nat): (r: (Segment, Segment))
    requires lt < gt <= g.count
    ensures r.0.count >= r.1.count && {r.0.base, r.1.base} == {g.base, g.base + gt}
  {
    var low, high := Segment(g.base, lt, depth), Segment(g.base + gt, g.count - gt, depth);
    if lt > g.count - gt then (low, high) else (high, low)
  }

  lemma ProgressSplit<T(!new)>(cmp: Comparator<T>, was: seq<T>, s: seq<T>, rest: seq<Segment>, g: Segment, lt: nat,
                        gt: nat, depth: nat, pivot: T)
    requires Progress(cmp, was, s, rest + [g]) && lt < gt <= g.count && g.base + g.count <= |s|
    requires cmp.Consistent() ==> ThreeWay(cmp.Order(), s, g.base, g.count, lt, gt, pivot)
    ensures var h := Halves(g, lt, gt, depth); Progress(cmp, was, s, rest + [h.0] + [h.1])
  {
    hide Permuted, Settled, TotalPreorder, Apart, ThreeWay;
    var h := Halves(g, lt, gt, depth);
    SplitApart(rest, g, h.0, h.1, |s|);
    if cmp.Consistent() {
      SegmentSplit(cmp.Order(), s, rest, g, lt, gt, pivot, h.0, h.1);
    }
  }

  /** Sorts or splits the segment taken from the stack; the height of the stack of segments left to do. */
  method SortSegment<T(!new)>(a: array<T>, stack: array<Segment>, sp0: nat, g: Segment, cmp: Comparator<T>,
                       ghost was: seq<T>)
    returns (sp: nat)
    requires a as object != stack as object && stack.Length == MAX_DEPTH && sp0 <= MAX_DEPTH
    requires Progress(cmp, was, a[..], stack[..sp0] + [g]) && Deepening(stack[..sp0] + [g])
    modifies a, cmp, stack
    ensures sp <= MAX_DEPTH && Progress(cmp, was, a[..], stack[..sp]) && Deepening(stack[..sp])
    ensures Weight(stack[..sp]) < Weight(old(stack[..sp0]) + [g])
  {
    hide Permuted, Settled, TotalPreorder, Apart, ThreeWay, Weight, Deepening, Progress;
    sp := sp0;
    var cur := g;
    while cur.count > 6
      invariant sp <= MAX_DEPTH && Progress(cmp, was, a[..], stack[..sp] + [cur]) && Deepening(stack[..sp] + [cur])
      invariant Weight(stack[..sp] + [cur]) <= Weight(old(stack[..sp0]) + [g])
      decreases cur.count
    {
      ghost var gs, s := stack[..sp], a[..];
      LastInside(cmp, was, s, gs, cur);
      LastFits(gs, cur);
      var depth := cur.depth + 1;
      if depth > MAX_DEPTH {
        break;
      }
      var lt, gt;
      ghost var pivot;
      lt, gt, pivot := Partition(a, cur.base, cur.count, cmp);
      ProgressPermuted(cmp, was, s, a[..], gs + [cur], |gs|);
      ProgressSplit(cmp, was, a[..], gs, cur, lt, gt, depth, pivot);
      var h := Halves(cur, lt, gt, depth);
      PushFits(gs, cur, h.0, h.1);
      SplitWeight(gs, cur, h.0, h.1);
      stack[sp] := h.0;
      sp := sp + 1;
      assert stack[..sp] == gs + [h.0];
      cur := h.1;
    }
    ghost var gs, s := stack[..sp], a[..];
    LastInside(cmp, was, s, gs, cur);
    WeightPush(gs, cur);
    if cur.count > 6 {
      HeapSort(a, cur.base, cur.count, cmp);
    } else {
      InsertionSort(a, cur.base, cur.count, cmp);
    }
    ProgressPermuted(cmp, was, s, a[..], gs + [cur], |gs|);
    ProgressDone(cmp, was, a[..], gs, cur);
    PopFits(gs, cur);
  }

  lemma SplitWeight(gs: seq<Segment>, g: Segment, a: Segment, b: Segment)
    requires a.count + b.count < g.count
    ensures Weight(gs + [a] + [b]) <= Weight(gs + [g])
  {
    hide Weight;
    WeightPush(gs, g);
    WeightPush(gs, a);
    WeightPush(gs + [a], b);
  }

  lemma LastInside<T(!new)>(cmp: Comparator<T>, was: seq<T>, s: seq<T>, rest: seq<Segment>, g: Segment)
    requires Progress(cmp, was, s, rest + [g])
    ensures g.base + g.count <= |s|
  {
    assert (rest + [g])[|rest|] == g;
  }

  lemma LastFits(rest: seq<Segment>, g: Segment)
    requires Deepening(rest + [g])
    ensures |rest| <= g.depth <= MAX_DEPTH
  {
    assert (rest + [g])[|rest|] == g;
  }

  lemma PopFits(rest: seq<Segment>, g: Segment)
    requires Deepening(rest + [g])
    ensures Deepening(rest)
  {
    assert forall k :: 0 <= k < |rest| ==> (rest + [g])[k] == rest[k];
  }

  /** Pushing a segment one level deeper keeps the depths above the heights. */
  lemma PushFits(rest: seq<Segment>, g: Segment, a: Segment, b: Segment)
    requires Deepening(rest + [g]) && a.depth == b.depth == g.depth + 1 <= MAX_DEPTH
    ensures Deepening(rest + [a] + [b])
  {
    var now := rest + [a] + [b];
    assert forall k :: 0 <= k < |rest| ==> (rest + [g])[k] == now[k];
    assert (rest + [g])[|rest|] == g && now[|rest|] == a && now[|rest| + 1] == b;
  }

  /** Sorts the array; for any comparator it stops and only permutes, with a stack of 50 pending segments. */
  method Rqsort<T(!new)>(a: array<T>, cmp: Comparator<T>)
    modifies a, cmp
    ensures multiset(a[..]) == multiset(old(a[..]))
    ensures cmp.Consistent() ==> Sorted(cmp.Order(), a[..])
  {
    hide Permuted, Settled, TotalPreorder, Apart, Weight, Deepening, Progress;
    if a.Length < 2 {
      return;
    }
    ghost var was := a[..];
    var stack := new Segment[MAX_DEPTH](_ => Segment(0, 0, 0));
    stack[0] := Segment(0, a.Length, 0);
    var sp := 1;
    assert stack[..sp] == [Segment(0, |was|, 0)];
    ProgressStart(cmp, was);
    while sp > 0
      invariant 0 <= sp <= MAX_DEPTH && Progress(cmp, was, a[..], stack[..sp]) && Deepening(stack[..sp])
      invariant fresh(stack)
      decreases Weight(stack[..sp])
    {
      assert stack[..sp] == stack[..sp - 1] + [stack[sp - 1]];
      sp := SortSegment(a, stack, sp - 1, stack[sp - 1], cmp, was);
    }
    assert stack[..0] == [];
    ProgressEnd(cmp, was, a[..]);
  }

  lemma ProgressStart<T(!new)>(cmp: Comparator<T>, s: seq<T>)
    ensures Progress(cmp, s, s, [Segment(0, |s|, 0)]) && Deepening([Segment(0, |s|, 0)])
  {
    var gs := [Segment(0, |s|, 0)];
    forall i, j | 0 <= i < j < |s| ensures Together(gs, i, j) {
      assert Inside(gs[0], i) && Inside(gs[0], j);
    }
  }

  lemma ProgressEnd<T(!new)>(cmp: Comparator<T>, was: seq<T>, s: seq<T>)
    requires Progress(cmp, was, s, [])
    ensures multiset(s) == multiset(was) && (cmp.Consistent() ==> Sorted(cmp.Order(), s))
  {
    assert s[0..|s|] == s && was[0..|s|] == was;
  }
}
