/** Small datatypes and integer helpers shared by every component. */
module Basics {

  datatype Option<+T> = None | Some(value: T)

  type byte = x: int | 0 <= x < 256

  const INT32_MAX := 0x7fff_ffff
  const UINT32_MAX := 0xffff_ffff

  predicate IsU8(x: int) { 0 <= x < 0x100 }
  predicate IsU16(x: int) { 0 <= x < 0x1_0000 }
  predicate IsU32(x: int) { 0 <= x < 0x1_0000_0000 }
  predicate IsI32(x: int) { -0x8000_0000 <= x < 0x8000_0000 }

  function Min(a: int, b: int): int { if a < b then a else b }
  function Max(a: int, b: int): int { if a > b then a else b }

  lemma SubSlice<T>(b: seq<T>, p: int, q: int, i: int, j: int)
    requires 0 <= p && 0 <= i <= j && p + j <= q <= |b|
    ensures b[p..q][i..j] == b[p + i..p + j]
  {
    assert |b[p..q][i..j]| == |b[p + i..p + j]|;
    assert forall k :: 0 <= k < j - i ==> b[p..q][i..j][k] == b[p + i..p + j][k];
  }

  /** The parts of a header byte, a fixed part and the rest. */
  lemma Parts<T>(w: seq<T>, x: T, h: seq<T>, t: seq<T>)
    requires w == [x] + (h + t)
    ensures w[0] == x && w[1..1 + |h|] == h && w[1 + |h|..|w|] == t
  {
    assert w == ([x] + h) + t;
  }

  lemma TakeMiddle<T>(p: seq<T>, a: seq<T>, q: seq<T>, k: nat)
    requires k <= |a|
    ensures (p + a + q)[..|p| + k] == p + a[..k]
  {
    var l, r := (p + a + q)[..|p| + k], p + a[..k];
    assert |l| == |r|;
    assert forall i :: 0 <= i < |l| ==> l[i] == r[i];
  }
}
