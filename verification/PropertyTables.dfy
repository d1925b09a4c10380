/**
 Character properties as run-length tables with an index: the indexed lookup
 agrees with the linear scan that lists the intervals of the property.
 */
module PropertyTables {
  import opened Basics
  import opened CharSet
  import opened CharRanges
  import opened CaseSets

  /** The decoder: the position of the next byte, the code point reached and the value of the next run. */
  datatype Decoder = Decoder(pos: nat, code: nat, bit: bool)

  const START := Decoder(0, 0, false)

  function ByteAt(table: seq<byte>, p: nat): (b: int)
    requires p < |table|
    ensures 0 <= b < 256
  {
    table[p]
  }

  /** The bytes of the item at `p`. */
  function ItemSize(table: seq<byte>, p: nat): (n: nat)
    requires p < |table|
  {
    if table[p] < 0x40 || table[p] >= 0x80 then 1 else if table[p] < 0x60 then 2 else 3
  }

  predicate HasItem(table: seq<byte>, p: nat) {
    p < |table| && p + ItemSize(table, p) <= |table|
  }

  /** The length of the first run of the item at `p`. */
  function FirstRun(table: seq<byte>, p: nat): (n: nat)
    requires HasItem(table, p)
    ensures n > 0
  {
    var b := ByteAt(table, p);
    if b < 0x40 then b / 8 + 1
    else if b >= 0x80 then b - 0x80 + 1
    else if b < 0x60 then (b - 0x40) * 0x100 + ByteAt(table, p + 1) + 1
    else (b - 0x60) * 0x1_0000 + ByteAt(table, p + 1) * 0x100 + ByteAt(table, p + 2) + 1
  }

  /** The code point after all runs of the item. */
  function ItemEnd(table: seq<byte>, d: Decoder): (c: nat)
    requires HasItem(table, d.pos)
    ensures c > d.code
  {
    var mid := d.code + FirstRun(table, d.pos);
    if table[d.pos] < 0x40 then mid + table[d.pos] % 8 + 1 else mid
  }

  /** The decoder after one item; packed pairs of runs leave the value as it is. */
  function Advance(table: seq<byte>, d: Decoder): (r: Decoder)
    requires HasItem(table, d.pos)
    ensures r.pos > d.pos && r.code > d.code && r.pos <= |table|
  {
    Decoder(d.pos + ItemSize(table, d.pos), ItemEnd(table, d), if table[d.pos] < 0x40 then d.bit else !d.bit)
  }

  /** The value of `c`, decoding from `d` on; None past the end of the table. */
  function Lookup(table: seq<byte>, d: Decoder, c: nat): (r: Option<bool>)
    decreases |table| - d.pos
  {
    if !HasItem(table, d.pos) then None
    else if c < d.code + FirstRun(table, d.pos) then Some(d.bit)
    else if c < ItemEnd(table, d) then Some(!d.bit)
    else Lookup(table, Advance(table, d), c)
  }

  /** The table ends with a whole item, at the code point `bound`. */
  ghost predicate Complete(table: seq<byte>, d: Decoder, bound: nat)
    decreases |table| - d.pos
  {
    if d.pos >= |table| then d.pos == |table| && d.code == bound
    else HasItem(table, d.pos) && Complete(table, Advance(table, d), bound)
  }

  /** `d` is a state the linear decoder passes through, starting from `s`. */
  ghost predicate Reaches(table: seq<byte>, s: Decoder, d: Decoder)
    decreases |table| - s.pos
  {
    s == d || (HasItem(table, s.pos) && Reaches(table, Advance(table, s), d))
  }

  // ----- decoding from the middle -----

  /** From a state at or before `c`, decoding gives the same value as from the start. */
  lemma {:induction false} LookupFrom(table: seq<byte>, s: Decoder, d: Decoder, c: nat)
    requires Reaches(table, s, d) && d.code <= c
    ensures Lookup(table, s, c) == Lookup(table, d, c)
    decreases |table| - s.pos
  {
    if s != d {
      var n := Advance(table, s);
      ReachesUp(table, n, d);
      LookupFrom(table, n, d, c);
    }
  }

  lemma {:induction false} ReachesUp(table: seq<byte>, s: Decoder, d: Decoder)
    requires Reaches(table, s, d)
    ensures s.code <= d.code && s.pos <= d.pos
    decreases |table| - s.pos
  {
    if s != d {
      ReachesUp(table, Advance(table, s), d);
    }
  }

  lemma {:induction false} CompleteFrom(table: seq<byte>, s: Decoder, d: Decoder, bound: nat)
    requires Reaches(table, s, d) && Complete(table, s, bound)
    ensures Complete(table, d, bound)
    decreases |table| - s.pos
  {
    if s != d {
      CompleteFrom(table, Advance(table, s), d, bound);
    }
  }

  lemma {:induction false} ReachesStep(table: seq<byte>, s: Decoder, d: Decoder)
    requires Reaches(table, s, d) && HasItem(table, d.pos)
    ensures Reaches(table, s, Advance(table, d))
    decreases |table| - s.pos
  {
    if s != d {
      ReachesStep(table, Advance(table, s), d);
    }
  }

  /** A complete table decides exactly the code points below its bound. */
  lemma {:induction false} LookupDecides(table: seq<byte>, d: Decoder, bound: nat, c: nat)
    requires Complete(table, d, bound)
    ensures d.code <= bound
    ensures Lookup(table, d, c).Some? <==> c < bound && d.pos < |table|
    decreases |table| - d.pos
  {
    if d.pos < |table| {
      LookupDecides(table, Advance(table, d), bound, c);
      EndOfTable(table, Advance(table, d), bound);
    }
  }

  lemma EndOfTable(table: seq<byte>, d: Decoder, bound: nat)
    requires Complete(table, d, bound)
    ensures d.pos >= |table| ==> d.code == bound
  {
  }

  // ----- the index -----

  const BLOCK := 32

  /** A little-endian 24-bit entry. */
  function Le24(index: seq<byte>, i: nat): (v: nat)
    requires 3 * i + 2 < |index|
    ensures v < 0x100_0000
  {
    ByteAt(index, 3 * i) + 0x100 * ByteAt(index, 3 * i + 1) + 0x1_0000 * ByteAt(index, 3 * i + 2)
  }

  function IndexCode(v: nat): nat { v % 0x20_0000 }

  /** The decoder state recorded by an entry. */
  function Entry(index: seq<byte>, i: nat): Decoder
    requires 3 * i + 2 < |index|
  {
    Decoder((i + 1) * BLOCK + Le24(index, i) / 0x20_0000, IndexCode(Le24(index, i)), false)
  }

  /** Every entry but the last is a state of the linear decoder, and the last is the bound of the table. */
  ghost predicate Indexed(table: seq<byte>, index: seq<byte>, n: nat) {
    && n >= 1 && |index| == 3 * n
    && (forall i :: 0 <= i < n - 1 ==> Reaches(table, START, Entry(index, i)))
    && Le24(index, n - 1) < 0x20_0000 && Complete(table, START, Le24(index, n - 1))
  }

  /** Where decoding for `c` begins, or None outside the table. */
  method GetIndexPos(c: nat, table: seq<byte>, index: seq<byte>, n: nat) returns (r: Option<Decoder>)
    requires Indexed(table, index, n)
    ensures r.None? ==> c >= Le24(index, n - 1)
    ensures r.Some? ==> c < Le24(index, n - 1) && Reaches(table, START, r.value) && r.value.code <= c && !r.value.bit
  {
    hide Reaches, Complete;
    var bound := Le24(index, n - 1);
    if c < IndexCode(Le24(index, 0)) {
      if n > 1 {
        FirstEntryBelow(table, index, n);
      }
      ReachesSelf(table, START);
      return Some(START);
    }
    if c >= bound {
      return None;
    }
    var idxMin, idxMax := 0, n - 1;
    while idxMax - idxMin > 1
      invariant 0 <= idxMin < idxMax <= n - 1 && IndexCode(Le24(index, idxMin)) <= c
    {
      var idx := (idxMax + idxMin) / 2;
      if c < IndexCode(Le24(index, idx)) {
        idxMax := idx;
      } else {
        idxMin := idx;
      }
    }
    r := Some(Entry(index, idxMin));
  }

  lemma ReachesSelf(table: seq<byte>, d: Decoder)
    ensures Reaches(table, d, d)
  {
  }

  /** Recorded states do not lie past the bound. */
  lemma FirstEntryBelow(table: seq<byte>, index: seq<byte>, n: nat)
    requires Indexed(table, index, n) && n > 1
    ensures IndexCode(Le24(index, 0)) <= Le24(index, n - 1)
  {
    var bound := Le24(index, n - 1);
    CompleteFrom(table, START, Entry(index, 0), bound);
    LookupDecides(table, Entry(index, 0), bound, 0);
  }

  /** The indexed lookup: decodes from the recorded state to the run of `c`. */
  method IsInTable(c: nat, table: seq<byte>, index: seq<byte>, n: nat) returns (r: bool)
    requires Indexed(table, index, n)
    ensures r <==> Lookup(table, START, c) == Some(true)
  {
    hide Reaches, Complete, Lookup, Indexed;
    var start := GetIndexPos(c, table, index, n);
    ghost var bound := IndexBound(table, index, n);
    LookupDecides(table, START, bound, c);
    if start.None? {
      return false;
    }
    LookupFrom(table, START, start.value, c);
    CompleteFrom(table, START, start.value, bound);
    var p: nat, code: nat, bit := start.value.pos, start.value.code, false;
    while true
      invariant Complete(table, Decoder(p, code, bit), bound) && c < bound
      invariant Lookup(table, Decoder(p, code, bit), c) == Lookup(table, START, c)
      decreases |table| - p
    {
      ghost var d := Decoder(p, code, bit);
      NextItem(table, d, bound, c);
      var b := ByteAt(table, p);
      p := p + 1;
      if b < 64 {
        code := code + b / 8 + 1;
        if c < code {
          return bit;
        }
        bit := !bit;
        code := code + b % 8 + 1;
      } else if b >= 0x80 {
        code := code + b - 0x80 + 1;
      } else if b < 0x60 {
        code := code + (b - 0x40) * 0x100 + ByteAt(table, p) + 1;
        p := p + 1;
      } else {
        code := code + (b - 0x60) * 0x1_0000 + ByteAt(table, p) * 0x100 + ByteAt(table, p + 1) + 1;
        p := p + 2;
      }
      if c < code {
        return bit;
      }
      bit := !bit;
    }
  }

  ghost function IndexBound(table: seq<byte>, index: seq<byte>, n: nat): (bound: nat)
    requires Indexed(table, index, n)
    ensures bound == Le24(index, n - 1) && Complete(table, START, bound)
  {
    Le24(index, n - 1)
  }

  /** Below the bound there is a whole item at every state, and decoding it is one step of the lookup. */
  lemma NextItem(table: seq<byte>, d: Decoder, bound: nat, c: nat)
    requires Complete(table, d, bound) && c < bound && Lookup(table, d, c).Some?
    ensures HasItem(table, d.pos)
    ensures c < d.code + FirstRun(table, d.pos) ==> Lookup(table, d, c) == Some(d.bit)
    ensures d.code + FirstRun(table, d.pos) <= c < ItemEnd(table, d) ==> Lookup(table, d, c) == Some(!d.bit)
    ensures c >= ItemEnd(table, d) ==>
              Complete(table, Advance(table, d), bound) && Lookup(table, d, c) == Lookup(table, Advance(table, d), c)
  {
  }

  // ----- the linear scan -----

  /** The intervals listed so far are the code points below `d.code` whose value is true. */
  ghost predicate Listed(table: seq<byte>, pts: seq<int>, d: Decoder) {
    && Open(pts, d.code)
    && (forall x: nat :: x < d.code ==> (InSet(pts, x) <==> Lookup(table, START, x) == Some(true)))
    && (forall x :: x >= d.code ==> !InSet(pts, x))
  }

  lemma ListedStart(table: seq<byte>)
    ensures Listed(table, [], START)
  {
    forall x ensures !InSet([], x) { NothingInSet(x); }
  }

  /** Adds the run from `code` to `next`, all of value `bit`, to the list. */
  lemma ListedRun(table: seq<byte>, pts: seq<int>, d: Decoder, next: Decoder, bit: bool)
    requires Listed(table, pts, d) && d.code <= next.code <= UINT32_MAX
    requires forall x: nat :: d.code <= x < next.code ==> Lookup(table, START, x) == Some(bit)
    ensures Listed(table, if bit then pts + [d.code, next.code] else pts, next)
  {
    hide InSet, Lookup;
    if bit {
      var now := pts + [d.code, next.code];
      AppendInterval(pts, d.code, next.code);
      forall x: nat | x < next.code ensures InSet(now, x) <==> Lookup(table, START, x) == Some(true) {
        assert InSet(now, x) <==> InSet(pts, x) || d.code <= x < next.code;
      }
    } else {
      OpenUp(pts, d.code, next.code);
    }
  }

  /** Lists the intervals of a property. */
  method PropScan(table: seq<byte>, ghost bound: nat) returns (cr: CharRange)
    requires Complete(table, START, bound) && bound <= UINT32_MAX
    ensures fresh(cr) && Sorted(cr.points) && |cr.points| % 2 == 0
    ensures forall x: nat :: InSet(cr.points, x) <==> Lookup(table, START, x) == Some(true)
  {
    hide InSet, Lookup, Complete, Listed, Reaches, Open;
    cr := new CharRange();
    var p: nat, c: nat, bit := 0, 0, false;
    ListedStart(table);
    ReachesSelf(table, START);
    while p < |table|
      invariant fresh(cr) && Complete(table, Decoder(p, c, bit), bound) && Reaches(table, START, Decoder(p, c, bit))
      invariant Listed(table, cr.points, Decoder(p, c, bit))
      decreases |table| - p
    {
      ghost var d := Decoder(p, c, bit);
      ItemRuns(table, d, bound);
      var c0 := c;
      var b := ByteAt(table, p);
      p := p + 1;
      if b < 64 {
        c := c + b / 8 + 1;
        ghost var mid := Decoder(d.pos, c, !bit);
        ListedRun(table, cr.points, d, mid, bit);
        if bit {
          cr.AddInterval(c0, c);
        }
        bit := !bit;
        c0 := c;
        c := c + b % 8 + 1;
        ListedRun(table, cr.points, mid, Decoder(p, c, !bit), bit);
      } else {
        if b >= 0x80 {
          c := c + b - 0x80 + 1;
        } else if b < 0x60 {
          c := c + (b - 0x40) * 0x100 + ByteAt(table, p) + 1;
          p := p + 1;
        } else {
          c := c + (b - 0x60) * 0x1_0000 + ByteAt(table, p) * 0x100 + ByteAt(table, p + 1) + 1;
          p := p + 2;
        }
        ListedRun(table, cr.points, d, Decoder(p, c, !bit), bit);
      }
      if bit {
        cr.AddInterval(c0, c);
      }
      bit := !bit;
      assert Decoder(p, c, bit) == Advance(table, d);
      ReachesStep(table, START, d);
    }
    ListedEnd(table, cr.points, Decoder(p, c, bit), bound);
  }

  /** The runs of the item at a state have the values the decoder gives them. */
  lemma ItemRuns(table: seq<byte>, d: Decoder, bound: nat)
    requires Complete(table, d, bound) && Reaches(table, START, d) && d.pos < |table|
    ensures HasItem(table, d.pos) && Complete(table, Advance(table, d), bound) && ItemEnd(table, d) <= bound
    ensures forall x: nat :: d.code <= x < d.code + FirstRun(table, d.pos) ==> Lookup(table, START, x) == Some(d.bit)
    ensures forall x: nat :: d.code + FirstRun(table, d.pos) <= x < ItemEnd(table, d) ==>
            Lookup(table, START, x) == Some(!d.bit)
  {
    LookupDecides(table, Advance(table, d), bound, 0);
    var mid, end := d.code + FirstRun(table, d.pos), ItemEnd(table, d);
    forall x: nat | d.code <= x < mid ensures Lookup(table, START, x) == Some(d.bit) { LookupFrom(table, START, d, x); }
    forall x: nat | mid <= x < end ensures Lookup(table, START, x) == Some(!d.bit) { LookupFrom(table, START, d, x); }
  }

  lemma ListedEnd(table: seq<byte>, pts: seq<int>, d: Decoder, bound: nat)
    requires Listed(table, pts, d) && Complete(table, d, bound) && d.pos >= |table| && Reaches(table, START, d)
    ensures Sorted(pts) && |pts| % 2 == 0
    ensures forall x: nat :: InSet(pts, x) <==> Lookup(table, START, x) == Some(true)
  {
    hide InSet;
    forall x: nat ensures InSet(pts, x) <==> Lookup(table, START, x) == Some(true) {
      if x >= d.code {
        LookupFrom(table, START, d, x);
      }
    }
  }

  /** The indexed lookup finds exactly the code points of the listed intervals. */
  method LookupAgrees(c: nat, table: seq<byte>, index: seq<byte>, n: nat) returns (found: bool, cr: CharRange)
    requires Indexed(table, index, n)
    ensures fresh(cr) && (found <==> InSet(cr.points, c))
  {
    hide InSet, Lookup, Complete, Indexed;
    ghost var bound := IndexBound(table, index, n);
    found := IsInTable(c, table, index, n);
    cr := PropScan(table, bound);
  }
}
