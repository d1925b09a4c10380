/**
 The generator of the property tables: run lengths, their packed encoding and the index. What it builds, the lookup
 takes apart again: a code point is found if and only if it has the property.
 */
module PropertyBuilder {
  import opened Basics
  import opened PropertyTables

  // ----- runs -----

  /** The value of the `k`th code point, where the runs alternate and `lens` holds their lengths less one. */
  function RunValue(lens: seq<nat>, bit: bool, k: nat): (r: Option<bool>) {
    if lens == [] then None
    else if k <= lens[0] then Some(bit)
    else RunValue(lens[1..], !bit, k - lens[0] - 1)
  }

  function Total(lens: seq<nat>): nat {
    if lens == [] then 0 else lens[0] + 1 + Total(lens[1..])
  }

  ghost predicate Storable(lens: seq<nat>) {
    forall i :: 0 <= i < |lens| ==> lens[i] < 0x20_0000
  }

  // ----- encoding -----

  predicate IsPair(lens: seq<nat>) { |lens| >= 2 && lens[0] < 8 && lens[1] < 8 }

  /** The bytes of the first run, or of the first two if both are short. */
  function Item(lens: seq<nat>): (b: seq<byte>)
    requires lens != [] && lens[0] < 0x20_0000
    ensures 1 <= |b| <= 3
  {
    var v := lens[0];
    if IsPair(lens) then [v * 8 + lens[1]]
    else if v < 0x80 then [0x80 + v]
    else if v < 0x2000 then [0x40 + v / 0x100, v % 0x100]
    else [0x60 + v / 0x1_0000, v / 0x100 % 0x100, v % 0x100]
  }

  function ItemRunCount(lens: seq<nat>): (n: nat)
    requires lens != []
    ensures 1 <= n <= |lens|
  {
    if IsPair(lens) then 2 else 1
  }

  ghost function Encoded(lens: seq<nat>): (b: seq<byte>)
    requires Storable(lens)
    decreases |lens|
  {
    if lens == [] then [] else Item(lens) + Encoded(lens[ItemRunCount(lens)..])
  }

  /** The state after the item at `d`. */
  function After(lens: seq<nat>, d: Decoder): Decoder
    requires lens != [] && lens[0] < 0x20_0000
  {
    if IsPair(lens) then Decoder(d.pos + 1, d.code + lens[0] + lens[1] + 2, d.bit)
    else Decoder(d.pos + |Item(lens)|, d.code + lens[0] + 1, !d.bit)
  }

  /** Decoding an item gives its runs back. */
  lemma ItemDecoded(table: seq<byte>, d: Decoder, lens: seq<nat>)
    requires lens != [] && lens[0] < 0x20_0000
    requires d.pos + |Item(lens)| <= |table| && table[d.pos..d.pos + |Item(lens)|] == Item(lens)
    ensures HasItem(table, d.pos) && FirstRun(table, d.pos) == lens[0] + 1 && Advance(table, d) == After(lens, d)
  {
    var b, v := Item(lens), lens[0];
    assert forall k :: 0 <= k < |b| ==> table[d.pos + k] == b[k];
    assert table[d.pos] == b[0];
    if IsPair(lens) {
      assert b[0] / 8 == v && b[0] % 8 == lens[1];
    } else if 0x80 <= v < 0x2000 {
      assert v == v / 0x100 * 0x100 + v % 0x100 && table[d.pos + 1] == b[1];
    } else if v >= 0x2000 {
      assert v == v / 0x1_0000 * 0x1_0000 + v / 0x100 % 0x100 * 0x100 + v % 0x100;
      assert table[d.pos + 1] == b[1] && table[d.pos + 2] == b[2];
    }
  }

  /** The encoding of `lens` stands at `d` and ends the table. */
  ghost predicate Holds(table: seq<byte>, d: Decoder, lens: seq<nat>) {
    Storable(lens) && d.pos <= |table| && table[d.pos..] == Encoded(lens)
  }

  lemma HoldsNext(table: seq<byte>, d: Decoder, lens: seq<nat>)
    requires Holds(table, d, lens) && lens != []
    ensures HasItem(table, d.pos) && FirstRun(table, d.pos) == lens[0] + 1 && Advance(table, d) == After(lens, d)
    ensures Holds(table, After(lens, d), lens[ItemRunCount(lens)..])
  {
    hide FirstRun, Advance, HasItem;
    var b, n := Item(lens), d.pos + |Item(lens)|;
    assert table[d.pos..n] == table[d.pos..][..|b|] == b;
    assert table[n..] == table[d.pos..][|b|..];
    ItemDecoded(table, d, lens);
  }

  /** The lookup in an encoded table gives the value of the run that holds the code point. */
  lemma {:induction false} LookupEncoded(table: seq<byte>, d: Decoder, lens: seq<nat>, c: nat)
    requires Holds(table, d, lens) && d.code <= c
    ensures Lookup(table, d, c) == RunValue(lens, d.bit, c - d.code)
    decreases |lens|
  {
    hide Holds;
    if lens == [] {
      NothingHeld(table, d);
    } else {
      HoldsNext(table, d, lens);
      HoldsStorable(table, d, lens);
      var n := After(lens, d);
      if c >= n.code {
        LookupEncoded(table, n, lens[ItemRunCount(lens)..], c);
        assert IsPair(lens) ==> lens[1..][1..] == lens[2..];
      }
    }
  }

  lemma NothingHeld(table: seq<byte>, d: Decoder)
    requires Holds(table, d, [])
    ensures d.pos == |table| && !HasItem(table, d.pos)
  {
  }

  lemma HoldsStorable(table: seq<byte>, d: Decoder, lens: seq<nat>)
    requires Holds(table, d, lens)
    ensures Storable(lens)
  {
  }

  lemma {:induction false} CompleteEncoded(table: seq<byte>, d: Decoder, lens: seq<nat>)
    requires Holds(table, d, lens)
    ensures Complete(table, d, d.code + Total(lens))
    decreases |lens|
  {
    hide Holds;
    if lens == [] {
      NothingHeld(table, d);
    } else {
      HoldsNext(table, d, lens);
      HoldsStorable(table, d, lens);
      CompleteEncoded(table, After(lens, d), lens[ItemRunCount(lens)..]);
      assert IsPair(lens) ==> lens[1..][1..] == lens[2..];
    }
  }

  // ----- the index -----

  /** Where the `k`th entry of the index may point at the earliest. */
  function Block(k: nat): nat { (k + 1) * BLOCK }

  /** A state before an item, with value false. */
  ghost predicate FalseState(table: seq<byte>, d: Decoder) {
    Reaches(table, START, d) && !d.bit && d.pos < |table|
  }

  ghost predicate Needed(table: seq<byte>, e: nat) {
    exists d :: FalseState(table, d) && d.pos > e + 7
  }

  ghost predicate Served(table: seq<byte>, e: nat) {
    exists d :: FalseState(table, d) && e <= d.pos <= e + 7
  }

  /** Every block that is followed by a false state has one among its first eight bytes. */
  ghost predicate Dense(table: seq<byte>) {
    forall k: nat :: Needed(table, Block(k)) ==> Served(table, Block(k))
  }

  /** Between a state and the next one there is no other. */
  lemma {:induction false} NoneBetween(table: seq<byte>, s: Decoder, d: Decoder, x: Decoder)
    requires Reaches(table, s, d) && Reaches(table, s, x) && HasItem(table, d.pos)
    ensures x.pos <= d.pos || x.pos >= Advance(table, d).pos
    decreases |table| - s.pos
  {
    if s == d {
      if x != s {
        ReachesUp(table, Advance(table, s), x);
      }
    } else if x != s {
      NoneBetween(table, Advance(table, s), d, x);
    } else {
      ReachesUp(table, s, d);
    }
  }

  /** No false state from `e` on stands before `n`. */
  ghost predicate NoneBefore(table: seq<byte>, e: nat, n: nat) {
    forall d :: FalseState(table, d) && d.pos >= e ==> d.pos >= n
  }

  lemma NoneStill(table: seq<byte>, e: nat, d: Decoder)
    requires NoneBefore(table, e, d.pos) && Reaches(table, START, d) && HasItem(table, d.pos) && (d.bit || d.pos < e)
    ensures NoneBefore(table, e, Advance(table, d).pos)
  {
    hide Reaches, Advance, HasItem;
    forall x | FalseState(table, x) && x.pos >= e ensures x.pos >= Advance(table, d).pos {
      NoneBetween(table, START, d, x);
      if x.pos == d.pos {
        SamePlace(table, START, d, x);
      }
    }
  }

  lemma {:induction false} SamePlace(table: seq<byte>, s: Decoder, d: Decoder, x: Decoder)
    requires Reaches(table, s, d) && Reaches(table, s, x) && d.pos == x.pos
    ensures d == x
    decreases |table| - s.pos
  {
    if s == d {
      if x != s {
        ReachesUp(table, Advance(table, s), x);
      }
    } else if x == s {
      ReachesUp(table, Advance(table, s), d);
    } else {
      SamePlace(table, Advance(table, s), d, x);
    }
  }

  /** A 24-bit number, low byte first. */
  function Le24Bytes(v: nat): (b: seq<byte>)
    requires v < 0x100_0000
    ensures |b| == 3
  {
    [v % 0x100, v / 0x100 % 0x100, v / 0x1_0000]
  }

  lemma Le24Back(index: seq<byte>, v: nat)
    requires v < 0x100_0000 && |index| % 3 == 0
    ensures Le24(index + Le24Bytes(v), |index| / 3) == v
    ensures forall i :: 0 <= i < |index| / 3 ==> Le24(index + Le24Bytes(v), i) == Le24(index, i)
  {
    var now, n := index + Le24Bytes(v), |index|;
    assert now[n] == v % 0x100 && now[n + 1] == v / 0x100 % 0x100 && now[n + 2] == v / 0x1_0000;
    assert 3 * (n / 3) == n;
  }

  /** The entries made so far are states of the table, and the blocks before them are served. */
  ghost predicate Entries(table: seq<byte>, index: seq<byte>) {
    && |index| % 3 == 0
    && (forall k :: 0 <= k < |index| / 3 ==> Reaches(table, START, Entry(index, k)))
    && (forall k: nat :: k < |index| / 3 ==> Served(table, Block(k)))
  }

  lemma EntryAdded(table: seq<byte>, index: seq<byte>, d: Decoder)
    requires Entries(table, index) && FalseState(table, d) && d.code < 0x20_0000
    requires Block(|index| / 3) <= d.pos <= Block(|index| / 3) + 7
    ensures var v := d.code + (d.pos - Block(|index| / 3)) * 0x20_0000;
            v < 0x100_0000 && Entries(table, index + Le24Bytes(v))
  {
    hide Reaches;
    var n := |index| / 3;
    var offset := d.pos - Block(n);
    var v := d.code + offset * 0x20_0000;
    var now := index + Le24Bytes(v);
    Le24Back(index, v);
    assert v / 0x20_0000 == offset && v % 0x20_0000 == d.code;
    assert Entry(now, n) == d;
    assert Served(table, Block(n));
    forall k | 0 <= k < n ensures Entry(now, k) == Entry(index, k) { }
  }

  // ----- the packing loop -----

  /** The runs before the `i`th are packed. */
  ghost predicate Packed(all: seq<byte>, lens: seq<nat>, table: seq<byte>, i: nat, code: nat, bit: bool) {
    && i <= |lens| && |table| <= |all| && table == all[..|table|]
    && Holds(all, Decoder(|table|, code, bit), lens[i..]) && Reaches(all, START, Decoder(|table|, code, bit))
    && code + Total(lens[i..]) == Total(lens)
  }

  lemma {:induction false} TotalBounds(lens: seq<nat>)
    requires Total(lens) < 0x20_0000
    ensures Storable(lens)
    decreases |lens|
  {
    if lens != [] {
      TotalBounds(lens[1..]);
      forall i | 0 <= i < |lens| ensures lens[i] < 0x20_0000 {
        assert i > 0 ==> lens[i] == lens[1..][i - 1];
      }
    }
  }

  lemma PackStart(all: seq<byte>, lens: seq<nat>)
    requires Storable(lens) && all == Encoded(lens)
    ensures Packed(all, lens, [], 0, 0, false) && Entries(all, []) && NoneBefore(all, BLOCK, 0)
  {
    assert lens[0..] == lens && all[0..] == all;
  }

  lemma PackedState(all: seq<byte>, lens: seq<nat>, table: seq<byte>, i: nat, code: nat, bit: bool)
    requires Packed(all, lens, table, i, code, bit) && i < |lens| && Total(lens) < 0x20_0000
    ensures var d := Decoder(|table|, code, bit);
            Reaches(all, START, d) && HasItem(all, d.pos) && code < 0x20_0000 && (!bit ==> FalseState(all, d))
  {
    hide Holds, Reaches, Total;
    HoldsNext(all, Decoder(|table|, code, bit), lens[i..]);
  }

  lemma PackedStep(all: seq<byte>, lens: seq<nat>, table: seq<byte>, i: nat, code: nat, bit: bool)
    requires Packed(all, lens, table, i, code, bit) && i < |lens|
    ensures var t, d := lens[i..], Decoder(|table|, code, bit);
            && t[0] < 0x20_0000 && Advance(all, d) == After(t, d) && After(t, d).pos == |table + Item(t)|
            && Packed(all, lens, table + Item(t), i + ItemRunCount(t), After(t, d).code, After(t, d).bit)
  {
    hide Holds, Reaches;
    var t, d := lens[i..], Decoder(|table|, code, bit);
    HoldsStorable(all, d, t);
    HoldsNext(all, d, t);
    HoldsItem(all, d, t);
    ReachesStep(all, START, d);
    var n := ItemRunCount(t);
    assert t[n..] == lens[i + n..];
    assert IsPair(t) ==> t[1..][1..] == t[2..];
    assert all[..|table| + |Item(t)|] == all[..|table|] + all[|table|..|table| + |Item(t)|];
    var now, e := table + Item(t), After(t, d);
    assert e == Decoder(|now|, e.code, e.bit);
    assert Holds(all, e, lens[i + n..]) && Reaches(all, START, e);
    assert Total(t) == e.code - code + Total(t[n..]);
  }

  lemma HoldsItem(table: seq<byte>, d: Decoder, lens: seq<nat>)
    requires Holds(table, d, lens) && lens != []
    ensures d.pos + |Item(lens)| <= |table| && table[d.pos..d.pos + |Item(lens)|] == Item(lens)
  {
    assert table[d.pos..d.pos + |Item(lens)|] == table[d.pos..][..|Item(lens)|];
  }

  lemma LaterBlock(table: seq<byte>, e: nat, d: Decoder)
    requires e >= BLOCK && NoneBefore(table, e - BLOCK, d.pos) && Reaches(table, START, d) && HasItem(table, d.pos)
    requires d.pos < e
    ensures NoneBefore(table, e, Advance(table, d).pos)
  {
    hide Reaches, Advance, HasItem;
    NoneStill(table, e, d);
  }

  lemma NotDense(table: seq<byte>, d: Decoder, k: nat)
    requires FalseState(table, d) && d.pos > Block(k) + 7 && NoneBefore(table, Block(k), d.pos)
    ensures !Dense(table)
  {
    hide FalseState;
    assert Needed(table, Block(k)) && !Served(table, Block(k));
  }

  lemma PackEnd(all: seq<byte>, lens: seq<nat>, table: seq<byte>, index: seq<byte>, code: nat, bit: bool)
    requires Packed(all, lens, table, |lens|, code, bit) && Entries(all, index) && Storable(lens)
    requires NoneBefore(all, Block(|index| / 3), |table|) && Total(lens) < 0x20_0000 && all == Encoded(lens)
    ensures table == all && code < 0x20_0000 && Dense(all)
    ensures var now := index + Le24Bytes(code); Indexed(all, now, |now| / 3)
  {
    hide Reaches, Encoded, Complete, Entries, NoneBefore, Dense, Indexed, Holds;
    assert lens[|lens|..] == [];
    NothingHeld(all, Decoder(|table|, code, bit));
    assert all[..|all|] == all;
    EndDense(all, index);
    assert all[0..] == all;
    HoldsAll(all, lens);
    CompleteEncoded(all, START, lens);
    EndIndexed(all, index, code);
  }

  lemma HoldsAll(all: seq<byte>, lens: seq<nat>)
    requires Storable(lens) && all == Encoded(lens)
    ensures Holds(all, START, lens)
  {
    assert all[0..] == all;
  }

  lemma EndDense(all: seq<byte>, index: seq<byte>)
    requires Entries(all, index) && NoneBefore(all, Block(|index| / 3), |all|)
    ensures Dense(all)
  {
    hide FalseState, Reaches;
    forall k: nat | Needed(all, Block(k)) ensures Served(all, Block(k)) {
      if k >= |index| / 3 {
        var d :| FalseState(all, d) && d.pos > Block(k) + 7;
        FalseInside(all, d);
        assert false;
      }
    }
  }

  lemma EndIndexed(all: seq<byte>, index: seq<byte>, code: nat)
    requires Entries(all, index) && code < 0x20_0000 && Complete(all, START, code)
    ensures var now := index + Le24Bytes(code); Indexed(all, now, |now| / 3)
  {
    hide FalseState, Reaches, Complete, Served;
    Le24Back(index, code);
    var now, n := index + Le24Bytes(code), |index| / 3;
    assert |now| / 3 == n + 1;
    forall k | 0 <= k < n ensures Entry(now, k) == Entry(index, k) { }
  }

  lemma FalseInside(table: seq<byte>, d: Decoder)
    requires FalseState(table, d)
    ensures d.pos < |table|
  {
  }

  /** Appends one run, or two short ones. */
  method PutItem(table0: seq<byte>, lens: seq<nat>, i0: nat, code0: nat, bit0: bool)
    returns (table: seq<byte>, i: nat, code: nat, bit: bool)
    requires i0 < |lens| && lens[i0] < 0x20_0000
    ensures var t, d := lens[i0..], After(lens[i0..], Decoder(|table0|, code0, bit0));
            table == table0 + Item(t) && i == i0 + ItemRunCount(t) && code == d.code && bit == d.bit
  {
    var v := lens[i0];
    table, i, code, bit := table0, i0, code0 + v + 1, !bit0;
    if v < 8 && i + 1 < |lens| && lens[i + 1] < 8 {
      code := code + lens[i + 1] + 1;
      bit := !bit;
      table := table + [v * 8 + lens[i + 1]];
      i := i + 2;
    } else if v < 128 {
      table := table + [0x80 + v];
      i := i + 1;
    } else if v < 0x2000 {
      table := table + [0x40 + v / 0x100] + [v % 0x100];
      i := i + 1;
    } else {
      table := table + [0x60 + v / 0x1_0000] + [v / 0x100 % 0x100] + [v % 0x100];
      i := i + 1;
    }
  }

  /** Encodes the runs and records a state for every block; fails if a block has none close enough to its start. */
  method Pack(lens: seq<nat>) returns (r: Option<(seq<byte>, seq<byte>)>)
    requires Total(lens) < 0x20_0000
    ensures Storable(lens) && (r.Some? <==> Dense(Encoded(lens)))
    ensures r.Some? ==> r.value.0 == Encoded(lens) && Indexed(r.value.0, r.value.1, |r.value.1| / 3)
  {
    hide Reaches, Complete, Lookup, Total, FalseState, Dense, Entries, NoneBefore, Encoded, Storable, Indexed, Packed,
         Item, IsPair, Advance, HasItem, Le24Bytes;
    TotalBounds(lens);
    ghost var all := Encoded(lens);
    var table: seq<byte>, index: seq<byte> := [], [];
    var i, code: nat, bit, blockEnd := 0, 0, false, BLOCK;
    PackStart(all, lens);
    while i < |lens|
      invariant 0 <= i <= |lens| && |index| % 3 == 0 && blockEnd == Block(|index| / 3)
      invariant Packed(all, lens, table, i, code, bit) && Entries(all, index) && NoneBefore(all, blockEnd, |table|)
    {
      ghost var d := Decoder(|table|, code, bit);
      PackedState(all, lens, table, i, code, bit);
      if |table| >= blockEnd && !bit {
        var offset := |table| - blockEnd;
        if offset > 7 {
          NotDense(all, d, |index| / 3);
          return None;
        }
        EntryAdded(all, index, d);
        index := index + Le24Bytes(code + offset * 0x20_0000);
        blockEnd := blockEnd + BLOCK;
        LaterBlock(all, blockEnd, d);
      } else {
        NoneStill(all, blockEnd, d);
      }
      PackedStep(all, lens, table, i, code, bit);
      table, i, code, bit := PutItem(table, lens, i, code, bit);
    }
    PackEnd(all, lens, table, index, code, bit);
    index := index + Le24Bytes(code);
    r := Some((table, index));
  }

  // ----- from a property to its table -----

  const CHARCODE_MAX := 0x10ffff

  predicate BitAfter(bit: bool, n: nat) { bit != (n % 2 == 1) }

  lemma {:induction false} RunSnoc(lens: seq<nat>, v: nat, bit: bool, k: nat)
    ensures Total(lens + [v]) == Total(lens) + v + 1
    ensures RunValue(lens + [v], bit, k) ==
            if k < Total(lens) then RunValue(lens, bit, k)
            else if k <= Total(lens) + v then Some(BitAfter(bit, |lens|)) else None
    decreases |lens|
  {
    var now := lens + [v];
    if lens == [] {
      assert now[1..] == [];
    } else {
      assert now[1..] == lens[1..] + [v];
      RunSnoc(lens[1..], v, !bit, if k > lens[0] then k - lens[0] - 1 else 0);
    }
  }

  /** The runs so far give the values of the property below `i`. */
  ghost predicate Collected(prop: nat -> bool, lens: seq<nat>, i: nat) {
    Total(lens) == i && forall c: nat :: c < i ==> RunValue(lens, prop(0), c) == Some(prop(c))
  }

  lemma CollectRun(prop: nat -> bool, lens: seq<nat>, i: nat, j: nat)
    requires Collected(prop, lens, i) && i < j && forall c :: i <= c < j ==> prop(c) == BitAfter(prop(0), |lens|)
    ensures Collected(prop, lens + [j - i - 1], j)
  {
    forall c: nat | c < j ensures RunValue(lens + [j - i - 1], prop(0), c) == Some(prop(c)) {
      RunSnoc(lens, j - i - 1, prop(0), c);
    }
    RunSnoc(lens, j - i - 1, prop(0), 0);
  }

  lemma {:induction false} PastRuns(lens: seq<nat>, bit: bool, k: nat)
    ensures RunValue(lens, bit, k).None? <==> k >= Total(lens)
    decreases |lens|
  {
    if lens != [] && k > lens[0] {
      PastRuns(lens[1..], !bit, k - lens[0] - 1);
    }
  }

  /** The lengths of the runs of a property, less one; the last run is left out if it is false. */
  method RunLengths(prop: nat -> bool) returns (lens: seq<nat>)
    ensures Total(lens) <= CHARCODE_MAX + 1
    ensures forall c: nat :: RunValue(lens, prop(0), c) == Some(true) <==> c <= CHARCODE_MAX && prop(c)
  {
    hide Collected, RunValue, Total;
    var i: nat := 0;
    lens := [];
    assert Collected(prop, lens, 0) by { NothingCollected(prop); }
    while i <= CHARCODE_MAX
      invariant i <= CHARCODE_MAX + 1 && Collected(prop, lens, i)
      invariant i <= CHARCODE_MAX ==> prop(i) == BitAfter(prop(0), |lens|)
    {
      var v, j := prop(i), i + 1;
      while j <= CHARCODE_MAX && prop(j) == v
        invariant i < j <= CHARCODE_MAX + 1 && forall c :: i <= c < j ==> prop(c) == v
      {
        j := j + 1;
      }
      if j == CHARCODE_MAX + 1 && !v {
        CollectEnd(prop, lens, i);
        return;
      }
      CollectRun(prop, lens, i, j);
      lens := lens + [j - i - 1];
      i := j;
    }
    CollectEnd(prop, lens, i);
  }

  lemma NothingCollected(prop: nat -> bool)
    ensures Collected(prop, [], 0)
  {
  }

  lemma CollectEnd(prop: nat -> bool, lens: seq<nat>, i: nat)
    requires Collected(prop, lens, i) && i <= CHARCODE_MAX + 1
    requires forall c :: i <= c <= CHARCODE_MAX ==> !prop(c)
    ensures Total(lens) <= CHARCODE_MAX + 1
    ensures forall c: nat :: RunValue(lens, prop(0), c) == Some(true) <==> c <= CHARCODE_MAX && prop(c)
  {
    forall c: nat ensures RunValue(lens, prop(0), c) == Some(true) <==> c <= CHARCODE_MAX && prop(c) {
      PastRuns(lens, prop(0), c);
    }
  }

  /** Builds the table and the index of a property that the code point zero does not have. */
  method BuildTable(prop: nat -> bool) returns (r: Option<(seq<byte>, seq<byte>)>, ghost lens: seq<nat>)
    ensures Storable(lens) && (r.Some? <==> !prop(0) && Dense(Encoded(lens)))
    ensures forall c: nat :: RunValue(lens, prop(0), c) == Some(true) <==> c <= CHARCODE_MAX && prop(c)
    ensures r.Some? ==> Indexed(r.value.0, r.value.1, |r.value.1| / 3)
    ensures r.Some? ==> forall c: nat :: Lookup(r.value.0, START, c) == Some(true) <==> c <= CHARCODE_MAX && prop(c)
  {
    hide RunValue, Total, Lookup, Encoded, Indexed, Dense, Storable;
    var runs := RunLengths(prop);
    lens := runs;
    TotalBounds(lens);
    if prop(0) {
      return None, lens;
    }
    r := Pack(runs);
    if r.Some? {
      HoldsAll(r.value.0, lens);
      forall c: nat ensures Lookup(r.value.0, START, c) == RunValue(lens, false, c) {
        LookupEncoded(r.value.0, START, lens, c);
      }
    }
  }

  /** The lookup in a generated table finds exactly the code points with the property. */
  method BuildAndFind(prop: nat -> bool, c: nat) returns (r: Option<bool>, ghost lens: seq<nat>)
    ensures Storable(lens) && (r.Some? <==> !prop(0) && Dense(Encoded(lens)))
    ensures forall k: nat :: RunValue(lens, prop(0), k) == Some(true) <==> k <= CHARCODE_MAX && prop(k)
    ensures r.Some? ==> r.value == (c <= CHARCODE_MAX && prop(c))
  {
    hide Lookup, Encoded, Indexed, Dense, Storable, RunValue;
    var t;
    t, lens := BuildTable(prop);
    if t.None? {
      return None, lens;
    }
    var found := IsInTable(c, t.value.0, t.value.1, |t.value.1| / 3);
    r := Some(found);
  }
}
