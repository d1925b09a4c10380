/**
 Bytecode instructions, their byte encoding (little endian operands, jumps as
 byte offsets from the end of the instruction) and their decoding.
 */
module RegexpBytecode {
  import opened Basics

  datatype Instr =
    | IChar(c: int, icase: bool)
    | IChar32(c: int, icase: bool)
    | IDot
    | IAny
    | ILineStart(multi: bool)
    | ILineEnd(multi: bool)
    | IGoto(off: int)
    | ISplitGotoFirst(off: int)
    | ISplitNextFirst(off: int)
    | IMatch
    | ISaveStart(group: int)
    | ISaveEnd(group: int)
    | ISaveReset(lo: int, hi: int)
    | ILoop(off: int)
    | IPushI32(v: int)
    | IDrop
    | IWordBoundary(negated: bool, icase: bool)
    | IBackRef(group: int, backward: bool, icase: bool)
    | IRange(pairs: seq<int>, icase: bool)
    | IRange32(pairs: seq<int>, icase: bool)
    | ILookahead(negative: bool, off: int)
    | IPushCharPos
    | ICheckAdvance
    | IPrev
    | ISimpleGreedyQuant(off: int, min: int, max: int, count: int)

  /** The length of an instruction in bytes. */
  function Size(i: Instr): (n: nat)
    ensures n >= 1
  {
    match i
    case IChar(_, _) => 3
    case IChar32(_, _) => 5
    case IGoto(_) => 5
    case ISplitGotoFirst(_) => 5
    case ISplitNextFirst(_) => 5
    case ISaveStart(_) => 2
    case ISaveEnd(_) => 2
    case ISaveReset(_, _) => 3
    case ILoop(_) => 5
    case IPushI32(_) => 5
    case IBackRef(_, _, _) => 2
    case IRange(ps, _) => 3 + 2 * |ps|
    case IRange32(ps, _) => 3 + 4 * |ps|
    case ILookahead(_, _) => 5
    case ISimpleGreedyQuant(_, _, _, _) => 17
    case _ => 1
  }

  // Stores keep the low bits of a value; the bytes of a negative offset are its two's complement.

  function U8(x: int): byte { x % 256 }

  function U16(x: int): (b: seq<byte>)
    ensures |b| == 2
  {
    [x % 256, x / 256 % 256]
  }

  function U32(x: int): (b: seq<byte>)
    ensures |b| == 4
  {
    [x % 256, x / 256 % 256, x / 256 / 256 % 256, x / 256 / 256 / 256 % 256]
  }

  function GetU16(b: seq<byte>, p: int): int
    requires 0 <= p && p + 2 <= |b|
  {
    b[p] as int + 256 * (b[p + 1] as int)
  }

  function GetU32(b: seq<byte>, p: int): (x: int)
    requires 0 <= p && p + 4 <= |b|
    ensures IsU32(x)
  {
    b[p] as int + 256 * (b[p + 1] as int) + 65536 * (b[p + 2] as int) + 16777216 * (b[p + 3] as int)
  }

  function GetI32(b: seq<byte>, p: int): int
    requires 0 <= p && p + 4 <= |b|
  {
    var x := GetU32(b, p);
    if x >= 0x8000_0000 then x - 0x1_0000_0000 else x
  }

  function U16s(xs: seq<int>): (b: seq<byte>)
    ensures |b| == 2 * |xs|
  {
    if xs == [] then [] else U16(xs[0]) + U16s(xs[1..])
  }

  function U32s(xs: seq<int>): (b: seq<byte>)
    ensures |b| == 4 * |xs|
  {
    if xs == [] then [] else U32(xs[0]) + U32s(xs[1..])
  }

  function GetU16s(b: seq<byte>, p: int, n: nat): (xs: seq<int>)
    requires 0 <= p && p + 2 * n <= |b|
    ensures |xs| == n
    decreases n
  {
    if n == 0 then [] else [GetU16(b, p)] + GetU16s(b, p + 2, n - 1)
  }

  function GetU32s(b: seq<byte>, p: int, n: nat): (xs: seq<int>)
    requires 0 <= p && p + 4 * n <= |b|
    ensures |xs| == n
    decreases n
  {
    if n == 0 then [] else [GetU32(b, p)] + GetU32s(b, p + 4, n - 1)
  }

  /** The operands fit their fields. */
  ghost predicate Encodable(i: Instr) {
    match i
    case IChar(c, _) => IsU16(c)
    case IChar32(c, _) => IsU32(c)
    case IGoto(off) => IsI32(off)
    case ISplitGotoFirst(off) => IsI32(off)
    case ISplitNextFirst(off) => IsI32(off)
    case ISaveStart(g) => IsU8(g)
    case ISaveEnd(g) => IsU8(g)
    case ISaveReset(lo, hi) => IsU8(lo) && IsU8(hi)
    case ILoop(off) => IsI32(off)
    case IPushI32(v) => IsU32(v)
    case IBackRef(g, _, _) => IsU8(g)
    case IRange(ps, _) => |ps| % 2 == 0 && IsU16(|ps| / 2) && forall x :: x in ps ==> IsU16(x)
    case IRange32(ps, _) => |ps| % 2 == 0 && IsU16(|ps| / 2) && forall x :: x in ps ==> IsU32(x)
    case ILookahead(_, off) => IsI32(off)
    case ISimpleGreedyQuant(off, min, max, count) => IsI32(off) && IsU32(min) && IsU32(max) && IsU32(count)
    case _ => true
  }

  function Opcode(i: Instr): (op: byte) {
    match i
    case IChar(_, ic) => if ic then 2 else 1
    case IChar32(_, ic) => if ic then 4 else 3
    case IDot => 5
    case IAny => 6
    case ILineStart(m) => if m then 8 else 7
    case ILineEnd(m) => if m then 10 else 9
    case IGoto(_) => 11
    case ISplitGotoFirst(_) => 12
    case ISplitNextFirst(_) => 13
    case IMatch => 14
    case ISaveStart(_) => 15
    case ISaveEnd(_) => 16
    case ISaveReset(_, _) => 17
    case ILoop(_) => 18
    case IPushI32(_) => 19
    case IDrop => 20
    case IWordBoundary(n, ic) => 21 + (if n then 2 else 0) + (if ic then 1 else 0)
    case IBackRef(_, bk, ic) => 25 + (if bk then 2 else 0) + (if ic then 1 else 0)
    case IRange(_, ic) => if ic then 30 else 29
    case IRange32(_, ic) => if ic then 32 else 31
    case ILookahead(n, _) => if n then 34 else 33
    case IPushCharPos => 35
    case ICheckAdvance => 36
    case IPrev => 37
    case ISimpleGreedyQuant(_, _, _, _) => 38
  }

  function Operands(i: Instr): (b: seq<byte>)
    ensures |b| == Size(i) - 1
  {
    match i
    case IChar(c, _) => U16(c)
    case IChar32(c, _) => U32(c)
    case IGoto(off) => U32(off)
    case ISplitGotoFirst(off) => U32(off)
    case ISplitNextFirst(off) => U32(off)
    case ISaveStart(g) => [U8(g)]
    case ISaveEnd(g) => [U8(g)]
    case ISaveReset(lo, hi) => [U8(lo), U8(hi)]
    case ILoop(off) => U32(off)
    case IPushI32(v) => U32(v)
    case IBackRef(g, _, _) => [U8(g)]
    case IRange(ps, _) => RangeOperands16(ps)
    case IRange32(ps, _) => RangeOperands32(ps)
    case ILookahead(_, off) => U32(off)
    case ISimpleGreedyQuant(off, min, max, count) => QuantOperands(off, min, max, count)
    case _ => []
  }

  function RangeOperands16(ps: seq<int>): (b: seq<byte>)
    ensures |b| == 2 + 2 * |ps|
  {
    U16(|ps| / 2) + U16s(ps)
  }

  function RangeOperands32(ps: seq<int>): (b: seq<byte>)
    ensures |b| == 2 + 4 * |ps|
  {
    U16(|ps| / 2) + U32s(ps)
  }

  function QuantOperands(off: int, min: int, max: int, count: int): (b: seq<byte>)
    ensures |b| == 16
  {
    U32s([off, min, max, count])
  }

  function Encode(i: Instr): (b: seq<byte>)
    ensures |b| == Size(i)
  {
    [Opcode(i)] + Operands(i)
  }

  /** Decodes the instruction at byte `p`; None for an unknown opcode or a truncated instruction. */
  function Fetch(b: seq<byte>, p: int): (r: Option<Instr>)
    ensures r.Some? ==> 0 <= p && p + Size(r.value) <= |b|
  {
    if !(0 <= p < |b|) then None
    else
      var op := b[p];
      if op in {5, 6, 7, 8, 9, 10, 14, 20, 21, 22, 23, 24, 35, 36, 37} then FetchPlain(op)
      else if op in {15, 16, 17, 25, 26, 27, 28} then FetchBytes(b, p, op)
      else if op in {29, 30, 31, 32} then FetchRange(b, p, op)
      else FetchWord(b, p, op)
  }

  function FetchPlain(op: byte): (r: Option<Instr>)
    ensures r.Some? ==> Size(r.value) == 1
  {
    match op
    case 5 => Some(IDot)
    case 6 => Some(IAny)
    case 7 => Some(ILineStart(false))
    case 8 => Some(ILineStart(true))
    case 9 => Some(ILineEnd(false))
    case 10 => Some(ILineEnd(true))
    case 14 => Some(IMatch)
    case 20 => Some(IDrop)
    case 21 => Some(IWordBoundary(false, false))
    case 22 => Some(IWordBoundary(false, true))
    case 23 => Some(IWordBoundary(true, false))
    case 24 => Some(IWordBoundary(true, true))
    case 35 => Some(IPushCharPos)
    case 36 => Some(ICheckAdvance)
    case 37 => Some(IPrev)
    case _ => None
  }

  function FetchBytes(b: seq<byte>, p: int, op: byte): (r: Option<Instr>)
    requires 0 <= p < |b|
    ensures r.Some? ==> p + Size(r.value) <= |b|
  {
    if p + 2 > |b| then None
    else match op
      case 15 => Some(ISaveStart(b[p + 1]))
      case 16 => Some(ISaveEnd(b[p + 1]))
      case 17 => if p + 3 > |b| then None else Some(ISaveReset(b[p + 1], b[p + 2]))
      case 25 => Some(IBackRef(b[p + 1], false, false))
      case 26 => Some(IBackRef(b[p + 1], false, true))
      case 27 => Some(IBackRef(b[p + 1], true, false))
      case 28 => Some(IBackRef(b[p + 1], true, true))
      case _ => None
  }

  function FetchRange(b: seq<byte>, p: int, op: byte): (r: Option<Instr>)
    requires 0 <= p < |b|
    ensures r.Some? ==> p + Size(r.value) <= |b|
  {
    if p + 3 > |b| then None
    else
      var n := 2 * GetU16(b, p + 1);
      if op <= 30 then
        if p + 3 + 2 * n > |b| then None else Some(IRange(GetU16s(b, p + 3, n), op == 30))
      else
        if p + 3 + 4 * n > |b| then None else Some(IRange32(GetU32s(b, p + 3, n), op == 32))
  }

  function FetchWord(b: seq<byte>, p: int, op: byte): (r: Option<Instr>)
    requires 0 <= p < |b|
    ensures r.Some? ==> p + Size(r.value) <= |b|
  {
    if p + 3 > |b| then None
    else if op in {1, 2} then Some(IChar(GetU16(b, p + 1), op == 2))
    else if p + 5 > |b| then None
    else match op
      case 3 => Some(IChar32(GetU32(b, p + 1), false))
      case 4 => Some(IChar32(GetU32(b, p + 1), true))
      case 11 => Some(IGoto(GetI32(b, p + 1)))
      case 12 => Some(ISplitGotoFirst(GetI32(b, p + 1)))
      case 13 => Some(ISplitNextFirst(GetI32(b, p + 1)))
      case 18 => Some(ILoop(GetI32(b, p + 1)))
      case 19 => Some(IPushI32(GetU32(b, p + 1)))
      case 33 => Some(ILookahead(false, GetI32(b, p + 1)))
      case 34 => Some(ILookahead(true, GetI32(b, p + 1)))
      case 38 =>
        if p + 17 > |b| then None
        else Some(ISimpleGreedyQuant(GetI32(b, p + 1), GetU32(b, p + 5), GetU32(b, p + 9), GetU32(b, p + 13)))
      case _ => None
  }

  lemma GetPutU16(b: seq<byte>, p: int, x: int)
    requires IsU16(x) && 0 <= p && p + 2 <= |b| && b[p..p + 2] == U16(x)
    ensures GetU16(b, p) == x
  {
    assert b[p] == b[p..p + 2][0] && b[p + 1] == b[p..p + 2][1];
  }

  lemma GetPutU32(b: seq<byte>, p: int, x: int)
    requires IsU32(x) && 0 <= p && p + 4 <= |b| && b[p..p + 4] == U32(x)
    ensures GetU32(b, p) == x
  {
    var w := b[p..p + 4];
    assert b[p] == w[0] && b[p + 1] == w[1] && b[p + 2] == w[2] && b[p + 3] == w[3];
    var y := x / 256;
    var z := y / 256;
    assert x == x % 256 + 256 * y && y == y % 256 + 256 * z && z == z % 256 + 256 * (z / 256);
  }

  lemma GetPutI32(b: seq<byte>, p: int, x: int)
    requires IsI32(x) && 0 <= p && p + 4 <= |b| && b[p..p + 4] == U32(x)
    ensures GetI32(b, p) == x
  {
    var u := if x < 0 then x + 0x1_0000_0000 else x;
    assert U32(u) == U32(x) by { U32Wraps(x, u); }
    GetPutU32(b, p, u);
  }

  lemma U32Wraps(x: int, u: int)
    requires u == x || u == x + 0x1_0000_0000
    ensures U32(u) == U32(x)
  {
    if u != x {
      assert u % 256 == x % 256 && u / 256 == x / 256 + 0x100_0000;
      var y, v := x / 256, u / 256;
      assert v % 256 == y % 256 && v / 256 == y / 256 + 0x1_0000;
      var z, w := y / 256, v / 256;
      assert w % 256 == z % 256 && w / 256 == z / 256 + 0x100;
    }
  }

  lemma {:induction false} GetPutU16s(b: seq<byte>, p: int, xs: seq<int>)
    requires forall x :: x in xs ==> IsU16(x)
    requires 0 <= p && p + 2 * |xs| <= |b| && b[p..p + 2 * |xs|] == U16s(xs)
    ensures GetU16s(b, p, |xs|) == xs
    decreases |xs|
  {
    if xs != [] {
      var w := b[p..p + 2 * |xs|];
      assert b[p..p + 2] == w[..2] == U16(xs[0]);
      assert b[p + 2..p + 2 + 2 * |xs[1..]|] == w[2..] == U16s(xs[1..]);
      GetPutU16(b, p, xs[0]);
      GetPutU16s(b, p + 2, xs[1..]);
    }
  }

  lemma {:induction false} GetPutU32s(b: seq<byte>, p: int, xs: seq<int>)
    requires forall x :: x in xs ==> IsU32(x)
    requires 0 <= p && p + 4 * |xs| <= |b| && b[p..p + 4 * |xs|] == U32s(xs)
    ensures GetU32s(b, p, |xs|) == xs
    decreases |xs|
  {
    if xs != [] {
      var w := b[p..p + 4 * |xs|];
      assert b[p..p + 4] == w[..4] == U32(xs[0]);
      assert b[p + 4..p + 4 + 4 * |xs[1..]|] == w[4..] == U32s(xs[1..]);
      GetPutU32(b, p, xs[0]);
      GetPutU32s(b, p + 4, xs[1..]);
    }
  }

  /** Decoding undoes encoding, wherever the instruction sits in a buffer. */
  lemma FetchEncoded(b: seq<byte>, p: int, i: Instr)
    requires Encodable(i) && 0 <= p && p + Size(i) <= |b|
    requires b[p..p + Size(i)] == Encode(i)
    ensures Fetch(b, p) == Some(i)
  {
    var w := b[p..p + Size(i)];
    assert b[p] == w[0];
    match i
    case ISaveStart(_) => assert b[p + 1] == w[1];
    case ISaveEnd(_) => assert b[p + 1] == w[1];
    case ISaveReset(_, _) => assert b[p + 1] == w[1] && b[p + 2] == w[2];
    case IBackRef(_, _, _) => assert b[p + 1] == w[1];
    case IRange(_, _) => FetchEncodedRange(b, p, i);
    case IRange32(_, _) => FetchEncodedRange32(b, p, i);
    case IChar(c, _) =>
      assert b[p + 1..p + 3] == w[1..] == U16(c);
      GetPutU16(b, p + 1, c);
    case IChar32(_, _) => FetchEncodedWord(b, p, i);
    case IPushI32(_) => FetchEncodedWord(b, p, i);
    case IGoto(_) => FetchEncodedJump(b, p, i);
    case ISplitGotoFirst(_) => FetchEncodedJump(b, p, i);
    case ISplitNextFirst(_) => FetchEncodedJump(b, p, i);
    case ILoop(_) => FetchEncodedJump(b, p, i);
    case ILookahead(_, _) => FetchEncodedJump(b, p, i);
    case ISimpleGreedyQuant(_, _, _, _) => FetchEncodedQuant(b, p, i);
    case _ =>
  }

  lemma FetchEncodedRange(b: seq<byte>, p: int, i: Instr)
    requires i.IRange?
    requires Encodable(i) && 0 <= p && p + Size(i) <= |b| && b[p..p + Size(i)] == Encode(i)
    ensures Fetch(b, p) == Some(i)
  {
    hide GetU16s, U16s;
    var n := |i.pairs|;
    var w := b[p..p + Size(i)];
    assert b[p] == w[0];
    var hd, tl := U16(n / 2), U16s(i.pairs);
    Parts(w, Opcode(i), hd, tl);
    SubSlice(b, p, p + Size(i), 1, 3);
    SubSlice(b, p, p + Size(i), 3, Size(i));
    GetPutU16(b, p + 1, n / 2);
    GetPutU16s(b, p + 3, i.pairs);
    assert 2 * GetU16(b, p + 1) == n;
    assert FetchRange(b, p, b[p]) == Some(IRange(GetU16s(b, p + 3, n), i.icase));
  }

  lemma FetchEncodedRange32(b: seq<byte>, p: int, i: Instr)
    requires i.IRange32?
    requires Encodable(i) && 0 <= p && p + Size(i) <= |b| && b[p..p + Size(i)] == Encode(i)
    ensures Fetch(b, p) == Some(i)
  {
    hide GetU32s, U32s;
    var n := |i.pairs|;
    var w := b[p..p + Size(i)];
    assert b[p] == w[0];
    var hd, tl := U16(n / 2), U32s(i.pairs);
    Parts(w, Opcode(i), hd, tl);
    SubSlice(b, p, p + Size(i), 1, 3);
    SubSlice(b, p, p + Size(i), 3, Size(i));
    GetPutU16(b, p + 1, n / 2);
    GetPutU32s(b, p + 3, i.pairs);
    assert 2 * GetU16(b, p + 1) == n;
    assert FetchRange(b, p, b[p]) == Some(IRange32(GetU32s(b, p + 3, n), i.icase));
  }

  lemma FetchEncodedWord(b: seq<byte>, p: int, i: Instr)
    requires i.IChar32? || i.IPushI32?
    requires Encodable(i) && 0 <= p && p + Size(i) <= |b| && b[p..p + Size(i)] == Encode(i)
    ensures Fetch(b, p) == Some(i)
  {
    var w := b[p..p + Size(i)];
    var x := if i.IChar32? then i.c else i.v;
    assert b[p] == w[0];
    assert b[p + 1..p + 5] == w[1..] == U32(x);
    GetPutU32(b, p + 1, x);
  }

  lemma FetchEncodedJump(b: seq<byte>, p: int, i: Instr)
    requires i.IGoto? || i.ISplitGotoFirst? || i.ISplitNextFirst? || i.ILoop? || i.ILookahead?
    requires Encodable(i) && 0 <= p && p + Size(i) <= |b| && b[p..p + Size(i)] == Encode(i)
    ensures Fetch(b, p) == Some(i)
  {
    var w := b[p..p + Size(i)];
    assert b[p] == w[0];
    assert b[p + 1..p + 5] == w[1..] == U32(i.off);
    GetPutI32(b, p + 1, i.off);
  }

  lemma FetchEncodedQuant(b: seq<byte>, p: int, i: Instr)
    requires i.ISimpleGreedyQuant?
    requires Encodable(i) && 0 <= p && p + Size(i) <= |b| && b[p..p + Size(i)] == Encode(i)
    ensures Fetch(b, p) == Some(i)
  {
    var w := b[p..p + Size(i)];
    var xs := [if i.off < 0 then i.off + 0x1_0000_0000 else i.off, i.min, i.max, i.count];
    assert U32s(xs) == U32s([i.off, i.min, i.max, i.count]) by {
      U32Wraps(i.off, xs[0]);
      assert xs[1..] == [i.off, i.min, i.max, i.count][1..];
    }
    assert b[p] == w[0];
    assert b[p + 1..p + 17] == w[1..] == U32s(xs);
    GetPutU32s(b, p + 1, xs);
    var ys := GetU32s(b, p + 1, 4);
    assert ys[0] == GetU32(b, p + 1) && ys[1..] == GetU32s(b, p + 5, 3);
    assert ys[1] == GetU32(b, p + 5) && ys[1..][1..] == GetU32s(b, p + 9, 2);
    assert ys[2] == GetU32(b, p + 9) && ys[1..][1..][1..] == GetU32s(b, p + 13, 1);
    assert ys[3] == GetU32(b, p + 13);
  }
}
