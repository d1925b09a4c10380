/**
 Blocks of instructions as bytes, and the analyses that scan them: whether an
 atom may fail to advance, how many characters a simple atom reads, and the
 greatest depth of the value stack.
 */
module RegexpBuffer {
  import opened Basics
  import opened RegexpBytecode
  import opened RegexpCodegen
  import opened RegexpLayout
  import opened RegexpStack

  /** The bytes of a block. */
  function Bytes(code: seq<Instr>): (b: seq<byte>)
    ensures |b| == Len(code)
  {
    if code == [] then [] else Encode(code[0]) + Bytes(code[1..])
  }

  lemma {:induction false} BytesAppend(a: seq<Instr>, b: seq<Instr>)
    ensures Bytes(a + b) == Bytes(a) + Bytes(b)
  {
    hide Encode;
    if a == [] {
      assert a + b == b;
    } else {
      assert (a + b)[1..] == a[1..] + b;
      BytesAppend(a[1..], b);
    }
  }

  lemma BytesOne(i: Instr)
    ensures Bytes([i]) == Encode(i)
  {
    assert [i][1..] == [];
  }

  /** The number of ranges of each class fits its 16-bit field. */
  ghost predicate Counted(i: Instr) {
    i.IRange? || i.IRange32? ==> |i.pairs| % 2 == 0 && IsU16(|i.pairs| / 2)
  }

  ghost predicate AllCounted(code: seq<Instr>) {
    forall i :: i in code ==> Counted(i)
  }

  /** The size of the instruction at `pos` according to the opcode table, with its ranges. */
  function SizeAt(b: seq<byte>, pos: nat): int
    requires pos < |b|
  {
    var op := b[pos];
    if op in {1, 2, 17} then 3
    else if op in {3, 4, 11, 12, 13, 18, 19, 33, 34} then 5
    else if op in {15, 16, 25, 26, 27, 28} then 2
    else if op in {29, 30} then if pos + 3 <= |b| then 3 + 4 * GetU16(b, pos + 1) else 3
    else if op in {31, 32} then if pos + 3 <= |b| then 3 + 8 * GetU16(b, pos + 1) else 3
    else if op == 38 then 17
    else 1
  }

  /** The instruction at `k` of a block can be recognised in its bytes. */
  lemma {:induction false} InstrBytes(code: seq<Instr>, k: nat)
    requires k < |code|
    ensures Len(code[..k]) + Size(code[k]) == Len(code[..k + 1]) <= Len(code)
    ensures Bytes(code)[Len(code[..k])..Len(code[..k + 1])] == Encode(code[k])
  {
    hide Len, Bytes, Encode;
    var i := code[k];
    assert code[..k + 1] == code[..k] + [i];
    assert code == code[..k + 1] + code[k + 1..];
    LenAppend(code[..k], [i]);
    LenAppend(code[..k + 1], code[k + 1..]);
    BytesAppend(code[..k + 1], code[k + 1..]);
    BytesAppend(code[..k], [i]);
    BytesOne(i);
    OneLen(i);
  }

  lemma OneLen(i: Instr)
    ensures Len([i]) == Size(i)
  {
    assert [i][1..] == [];
  }

  lemma SizeRecognised(b: seq<byte>, pos: nat, i: Instr)
    requires pos + Size(i) <= |b| && b[pos..pos + Size(i)] == Encode(i) && Counted(i)
    ensures b[pos] == Opcode(i) && SizeAt(b, pos) == Size(i)
  {
    hide Operands, GetU16;
    assert b[pos] == b[pos..pos + Size(i)][0];
    if i.IRange? || i.IRange32? {
      RangeCount(b, pos, i);
    }
  }

  lemma RangeCount(b: seq<byte>, pos: nat, i: Instr)
    requires (i.IRange? || i.IRange32?) && Counted(i)
    requires pos + Size(i) <= |b| && b[pos..pos + Size(i)] == Encode(i)
    ensures GetU16(b, pos + 1) == |i.pairs| / 2
  {
    hide U16s, U32s, GetU16, U16;
    var w := b[pos..pos + Size(i)];
    var n := |i.pairs| / 2;
    Parts(w, Opcode(i), U16(n), if i.IRange? then U16s(i.pairs) else U32s(i.pairs));
    SubSlice(b, pos, pos + Size(i), 1, 3);
    GetPutU16(b, pos + 1, n);
  }

  /** Where the scan is: before instruction `k` of the block `code` that starts at `start`. */
  ghost predicate ScanAt(b: seq<byte>, start: nat, code: seq<Instr>, k: nat, pos: nat) {
    && start + Len(code) == |b| && b[start..] == Bytes(code) && AllCounted(code)
    && k <= |code| && pos == start + Len(code[..k])
  }

  lemma ScanStep(b: seq<byte>, start: nat, code: seq<Instr>, k: nat, pos: nat)
    requires ScanAt(b, start, code, k, pos)
    ensures k < |code| <==> pos < |b|
    ensures k < |code| ==>
              && b[pos] == Opcode(code[k]) && SizeAt(b, pos) == Size(code[k])
              && ScanAt(b, start, code, k + 1, pos + Size(code[k]))
              && code[..k + 1] == code[..k] + [code[k]] && code[k] in code
  {
    hide Bytes, Encode, SizeAt, Len;
    if k < |code| {
      InstrBytes(code, k);
      SubSlice(b, start, |b|, Len(code[..k]), Len(code[..k + 1]));
      assert code[k] in code;
      SizeRecognised(b, pos, code[k]);
    } else {
      assert code[..k] == code;
    }
  }

  /** Opcodes that read one character: the `simple_char` cases. */
  predicate CharOp(op: byte) { op in {1, 2, 3, 4, 5, 6, 29, 30, 31, 32} }

  predicate AssertionOp(op: byte) { op in {7, 8, 9, 10, 21, 22, 23, 24} }

  predicate OtherOp(op: byte) { op in {15, 16, 17, 19, 20, 25, 26, 27, 28, 35, 37} }

  lemma OpcodeKinds(i: Instr)
    ensures CharOp(Opcode(i)) == ReadsChar(i)
    ensures AssertionOp(Opcode(i)) == IsAssertion(i)
    ensures (CharOp(Opcode(i)) || AssertionOp(Opcode(i)) || OtherOp(Opcode(i))) == IsPredictable(i)
  {
  }

  /** True if the block may not advance the position. */
  method NeedCheckAdvanceScan(b: seq<byte>, start: nat, ghost code: seq<Instr>) returns (need: bool)
    requires ScanAt(b, start, code, 0, start)
    ensures need == NeedCheckAdvance(code)
  {
    need := true;
    var pos := start;
    ghost var k := 0;
    while pos < |b|
      invariant ScanAt(b, start, code, k, pos)
      invariant AllPredictable(code[..k]) && need == !AnyReadsChar(code[..k])
      decreases |b| - pos
    {
      ScanStep(b, start, code, k, pos);
      OpcodeKinds(code[k]);
      var op, len := b[pos], SizeAt(b, pos);
      if CharOp(op) {
        need := false;
      } else if AssertionOp(op) || OtherOp(op) {
      } else {
        return true;
      }
      AnyReadsAppend(code[..k], code[k]);
      pos, k := pos + len, k + 1;
    }
    ScanStep(b, start, code, k, pos);
    assert code[..k] == code;
  }

  lemma AnyReadsAppend(a: seq<Instr>, i: Instr)
    ensures AnyReadsChar(a + [i]) == (AnyReadsChar(a) || ReadsChar(i))
  {
    assert i in a + [i];
    assert forall x :: x in a ==> x in a + [i];
  }

  lemma {:induction false} CountAppend(a: seq<Instr>, i: Instr)
    ensures CountChars(a + [i]) == CountChars(a) + (if ReadsChar(i) then 1 else 0)
    decreases |a|
  {
    if a == [] {
      assert a + [i] == [i] && [i][1..] == [];
    } else {
      assert (a + [i])[1..] == a[1..] + [i];
      CountAppend(a[1..], i);
    }
  }

  /** The number of characters of a simple block, or -1. */
  method SimpleQuantifierScan(b: seq<byte>, start: nat, ghost code: seq<Instr>) returns (count: int)
    requires ScanAt(b, start, code, 0, start)
    ensures count == SimpleQuantifier(code)
  {
    count := 0;
    var pos := start;
    ghost var k := 0;
    while pos < |b|
      invariant ScanAt(b, start, code, k, pos)
      invariant AllSimple(code[..k]) && count == CountChars(code[..k])
      decreases |b| - pos
    {
      ScanStep(b, start, code, k, pos);
      OpcodeKinds(code[k]);
      CountAppend(code[..k], code[k]);
      var op, len := b[pos], SizeAt(b, pos);
      if CharOp(op) {
        count := count + 1;
      } else if AssertionOp(op) {
      } else {
        return -1;
      }
      pos, k := pos + len, k + 1;
    }
    ScanStep(b, start, code, k, pos);
    assert code[..k] == code;
  }

  const STACK_SIZE_MAX := 255

  lemma OpcodeEffects(i: Instr)
    ensures (Opcode(i) in {19, 35}) == (Effect(i) == 1)
    ensures (Opcode(i) in {20, 36}) == (Effect(i) == -1)
  {
  }

  /** The greatest depth of the linear scan, or -1 when it exceeds the limit; the scan never underflows. */
  method ComputeStackSize(b: seq<byte>, start: nat, ghost code: seq<Instr>) returns (size: int)
    requires ScanAt(b, start, code, 0, start)
    requires forall k :: 0 <= k < |code| ==> Depth(code[..k]) >= Need(code[k])
    ensures size == if MaxDepth(code) <= STACK_SIZE_MAX then MaxDepth(code) else -1
  {
    hide Depth, MaxDepth, ScanAt, SizeAt;
    var depth := 0;
    size := 0;
    var pos := start;
    ghost var k := 0;
    assert code[..0] == [];
    NoCode();
    MaxDepthEmpty();
    while pos < |b|
      invariant ScanAt(b, start, code, k, pos) && k <= |code|
      invariant depth == Depth(code[..k]) && size == MaxDepth(code[..k]) <= STACK_SIZE_MAX
      decreases |b| - pos
    {
      ScanStep(b, start, code, k, pos);
      OpcodeEffects(code[k]);
      MaxDepthStep(code, k);
      var op, len := b[pos], SizeAt(b, pos);
      if op in {19, 35} {
        depth := depth + 1;
        if depth > size {
          if depth > STACK_SIZE_MAX {
            MaxDepthPrefix(code, k + 1);
            return -1;
          }
          size := depth;
        }
      } else if op in {20, 36} {
        assert depth > 0;
        depth := depth - 1;
      }
      pos, k := pos + len, k + 1;
    }
    ScanStep(b, start, code, k, pos);
    assert code[..k] == code;
  }

  lemma MaxDepthEmpty()
    ensures MaxDepth([]) == 0
  {
  }

  lemma MaxDepthStep(code: seq<Instr>, k: nat)
    requires k < |code|
    ensures Depth(code[..k + 1]) == Depth(code[..k]) + Effect(code[k])
    ensures Depth(code[..k]) <= MaxDepth(code[..k])
    ensures MaxDepth(code[..k + 1]) == Max(MaxDepth(code[..k]), Depth(code[..k + 1]))
  {
    var a := code[..k + 1];
    assert a == code[..k] + [code[k]] && a[..|a| - 1] == code[..k];
    DepthAppend(code[..k], [code[k]]);
    Small(code[k], code[k]);
  }

  lemma {:induction false} MaxDepthPrefix(code: seq<Instr>, k: nat)
    requires k <= |code|
    ensures MaxDepth(code[..k]) <= MaxDepth(code)
    decreases |code|
  {
    if k == |code| {
      assert code[..k] == code;
    } else {
      var a := code[..|code| - 1];
      MaxDepthPrefix(a, k);
      assert a[..k] == code[..k];
    }
  }
}
