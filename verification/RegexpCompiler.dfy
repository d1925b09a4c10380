/**
 The one-pass compiler, which appends to, inserts into, patches, copies and
 rotates one byte buffer. Whatever the buffer held before, compiling a pattern
 adds exactly the bytes of the pattern's code.
 */
module RegexpCompiler {
  import opened Basics
  import opened RegexpSyntax
  import opened RegexpBytecode
  import opened RegexpCodegen
  import opened RegexpBuffer

  const CAPTURE_COUNT_MAX := 255

  lemma Assoc<T>(a: seq<T>, b: seq<T>, c: seq<T>)
    ensures a + b + c == a + (b + c)
  {
  }

  lemma Bytes3(i: Instr, a: seq<Instr>, b: seq<Instr>)
    ensures Bytes([i] + a + b) == Encode(i) + (Bytes(a) + Bytes(b))
  {
    hide Bytes, Encode;
    BytesAppend([i] + a, b);
    BytesAppend([i], a);
    BytesOne(i);
    Assoc(Encode(i), Bytes(a), Bytes(b));
  }

  lemma BytesTwo(i: Instr, j: Instr)
    ensures Bytes([i, j]) == Encode(i) + Encode(j)
  {
    hide Bytes, Encode;
    assert [i, j] == [i] + [j];
    BytesAppend([i], [j]);
    BytesOne(i);
    BytesOne(j);
  }

  class Compiler {
    var buf: seq<byte>
    var captureCount: nat
    const canon: int -> int

    constructor (canon: int -> int)
      ensures buf == [] && captureCount == 1 && this.canon == canon
    {
      buf, captureCount := [], 1;
      this.canon := canon;
    }

    // ----- the buffer -----

    method Put(data: seq<byte>)
      modifies this`buf
      ensures buf == old(buf) + data
    {
      buf := buf + data;
    }

    /** An opcode with a 32-bit operand; the position of the operand. */
    method PutOpU32(op: byte, v: int) returns (pos: nat)
      modifies this`buf
      ensures buf == old(buf) + ([op] + U32(v)) && pos == |old(buf)| + 1
    {
      Put([op]);
      pos := |buf|;
      Put(U32(v));
    }

    /** Opens a gap of `len` bytes at `pos`. */
    method Insert(pos: nat, len: nat)
      requires pos <= |buf|
      modifies this`buf
      ensures |buf| == |old(buf)| + len && buf[..pos] == old(buf)[..pos] && buf[pos + len..] == old(buf)[pos..]
    {
      buf := buf[..pos] + seq(len, _ => 0) + buf[pos..];
    }

    /** Overwrites bytes from `pos`. */
    method Store(pos: nat, data: seq<byte>)
      requires pos + |data| <= |buf|
      modifies this`buf
      ensures buf == old(buf)[..pos] + data + old(buf)[pos + |data|..]
    {
      buf := buf[..pos] + data + buf[pos + |data|..];
    }

    /** A gap at `pos`, filled with an instruction. */
    method InsertBytes(pos: nat, data: seq<byte>)
      requires pos <= |buf|
      modifies this`buf
      ensures buf == old(buf)[..pos] + data + old(buf)[pos..]
    {
      Insert(pos, |data|);
      Store(pos, data);
    }

    /** Appends a copy of part of the buffer. */
    method PutSelf(offset: nat, len: nat)
      requires offset + len <= |buf|
      modifies this`buf
      ensures buf == old(buf) + old(buf)[offset..offset + len]
    {
      buf := buf + buf[offset..offset + len];
    }

    /** Moves the last term to the front of its alternative, through the space after the end. */
    method Rotate(start: nat, termStart: nat)
      requires start <= termStart <= |buf|
      modifies this`buf
      ensures buf == old(buf)[..start] + old(buf)[termStart..] + old(buf)[start..termStart]
    {
      var end := |buf|;
      var size := end - termStart;
      var moved := buf[..start] + buf[start..start + size] + buf[start..];
      assert moved[end..] == buf[termStart..];
      buf := moved[..start] + moved[end..] + moved[start + size..end];
    }

    // ----- leaves -----

    method EmitCharOp(c: int, icase: bool)
      modifies this`buf
      ensures buf == old(buf) + Encode(EmitChar(c, icase))
    {
      if c <= 0xffff {
        Put([if icase then 2 else 1]);
        Put(U16(c));
      } else {
        var _ := PutOpU32(if icase then 4 else 3, c);
      }
    }

    /** `re_emit_range`: 16-bit ranges when every bound but an infinite last one fits, else 32-bit ranges. */
    method EmitRangeOp(pts: seq<int>, icase: bool)
      requires |pts| % 2 == 0
      modifies this`buf
      ensures buf == old(buf) + Encode(EmitRange(pts, icase))
    {
      hide U16, U32, U16s, U32s, Pairs16, Pairs32;
      var n := |pts| / 2;
      if n == 0 {
        var _ := PutOpU32(3, UINT32_MAX);
      } else {
        var high := pts[|pts| - 1];
        if high == UINT32_MAX {
          high := pts[|pts| - 2];
        }
        if high <= 0xffff {
          Put([if icase then 30 else 29]);
          Put(U16(n));
          EmitPairs16(pts);
        } else {
          Put([if icase then 32 else 31]);
          Put(U16(n));
          EmitPairs32(pts);
        }
      }
    }

    method EmitPairs16(pts: seq<int>)
      requires |pts| % 2 == 0
      modifies this`buf
      ensures buf == old(buf) + U16s(Pairs16(pts))
    {
      hide U16, U16s;
      ghost var ps := Pairs16(pts);
      var i := 0;
      assert ps[0..] == ps;
      while i < |pts|
        invariant 0 <= i <= |pts| && i % 2 == 0
        invariant buf + U16s(ps[i..]) == old(buf) + U16s(ps)
      {
        Put(U16(pts[i]));
        var high := pts[i + 1] - 1;
        if high == UINT32_MAX - 1 {
          high := 0xffff;
        }
        Put(U16(high));
        LowBits16(pts[i]);
        LowBits16(pts[i + 1] - 1);
        Unroll16(ps, i);
        i := i + 2;
      }
      assert U16s([]) == [] by { NoWords(); }
    }

    method EmitPairs32(pts: seq<int>)
      requires |pts| % 2 == 0
      modifies this`buf
      ensures buf == old(buf) + U32s(Pairs32(pts))
    {
      hide U32, U32s;
      ghost var ps := Pairs32(pts);
      var i := 0;
      assert ps[0..] == ps;
      while i < |pts|
        invariant 0 <= i <= |pts| && i % 2 == 0
        invariant buf + U32s(ps[i..]) == old(buf) + U32s(ps)
      {
        Put(U32(pts[i]));
        Put(U32(pts[i + 1] - 1));
        LowBits32(pts[i + 1] - 1);
        Unroll32(ps, i);
        i := i + 2;
      }
      assert U32s([]) == [] by { NoWords(); }
    }

    // ----- quantifiers -----

    method Emit(i: Instr)
      modifies this`buf
      ensures buf == old(buf) + Encode(i)
    {
      Put(Encode(i));
    }

    /** The simple greedy loop: a header before the atom and a `match` after it. */
    method EmitSimpleLoop(start: nat, min: nat, max: nat, count: int, ghost pre: seq<byte>, ghost a: seq<Instr>)
      requires buf == pre + Bytes(a) && start == |pre| && count == SimpleQuantifier(a)
      modifies this`buf
      ensures buf == pre + Bytes(SimpleLoop(a, min, max))
    {
      hide Bytes, Encode, SimpleQuantifier;
      Emit(IMatch);
      var head := ISimpleGreedyQuant(|buf| - start, min, max, count);
      InsertBytes(start, Encode(head));
      Bytes3(head, a, [IMatch]);
      BytesOne(IMatch);
      Splice(pre, Bytes(a), Encode(head), Encode(IMatch));
    }

    /** Zero or one time, or any number of times. */
    method EmitMaybe(start: nat, hasGoto: bool, greedy: bool, need: bool, ghost pre: seq<byte>, ghost a: seq<Instr>)
      requires buf == pre + Bytes(a) && start == |pre| && need == NeedCheckAdvance(a)
      modifies this`buf
      ensures buf == pre + Bytes(if hasGoto then StarLoop(a, greedy) else OnceLoop(a, greedy))
    {
      hide Bytes, Encode, NeedCheckAdvance, Len, StarLoop, OnceLoop, Split, Checked;
      var len := |buf| - start;
      var split := Split(greedy, len + (if hasGoto then 5 else 0) + (if need then 2 else 0));
      SplitSize(greedy, len + (if hasGoto then 5 else 0) + (if need then 2 else 0));
      var data := Encode(split) + (if need then Encode(IPushCharPos) else []);
      InsertBytes(start, data);
      Splice(pre, Bytes(a), data, []);
      assert buf == pre + data + Bytes(a);
      if need {
        Emit(ICheckAdvance);
      }
      ghost var goto := if hasGoto then Encode(IGoto(start - (|buf| + 5))) else [];
      if hasGoto {
        Emit(IGoto(start - (|buf| + 5)));
      }
      Regroup(pre, data, Bytes(a), if need then Encode(ICheckAdvance) else [], goto);
      assert pre + data + Bytes(a) + (if need then Encode(ICheckAdvance) else []) + goto == buf;
      BytesMaybe(a, greedy, hasGoto);
    }

    /** At most `max` times. */
    method EmitCounted(start: nat, max: nat, greedy: bool, need: bool, ghost pre: seq<byte>, ghost a: seq<Instr>)
      requires buf == pre + Bytes(a) && start == |pre| && need == NeedCheckAdvance(a)
      modifies this`buf
      ensures buf == pre + Bytes(CountedLoop(a, max, greedy))
    {
      hide Bytes, Encode, NeedCheckAdvance, Len, CountedLoop;
      var len := |buf| - start;
      var split := Split(greedy, len + 5 + (if need then 2 else 0));
      var data := Encode(IPushI32(max)) + (Encode(split) + (if need then Encode(IPushCharPos) else []));
      InsertBytes(start, data);
      Splice(pre, Bytes(a), data, []);
      assert buf == pre + data + Bytes(a);
      if need {
        Emit(ICheckAdvance);
      }
      ghost var loop := ILoop(start + 5 - (|buf| + 5));
      Emit(ILoop(start + 5 - (|buf| + 5)));
      Emit(IDrop);
      ghost var check := if need then Encode(ICheckAdvance) else [];
      assert buf == pre + data + Bytes(a) + check + Encode(loop) + Encode(IDrop);
      Assoc(pre + data + Bytes(a) + check, Encode(loop), Encode(IDrop));
      Regroup(pre, data, Bytes(a), check, Encode(loop) + Encode(IDrop));
      BytesCounted(a, max, greedy);
    }

    /** The mandatory iterations; the position of the atom after the counter. */
    method EmitExact(start: nat, min: nat, ghost pre: seq<byte>, ghost a: seq<Instr>) returns (atom: nat)
      requires buf == pre + Bytes(a) && start == |pre|
      modifies this`buf
      ensures buf == pre + Bytes(ExactLoop(a, min))
      ensures atom + Len(a) <= |buf| && buf[atom..atom + Len(a)] == Bytes(a)
    {
      hide Bytes, Encode, Len, ExactLoop;
      atom := start;
      if min == 1 {
        assert ExactLoop(a, min) == a by { ExactOne(a); }
        Splice(pre, Bytes(a), [], []);
      } else {
        var data := Encode(IPushI32(min));
        InsertBytes(start, data);
        Splice(pre, Bytes(a), data, []);
        atom := start + 5;
        ghost var loop := ILoop(atom - (|buf| + 5));
        Emit(ILoop(atom - (|buf| + 5)));
        Emit(IDrop);
        ghost var tail := Encode(loop) + Encode(IDrop);
        Assoc(pre + data + Bytes(a), Encode(loop), Encode(IDrop));
        Splice(pre, Bytes(a), data, tail);
        BytesExact(a, min);
      }
    }

    /** The iterations beyond the minimum, with a copy of the atom. */
    method EmitOptional(atom: nat, len: nat, min: nat, max: nat, greedy: bool, need: bool, ghost a: seq<Instr>)
      requires atom + len <= |buf| && buf[atom..atom + len] == Bytes(a) && len == Len(a) && need == NeedCheckAdvance(a)
      modifies this`buf
      ensures buf == old(buf) + Bytes(Optional(a, min, max, greedy))
    {
      hide Bytes, NeedCheckAdvance, Len, StarLoop, CountedLoop;
      if max == INFINITY {
        EmitStarCopy(atom, len, greedy, need, a);
      } else if max > min {
        EmitCountedCopy(atom, len, max - min, greedy, need, a);
      } else {
        NoBytes();
      }
    }

    method EmitStarCopy(atom: nat, len: nat, greedy: bool, need: bool, ghost a: seq<Instr>)
      requires atom + len <= |buf| && buf[atom..atom + len] == Bytes(a) && len == Len(a) && need == NeedCheckAdvance(a)
      modifies this`buf
      ensures buf == old(buf) + Bytes(StarLoop(a, greedy))
    {
      hide Bytes, Encode, NeedCheckAdvance, Len, StarLoop;
      var pos := |buf|;
      var off := len + 5 + (if need then 2 else 0);
      Emit(Split(greedy, off));
      assert buf[atom..atom + len] == Bytes(a);
      PutCopy(atom, len, need);
      ghost var goto := IGoto(pos - (|buf| + 5));
      Emit(IGoto(pos - (|buf| + 5)));
      BytesStarCopy(old(buf), a, greedy, need, off, goto);
    }

    method EmitCountedCopy(atom: nat, len: nat, max: nat, greedy: bool, need: bool, ghost a: seq<Instr>)
      requires atom + len <= |buf| && buf[atom..atom + len] == Bytes(a) && len == Len(a) && need == NeedCheckAdvance(a)
      modifies this`buf
      ensures buf == old(buf) + Bytes(CountedLoop(a, max, greedy))
    {
      hide Bytes, Encode, NeedCheckAdvance, Len, CountedLoop;
      Emit(IPushI32(max));
      var pos := |buf|;
      var off := len + 5 + (if need then 2 else 0);
      Emit(Split(greedy, off));
      assert buf[atom..atom + len] == Bytes(a);
      PutCopy(atom, len, need);
      ghost var loop := ILoop(pos - (|buf| + 5));
      Emit(ILoop(pos - (|buf| + 5)));
      Emit(IDrop);
      BytesCountedCopy(old(buf), a, max, greedy, need, off, loop);
    }

    /** A copy of the atom, guarded if need be. */
    method PutCopy(atom: nat, len: nat, need: bool)
      requires atom + len <= |buf|
      modifies this`buf
      ensures buf == old(buf) + ((if need then Encode(IPushCharPos)
              else []) + (old(buf)[atom..atom + len] + (if need then Encode(ICheckAdvance) else [])))
    {
      hide Encode;
      if need {
        Emit(IPushCharPos);
      }
      PutSelf(atom, len);
      if need {
        Emit(ICheckAdvance);
      }
    }

    /** The code of a quantifier over the atom at `start`. */
    method EmitQuantifier(start: nat, min: nat, max: nat, greedy: bool, lastCaptureCount: nat, ghost pre: seq<byte>,
                          ghost a: seq<Instr>)
      requires buf == pre + Bytes(a) && start == |pre| && AllCounted(a)
      requires min <= max <= INFINITY && lastCaptureCount <= captureCount
      modifies this`buf
      ensures buf == pre + Bytes(QuantCode(a, lastCaptureCount, captureCount - lastCaptureCount, min, max, greedy))
    {
      hide Bytes, Encode, NeedCheckAdvance, SimpleQuantifier, SimpleLoop, Loops, Len;
      Splice(pre, Bytes(a), [], []);
      NoPrefix(a);
      if greedy && max > 0 {
        var count := SimpleQuantifierScan(buf, start, a);
        if count > 0 {
          EmitSimpleLoop(start, min, max, count, pre, a);
          return;
        }
      }
      var need := NeedCheckAdvanceScan(buf, start, a);
      if min == 0 {
        var groups := captureCount - lastCaptureCount;
        ghost var reset := Reset(lastCaptureCount, groups);
        var at := start;
        if groups != 0 {
          InsertBytes(start, Encode(ISaveReset(lastCaptureCount, captureCount - 1)));
          at := start + 3;
          BytesOne(ISaveReset(lastCaptureCount, captureCount - 1));
        } else {
          NoBytes();
        }
        assert buf == (pre + Bytes(reset)) + Bytes(a);
        EmitZeroOrMore(at, max, greedy, need, pre + Bytes(reset), a);
        BytesAppend(reset, Loops(a, min, max, greedy));
        Assoc(pre, Bytes(reset), Bytes(Loops(a, min, max, greedy)));
      } else {
        EmitOneOrMore(start, min, max, greedy, need, pre, a);
      }
    }

    method EmitZeroOrMore(start: nat, max: nat, greedy: bool, need: bool, ghost pre: seq<byte>, ghost a: seq<Instr>)
      requires buf == pre + Bytes(a) && start == |pre| && need == NeedCheckAdvance(a) && max <= INFINITY
      modifies this`buf
      ensures buf == pre + Bytes(Loops(a, 0, max, greedy))
    {
      hide Bytes, NeedCheckAdvance, StarLoop, OnceLoop, CountedLoop, Len;
      if max == 0 {
        buf := buf[..start];
        NoBytes();
      } else if max == 1 || max == INFINITY {
        EmitMaybe(start, max == INFINITY, greedy, need, pre, a);
      } else {
        EmitCounted(start, max, greedy, need, pre, a);
      }
    }

    method EmitOneOrMore(start: nat, min: nat, max: nat, greedy: bool, need: bool, ghost pre: seq<byte>,
                         ghost a: seq<Instr>)
      requires buf == pre + Bytes(a) && start == |pre| && need == NeedCheckAdvance(a) && 0 < min <= max <= INFINITY
      modifies this`buf
      ensures buf == pre + Bytes(Loops(a, min, max, greedy))
    {
      hide Bytes, Encode, NeedCheckAdvance, ExactLoop, Optional, Len;
      if min == 1 && max == INFINITY && !need {
        ghost var i := BackSplit(greedy, start - (|buf| + 5));
        Emit(BackSplit(greedy, start - (|buf| + 5)));
        BytesAppend(a, [i]);
        BytesOne(i);
        Assoc(pre, Bytes(a), Encode(i));
      } else {
        var len := |buf| - start;
        var atom := EmitExact(start, min, pre, a);
        EmitOptional(atom, len, min, max, greedy, need, a);
        BytesAppend(ExactLoop(a, min), Optional(a, min, max, greedy));
        Assoc(pre, Bytes(ExactLoop(a, min)), Bytes(Optional(a, min, max, greedy)));
      }
    }

    // ----- patterns -----

    /**
     Appends the code of a pattern; fails exactly when there are too many
     capture groups.
     */
    method Compile(f: Flags, n: Node, back: bool) returns (ok: bool)
      requires Valid(n) && captureCount <= CAPTURE_COUNT_MAX
      modifies this
      ensures ok == (old(captureCount) + Groups(n) <= CAPTURE_COUNT_MAX)
      ensures ok ==> captureCount == old(captureCount) + Groups(n)
      ensures ok ==> buf == old(buf) + Bytes(Code(canon, f, n, old(captureCount), back))
      decreases n, 1
    {
      hide Bytes, Encode, Code;
      if n.Cat? {
        ok := CompileCat(f, n, back);
      } else if n.Or? {
        ok := CompileOr(f, n, back);
      } else if n.Group? {
        ok := CompileGroup(f, n, back);
      } else if n.Modify? {
        ok := Compile(Update(f, n.add, n.remove), n.scope, back);
        ModifyCode(canon, f, n, old(captureCount), back);
      } else if n.Look? {
        ok := CompileLook(f, n, back);
      } else if n.Repeat? {
        ok := CompileRepeat(f, n, back);
      } else {
        ok := true;
        CompileLeaf(f, n, back);
      }
    }

    method CompileLeaf(f: Flags, n: Node, back: bool)
      requires Valid(n) && !(n.Cat? || n.Or? || n.Group? || n.Modify? || n.Look? || n.Repeat?)
      modifies this`buf
      ensures buf == old(buf) + Bytes(Code(canon, f, n, captureCount, back))
    {
      hide Bytes, Encode, EmitRange, EmitChar;
      match n
      case Empty => NoBytes();
      case LineStart =>
        Emit(ILineStart(f.multiLine));
        BytesOne(ILineStart(f.multiLine));
      case LineEnd =>
        Emit(ILineEnd(f.multiLine));
        BytesOne(ILineEnd(f.multiLine));
      case WordBoundary(negated) =>
        Emit(IWordBoundary(negated, f.ignoreCase));
        BytesOne(IWordBoundary(negated, f.ignoreCase));
      case BackRef(k) =>
        Emit(IBackRef(k, back, f.ignoreCase));
        BytesOne(IBackRef(k, back, f.ignoreCase));
      case _ => CompileChar(f, n, back);
    }

    method CompileChar(f: Flags, n: Node, back: bool)
      requires Valid(n) && (n.Char? || n.Dot? || n.Class?)
      modifies this`buf
      ensures buf == old(buf) + Bytes(Code(canon, f, n, captureCount, back))
    {
      hide Bytes, Encode, EmitRange, EmitChar;
      ghost var i: Instr;
      if back {
        Emit(IPrev);
      }
      match n {
        case Char(c) =>
          i := EmitChar(if f.ignoreCase then canon(c) else c, f.ignoreCase);
          EmitCharOp(if f.ignoreCase then canon(c) else c, f.ignoreCase);
        case Dot =>
          i := if f.dotAll then IAny else IDot;
          Emit(if f.dotAll then IAny else IDot);
        case Class(pts) =>
          i := EmitRange(pts, f.ignoreCase);
          EmitRangeOp(pts, f.ignoreCase);
      }
      if back {
        Emit(IPrev);
      }
      BytesOneChar(i, back);
    }

    /** A sequence; backward, each term is rotated before the previous ones. */
    method CompileCat(f: Flags, n: Node, back: bool) returns (ok: bool)
      requires Valid(n) && n.Cat? && captureCount <= CAPTURE_COUNT_MAX
      modifies this
      ensures ok == (old(captureCount) + Groups(n) <= CAPTURE_COUNT_MAX)
      ensures ok ==> captureCount == old(captureCount) + Groups(n)
      ensures ok ==> buf == old(buf) + Bytes(Code(canon, f, n, old(captureCount), back))
      decreases n, 0
    {
      hide Bytes, Code, Valid;
      var start := |buf|;
      CatParts(n);
      ok := Compile(f, n.first, back);
      if !ok {
        return;
      }
      var termStart := |buf|;
      ok := Compile(f, n.term, back);
      if !ok {
        return;
      }
      ghost var x := Bytes(Code(canon, f, n.first, old(captureCount), back));
      ghost var y := Bytes(Code(canon, f, n.term, old(captureCount) + Groups(n.first), back));
      if back {
        Rotate(start, termStart);
        SwapTerms(old(buf), x, y);
      } else {
        Assoc(old(buf), x, y);
      }
      CatCode(canon, f, n, old(captureCount), back);
    }

    /** An alternation: a split inserted before, a jump after, and the jump patched at the end. */
    method CompileOr(f: Flags, n: Node, back: bool) returns (ok: bool)
      requires Valid(n) && n.Or? && captureCount <= CAPTURE_COUNT_MAX
      modifies this
      ensures ok == (old(captureCount) + Groups(n) <= CAPTURE_COUNT_MAX)
      ensures ok ==> captureCount == old(captureCount) + Groups(n)
      ensures ok ==> buf == old(buf) + Bytes(Code(canon, f, n, old(captureCount), back))
      decreases n, 0
    {
      hide Bytes, Code, U32, Encode, Valid, Groups;
      OrParts(n);
      var start := |buf|;
      ok := Compile(f, n.left, back);
      if !ok {
        return;
      }
      ghost var x := Bytes(Code(canon, f, n.left, old(captureCount), back));
      var pos := InsertSplit(start, old(buf), x);
      ok := Compile(f, n.right, back);
      if !ok {
        return;
      }
      ghost var y := Bytes(Code(canon, f, n.right, old(captureCount) + Groups(n.left), back));
      PatchGoto(pos, old(buf), Encode(ISplitNextFirst(|x| + 5)), x, y);
      OrBytes(canon, f, n, old(captureCount), back);
    }

    /** A split before the alternative `x` and an unresolved jump after it; the position of the jump's offset. */
    method InsertSplit(start: nat, ghost pre: seq<byte>, ghost x: seq<byte>) returns (pos: nat)
      requires buf == pre + x && start == |pre|
      modifies this`buf
      ensures buf == pre + Encode(ISplitNextFirst(|x| + 5)) + x + ([11] + U32(0))
      ensures pos == |pre| + 5 + |x| + 1
    {
      hide U32, Encode;
      var len := |buf| - start;
      Cut(pre, x);
      InsertBytes(start, Encode(ISplitNextFirst(len + 5)));
      pos := PutOpU32(11, 0);
    }

    /** The jump over the alternative `y`. */
    method PatchGoto(pos: nat, ghost pre: seq<byte>, ghost s: seq<byte>, ghost x: seq<byte>, ghost y: seq<byte>)
      requires buf == pre + s + x + ([11] + U32(0)) + y && pos == |pre| + |s| + |x| + 1
      modifies this`buf
      ensures buf == pre + (s + (x + (Encode(IGoto(|y|)) + y)))
    {
      hide U32, Encode;
      Store(pos, U32(|buf| - (pos + 4)));
      PatchedGoto(pre, s, x, y, buf);
    }

    method CompileGroup(f: Flags, n: Node, back: bool) returns (ok: bool)
      requires Valid(n) && n.Group? && captureCount <= CAPTURE_COUNT_MAX
      modifies this
      ensures ok == (old(captureCount) + Groups(n) <= CAPTURE_COUNT_MAX)
      ensures ok ==> captureCount == old(captureCount) + Groups(n)
      ensures ok ==> buf == old(buf) + Bytes(Code(canon, f, n, old(captureCount), back))
      decreases n, 0
    {
      hide Bytes, Code, Encode;
      if captureCount >= CAPTURE_COUNT_MAX {
        return false;
      }
      var index := captureCount;
      captureCount := captureCount + 1;
      Emit(if back then ISaveEnd(index) else ISaveStart(index));
      ok := Compile(f, n.inner, back);
      if !ok {
        return;
      }
      Emit(if back then ISaveStart(index) else ISaveEnd(index));
      GroupBytes(canon, f, n, index, back, old(buf));
    }

    /** A lookahead or a lookbehind, with a jump past its final `match` patched in. */
    method CompileLook(f: Flags, n: Node, back: bool) returns (ok: bool)
      requires Valid(n) && n.Look? && captureCount <= CAPTURE_COUNT_MAX
      modifies this
      ensures ok == (old(captureCount) + Groups(n) <= CAPTURE_COUNT_MAX)
      ensures ok ==> captureCount == old(captureCount) + Groups(n)
      ensures ok ==> buf == old(buf) + Bytes(Code(canon, f, n, old(captureCount), back))
      decreases n, 0
    {
      hide Bytes, Code, U32;
      var pos := PutOpU32(if n.negative then 34 else 33, 0);
      ok := Compile(f, n.ahead, n.backward);
      if !ok {
        return;
      }
      ghost var x := Bytes(Code(canon, f, n.ahead, old(captureCount), n.backward));
      Emit(IMatch);
      Store(pos, U32(|buf| - (pos + 4)));
      PatchedLook(old(buf), if n.negative then 34 else 33, x, buf);
      LookBytes(canon, f, n, old(captureCount), back);
    }

    method CompileRepeat(f: Flags, n: Node, back: bool) returns (ok: bool)
      requires Valid(n) && n.Repeat? && captureCount <= CAPTURE_COUNT_MAX
      modifies this
      ensures ok == (old(captureCount) + Groups(n) <= CAPTURE_COUNT_MAX)
      ensures ok ==> captureCount == old(captureCount) + Groups(n)
      ensures ok ==> buf == old(buf) + Bytes(Code(canon, f, n, old(captureCount), back))
      decreases n, 0
    {
      hide Bytes, Code, QuantCode;
      var start, last := |buf|, captureCount;
      ok := Compile(f, n.body, back);
      if !ok {
        return;
      }
      ghost var a := Code(canon, f, n.body, last, back);
      CodeCounted(canon, f, n.body, last, back);
      EmitQuantifier(start, n.min, n.max, n.greedy, last, old(buf), a);
      RepeatCode(canon, f, n, last, back);
    }
  }

  lemma NoPrefix(a: seq<Instr>)
    ensures Len(a[..0]) == 0
  {
    assert a[..0] == [];
  }

  lemma BytesOneChar(i: Instr, back: bool)
    ensures Bytes(OneChar(i, back)) == (if back then Encode(IPrev) + Encode(i) + Encode(IPrev) else Encode(i))
  {
    hide Bytes, Encode;
    BytesOne(i);
    if back {
      assert [IPrev, i, IPrev] == [IPrev, i] + [IPrev];
      BytesAppend([IPrev, i], [IPrev]);
      BytesTwo(IPrev, i);
      BytesOne(IPrev);
    }
  }

  lemma SwapTerms<T>(pre: seq<T>, x: seq<T>, y: seq<T>)
    ensures var b := pre + x + y;
            b[..|pre|] + b[|pre| + |x|..] + b[|pre|..|pre| + |x|] == pre + (y + x)
  {
    var b := pre + x + y;
    assert b[..|pre|] == pre && b[|pre| + |x|..] == y && b[|pre|..|pre| + |x|] == x;
  }

  lemma ModifyCode(canon: int -> int, f: Flags, n: Node, g: nat, back: bool)
    requires Valid(n) && n.Modify?
    ensures Code(canon, f, n, g, back) == Code(canon, Update(f, n.add, n.remove), n.scope, g, back)
  {
  }

  lemma CatCode(canon: int -> int, f: Flags, n: Node, g: nat, back: bool)
    requires Valid(n) && n.Cat?
    ensures var x, y := Bytes(Code(canon, f, n.first, g, back)),
            Bytes(Code(canon, f, n.term, g + Groups(n.first), back));
            Bytes(Code(canon, f, n, g, back)) == if back then y + x else x + y
  {
    hide Bytes, QuantCode, EmitRange, Len;
    BytesAppend(Code(canon, f, Lead(n, back), LeadGroup(n, g, back), back),
      Code(canon, f, Trail(n, back), TrailGroup(n, g, back), back));
  }

  lemma RepeatCode(canon: int -> int, f: Flags, n: Node, g: nat, back: bool)
    requires Valid(n) && n.Repeat?
    ensures Code(canon, f, n, g, back) == QuantCode(Code(canon, f, n.body, g, back), g, Groups(n.body), n.min, n.max,
            n.greedy)
  {
    hide QuantCode;
  }

  /** The jump after the first alternative, once patched. */
  lemma PatchedGoto(pre: seq<byte>, s: seq<byte>, x: seq<byte>, y: seq<byte>, b: seq<byte>)
    requires var was := pre + s + x + ([11] + U32(0)) + y;
             var pos := |pre| + |s| + |x| + 1;
             b == was[..pos] + U32(|was| - (pos + 4)) + was[pos + 4..]
    ensures b == pre + (s + (x + (Encode(IGoto(|y|)) + y)))
  {
    hide U32;
    var was := pre + s + x + ([11] + U32(0)) + y;
    var pos := |pre| + |s| + |x| + 1;
    assert was[..pos] == pre + s + x + [11];
    assert was[pos + 4..] == y;
    assert |was| - (pos + 4) == |y|;
    assert Encode(IGoto(|y|)) == [11] + U32(|y|);
    Regroup(pre, s, x, [11] + U32(|y|), y);
    assert pre + s + x + [11] + U32(|y|) + y == pre + s + x + ([11] + U32(|y|)) + y;
  }

  lemma PatchedLook(pre: seq<byte>, op: byte, x: seq<byte>, b: seq<byte>)
    requires var was := pre + ([op] + U32(0)) + x + Encode(IMatch);
             var pos := |pre| + 1;
             b == was[..pos] + U32(|was| - (pos + 4)) + was[pos + 4..]
    ensures b == pre + (([op] + U32(|x| + 1)) + (x + Encode(IMatch)))
  {
    hide U32;
    var was := pre + ([op] + U32(0)) + x + Encode(IMatch);
    var pos := |pre| + 1;
    assert was[..pos] == pre + [op];
    assert was[pos + 4..] == x + Encode(IMatch);
  }

  lemma SplitSize(greedy: bool, off: int)
    ensures Size(Split(greedy, off)) == 5
  {
  }

  lemma CatParts(n: Node)
    requires n.Cat? && Valid(n)
    ensures Valid(n.first) && Valid(n.term) && Groups(n) == Groups(n.first) + Groups(n.term)
  {
  }

  lemma OrParts(n: Node)
    requires n.Or? && Valid(n)
    ensures Valid(n.left) && Valid(n.right) && Groups(n) == Groups(n.left) + Groups(n.right)
  {
  }

  lemma OrBytes(canon: int -> int, f: Flags, n: Node, g: nat, back: bool)
    requires Valid(n) && n.Or?
    ensures var x, y := Bytes(Code(canon, f, n.left, g, back)),
            Bytes(Code(canon, f, n.right, g + Groups(n.left), back));
            Bytes(Code(canon, f, n, g, back)) == Encode(ISplitNextFirst(|x| + 5)) + (x + (Encode(IGoto(|y|)) + y))
  {
    hide Bytes, Encode, Code;
    var cx, cy := Code(canon, f, n.left, g, back), Code(canon, f, n.right, g + Groups(n.left), back);
    var i, j := ISplitNextFirst(Len(cx) + 5), IGoto(Len(cy));
    OrShape(canon, f, n, g, back);
    BytesAppend([i] + cx + [j], cy);
    Bytes3(i, cx, [j]);
    BytesOne(j);
    Assoc(Encode(i), Bytes(cx) + Encode(j), Bytes(cy));
    Assoc(Bytes(cx), Encode(j), Bytes(cy));
  }

  lemma GroupBytes(canon: int -> int, f: Flags, n: Node, g: nat, back: bool, was: seq<byte>)
    requires Valid(n) && n.Group?
    ensures was + Encode(if back then ISaveEnd(g) else ISaveStart(g)) + Bytes(Code(canon, f, n.inner, g + 1, back))
                + Encode(if back then ISaveStart(g) else ISaveEnd(g))
         == was + Bytes(Code(canon, f, n, g, back))
  {
    hide Bytes, Encode, QuantCode, EmitRange, Len;
    var cx := Code(canon, f, n.inner, g + 1, back);
    var i, j := if back then ISaveEnd(g) else ISaveStart(g), if back then ISaveStart(g) else ISaveEnd(g);
    assert Code(canon, f, n, g, back) == [i] + cx + [j];
    Bytes3(i, cx, [j]);
    BytesOne(j);
    Assoc(was, Encode(i), Bytes(cx));
    Assoc(was, Encode(i) + Bytes(cx), Encode(j));
    Assoc(Encode(i), Bytes(cx), Encode(j));
  }

  lemma LookBytes(canon: int -> int, f: Flags, n: Node, g: nat, back: bool)
    requires Valid(n) && n.Look?
    ensures var x := Bytes(Code(canon, f, n.ahead, g, n.backward));
            Bytes(Code(canon, f, n, g, back))
            == ([if n.negative then 34 else 33] + U32(|x| + 1)) + (x + Encode(IMatch))
  {
    hide Bytes, QuantCode, EmitRange, Len, U32;
    var cx := Code(canon, f, n.ahead, g, n.backward);
    var i := ILookahead(n.negative, Len(cx) + 1);
    Bytes3(i, cx, [IMatch]);
    BytesOne(IMatch);
  }

  /** The classes of a valid pattern have countable ranges. */
  lemma {:induction false} CodeCounted(canon: int -> int, f: Flags, n: Node, g: nat, back: bool)
    requires Valid(n)
    ensures AllCounted(Code(canon, f, n, g, back))
    decreases n
  {
    hide Code, AllCounted;
    if n.Cat? {
      CodeCounted(canon, f, Lead(n, back), LeadGroup(n, g, back), back);
      CodeCounted(canon, f, Trail(n, back), TrailGroup(n, g, back), back);
    } else if n.Or? {
      CodeCounted(canon, f, n.left, g, back);
      CodeCounted(canon, f, n.right, g + Groups(n.left), back);
    } else if n.Group? {
      CodeCounted(canon, f, n.inner, g + 1, back);
    } else if n.Modify? {
      CodeCounted(canon, Update(f, n.add, n.remove), n.scope, g, back);
    } else if n.Look? {
      CodeCounted(canon, f, n.ahead, g, n.backward);
    } else if n.Repeat? {
      CodeCounted(canon, f, n.body, g, back);
      QuantCounted(Code(canon, f, n.body, g, back), g, Groups(n.body), n.min, n.max, n.greedy);
    }
    CountedStep(canon, f, n, g, back);
  }

  lemma CountedStep(canon: int -> int, f: Flags, n: Node, g: nat, back: bool)
    requires Valid(n)
    requires n.Cat? ==> AllCounted(Code(canon, f, Lead(n, back), LeadGroup(n, g, back), back))
                        && AllCounted(Code(canon, f, Trail(n, back), TrailGroup(n, g, back), back))
    requires n.Or? ==>
             && AllCounted(Code(canon, f, n.left, g, back))
             && AllCounted(Code(canon, f, n.right, g + Groups(n.left), back))
    requires n.Group? ==> AllCounted(Code(canon, f, n.inner, g + 1, back))
    requires n.Modify? ==> AllCounted(Code(canon, Update(f, n.add, n.remove), n.scope, g, back))
    requires n.Look? ==> AllCounted(Code(canon, f, n.ahead, g, n.backward))
    requires n.Repeat? ==>
             AllCounted(QuantCode(Code(canon, f, n.body, g, back), g, Groups(n.body), n.min, n.max, n.greedy))
    ensures AllCounted(Code(canon, f, n, g, back))
  {
    hide Len, QuantCode, AllCounted, Code, Groups;
    if n.Cat? {
      CatShape(canon, f, n, g, back);
      CountedAppend(Code(canon, f, Lead(n, back), LeadGroup(n, g, back), back),
                    Code(canon, f, Trail(n, back), TrailGroup(n, g, back), back));
    } else if n.Or? {
      var a, b := Code(canon, f, n.left, g, back), Code(canon, f, n.right, g + Groups(n.left), back);
      OrShape(canon, f, n, g, back);
      CountedAround([ISplitNextFirst(Len(a) + 5)], a, [IGoto(Len(b))]);
      CountedAppend([ISplitNextFirst(Len(a) + 5)] + a + [IGoto(Len(b))], b);
    } else if n.Group? {
      var a := Code(canon, f, n.inner, g + 1, back);
      GroupShape(canon, f, n, g, back);
      CountedAround([ISaveStart(g)], a, [ISaveEnd(g)]);
      CountedAround([ISaveEnd(g)], a, [ISaveStart(g)]);
    } else if n.Look? {
      var a := Code(canon, f, n.ahead, g, n.backward);
      LookShape(canon, f, n, g, back);
      CountedAround([ILookahead(n.negative, Len(a) + 1)], a, [IMatch]);
    } else if n.Modify? {
      ModifyCode(canon, f, n, g, back);
    } else if n.Repeat? {
      RepeatCode(canon, f, n, g, back);
    } else {
      LeafCounted(canon, f, n, g, back);
    }
  }

  lemma LeafCounted(canon: int -> int, f: Flags, n: Node, g: nat, back: bool)
    requires Valid(n) && !(n.Cat? || n.Or? || n.Group? || n.Modify? || n.Look? || n.Repeat?)
    ensures AllCounted(Code(canon, f, n, g, back))
  {
  }

  lemma CountedAppend(a: seq<Instr>, b: seq<Instr>)
    requires AllCounted(a) && AllCounted(b)
    ensures AllCounted(a + b)
  {
  }

  ghost predicate NoRanges(code: seq<Instr>) {
    forall i :: i in code ==> !i.IRange? && !i.IRange32?
  }

  lemma CountedAround(pre: seq<Instr>, a: seq<Instr>, post: seq<Instr>)
    requires AllCounted(a) && NoRanges(pre) && NoRanges(post)
    ensures AllCounted(pre + a + post)
  {
  }

  lemma QuantCounted(a: seq<Instr>, g: nat, groups: nat, min: nat, max: nat, greedy: bool)
    requires AllCounted(a)
    ensures AllCounted(QuantCode(a, g, groups, min, max, greedy))
  {
    hide AllCounted, Len, CheckLen, NeedCheckAdvance, SimpleQuantifier, Loops;
    CountedAround([ISimpleGreedyQuant(Len(a) + 1, min, max, SimpleQuantifier(a))], a, [IMatch]);
    LoopsCounted(a, min, max, greedy);
    CountedAround(Reset(g, groups), Loops(a, min, max, greedy), []);
    assert Reset(g, groups) + Loops(a, min, max, greedy) + [] == Reset(g, groups) + Loops(a, min, max, greedy);
  }

  lemma LoopsCounted(a: seq<Instr>, min: nat, max: nat, greedy: bool)
    requires AllCounted(a)
    ensures AllCounted(Loops(a, min, max, greedy))
  {
    hide AllCounted, Len, CheckLen, NeedCheckAdvance, ExactLoop, OnceLoop, StarLoop, CountedLoop;
    CountedAround([IPushCharPos], a, [ICheckAdvance]);
    LoopCounted(a, min, greedy);
    LoopCounted(a, max, greedy);
    LoopCounted(a, if max > min then max - min else 0, greedy);
    CountedAround([], a, [BackSplit(greedy, -(Len(a) + 5))]);
    assert [] + a + [BackSplit(greedy, -(Len(a) + 5))] == a + [BackSplit(greedy, -(Len(a) + 5))];
    CountedAround([], [], []);
    CountedAppend(ExactLoop(a, min), Optional(a, min, max, greedy));
  }

  lemma LoopCounted(a: seq<Instr>, k: nat, greedy: bool)
    requires AllCounted(a) && AllCounted(Checked(a))
    ensures AllCounted(OnceLoop(a, greedy)) && AllCounted(StarLoop(a, greedy)) && AllCounted(CountedLoop(a, k, greedy))
    ensures AllCounted(ExactLoop(a, k)) && AllCounted([])
  {
    hide AllCounted, Len, CheckLen, Checked;
    var b := Checked(a);
    CountedAround([Split(greedy, CheckLen(a))], b, []);
    assert [Split(greedy, CheckLen(a))] + b + [] == OnceLoop(a, greedy);
    CountedAround([Split(greedy, CheckLen(a) + 5)], b, [IGoto(-(CheckLen(a) + 10))]);
    CountedAround([IPushI32(k), Split(greedy, CheckLen(a) + 5)], b, [ILoop(-(CheckLen(a) + 10)), IDrop]);
    CountedAround([IPushI32(k)], a, [ILoop(-(Len(a) + 5)), IDrop]);
    assert AllCounted([]) by { NoneCounted(); }
  }

  lemma NoneCounted()
    ensures AllCounted([])
  {
  }

  /** Data inserted before, and appended after, the end of a buffer. */
  lemma Splice<T>(pre: seq<T>, a: seq<T>, data: seq<T>, tail: seq<T>)
    ensures (pre + a + tail)[..|pre|] == pre && (pre + a)[..|pre|] == pre
    ensures (pre + a)[|pre|..] == a && (pre + a + tail)[|pre|..] == a + tail
    ensures pre + data + a + tail == pre + (data + (a + tail))
    ensures pre + data + (a + tail) == pre + (data + (a + tail))
    ensures (pre + data + a + tail)[|pre| + |data|..|pre| + |data| + |a|] == a
    ensures (pre + a)[|pre|..|pre| + |a|] == a
  {
    Cut(pre, a);
    Cut(pre, a + tail);
    Assoc(pre, a, tail);
    Assoc(pre, data, a + tail);
    Assoc(pre + data, a, tail);
    Cut(pre + data, a + tail);
    assert (a + tail)[..|a|] == a;
    SubSlice(pre + data + a + tail, |pre + data|, |pre + data + a + tail|, 0, |a|);
  }

  lemma Cut<T>(a: seq<T>, b: seq<T>)
    ensures (a + b)[..|a|] == a && (a + b)[|a|..] == b
  {
  }

  lemma Regroup<T>(pre: seq<T>, data: seq<T>, a: seq<T>, b: seq<T>, c: seq<T>)
    ensures pre + data + a + b + c == pre + (data + (a + (b + c)))
  {
    Assoc(pre + data + a, b, c);
    Assoc(pre + data, a, b + c);
    Assoc(pre, data, a + (b + c));
  }

  function PushBytes(a: seq<Instr>): seq<byte> { if NeedCheckAdvance(a) then Encode(IPushCharPos) else [] }
  function CheckBytes(a: seq<Instr>): seq<byte> { if NeedCheckAdvance(a) then Encode(ICheckAdvance) else [] }

  lemma BytesChecked(a: seq<Instr>)
    ensures Bytes(Checked(a)) == PushBytes(a) + (Bytes(a) + CheckBytes(a))
  {
    hide Bytes, NeedCheckAdvance, Encode;
    if NeedCheckAdvance(a) {
      Bytes3(IPushCharPos, a, [ICheckAdvance]);
      BytesOne(ICheckAdvance);
    }
  }

  /** The five parts of a guarded loop, grouped around the atom. */
  lemma GroupLoop<T>(s: seq<T>, p: seq<T>, a: seq<T>, c: seq<T>, g: seq<T>)
    ensures s + ((p + (a + c)) + g) == (s + p) + (a + (c + g))
    ensures s + (p + (a + c)) == (s + p) + (a + (c + []))
    ensures s + (p + (a + c)) + g == (s + p) + (a + (c + g))
  {
  }

  lemma BytesMaybe(a: seq<Instr>, greedy: bool, hasGoto: bool)
    ensures Bytes(if hasGoto then StarLoop(a, greedy) else OnceLoop(a, greedy))
         == (Encode(Split(greedy, CheckLen(a) + (if hasGoto then 5 else 0))) + PushBytes(a))
            + (Bytes(a) + (CheckBytes(a) + (if hasGoto then Encode(IGoto(-(CheckLen(a) + 10))) else [])))
  {
    hide Bytes, Encode, Checked, CheckLen, PushBytes, CheckBytes;
    BytesChecked(a);
    var b, i, j := Checked(a), Split(greedy, CheckLen(a) + (if hasGoto then 5 else 0)), IGoto(-(CheckLen(a) + 10));
    if hasGoto {
      Bytes3(i, b, [j]);
      BytesOne(j);
    } else {
      BytesAppend([i], b);
      BytesOne(i);
    }
    GroupLoop(Encode(i), PushBytes(a), Bytes(a), CheckBytes(a), Encode(j));
  }

  lemma BytesCounted(a: seq<Instr>, max: nat, greedy: bool)
    ensures Bytes(CountedLoop(a, max, greedy))
         == (Encode(IPushI32(max)) + (Encode(Split(greedy, CheckLen(a) + 5)) + PushBytes(a)))
            + (Bytes(a) + (CheckBytes(a) + (Encode(ILoop(-(CheckLen(a) + 10))) + Encode(IDrop))))
  {
    hide Bytes, Encode, Checked, CheckLen, PushBytes, CheckBytes;
    BytesChecked(a);
    var b, h, i, j := Checked(a), IPushI32(max), Split(greedy, CheckLen(a) + 5), ILoop(-(CheckLen(a) + 10));
    var tail := Encode(j) + Encode(IDrop);
    CountedShape(a, max, greedy);
    BytesAppend([h], [i] + b + [j, IDrop]);
    BytesOne(h);
    Bytes3(i, b, [j, IDrop]);
    BytesTwo(j, IDrop);
    GroupLoop(Encode(i), PushBytes(a), Bytes(a), CheckBytes(a), tail);
    Assoc(Encode(h), Encode(i) + PushBytes(a), Bytes(a) + (CheckBytes(a) + tail));
  }

  lemma CountedShape(a: seq<Instr>, max: nat, greedy: bool)
    ensures CountedLoop(a, max, greedy)
         == [IPushI32(max)] + ([Split(greedy, CheckLen(a) + 5)] + Checked(a) + [ILoop(-(CheckLen(a) + 10)), IDrop])
  {
    hide Checked, CheckLen;
  }

  lemma BytesExact(a: seq<Instr>, min: nat)
    requires min != 1
    ensures Bytes(ExactLoop(a,
            min)) == Encode(IPushI32(min)) + (Bytes(a) + (Encode(ILoop(-(Len(a) + 5))) + Encode(IDrop)))
  {
    hide Bytes, Encode, Len;
    Bytes3(IPushI32(min), a, [ILoop(-(Len(a) + 5)), IDrop]);
    BytesTwo(ILoop(-(Len(a) + 5)), IDrop);
  }

  lemma ExactOne(a: seq<Instr>)
    ensures ExactLoop(a, 1) == a
  {
  }

  lemma BytesStarCopy(was: seq<byte>, a: seq<Instr>, greedy: bool, need: bool, off: int, goto: Instr)
    requires need == NeedCheckAdvance(a) && off == CheckLen(a) + 5 && goto == IGoto(-(CheckLen(a) + 10))
    ensures was + Encode(Split(greedy, off)) + (PushBytes(a) + (Bytes(a) + CheckBytes(a))) + Encode(goto)
         == was + Bytes(StarLoop(a, greedy))
  {
    hide Bytes, Encode, StarLoop, CheckLen, PushBytes, CheckBytes;
    BytesMaybe(a, greedy, true);
    GroupLoop(Encode(Split(greedy, off)), PushBytes(a), Bytes(a), CheckBytes(a), Encode(goto));
    Assoc(was, Encode(Split(greedy, off)), PushBytes(a) + (Bytes(a) + CheckBytes(a)));
    Assoc(was, Encode(Split(greedy, off)) + (PushBytes(a) + (Bytes(a) + CheckBytes(a))), Encode(goto));
  }

  lemma BytesCountedCopy(was: seq<byte>, a: seq<Instr>, max: nat, greedy: bool, need: bool, off: int, loop: Instr)
    requires need == NeedCheckAdvance(a) && off == CheckLen(a) + 5 && loop == ILoop(-(CheckLen(a) + 10))
    ensures was + Encode(IPushI32(max)) + Encode(Split(greedy, off)) + (PushBytes(a) + (Bytes(a) + CheckBytes(a)))
            + Encode(loop) + Encode(IDrop)
         == was + Bytes(CountedLoop(a, max, greedy))
  {
    hide Bytes, Encode, CountedLoop, CheckLen, PushBytes, CheckBytes;
    BytesCounted(a, max, greedy);
    var h, s, p, x, c := Encode(IPushI32(max)), Encode(Split(greedy, off)), PushBytes(a), Bytes(a), CheckBytes(a);
    var tail := Encode(loop) + Encode(IDrop);
    Assoc(was + h + s + (p + (x + c)), Encode(loop), Encode(IDrop));
    GroupLoop(s, p, x, c, tail);
    Assoc(was + h, s, p + (x + c));
    Assoc(was + h, s + (p + (x + c)), tail);
    Assoc(h, s + p, x + (c + tail));
    Assoc(was, h, (s + p) + (x + (c + tail)));
  }

  lemma NoBytes()
    ensures Bytes([]) == []
  {
  }

  lemma NoWords()
    ensures U16s([]) == [] && U32s([]) == []
  {
  }

  lemma Unroll16(ps: seq<int>, i: nat)
    requires i + 2 <= |ps|
    ensures U16s(ps[i..]) == U16(ps[i]) + (U16(ps[i + 1]) + U16s(ps[i + 2..]))
  {
    hide U16;
    assert ps[i..][1..] == ps[i + 1..] && ps[i + 1..][1..] == ps[i + 2..];
  }

  lemma Unroll32(ps: seq<int>, i: nat)
    requires i + 2 <= |ps|
    ensures U32s(ps[i..]) == U32(ps[i]) + (U32(ps[i + 1]) + U32s(ps[i + 2..]))
  {
    hide U32;
    assert ps[i..][1..] == ps[i + 1..] && ps[i + 1..][1..] == ps[i + 2..];
  }

  lemma LowBits16(x: int)
    ensures U16(x % 0x1_0000) == U16(x)
  {
    assert x % 0x1_0000 % 256 == x % 256;
    assert x % 0x1_0000 / 256 % 256 == x / 256 % 256;
  }

  lemma LowBits32(x: int)
    ensures U32(x % 0x1_0000_0000) == U32(x)
  {
    var q, r := x / 0x1_0000_0000, x % 0x1_0000_0000;
    assert x == r + 0x1_0000_0000 * q;
    assert x / 256 == r / 256 + 0x100_0000 * q;
    assert x / 256 / 256 == r / 256 / 256 + 0x1_0000 * q;
    assert x / 256 / 256 / 256 == r / 256 / 256 / 256 + 0x100 * q;
  }
}
