/** Compiled bytes decode to the program they encode; the entry point of the compiler. */
module RegexpLoader {
  import opened Basics
  import opened CharSet
  import opened RegexpSyntax
  import opened RegexpMatcher
  import opened RegexpBytecode
  import opened RegexpCodegen
  import opened RegexpVm
  import opened RegexpSimulation
  import opened RegexpLayout
  import opened RegexpStack
  import opened RegexpBuffer
  import opened RegexpCompiler

  /** The allocator refuses larger buffers. */
  const BYTECODE_MAX := INT32_MAX / 2

  /** The bytes before the code in the buffer. */
  const HEADER_LEN := 8

  /** The operands fit their fields, and the intervals of a class can be searched. */
  ghost predicate Loadable(i: Instr) {
    && Encodable(i)
    && (i.IRange? || i.IRange32? ==> |i.pairs| >= 2 && Sorted(i.pairs))
  }

  ghost predicate AllFit(code: seq<Instr>) {
    forall i :: i in code ==> Loadable(i)
  }

  // ----- operands fit -----

  lemma EncodableAppend(a: seq<Instr>, b: seq<Instr>)
    requires AllFit(a) && AllFit(b)
    ensures AllFit(a + b)
  {
    hide Loadable;
  }

  lemma EncodableOne(i: Instr)
    requires Loadable(i)
    ensures AllFit([i])
  {
    hide Loadable;
  }

  lemma EncodableAround(i: Instr, a: seq<Instr>, j: Instr)
    requires Loadable(i) && Loadable(j) && AllFit(a)
    ensures AllFit([i] + a + [j]) && AllFit([i] + a) && AllFit(a + [j])
  {
    hide Loadable;
  }

  lemma NothingEncodable()
    ensures AllFit([])
  {
  }

  lemma Pairs32Sorted(pts: seq<int>)
    requires Valid(Class(pts))
    ensures Sorted(Pairs32(pts))
  {
    var qs := Pairs32(pts);
    forall i, j | 0 <= i <= j < |pts| ensures qs[i] <= qs[j] {
      PointsAscend(pts, i, j);
    }
  }

  lemma Pairs16Sorted(pts: seq<int>)
    requires Valid(Class(pts)) && pts != []
    requires (if pts[|pts| - 1] == UINT32_MAX then pts[|pts| - 2] else pts[|pts| - 1]) <= 0xffff
    ensures Sorted(Pairs16(pts))
  {
    var ps := Pairs16(pts);
    forall i, j | 0 <= i <= j < |pts| ensures ps[i] <= ps[j] {
      PointsAscend(pts, i, j);
      assert i < |pts| - 1 ==> pts[i] <= 0xffff;
    }
  }

  lemma PointsAscend(pts: seq<int>, i: nat, j: nat)
    requires Valid(Class(pts)) && i <= j < |pts|
    ensures (i < j ==> pts[i] < pts[j]) && (i % 2 == 1 ==> pts[i] > 0) && (j % 2 == 1 ==> pts[j] > 0)
  {
    assert i % 2 == 1 ==> pts[0] < pts[i];
    assert j % 2 == 1 ==> pts[0] < pts[j];
  }

  lemma RangeEncodable(pts: seq<int>, icase: bool)
    requires Valid(Class(pts))
    ensures Loadable(EmitRange(pts, icase))
  {
    if pts != [] {
      var n := |pts|;
      var ps, qs := Pairs16(pts), Pairs32(pts);
      assert forall i :: 0 <= i < n ==> IsU16(ps[i]) && IsU32(qs[i]);
      Pairs32Sorted(pts);
      if (if pts[n - 1] == UINT32_MAX then pts[n - 2] else pts[n - 1]) <= 0xffff {
        Pairs16Sorted(pts);
      }
    }
  }

  lemma OneCharEncodable(i: Instr, back: bool)
    requires Loadable(i)
    ensures AllFit(OneChar(i, back))
  {
  }

  lemma LeafEncodable(canon: int -> int, f: Flags, n: Node, g: nat, back: bool)
    requires Valid(n) && WfCanon(canon) && !(n.Cat? || n.Or? || n.Group? || n.Modify? || n.Look? || n.Repeat?)
    ensures AllFit(Code(canon, f, n, g, back))
  {
    hide OneChar, EmitRange, AllFit;
    match n
    case Empty => NothingEncodable();
    case Char(c) => OneCharEncodable(EmitChar(if f.ignoreCase then canon(c) else c, f.ignoreCase), back);
    case Dot => OneCharEncodable(if f.dotAll then IAny else IDot, back);
    case Class(pts) => RangeEncodable(pts, f.ignoreCase); OneCharEncodable(EmitRange(pts, f.ignoreCase), back);
    case LineStart => EncodableOne(ILineStart(f.multiLine));
    case LineEnd => EncodableOne(ILineEnd(f.multiLine));
    case WordBoundary(negated) => EncodableOne(IWordBoundary(negated, f.ignoreCase));
    case BackRef(k) => EncodableOne(IBackRef(k, back, f.ignoreCase));
  }

  lemma CheckedEncodable(a: seq<Instr>)
    requires AllFit(a)
    ensures AllFit(Checked(a)) && Len(a) <= CheckLen(a) <= Len(a) + 2
  {
    hide Len, AllFit, NeedCheckAdvance;
    EncodableAround(IPushCharPos, a, ICheckAdvance);
  }

  lemma SplitLoopEncodable(a: seq<Instr>, greedy: bool)
    requires AllFit(a) && Len(a) + 20 <= INT32_MAX
    ensures AllFit(OnceLoop(a, greedy)) && AllFit(StarLoop(a, greedy))
  {
    hide Len, AllFit, NeedCheckAdvance, Checked, CheckLen;
    CheckedEncodable(a);
    EncodableAround(Split(greedy, CheckLen(a)), Checked(a), IMatch);
    EncodableAround(Split(greedy, CheckLen(a) + 5), Checked(a), IGoto(-(CheckLen(a) + 10)));
  }

  lemma CountedLoopEncodable(a: seq<Instr>, k: nat, greedy: bool)
    requires AllFit(a) && Len(a) + 20 <= INT32_MAX && k <= INT32_MAX
    ensures AllFit(CountedLoop(a, k, greedy))
  {
    hide Len, AllFit, NeedCheckAdvance, Checked, CheckLen, Split;
    CheckedEncodable(a);
    var i, j := Split(greedy, CheckLen(a) + 5), ILoop(-(CheckLen(a) + 10));
    assert Loadable(i) by { SplitEncodable(greedy, CheckLen(a) + 5); }
    EncodableAround(i, Checked(a), j);
    EncodableAround(IPushI32(k), [i] + Checked(a) + [j], IDrop);
    assert CountedLoop(a, k, greedy) == [IPushI32(k)] + ([i] + Checked(a) + [j]) + [IDrop];
  }

  lemma SplitEncodable(greedy: bool, off: int)
    requires IsI32(off)
    ensures Loadable(Split(greedy, off)) && Loadable(BackSplit(greedy, off))
  {
  }

  lemma ExactLoopEncodable(a: seq<Instr>, k: nat, greedy: bool)
    requires AllFit(a) && Len(a) + 20 <= INT32_MAX && k <= INT32_MAX
    ensures AllFit(ExactLoop(a, k)) && AllFit(a + [BackSplit(greedy, -(Len(a) + 5))])
  {
    hide Len, AllFit, BackSplit;
    var j := ILoop(-(Len(a) + 5));
    EncodableAround(IPushI32(k), a, j);
    EncodableAround(IMatch, [IPushI32(k)] + a + [j], IDrop);
    assert [IPushI32(k)] + a + [j, IDrop] == [IPushI32(k)] + a + [j] + [IDrop];
    SplitEncodable(greedy, -(Len(a) + 5));
    EncodableAround(IMatch, a, BackSplit(greedy, -(Len(a) + 5)));
  }

  lemma QuantEncodable(a: seq<Instr>, g: nat, groups: nat, min: nat, max: nat, greedy: bool)
    requires max > 0 ==> AllFit(a) && Len(a) + 20 <= INT32_MAX
    requires min <= max <= INFINITY && g + groups <= 256
    ensures AllFit(QuantCode(a, g, groups, min, max, greedy))
  {
    hide Len, AllFit, SimpleLoop, Loops;
    NothingEncodable();
    if groups > 0 {
      EncodableOne(ISaveReset(g, g + groups - 1));
    }
    if UsesSimpleLoop(a, max, greedy) {
      SimpleEncodable(a, min, max);
    } else {
      LoopsEncodable(a, min, max, greedy);
      EncodableAppend(Reset(g, groups), Loops(a, min, max, greedy));
    }
  }

  lemma SimpleEncodable(a: seq<Instr>, min: nat, max: nat)
    requires AllFit(a) && Len(a) + 20 <= INT32_MAX && min <= max <= INFINITY && SimpleQuantifier(a) > 0
    ensures AllFit(SimpleLoop(a, min, max))
  {
    hide Len, AllFit;
    CountLen(a);
    EncodableAround(ISimpleGreedyQuant(Len(a) + 1, min, max, SimpleQuantifier(a)), a, IMatch);
  }

  lemma {:induction false} CountLen(a: seq<Instr>)
    ensures CountChars(a) <= Len(a)
    decreases |a|
  {
    if a != [] {
      CountLen(a[1..]);
    }
  }

  lemma LoopsEncodable(a: seq<Instr>, min: nat, max: nat, greedy: bool)
    requires max > 0 ==> AllFit(a) && Len(a) + 20 <= INT32_MAX
    requires min <= max <= INFINITY
    ensures AllFit(Loops(a, min, max, greedy))
  {
    hide Len, AllFit, NeedCheckAdvance, ExactLoop, OnceLoop, StarLoop, CountedLoop;
    NothingEncodable();
    if max > 0 {
      SplitLoopEncodable(a, greedy);
      ExactLoopEncodable(a, min, greedy);
      CountedLoopEncodable(a, max, greedy);
      CountedLoopEncodable(a, max - min, greedy);
      EncodableAppend(ExactLoop(a, min), Optional(a, min, max, greedy));
    }
  }

  /** The atom is part of the code of its quantifier, unless it is dropped. */
  lemma QuantLen(a: seq<Instr>, g: nat, groups: nat, min: nat, max: nat, greedy: bool)
    requires min <= max && max > 0
    ensures Len(a) <= Len(QuantCode(a, g, groups, min, max, greedy))
  {
    hide Len, NeedCheckAdvance, Loops;
    if UsesSimpleLoop(a, max, greedy) {
      LenAround([ISimpleGreedyQuant(Len(a) + 1, min, max, SimpleQuantifier(a))], a, [IMatch]);
    } else {
      LoopsLen(a, min, max, greedy);
      LenAppend(Reset(g, groups), Loops(a, min, max, greedy));
    }
  }

  lemma LenAround(p: seq<Instr>, a: seq<Instr>, q: seq<Instr>)
    ensures Len(a) <= Len(p + a + q) && Len(a) <= Len(p + a) && Len(a) <= Len(a + q)
  {
    hide Len;
    LenAppend(p + a, q);
    LenAppend(p, a);
    LenAppend(a, q);
  }

  lemma LoopsLen(a: seq<Instr>, min: nat, max: nat, greedy: bool)
    requires min <= max && max > 0
    ensures Len(a) <= Len(Loops(a, min, max, greedy))
  {
    hide Len, NeedCheckAdvance;
    var b := Checked(a);
    LenAround([IPushCharPos], a, [ICheckAdvance]);
    LenAround([Split(greedy, CheckLen(a))], b, []);
    LenAround([Split(greedy, CheckLen(a) + 5)], b, [IGoto(-(CheckLen(a) + 10))]);
    LenAround([IPushI32(max), Split(greedy, CheckLen(a) + 5)], b, [ILoop(-(CheckLen(a) + 10)), IDrop]);
    LenAround([IPushI32(min)], a, [ILoop(-(Len(a) + 5)), IDrop]);
    LenAround([], a, [BackSplit(greedy, -(Len(a) + 5))]);
    LenAround([], ExactLoop(a, min), Optional(a, min, max, greedy));
  }

  /** Every operand of the code of a pattern fits its field, as long as the code itself is not too long. */
  lemma {:induction false} CodeEncodable(canon: int -> int, f: Flags, n: Node, g: nat, back: bool)
    requires Valid(n) && WfCanon(canon) && g + Groups(n) <= 256 && Len(Code(canon, f, n, g, back)) <= BYTECODE_MAX
    ensures AllFit(Code(canon, f, n, g, back))
    decreases n, 1
  {
    hide Code, Len, AllFit, QuantCode, WfCanon;
    var code := Code(canon, f, n, g, back);
    if n.Cat? {
      EncodableCat(canon, f, n, g, back);
    } else if n.Or? {
      EncodableOr(canon, f, n, g, back);
    } else if n.Group? {
      var x := Code(canon, f, n.inner, g + 1, back);
      var i, j := if back then ISaveEnd(g) else ISaveStart(g), if back then ISaveStart(g) else ISaveEnd(g);
      assert code == [i] + x + [j] by { GroupShape(canon, f, n, g, back); }
      LenAround([i], x, [j]);
      CodeEncodable(canon, f, n.inner, g + 1, back);
      EncodableAround(i, x, j);
    } else if n.Modify? {
      ModifyCode(canon, f, n, g, back);
      CodeEncodable(canon, Update(f, n.add, n.remove), n.scope, g, back);
    } else if n.Look? {
      var x := Code(canon, f, n.ahead, g, n.backward);
      var i := ILookahead(n.negative, Len(x) + 1);
      assert code == [i] + x + [IMatch] by { LookShape(canon, f, n, g, back); }
      LenAround([i], x, [IMatch]);
      CodeEncodable(canon, f, n.ahead, g, n.backward);
      EncodableAround(i, x, IMatch);
    } else if n.Repeat? {
      var x := Code(canon, f, n.body, g, back);
      RepeatCode(canon, f, n, g, back);
      if n.max > 0 {
        QuantLen(x, g, Groups(n.body), n.min, n.max, n.greedy);
        CodeEncodable(canon, f, n.body, g, back);
      }
      QuantEncodable(x, g, Groups(n.body), n.min, n.max, n.greedy);
    } else {
      LeafEncodable(canon, f, n, g, back);
    }
  }

  lemma {:induction false} EncodableCat(canon: int -> int, f: Flags, n: Node, g: nat, back: bool)
    requires n.Cat? && Valid(n) && WfCanon(canon) && g + Groups(n) <= 256
             && Len(Code(canon, f, n, g, back)) <= BYTECODE_MAX
    ensures AllFit(Code(canon, f, n, g, back))
    decreases n, 0
  {
    hide Code, Len, AllFit, QuantCode, WfCanon;
    var code := Code(canon, f, n, g, back);
    var x, y := Code(canon, f, Lead(n, back), LeadGroup(n, g, back), back),
      Code(canon, f, Trail(n, back), TrailGroup(n, g, back), back);
    assert code == x + y by { CatShape(canon, f, n, g, back); }
    LenAppend(x, y);
    CodeEncodable(canon, f, Lead(n, back), LeadGroup(n, g, back), back);
    CodeEncodable(canon, f, Trail(n, back), TrailGroup(n, g, back), back);
    EncodableAppend(x, y);
  }

  lemma {:induction false} EncodableOr(canon: int -> int, f: Flags, n: Node, g: nat, back: bool)
    requires n.Or? && Valid(n) && WfCanon(canon) && g + Groups(n) <= 256
             && Len(Code(canon, f, n, g, back)) <= BYTECODE_MAX
    ensures AllFit(Code(canon, f, n, g, back))
    decreases n, 0
  {
    hide Code, Len, AllFit, QuantCode, WfCanon;
    var code := Code(canon, f, n, g, back);
    var x, y := Code(canon, f, n.left, g, back), Code(canon, f, n.right, g + Groups(n.left), back);
    OrShape(canon, f, n, g, back);
    var i, j := ISplitNextFirst(Len(x) + 5), IGoto(Len(y));
    LenAppend([i] + x + [j], y);
    LenAround([i], x, [j]);
    CodeEncodable(canon, f, n.left, g, back);
    CodeEncodable(canon, f, n.right, g + Groups(n.left), back);
    EncodableAround(i, x, j);
    EncodableAppend([i] + x + [j], y);
  }

  // ----- decoding -----

  /** The instructions of a program by their byte addresses. */
  ghost function Layout(pc: int, code: seq<Instr>): map<int, Instr>
    decreases |code|
  {
    if code == [] then map[] else Layout(pc + Size(code[0]), code[1..])[pc := code[0]]
  }

  lemma {:induction false} LayoutLoaded(m: Machine, pc: int, code: seq<Instr>)
    requires forall p :: p in Layout(pc, code) ==> p in m.prog && m.prog[p] == Layout(pc, code)[p]
    ensures Loaded(m, pc, code)
    decreases |code|
  {
    if code != [] {
      LayoutAbove(pc + Size(code[0]), code[1..]);
      LayoutLoaded(m, pc + Size(code[0]), code[1..]);
    }
  }

  lemma {:induction false} LayoutAbove(pc: int, code: seq<Instr>)
    ensures forall p :: p in Layout(pc, code) ==> p >= pc
    decreases |code|
  {
    if code != [] {
      LayoutAbove(pc + Size(code[0]), code[1..]);
    }
  }

  /** Decoding the bytes at the address of an instruction gives that instruction back. */
  lemma {:induction false} LayoutFetch(pre: seq<byte>, code: seq<Instr>, p: int)
    requires AllFit(code) && p in Layout(|pre|, code)
    ensures var i := Layout(|pre|, code)[p]; Fetch(pre + Bytes(code), p) == Some(i) && i in code
    decreases |code|
  {
    hide Encode, Fetch, Encodable;
    var b, i := pre + Bytes(code), code[0];
    assert i in code;
    var rest := Bytes(code[1..]);
    assert b == pre + (Encode(i) + rest);
    assert b == pre + Encode(i) + rest;
    if p == |pre| {
      assert b[|pre|..|pre| + Size(i)] == Encode(i);
      FetchEncoded(b, |pre|, i);
    } else {
      LayoutFetch(pre + Encode(i), code[1..], p);
    }
  }

  /** A compiled pattern: its bytecode and the two sizes kept in its header. */
  datatype Compiled = Compiled(code: seq<byte>, captureCount: nat, stackSize: nat)

  lemma ProgramCounted(canon: int -> int, f: Flags, n: Node, sticky: bool)
    requires Valid(n)
    ensures AllCounted(Program(canon, f, n, sticky))
  {
    hide AllCounted, Code;
    var body := Code(canon, f, Group(n), 0, false);
    CodeCounted(canon, f, Group(n), 0, false);
    CountedAround(SEARCH_PROLOGUE, body, [IMatch]);
    CountedAround([], body, [IMatch]);
    assert SEARCH_PROLOGUE + (body + [IMatch]) == SEARCH_PROLOGUE + body + [IMatch];
    assert [] + (body + [IMatch]) == [] + body + [IMatch];
  }

  lemma ProgramNeeds(canon: int -> int, f: Flags, n: Node, sticky: bool)
    requires Valid(n)
    ensures var code := Program(canon, f, n, sticky);
            forall k :: 0 <= k < |code| ==> Depth(code[..k]) >= Need(code[k])
  {
    hide Program, Depth;
    var code := Program(canon, f, n, sticky);
    ProgramBlock(canon, f, n, sticky);
    var core := code[..|code| - 1];
    forall k | 0 <= k < |code| ensures Depth(code[..k]) >= Need(code[k]) {
      if k < |core| {
        assert Ok(core, k) && core[..k] == code[..k];
      } else {
        assert code[..k] == core;
      }
    }
  }

  lemma ProgramBytes(canon: int -> int, f: Flags, n: Node, sticky: bool)
    requires Valid(n)
    ensures Bytes(Program(canon, f, n, sticky))
         == (if sticky then [] else Bytes(SEARCH_PROLOGUE)) + Encode(ISaveStart(0)) + Bytes(Code(canon, f, n, 1, false))
            + Encode(ISaveEnd(0)) + Encode(IMatch)
  {
    hide Bytes, Encode, Code;
    var pre := if sticky then [] else SEARCH_PROLOGUE;
    var body := Code(canon, f, Group(n), 0, false);
    BytesAppend(pre, body + [IMatch]);
    BytesAppend(body, [IMatch]);
    BytesOne(IMatch);
    NoBytes();
    GroupBytes(canon, f, Group(n), 0, false, Bytes(pre));
    Assoc(Bytes(pre), Bytes(body), Encode(IMatch));
  }

  /** Whether a pattern can be compiled: its groups, the nesting of its counters and the length of its code. */
  ghost predicate Compilable(canon: int -> int, f: Flags, n: Node, sticky: bool)
    requires Valid(n)
  {
    var code := Program(canon, f, n, sticky);
    && 1 + Groups(n) <= CAPTURE_COUNT_MAX && MaxDepth(code) <= STACK_SIZE_MAX
    && HEADER_LEN + |Bytes(code)| <= BYTECODE_MAX
  }

  /** Compiles a pattern; None for too many groups, too deeply nested counters or too much code. */
  method LreCompile(canon: int -> int, f: Flags, n: Node, sticky: bool) returns (r: Option<Compiled>)
    requires Valid(n)
    ensures r.Some? <==> Compilable(canon, f, n, sticky)
    ensures r.Some? ==> r.value.code == Bytes(Program(canon, f, n, sticky))
    ensures r.Some? ==>
            r.value.captureCount == 1 + Groups(n) && r.value.stackSize == MaxDepth(Program(canon, f, n, sticky))
  {
    hide Bytes, Encode, Code, Program, MaxDepth, Depth, Len, AllCounted;
    var c := new Compiler(canon);
    if !sticky {
      c.Emit(SEARCH_PROLOGUE[0]);
      c.Emit(SEARCH_PROLOGUE[1]);
      c.Emit(SEARCH_PROLOGUE[2]);
      PrologueBytes();
    }
    c.Emit(ISaveStart(0));
    var ok := c.Compile(f, n, false);
    if !ok {
      return None;
    }
    c.Emit(ISaveEnd(0));
    c.Emit(IMatch);
    ghost var code := Program(canon, f, n, sticky);
    ProgramBytes(canon, f, n, sticky);
    assert c.buf == Bytes(code);
    ProgramCounted(canon, f, n, sticky);
    ProgramNeeds(canon, f, n, sticky);
    if HEADER_LEN + |c.buf| > BYTECODE_MAX {
      return None;
    }
    NoPrefix(code);
    assert c.buf[0..] == c.buf;
    var size := ComputeStackSize(c.buf, 0, code);
    if size < 0 {
      return None;
    }
    return Some(Compiled(c.buf, c.captureCount, size));
  }

  lemma PrologueBytes()
    ensures [] + Encode(SEARCH_PROLOGUE[0]) + Encode(SEARCH_PROLOGUE[1]) + Encode(SEARCH_PROLOGUE[2])
            == Bytes(SEARCH_PROLOGUE)
  {
    hide Encode;
    var p := SEARCH_PROLOGUE;
    assert p[1..] == [p[1], p[2]] && p[1..][1..] == [p[2]] && p[1..][1..][1..] == [];
  }

  lemma ProgramEncodable(canon: int -> int, f: Flags, n: Node, sticky: bool)
    requires Valid(n) && WfCanon(canon) && 1 + Groups(n) <= CAPTURE_COUNT_MAX
             && Len(Program(canon, f, n, sticky)) <= BYTECODE_MAX
    ensures AllFit(Program(canon, f, n, sticky))
  {
    hide AllFit, Code, Len;
    var pre := if sticky then [] else SEARCH_PROLOGUE;
    var body := Code(canon, f, Group(n), 0, false);
    LenAppend(pre, body + [IMatch]);
    LenAppend(body, [IMatch]);
    CodeEncodable(canon, f, Group(n), 0, false);
    EncodableAround(IMatch, body, IMatch);
    assert AllFit(pre) by { PrologueEncodable(); NothingEncodable(); }
    EncodableAppend(pre, body + [IMatch]);
  }

  lemma PrologueEncodable()
    ensures AllFit(SEARCH_PROLOGUE)
  {
  }
}
