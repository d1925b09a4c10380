/**
 Relocatable blocks and the value stack: every jump of a block lands on an
 instruction of the block or on its end, at the depth it left from, so the
 depth found by one linear scan is the depth at run time.
 */
module RegexpLayout {
  import opened Basics
  import opened RegexpSyntax
  import opened RegexpBytecode
  import opened RegexpCodegen

  /** What an instruction leaves on the value stack. */
  function Effect(i: Instr): int {
    if i.IPushI32? || i.IPushCharPos? then 1 else if i.IDrop? || i.ICheckAdvance? then -1 else 0
  }

  /** What an instruction needs on the value stack. */
  function Need(i: Instr): nat {
    if i.IDrop? || i.ICheckAdvance? || i.ILoop? then 1 else 0
  }

  predicate IsJump(i: Instr) {
    i.IGoto? || i.ISplitGotoFirst? || i.ISplitNextFirst? || i.ILoop? || i.ILookahead? || i.ISimpleGreedyQuant?
  }

  /** The depth after a linear scan of a block. */
  function Depth(code: seq<Instr>): int {
    if code == [] then 0 else Effect(code[0]) + Depth(code[1..])
  }

  lemma {:induction false} DepthAppend(a: seq<Instr>, b: seq<Instr>)
    ensures Depth(a + b) == Depth(a) + Depth(b)
  {
    if a == [] {
      assert a + b == b;
    } else {
      assert (a + b)[1..] == a[1..] + b;
      DepthAppend(a[1..], b);
    }
  }

  /** The jump at `k` lands at the start of instruction `j`, or at the end of the block, at the same depth. */
  ghost predicate LandsOn(code: seq<Instr>, k: nat, j: nat)
    requires k < |code| && IsJump(code[k])
  {
    && j <= |code|
    && Len(code[..j]) == Len(code[..k + 1]) + code[k].off
    && Depth(code[..j]) == Depth(code[..k + 1])
  }

  /** Instruction `k` has what it needs on the stack and jumps inside the block. */
  ghost predicate Ok(code: seq<Instr>, k: nat)
    requires k < |code|
  {
    && Depth(code[..k]) >= Need(code[k])
    && (IsJump(code[k]) ==> exists j: nat :: LandsOn(code, k, j))
  }

  ghost predicate Block(code: seq<Instr>) {
    && Depth(code) == 0
    && forall k :: 0 <= k < |code| ==> Ok(code, k)
  }

  /** A block keeps its properties wherever it is moved to. */
  lemma OkShift(pre: seq<Instr>, a: seq<Instr>, post: seq<Instr>, k: nat)
    requires Depth(pre) >= 0 && k < |a| && Ok(a, k)
    ensures Ok(pre + a + post, |pre| + k)
  {
    hide Len, Depth;
    var code := pre + a + post;
    Prefix(pre, a, post, k);
    if IsJump(a[k]) {
      var j: nat :| LandsOn(a, k, j);
      Prefix(pre, a, post, k + 1);
      Prefix(pre, a, post, j);
      assert LandsOn(code, |pre| + k, |pre| + j);
    }
  }

  lemma Prefix(pre: seq<Instr>, a: seq<Instr>, post: seq<Instr>, k: nat)
    requires k <= |a|
    ensures (pre + a + post)[..|pre| + k] == pre + a[..k]
    ensures Len((pre + a + post)[..|pre| + k]) == Len(pre) + Len(a[..k])
    ensures Depth((pre + a + post)[..|pre| + k]) == Depth(pre) + Depth(a[..k])
  {
    hide Len, Depth;
    TakeMiddle(pre, a, post, k);
    LenAppend(pre, a[..k]);
    DepthAppend(pre, a[..k]);
  }

  lemma NoCode()
    ensures Len([]) == 0 && Depth([]) == 0
  {
  }

  lemma BlockAppend(a: seq<Instr>, b: seq<Instr>)
    requires Block(a) && Block(b)
    ensures Block(a + b)
  {
    hide Len, Depth;
    NoCode();
    DepthAppend(a, b);
    forall k | 0 <= k < |a + b| ensures Ok(a + b, k) {
      if k < |a| {
        OkShift([], a, b, k);
        assert [] + a + b == a + b;
      } else {
        OkShift(a, b, [], k - |a|);
        assert a + b + [] == a + b;
      }
    }
  }

  /** A block between instructions that are themselves in order. */
  lemma BlockBetween(pre: seq<Instr>, a: seq<Instr>, post: seq<Instr>)
    requires Block(a) && Depth(pre) >= 0 && Depth(pre) + Depth(post) == 0
    requires forall k :: 0 <= k < |pre| ==> Ok(pre + a + post, k)
    requires forall k :: |pre| + |a| <= k < |pre + a + post| ==> Ok(pre + a + post, k)
    ensures Block(pre + a + post)
  {
    hide Len, Depth;
    DepthAppend(pre + a, post);
    DepthAppend(pre, a);
    forall k | 0 <= k < |pre + a + post| ensures Ok(pre + a + post, k) {
      if |pre| <= k < |pre| + |a| {
        OkShift(pre, a, post, k - |pre|);
      }
    }
  }

  lemma Small(i: Instr, j: Instr)
    ensures Len([]) == 0 && Depth([]) == 0
    ensures Len([i]) == Size(i) && Depth([i]) == Effect(i)
    ensures Len([i, j]) == Size(i) + Size(j) && Depth([i, j]) == Effect(i) + Effect(j)
  {
    assert [i][1..] == [] && [i, j][1..] == [j] && [j][1..] == [];
  }

  /** One instruction, a block, and one more: the prefixes that matter. */
  lemma Around(i: Instr, a: seq<Instr>, j: Instr)
    ensures var code := [i] + a + [j];
            && |code| == |a| + 2 && code[0] == i && code[|a| + 1] == j
            && code[..0] == [] && code[..1] == [i] && code[..|a| + 1] == [i] + a && code[..|a| + 2] == code
            && Len([]) == 0 && Depth([]) == 0 && Len([i]) == Size(i) && Depth([i]) == Effect(i)
            && Len(code) == Size(i) + Len(a) + Size(j) && Len([i] + a) == Size(i) + Len(a)
            && Depth(code) == Effect(i) + Depth(a) + Effect(j) && Depth([i] + a) == Effect(i) + Depth(a)
  {
    hide Len, Depth;
    Small(i, j);
    Small(j, i);
    LenAppend([i] + a, [j]);
    LenAppend([i], a);
    DepthAppend([i] + a, [j]);
    DepthAppend([i], a);
  }

  lemma AroundBlock(i: Instr, a: seq<Instr>, j: Instr)
    requires Block(a) && Effect(i) >= 0 && Effect(i) + Effect(j) == 0
    requires Ok([i] + a + [j], 0) && Ok([i] + a + [j], |a| + 1)
    ensures Block([i] + a + [j])
  {
    hide Len, Depth;
    Small(i, j);
    Small(j, i);
    BlockBetween([i], a, [j]);
  }

  // ----- quantifiers -----

  lemma CheckedBlock(a: seq<Instr>)
    requires Block(a)
    ensures Block(Checked(a)) && Len(Checked(a)) == CheckLen(a)
  {
    hide Len, Depth;
    if NeedCheckAdvance(a) {
      Around(IPushCharPos, a, ICheckAdvance);
      AroundBlock(IPushCharPos, a, ICheckAdvance);
    }
  }

  lemma OnceBlock(a: seq<Instr>, greedy: bool)
    requires Block(a)
    ensures Block(OnceLoop(a, greedy))
  {
    hide Len, Depth, Checked;
    CheckedBlock(a);
    var b, i := Checked(a), Split(greedy, CheckLen(a));
    var code := [i] + b;
    Small(i, i);
    LenAppend([i], b);
    DepthAppend([i], b);
    assert code[..0] == [] && code[..1] == [i] && code[..|code|] == code;
    assert LandsOn(code, 0, |code|);
    assert code == [i] + b + [];
    BlockBetween([i], b, []);
  }

  lemma StarBlock(a: seq<Instr>, greedy: bool)
    requires Block(a)
    ensures Block(StarLoop(a, greedy))
  {
    hide Len, Depth, Checked;
    CheckedBlock(a);
    var b, i, j := Checked(a), Split(greedy, CheckLen(a) + 5), IGoto(-(CheckLen(a) + 10));
    Around(i, b, j);
    var code := [i] + b + [j];
    assert LandsOn(code, 0, |code|);
    assert LandsOn(code, |b| + 1, 0);
    AroundBlock(i, b, j);
  }

  lemma CountedBlock(a: seq<Instr>, k: nat, greedy: bool)
    requires Block(a)
    ensures Block(CountedLoop(a, k, greedy))
  {
    hide Len, Depth, Checked;
    CheckedBlock(a);
    var b, push, i, j := Checked(a), IPushI32(k), Split(greedy, CheckLen(a) + 5), ILoop(-(CheckLen(a) + 10));
    var pre, post := [push, i], [j, IDrop];
    var code := pre + b + post;
    Small(push, i);
    Small(j, IDrop);
    Prefix(pre, b, post, 0);
    Prefix(pre, b, post, |b|);
    Prefix(pre + b, post, [], 1);
    assert pre + b + post + [] == code;
    LenAppend(pre, b);
    DepthAppend(pre, b);
    assert b[..|b|] == b && post[..1] == [j];
    assert code[..0] == [] && code[..1] == [push] && code[..2] == pre;
    assert code[1] == i && code[|b| + 2] == j && code[|b| + 3] == IDrop;
    assert LandsOn(code, 1, |b| + 3);
    assert LandsOn(code, |b| + 2, 1);
    assert Ok(code, 0) && Ok(code, 1) && Ok(code, |b| + 2) && Ok(code, |b| + 3);
    BlockBetween(pre, b, post);
  }

  lemma ExactBlock(a: seq<Instr>, k: nat)
    requires Block(a)
    ensures Block(ExactLoop(a, k))
  {
    hide Len, Depth;
    if k != 1 {
      var push, j := IPushI32(k), ILoop(-(Len(a) + 5));
      var pre, post := [push], [j, IDrop];
      var code := pre + a + post;
      Small(push, j);
      Small(j, IDrop);
      Prefix(pre, a, post, |a|);
      Prefix(pre + a, post, [], 1);
      assert pre + a + post + [] == code;
      LenAppend(pre, a);
      DepthAppend(pre, a);
      assert a[..|a|] == a && post[..1] == [j];
      assert code[..0] == [] && code[..1] == pre;
      assert code[0] == push && code[|a| + 1] == j && code[|a| + 2] == IDrop;
      assert LandsOn(code, |a| + 1, 1);
      assert Ok(code, 0) && Ok(code, |a| + 1) && Ok(code, |a| + 2);
      BlockBetween(pre, a, post);
    }
  }

  lemma PlusBlock(a: seq<Instr>, greedy: bool)
    requires Block(a)
    ensures Block(a + [BackSplit(greedy, -(Len(a) + 5))])
  {
    hide Len, Depth;
    var i := BackSplit(greedy, -(Len(a) + 5));
    var code := a + [i];
    Small(i, i);
    LenAppend(a, [i]);
    DepthAppend(a, [i]);
    assert code[..0] == [] && code[..|a|] == a && code[..|a| + 1] == code;
    assert LandsOn(code, |a|, 0);
    assert code == [] + a + [i];
    BlockBetween([], a, [i]);
  }

  lemma LoopsBlock(a: seq<Instr>, min: nat, max: nat, greedy: bool)
    requires Block(a)
    ensures Block(Loops(a, min, max, greedy))
  {
    hide Block;
    assert Block([]) by { EmptyBlock(); }
    if min == 0 {
      if max == 1 {
        OnceBlock(a, greedy);
      } else if max == INFINITY {
        StarBlock(a, greedy);
      } else {
        CountedBlock(a, max, greedy);
      }
    } else {
      PlusBlock(a, greedy);
      ExactBlock(a, min);
      if max == INFINITY {
        StarBlock(a, greedy);
      } else if max > min {
        CountedBlock(a, max - min, greedy);
      }
      BlockAppend(ExactLoop(a, min), Optional(a, min, max, greedy));
    }
  }

  lemma EmptyBlock()
    ensures Block([])
  {
  }

  lemma OneBlock(i: Instr)
    requires Effect(i) == 0 && Need(i) == 0 && !IsJump(i)
    ensures Block([i])
  {
    Small(i, i);
    assert [i][..0] == [];
  }

  /** A skip over a block: a lookahead or a simple loop, whose jump goes past the final `match`. */
  lemma SkipBlock(i: Instr, a: seq<Instr>)
    requires Block(a) && IsJump(i) && Need(i) == 0 && i.off == Len(a) + 1
    ensures Block([i] + a + [IMatch])
  {
    hide Len, Depth;
    Around(i, a, IMatch);
    assert LandsOn([i] + a + [IMatch], 0, |a| + 2);
    AroundBlock(i, a, IMatch);
  }

  lemma OrBlock(a: seq<Instr>, b: seq<Instr>)
    requires Block(a) && Block(b)
    ensures Block([ISplitNextFirst(Len(a) + 5)] + a + [IGoto(Len(b))] + b)
  {
    hide Len, Depth;
    var i, j := ISplitNextFirst(Len(a) + 5), IGoto(Len(b));
    var code := [i] + a + [j] + b;
    Around(i, a, j);
    LenAppend([i] + a + [j], b);
    DepthAppend([i] + a + [j], b);
    assert code[..0] == [] && code[..1] == [i] && code[..|a| + 1] == [i] + a && code[..|a| + 2] == [i] + a + [j]
           && code[..|code|] == code;
    assert LandsOn(code, 0, |a| + 2);
    assert LandsOn(code, |a| + 1, |code|);
    forall k | 0 <= k < |code| ensures Ok(code, k) {
      if 1 <= k <= |a| {
        OkShift([i], a, [j] + b, k - 1);
        assert [i] + a + ([j] + b) == code;
      } else if k >= |a| + 2 {
        OkShift([i] + a + [j], b, [], k - |a| - 2);
        assert [i] + a + [j] + b + [] == code;
      }
    }
  }

  lemma OneCharBlock(i: Instr, back: bool)
    requires ReadsChar(i)
    ensures Block(OneChar(i, back))
  {
    OneBlock(i);
    if back {
      OneBlock(IPrev);
      BlockAppend([IPrev], [i]);
      BlockAppend([IPrev] + [i], [IPrev]);
      assert [IPrev] + [i] + [IPrev] == [IPrev, i, IPrev];
    }
  }

  /** The code of every pattern is a relocatable block that leaves the stack as it found it. */
  lemma {:induction false} CodeBlock(canon: int -> int, f: Flags, n: Node, g: nat, back: bool)
    requires Valid(n)
    ensures Block(Code(canon, f, n, g, back))
    decreases n
  {
    hide Block, Code;
    if n.Cat? {
      CodeBlock(canon, f, Lead(n, back), LeadGroup(n, g, back), back);
      CodeBlock(canon, f, Trail(n, back), TrailGroup(n, g, back), back);
      TwoBlocks(canon, f, n, g, back);
    } else if n.Or? {
      CodeBlock(canon, f, n.left, g, back);
      CodeBlock(canon, f, n.right, g + Groups(n.left), back);
      TwoBlocks(canon, f, n, g, back);
    } else if n.Group? {
      CodeBlock(canon, f, n.inner, g + 1, back);
      BodyBlock(canon, f, n, g, back);
    } else if n.Modify? {
      CodeBlock(canon, Update(f, n.add, n.remove), n.scope, g, back);
      BodyBlock(canon, f, n, g, back);
    } else if n.Look? {
      CodeBlock(canon, f, n.ahead, g, n.backward);
      BodyBlock(canon, f, n, g, back);
    } else if n.Repeat? {
      CodeBlock(canon, f, n.body, g, back);
      BodyBlock(canon, f, n, g, back);
    } else {
      LeafBlock(canon, f, n, g, back);
    }
  }

  lemma LeafBlock(canon: int -> int, f: Flags, n: Node, g: nat, back: bool)
    requires Valid(n) && !(n.Cat? || n.Or? || n.Group? || n.Modify? || n.Look? || n.Repeat?)
    ensures Block(Code(canon, f, n, g, back))
  {
    hide Block, OneChar;
    match n
    case Empty => EmptyBlock();
    case Char(c) => OneCharBlock(EmitChar(if f.ignoreCase then canon(c) else c, f.ignoreCase), back);
    case Dot => OneCharBlock(if f.dotAll then IAny else IDot, back);
    case Class(pts) => OneCharBlock(EmitRange(pts, f.ignoreCase), back);
    case LineStart => OneBlock(ILineStart(f.multiLine));
    case LineEnd => OneBlock(ILineEnd(f.multiLine));
    case WordBoundary(negated) => OneBlock(IWordBoundary(negated, f.ignoreCase));
    case BackRef(k) => OneBlock(IBackRef(k, back, f.ignoreCase));
  }

  lemma TwoBlocks(canon: int -> int, f: Flags, n: Node, g: nat, back: bool)
    requires Valid(n) && (n.Cat? || n.Or?)
    requires n.Cat? ==> Block(Code(canon, f, Lead(n, back), LeadGroup(n, g, back), back))
                        && Block(Code(canon, f, Trail(n, back), TrailGroup(n, g, back), back))
    requires n.Or? ==>
             Block(Code(canon, f, n.left, g, back)) && Block(Code(canon, f, n.right, g + Groups(n.left), back))
    ensures Block(Code(canon, f, n, g, back))
  {
    hide Block, Len, QuantCode, EmitRange, OneChar;
    if n.Cat? {
      BlockAppend(Code(canon, f, Lead(n, back), LeadGroup(n, g, back), back),
                  Code(canon, f, Trail(n, back), TrailGroup(n, g, back), back));
    } else {
      OrBlock(Code(canon, f, n.left, g, back), Code(canon, f, n.right, g + Groups(n.left), back));
    }
  }

  lemma BodyBlock(canon: int -> int, f: Flags, n: Node, g: nat, back: bool)
    requires Valid(n) && (n.Group? || n.Modify? || n.Look? || n.Repeat?)
    requires n.Group? ==> Block(Code(canon, f, n.inner, g + 1, back))
    requires n.Modify? ==> Block(Code(canon, Update(f, n.add, n.remove), n.scope, g, back))
    requires n.Look? ==> Block(Code(canon, f, n.ahead, g, n.backward))
    requires n.Repeat? ==> Block(Code(canon, f, n.body, g, back))
    ensures Block(Code(canon, f, n, g, back))
  {
    hide Block, Len, QuantCode, EmitRange, OneChar;
    match n
    case Group(a) => GroupBlock(Code(canon, f, a, g + 1, back), g);
    case Modify(_, _, _) =>
    case Look(b, negative, a) => SkipBlock(ILookahead(negative, Len(Code(canon, f, a, g, b)) + 1),
      Code(canon, f, a, g, b));
    case Repeat(a, min, max, greedy) => QuantBlock(Code(canon, f, a, g, back), g, Groups(a), min, max, greedy);
  }

  lemma GroupBlock(a: seq<Instr>, g: nat)
    requires Block(a)
    ensures Block([ISaveStart(g)] + a + [ISaveEnd(g)])
    ensures Block([ISaveEnd(g)] + a + [ISaveStart(g)])
  {
    hide Block;
    OneBlock(ISaveStart(g));
    OneBlock(ISaveEnd(g));
    BlockAppend([ISaveStart(g)], a);
    BlockAppend([ISaveStart(g)] + a, [ISaveEnd(g)]);
    BlockAppend([ISaveEnd(g)], a);
    BlockAppend([ISaveEnd(g)] + a, [ISaveStart(g)]);
  }

  lemma QuantBlock(a: seq<Instr>, g: nat, groups: nat, min: nat, max: nat, greedy: bool)
    requires Block(a)
    ensures Block(QuantCode(a, g, groups, min, max, greedy))
  {
    hide Block, Loops;
    if UsesSimpleLoop(a, max, greedy) {
      SkipBlock(ISimpleGreedyQuant(Len(a) + 1, min, max, SimpleQuantifier(a)), a);
    } else {
      LoopsBlock(a, min, max, greedy);
      if groups > 0 {
        OneBlock(ISaveReset(g, g + groups - 1));
      } else {
        EmptyBlock();
      }
      BlockAppend(Reset(g, groups), Loops(a, min, max, greedy));
    }
  }

  lemma PrologueBlock()
    ensures Block(SEARCH_PROLOGUE)
  {
    var p := SEARCH_PROLOGUE;
    Small(p[0], p[1]);
    Small(p[2], p[1]);
    assert p[..0] == [] && p[..1] == [p[0]] && p[..2] == [p[0], p[1]] && p[..3] == p;
    assert p[1..] == [p[1], p[2]];
    Small(p[1], p[2]);
    assert LandsOn(p, 0, 3) && LandsOn(p, 2, 0);
  }

  /** A program is a block followed by a final `match`. */
  lemma ProgramBlock(canon: int -> int, f: Flags, n: Node, sticky: bool)
    requires Valid(n)
    ensures var code := Program(canon, f, n, sticky);
            |code| > 0 && code[|code| - 1] == IMatch && Block(code[..|code| - 1])
  {
    hide Block, Len, Code;
    var body := Code(canon, f, Group(n), 0, false);
    var code := Program(canon, f, n, sticky);
    CodeBlock(canon, f, Group(n), 0, false);
    var pre := if sticky then [] else SEARCH_PROLOGUE;
    EmptyBlock();
    PrologueBlock();
    BlockAppend(pre, body);
    assert code[..|code| - 1] == pre + body;
  }
}
