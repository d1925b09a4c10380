/**
 The value stack at run time: in every configuration reached from the start of
 a compiled program, the stack has exactly the depth that the linear scan of
 `compute_stack_size` gives to the program point.
 */
module RegexpStack {
  import opened Basics
  import opened RegexpSyntax
  import opened RegexpMatcher
  import opened RegexpBytecode
  import opened RegexpCodegen
  import opened RegexpVm
  import opened RegexpSimulation
  import opened RegexpLayout

  /** `d` is the scanned depth of the instruction that starts at byte `pc`. */
  ghost predicate DepthAt(code: seq<Instr>, pc: int, d: int) {
    exists k: nat :: IndexAt(code, k, pc, d)
  }

  ghost predicate IndexAt(code: seq<Instr>, k: nat, pc: int, d: int) {
    k < |code| && Len(code[..k]) == pc && Depth(code[..k]) == d
  }

  /** The greatest depth of the scan. */
  function MaxDepth(code: seq<Instr>): (d: nat)
    ensures d >= Depth(code)
    decreases |code|
  {
    if code == [] then 0 else Max(MaxDepth(code[..|code| - 1]), Depth(code))
  }

  /** It is the depth at some point of the scan. */
  lemma {:induction false} DepthReached(code: seq<Instr>) returns (k: nat)
    ensures k <= |code| && Depth(code[..k]) == MaxDepth(code)
    decreases |code|
  {
    hide Depth;
    if code == [] {
      k := 0;
      EmptyDepth(code);
    } else if MaxDepth(code) == Depth(code) {
      k := |code|;
      assert code[..k] == code;
    } else {
      var rest := code[..|code| - 1];
      k := DepthReached(rest);
      assert code[..k] == rest[..k];
    }
  }

  lemma EmptyDepth(code: seq<Instr>)
    ensures Depth(code[..0]) == 0
  {
  }

  lemma {:induction false} DepthBounded(code: seq<Instr>, k: nat)
    requires k <= |code|
    ensures Depth(code[..k]) <= MaxDepth(code)
    decreases |code|
  {
    if k == |code| {
      assert code[..k] == code;
    } else {
      DepthBounded(code[..|code| - 1], k);
      assert code[..|code| - 1][..k] == code[..k];
    }
  }

  /** A whole program: a relocatable block and a final `match`, loaded at address 0. */
  ghost predicate Whole(m: Machine, code: seq<Instr>) {
    && |code| > 0 && code[|code| - 1] == IMatch && Block(code[..|code| - 1])
    && Loaded(m, 0, code)
  }

  lemma {:induction false} LoadedAt(m: Machine, pc: int, code: seq<Instr>, k: nat)
    requires Loaded(m, pc, code) && k < |code|
    ensures pc + Len(code[..k]) in m.prog && m.prog[pc + Len(code[..k])] == code[k]
    decreases k
  {
    if k == 0 {
      assert code[..0] == [];
    } else {
      LoadedAt(m, pc + Size(code[0]), code[1..], k - 1);
      assert code[..k][1..] == code[1..][..k - 1];
    }
  }

  /** What the scan says about the instruction at `k`. */
  lemma InstructionOk(m: Machine, code: seq<Instr>, k: nat, pc: int, d: int)
    requires Whole(m, code) && IndexAt(code, k, pc, d)
    ensures pc in m.prog && m.prog[pc] == code[k] && d >= Need(code[k])
    ensures k < |code| - 1 ==> DepthAt(code, pc + Size(code[k]), d + Effect(code[k]))
    ensures k < |code| - 1 && IsJump(code[k]) ==> DepthAt(code, pc + Size(code[k]) + code[k].off, d)
  {
    hide Loaded, Block, MaxDepth;
    LoadedAt(m, 0, code, k);
    var core := code[..|code| - 1];
    if k < |code| - 1 {
      assert Ok(core, k) && core[k] == code[k] by { BlockOk(core, k); }
      assert core[..k] == code[..k] && core[..k + 1] == code[..k + 1] && code[..k + 1] == code[..k] + [code[k]];
      Small(code[k], code[k]);
      LenAppend(code[..k], [code[k]]);
      DepthAppend(code[..k], [code[k]]);
      assert IndexAt(code, k + 1, pc + Size(code[k]), d + Effect(code[k]));
      if IsJump(code[k]) {
        var j: nat :| LandsOn(core, k, j);
        assert core[..j] == code[..j];
        assert IndexAt(code, j, pc + Size(code[k]) + code[k].off, d);
      }
    } else {
      assert d == 0 by { BlockDepth(core); assert code[..k] == core; }
    }
  }

  lemma BlockOk(code: seq<Instr>, k: nat)
    requires Block(code) && k < |code|
    ensures Ok(code, k)
  {
  }

  lemma BlockDepth(code: seq<Instr>)
    requires Block(code)
    ensures Depth(code) == 0
  {
  }

  ghost predicate ChoiceDepth(m: Machine, code: seq<Instr>, k: Choice) {
    && DepthAt(code, k.pc, |k.stk|)
    && (k.kind == GreedyPoint ==> k.pc in m.prog && m.prog[k.pc].ISimpleGreedyQuant?)
  }

  ghost predicate FrameDepth(m: Machine, code: seq<Instr>, f: Frame) {
    && DepthAt(code, f.pc, |f.stk|)
    && f.pc in m.prog && m.prog[f.pc] == f.instr && f.instr.ISimpleGreedyQuant?
  }

  ghost predicate ChoicesDepth(m: Machine, code: seq<Instr>, ks: seq<Choice>) {
    forall i :: 0 <= i < |ks| ==> ChoiceDepth(m, code, ks[i])
  }

  ghost predicate FramesDepth(m: Machine, code: seq<Instr>, calls: seq<Frame>) {
    forall i :: 0 <= i < |calls| ==> FrameDepth(m, code, calls[i])
  }

  /** Every value stack held in a configuration has the scanned depth of its program point. */
  ghost predicate DepthExact(m: Machine, code: seq<Instr>, c: Config) {
    match c
    case Run(pc, _, stk, ks, calls) => DepthAt(code, pc, |stk|) && ChoicesDepth(m, code, ks)
      && FramesDepth(m, code, calls)
    case Fail(ks) => ChoicesDepth(m, code, ks)
    case Succeed(_, ks) => ChoicesDepth(m, code, ks)
    case _ => true
  }

  /** The jump of a simple loop, from its frame or its choice point. */
  lemma QuantExit(m: Machine, code: seq<Instr>, pc: int, d: int)
    requires Whole(m, code) && DepthAt(code, pc, d) && pc in m.prog && m.prog[pc].ISimpleGreedyQuant?
    ensures DepthAt(code, pc + 17, d) && DepthAt(code, pc + 17 + m.prog[pc].off, d)
  {
    hide Whole;
    var k: nat :| IndexAt(code, k, pc, d);
    InstructionOk(m, code, k, pc, d);
    NotLast(m, code, k);
  }

  lemma NotLast(m: Machine, code: seq<Instr>, k: nat)
    requires Whole(m, code) && k < |code| && code[k] != IMatch
    ensures k < |code| - 1
  {
  }

  lemma {:induction false} NoMatchDepth(m: Machine, code: seq<Instr>, s: State, ks: seq<Choice>, calls: seq<Frame>)
    requires Whole(m, code) && ChoicesDepth(m, code, ks) && FramesDepth(m, code, calls)
    ensures DepthExact(m, code, NoMatch(s, ks, calls))
    decreases |calls|, 0
  {
    hide Whole, DepthAt;
    if calls != [] {
      var n := |calls| - 1;
      assert FrameDepth(m, code, calls[n]);
      LeaveDepth(m, code, State(calls[n].pos, s.caps), ks, calls[..n], calls[n]);
    }
  }

  lemma {:induction false} LeaveDepth(m: Machine, code: seq<Instr>, s: State, ks: seq<Choice>, calls: seq<Frame>,
                                      f: Frame)
    requires Whole(m, code) && ChoicesDepth(m, code, ks) && FramesDepth(m, code, calls) && FrameDepth(m, code, f)
    ensures DepthExact(m, code, LeaveLoop(s, ks, calls, f))
    decreases |calls|, 1
  {
    hide Whole, DepthAt;
    if f.count < f.instr.min {
      NoMatchDepth(m, code, s, ks, calls);
    } else {
      QuantExit(m, code, f.pc, |f.stk|);
    }
  }

  lemma AtomDoneDepth(m: Machine, code: seq<Instr>, s: State, ks: seq<Choice>, calls: seq<Frame>)
    requires Whole(m, code) && ChoicesDepth(m, code, ks) && FramesDepth(m, code, calls) && calls != []
    ensures DepthExact(m, code, AtomDone(s, ks, calls))
  {
    hide Whole, DepthAt;
    var n := |calls| - 1;
    assert FrameDepth(m, code, calls[n]);
    var f := calls[n].(pos := s.pos, count := calls[n].count + 1);
    assert FrameDepth(m, code, f);
    LeaveDepth(m, code, s, ks, calls[..n], f);
    QuantExit(m, code, f.pc, |f.stk|);
  }

  lemma ExecuteDepth(m: Machine, code: seq<Instr>, k: nat, pc: int, s: State, stk: seq<int>, ks: seq<Choice>,
                     calls: seq<Frame>)
    requires Whole(m, code) && IndexAt(code, k, pc, |stk|) && InBounds(m.e, s)
    requires ChoicesDepth(m, code, ks) && FramesDepth(m, code, calls)
    ensures DepthExact(m, code, Execute(m, code[k], pc, s, stk, ks, calls))
  {
    hide Whole, DepthAt, NoMatch, AtomDone, Local;
    var i := code[k];
    InstructionOk(m, code, k, pc, |stk|);
    assert DepthAt(code, pc, |stk|) by { IndexIsDepth(code, k, pc, |stk|); }
    if i.IMatch? {
      if calls != [] {
        AtomDoneDepth(m, code, s, ks, calls);
      }
    } else {
      NotLast(m, code, k);
      NoMatchDepth(m, code, s, ks, calls);
    }
  }

  lemma IndexIsDepth(code: seq<Instr>, k: nat, pc: int, d: int)
    requires IndexAt(code, k, pc, d)
    ensures DepthAt(code, pc, d)
  {
  }

  lemma BacktrackDepth(m: Machine, code: seq<Instr>, ks: seq<Choice>)
    requires Whole(m, code) && ChoicesDepth(m, code, ks) && ks != []
    ensures DepthExact(m, code, Backtrack(m, ks))
  {
    hide Whole, DepthAt;
    var k := ks[|ks| - 1];
    assert ChoiceDepth(m, code, k);
    if k.kind == GreedyPoint {
      QuantExit(m, code, k.pc, |k.stk|);
    }
  }

  /** Every step keeps the stack at the scanned depth. */
  lemma StepDepth(m: Machine, code: seq<Instr>, c: Config)
    requires Whole(m, code) && DepthExact(m, code, c)
    ensures DepthExact(m, code, Step(m, c))
  {
    hide Whole, Execute, Backtrack;
    match c
    case Run(pc, s, stk, ks, calls) =>
      var k: nat :| IndexAt(code, k, pc, |stk|);
      InstructionOk(m, code, k, pc, |stk|);
      if InBounds(m.e, s) {
        ExecuteDepth(m, code, k, pc, s, stk, ks, calls);
      }
    case Fail(ks) =>
      if ks != [] {
        BacktrackDepth(m, code, ks);
      }
    case Succeed(_, _) =>
    case _ =>
  }

  lemma {:induction false} RunsDepth(m: Machine, code: seq<Instr>, c: Config, n: nat)
    requires Whole(m, code) && DepthExact(m, code, c)
    ensures DepthExact(m, code, Steps(m, c, n))
    decreases n
  {
    hide Whole, DepthExact, Step;
    if n > 0 {
      StepDepth(m, code, c);
      RunsDepth(m, code, Step(m, c), n - 1);
    }
  }

  /**
   At every point of every run the stack has the scanned depth, enough for the instruction, within the header's
   size.
   */
  lemma StackExact(m: Machine, f: Flags, q: Node, sticky: bool, s: State, n: nat)
    requires Valid(q) && Loaded(m, 0, Program(m.e.canon, f, q, sticky))
    ensures var code := Program(m.e.canon, f, q, sticky);
            var c := Steps(m, Run(0, s, [], [], []), n);
            c.Run? ==> && DepthAt(code, c.pc, |c.stk|)
                       && c.pc in m.prog && Need(m.prog[c.pc]) <= |c.stk| <= MaxDepth(code)
  {
    hide Loaded, Program, Block, MaxDepth;
    var code := Program(m.e.canon, f, q, sticky);
    var c0 := Run(0, s, [], [], []);
    ProgramBlock(m.e.canon, f, q, sticky);
    assert code[..0] == [];
    assert IndexAt(code, 0, 0, 0);
    RunsDepth(m, code, c0, n);
    var c := Steps(m, c0, n);
    if c.Run? {
      var k: nat :| IndexAt(code, k, c.pc, |c.stk|);
      InstructionOk(m, code, k, c.pc, |c.stk|);
      DepthBounded(code, k);
    }
  }
}
