/**
 The backtracking virtual machine as a transition system. A configuration is
 either running at a program counter, backtracking after a failure, or leaving
 a successful match; the choice points are those of the state stack. The
 recursive call made by the simple greedy loop is a frame of `calls`.
 */
module RegexpVm {
  import opened Basics
  import opened RegexpText
  import opened RegexpMatcher
  import opened RegexpBytecode

  datatype Kind = SplitPoint | LookPoint | NegLookPoint | GreedyPoint

  /** An entry of the state stack. `count` and `pc` of a greedy point name its remaining retries and its instruction. */
  datatype Choice = Choice(kind: Kind, pc: int, s: State, stk: seq<int>, count: nat)

  /** A simple greedy loop waiting for its atom: the position and repetitions so far. */
  datatype Frame = Frame(pc: int, instr: Instr, pos: int, stk: seq<int>, count: nat)

  datatype Config =
    | Run(pc: int, s: State, stk: seq<int>, ks: seq<Choice>, calls: seq<Frame>)
    | Fail(ks: seq<Choice>)
    | Succeed(caps: seq<int>, ks: seq<Choice>)
    | Done(result: Option<seq<int>>)
    | Crash

  /** The subject and the program, by the byte address of each instruction. */
  datatype Machine = Machine(e: Env, prog: map<int, Instr>)

  /** Instructions that only test or update the position and the captures. */
  predicate IsLocal(i: Instr) {
    || i.IChar? || i.IChar32? || i.IDot? || i.IAny? || i.IRange? || i.IRange32?
    || i.ILineStart? || i.ILineEnd? || i.IWordBoundary? || i.IBackRef? || i.IPrev?
    || i.ISaveStart? || i.ISaveEnd? || i.ISaveReset?
  }

  /** 16-bit intervals; a last value of 0xffff means infinity. */
  predicate InPairs16(ps: seq<int>, c: int) {
    || (c >= 0xffff && |ps| > 0 && ps[|ps| - 1] == 0xffff)
    || InPairs(ps, c)
  }

  predicate InPairs(ps: seq<int>, c: int) {
    exists i :: 0 <= i < |ps| / 2 && ps[2 * i] <= c <= ps[2 * i + 1]
  }

  /** Whether a character-reading instruction accepts `c`. */
  predicate Tests(e: Env, i: Instr, c: int) {
    match i
    case IChar(d, ic) => Canon(e, ic, c) == d
    case IChar32(d, ic) => Canon(e, ic, c) == d
    case IDot => !IsLineTerminator(c)
    case IAny => true
    case IRange(ps, ic) => InPairs16(ps, Canon(e, ic, c))
    case IRange32(ps, ic) => InPairs(ps, Canon(e, ic, c))
    case _ => false
  }

  /** The effect of a local instruction; None is a failed match. */
  function Local(e: Env, i: Instr, s: State): (r: Option<State>)
    requires InBounds(e, s) && IsLocal(i) && CapturesInRange(i, |s.caps|)
    ensures r.Some? ==> InBounds(e, r.value) && |r.value.caps| == |s.caps|
    ensures r.Some? && Wf(e, s) ==> Wf(e, r.value)
  {
    match i
    case ILineStart(multi) => if AtLineStart(e, multi, s.pos) then Some(s) else None
    case ILineEnd(multi) => if AtLineEnd(e, multi, s.pos) then Some(s) else None
    case IWordBoundary(negated, ic) =>
      if (WordBefore(e, ic, s.pos) != WordAfter(e, ic, s.pos)) != negated then Some(s) else None
    case IBackRef(k, back, ic) => MatchRef(e, ic, back, k, s)
    case IPrev => if s.pos == 0 then None else Some(s.(pos := Prev(e.text, s.pos, 0)))
    case ISaveStart(k) => Some(SetCap(s, 2 * k))
    case ISaveEnd(k) => Some(SetCap(s, 2 * k + 1))
    case ISaveReset(lo, hi) => Some(s.(caps := ResetCaps(s.caps, lo, hi + 1)))
    case _ => LocalChar(e, i, s)
  }

  /** Reads a character; None when it is not accepted. */
  function LocalChar(e: Env, i: Instr, s: State): (r: Option<State>)
    requires InBounds(e, s)
    ensures r.Some? ==> InBounds(e, r.value) && |r.value.caps| == |s.caps|
    ensures r.Some? && Wf(e, s) ==> Wf(e, r.value)
  {
    var len := |e.text.units|;
    if s.pos < len && Tests(e, i, CharAt(e.text, s.pos, len)) then Some(s.(pos := Next(e.text, s.pos, len))) else None
  }

  /** The assertions of the save instructions, on an array of `n` captures. */
  predicate CapturesInRange(i: Instr, n: nat) {
    match i
    case ISaveStart(k) => 0 <= k && 2 * k + 1 < n
    case ISaveEnd(k) => 0 <= k && 2 * k + 1 < n
    case ISaveReset(lo, hi) => 0 <= lo && 0 <= hi && 2 * hi + 1 < n
    case IBackRef(k, _, _) => 0 <= k
    case _ => true
  }

  /** The failure of a match: backtrack, or return 0 from the atom of a simple greedy loop. */
  function NoMatch(s: State, ks: seq<Choice>, calls: seq<Frame>): Config
    decreases |calls|, 0
  {
    if calls == [] then Fail(ks)
    else
      var n := |calls| - 1;
      LeaveLoop(State(calls[n].pos, s.caps), ks, calls[..n], calls[n])
  }

  /** The end of the repetitions of a simple greedy loop at `s`. */
  function LeaveLoop(s: State, ks: seq<Choice>, calls: seq<Frame>, f: Frame): Config
    decreases |calls|, 1
  {
    if !f.instr.ISimpleGreedyQuant? then Crash
    else if f.count < f.instr.min then NoMatch(s, ks, calls)
    else
      var ks' := if f.count > f.instr.min
                 then ks + [Choice(GreedyPoint, f.pc, s, f.stk, f.count - f.instr.min)] else ks;
      Run(f.pc + Size(f.instr) + f.instr.off, s, f.stk, ks', calls)
  }

  /** `match` inside the atom of a simple greedy loop: one more repetition. */
  function AtomDone(s: State, ks: seq<Choice>, calls: seq<Frame>): Config
    requires calls != []
  {
    var n := |calls| - 1;
    var f := calls[n].(pos := s.pos, count := calls[n].count + 1);
    if !f.instr.ISimpleGreedyQuant? then Crash
    else if f.count >= f.instr.max && f.instr.max != INT32_MAX then LeaveLoop(s, ks, calls[..n], f)
    else Run(f.pc + Size(f.instr), s, f.stk, ks, calls[..n] + [f])
  }

  /** Resumes the topmost choice point after a failure. */
  function Backtrack(m: Machine, ks: seq<Choice>): Config
    requires ks != []
  {
    var n := |ks| - 1;
    var k := ks[n];
    match k.kind
    case SplitPoint => Run(k.pc, k.s, k.stk, ks[..n], [])
    case LookPoint => Fail(ks[..n])
    case NegLookPoint => Run(k.pc, k.s, k.stk, ks[..n], [])
    case GreedyPoint =>
      if k.pc !in m.prog || !m.prog[k.pc].ISimpleGreedyQuant? || k.count == 0 || m.prog[k.pc].count < 0
         || !(0 <= k.s.pos <= |m.e.text.units|) then Crash
      else
        var i := m.prog[k.pc];
        var p := RegexpText.Backward(m.e.text, k.s.pos, i.count);
        if p.None? then Crash
        else
          var s := k.s.(pos := p.value);
          Run(k.pc + Size(i) + i.off, s, k.stk,
              if k.count == 1 then ks[..n] else ks[..n] + [k.(s := s, count := k.count - 1)], [])
  }

  /** Unwinds the state stack after a `match`, up to the enclosing lookahead. */
  function Unwind(caps: seq<int>, ks: seq<Choice>): Config
    requires ks != []
  {
    var n := |ks| - 1;
    var k := ks[n];
    match k.kind
    case LookPoint => Run(k.pc, State(k.s.pos, caps), k.stk, ks[..n], [])
    case NegLookPoint => Fail(ks[..n])
    case _ => Succeed(caps, ks[..n])
  }

  /** Executes the instruction `i` found at `pc`. */
  function Execute(m: Machine, i: Instr, pc: int, s: State, stk: seq<int>, ks: seq<Choice>, calls: seq<Frame>): Config
    requires InBounds(m.e, s)
  {
    var next := pc + Size(i);
    var top := |stk| - 1;
    match i
    case IGoto(off) => Run(next + off, s, stk, ks, calls)
    case ISplitGotoFirst(off) => Run(next + off, s, stk, ks + [Choice(SplitPoint, next, s, stk, 0)], calls)
    case ISplitNextFirst(off) => Run(next, s, stk, ks + [Choice(SplitPoint, next + off, s, stk, 0)], calls)
    case IMatch => if calls == [] then Succeed(s.caps, ks) else AtomDone(s, ks, calls)
    case ILoop(off) =>
      if stk == [] then Crash
      else
        var stk' := stk[top := stk[top] - 1];
        Run(if stk'[top] != 0 then next + off else next, s, stk', ks, calls)
    case IPushI32(v) => Run(next, s, stk + [v], ks, calls)
    case IDrop => if stk == [] then Crash else Run(next, s, stk[..top], ks, calls)
    case ILookahead(negative, off) =>
      Run(next, s, stk, ks + [Choice(if negative then NegLookPoint else LookPoint, next + off, s, stk, 0)], calls)
    case IPushCharPos => Run(next, s, stk + [s.pos], ks, calls)
    case ICheckAdvance =>
      if stk == [] then Crash
      else if stk[top] == s.pos then NoMatch(s, ks, calls)
      else Run(next, s, stk[..top], ks, calls)
    case ISimpleGreedyQuant(_, _, _, _) => Run(next, s, stk, ks, calls + [Frame(pc, i, s.pos, stk, 0)])
    case _ =>
      if !CapturesInRange(i, |s.caps|) then Crash
      else match Local(m.e, i, s)
        case None => NoMatch(s, ks, calls)
        case Some(s') => Run(next, s', stk, ks, calls)
  }

  /** One transition. */
  function Step(m: Machine, c: Config): Config {
    match c
    case Run(pc, s, stk, ks, calls) =>
      if pc !in m.prog || !InBounds(m.e, s) then Crash else Execute(m, m.prog[pc], pc, s, stk, ks, calls)
    case Fail(ks) => if ks == [] then Done(None) else Backtrack(m, ks)
    case Succeed(caps, ks) => if ks == [] then Done(Some(caps)) else Unwind(caps, ks)
    case _ => c
  }

  function Steps(m: Machine, c: Config, n: nat): Config
    decreases n
  {
    if n == 0 then c else Steps(m, Step(m, c), n - 1)
  }

  ghost predicate Reaches(m: Machine, c: Config, d: Config) {
    exists n: nat :: Steps(m, c, n) == d
  }
}
