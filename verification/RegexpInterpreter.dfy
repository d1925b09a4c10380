/**
 The interpreter of compiled patterns as the loop it is: a program counter, a
 character cursor, the capture array, the counter stack and the state stack,
 updated in place. Every step follows the transition system of `RegexpVm`, so
 the interpreter stops, and with the result of the reference matcher.
 */
module RegexpInterpreter {
  import opened Basics
  import opened CharSet
  import opened RegexpText
  import opened RegexpSyntax
  import opened RegexpMatcher
  import opened RegexpLaws
  import opened RegexpBytecode
  import opened RegexpCodegen
  import opened RegexpVm
  import opened RegexpSimulation
  import opened RegexpLeaves
  import opened RegexpExec
  import opened RegexpBuffer
  import opened RegexpCompiler
  import opened RegexpStack
  import opened RegexpConformance
  import opened RegexpLoader

  // ----- runs that end -----

  ghost predicate Ends(m: Machine, c: Config, n: nat, r: Option<seq<int>>) {
    Steps(m, c, n) == Done(r)
  }

  lemma EndsStep(m: Machine, c: Config, n: nat, r: Option<seq<int>>)
    requires Ends(m, c, n, r) && !c.Done?
    ensures !c.Crash? && n > 0 && Ends(m, Step(m, c), n - 1, r)
  {
    hide Step;
    if c.Crash? {
      Absorbing(m, c, n);
    }
  }

  // ----- the loops inside single instructions -----

  /** Binary search for the interval that holds `c`. */
  method SearchPairs(ps: seq<int>, c: int) returns (found: bool)
    requires |ps| >= 2 && |ps| % 2 == 0 && Sorted(ps) && ps[0] <= c
    ensures found == InPairs(ps, c)
  {
    var idxMin: nat, idxMax: nat := 0, |ps| / 2 - 1;
    while idxMin <= idxMax
      invariant idxMin <= |ps| / 2 && idxMax < |ps| / 2
      invariant forall i :: 0 <= i < idxMin ==> ps[2 * i + 1] < c
      invariant forall i :: idxMax < i < |ps| / 2 ==> c < ps[2 * i]
      decreases idxMax - idxMin
    {
      var idx := (idxMin + idxMax) / 2;
      if c < ps[2 * idx] {
        idxMax := idx - 1;
      } else if c > ps[2 * idx + 1] {
        idxMin := idx + 1;
      } else {
        return true;
      }
    }
    assert forall i :: 0 <= i < |ps| / 2 ==> !(ps[2 * i] <= c <= ps[2 * i + 1]);
    return false;
  }

  /** The test of the 16-bit class opcodes. */
  method TestRange16(ps: seq<int>, c: int) returns (found: bool)
    requires |ps| >= 2 && |ps| % 2 == 0 && Sorted(ps) && (forall x :: x in ps ==> IsU16(x))
    ensures found == InPairs16(ps, c)
  {
    var high := ps[|ps| - 1];
    assert high in ps && ps[0] in ps;
    if c < ps[0] {
      return false;
    }
    if c >= 0xffff && high == 0xffff {
      return true;
    }
    if c > high {
      return false;
    }
    found := SearchPairs(ps, c);
  }

  /** The test of the 32-bit class opcodes. */
  method TestRange32(ps: seq<int>, c: int) returns (found: bool)
    requires |ps| >= 2 && |ps| % 2 == 0 && Sorted(ps)
    ensures found == InPairs(ps, c)
  {
    if c < ps[0] || c > ps[|ps| - 1] {
      return false;
    }
    found := SearchPairs(ps, c);
  }

  /** The forward back-reference loop. */
  method CompareForward(e: Env, icase: bool, start: int, end: int, pos: int) returns (r: Option<int>)
    requires ValidPos(e, pos) && 0 <= start && end <= |e.text.units|
    ensures r == RefForward(e, icase, start, end, pos)
    ensures forall q :: r == Some(q) <==> Lands(e.text, pos, q) && Repeats(e, icase, start, end, pos, q)
  {
    forall q
      ensures RefForward(e, icase, start, end, pos) == Some(q) <==>
              Lands(e.text, pos, q) && Repeats(e, icase, start, end, pos, q)
    {
      RefForwardIff(e, icase, start, end, pos, q);
    }
    hide Lands, Repeats;
    var p1, p, len := start, pos, |e.text.units|;
    while p1 < end
      invariant 0 <= p1 && ValidPos(e, p)
      invariant RefForward(e, icase, p1, end, p) == RefForward(e, icase, start, end, pos)
    {
      if p >= len {
        return None;
      }
      var c1, c2 := CharAt(e.text, p1, end), CharAt(e.text, p, len);
      if Canon(e, icase, c1) != Canon(e, icase, c2) {
        return None;
      }
      p1, p := Next(e.text, p1, end), Next(e.text, p, len);
    }
    return Some(p);
  }

  /** The backward back-reference loop. */
  method CompareBackward(e: Env, icase: bool, start: int, end: int, pos: int) returns (r: Option<int>)
    requires ValidPos(e, pos) && 0 <= start && end <= |e.text.units|
    ensures r == RefBackward(e, icase, start, end, pos)
    ensures forall q :: r == Some(q) <==> LandsBack(e.text, pos, q) && Repeats(e, icase, start, end, q, pos)
  {
    forall q
      ensures RefBackward(e, icase, start, end, pos) == Some(q) <==>
              LandsBack(e.text, pos, q) && Repeats(e, icase, start, end, q, pos)
    {
      RefBackwardIff(e, icase, start, end, pos, q);
    }
    hide LandsBack, Repeats;
    var p1, p := end, pos;
    while p1 > start
      invariant p1 <= |e.text.units| && ValidPos(e, p)
      invariant RefBackward(e, icase, start, p1, p) == RefBackward(e, icase, start, end, pos)
    {
      if p == 0 {
        return None;
      }
      var c1, c2 := CharBefore(e.text, p1, start), CharBefore(e.text, p, 0);
      if Canon(e, icase, c1) != Canon(e, icase, c2) {
        return None;
      }
      p1, p := Prev(e.text, p1, start), Prev(e.text, p, 0);
    }
    return Some(p);
  }

  /** Steps back over the characters of one repetition. */
  method StepBack(t: Text, pos: int, n: nat) returns (p: int)
    requires 0 <= pos <= |t.units| && Backward(t, pos, n).Some?
    ensures Some(p) == Backward(t, pos, n)
  {
    p := pos;
    for i := 0 to n
      invariant 0 <= p <= |t.units| && Backward(t, p, n - i) == Backward(t, pos, n)
    {
      p := Prev(t, p, 0);
    }
  }

  /** Clears the captures of the groups `lo` to `hi`. */
  method ResetLoop(caps: seq<int>, lo: nat, hi: nat) returns (r: seq<int>)
    requires 2 * hi + 1 < |caps|
    ensures r == ResetCaps(caps, lo, hi + 1)
  {
    r := caps;
    var v := lo;
    while v <= hi
      invariant |r| == |caps| && (lo <= hi ==> v <= hi + 1) && v >= lo
      invariant ResetCaps(r, v, hi + 1) == ResetCaps(caps, lo, hi + 1)
    {
      r := r[2 * v := NONE][2 * v + 1 := NONE];
      v := v + 1;
    }
  }

  /** What one instruction leaves to do: the next instruction, the `no_match` label or the `match` opcode. */
  datatype Outcome = Proceed | Mismatch | Matched

  class Interpreter {
    const e: Env
    const code: seq<byte>
    ghost const m: Machine
    var pc: int
    var cptr: int
    var capture: seq<int>
    var stack: seq<int>
    var states: seq<Choice>

    /** The bytes decode to the program of the transition system. */
    ghost predicate Ready() {
      && m.e == e
      && forall p :: p in m.prog ==> Fetch(code, p) == Some(m.prog[p]) && Loadable(m.prog[p])
    }

    ghost function Running(calls: seq<Frame>): Config
      reads this
    {
      Run(pc, State(cptr, capture), stack, states, calls)
    }

    /** Where the transition system stands after an outcome. */
    ghost function After(o: Outcome, calls: seq<Frame>): Config
      reads this
    {
      var s := State(cptr, capture);
      match o
      case Proceed => Running(calls)
      case Mismatch => NoMatch(s, states, calls)
      case Matched => if calls == [] then Succeed(capture, states) else AtomDone(s, states, calls)
    }

    constructor (e: Env, code: seq<byte>, captureCount: nat, start: int, ghost m: Machine)
      ensures this.e == e && this.code == code && this.m == m
      ensures Running([]) == Run(0, State(start, Unset(2 * captureCount)), [], [], [])
    {
      this.e, this.code, this.m := e, code, m;
      pc, cptr, capture, stack, states := 0, start, Unset(2 * captureCount), [], [];
    }

    /** Whether a character-reading instruction accepts `c`. */
    method TestChar(i: Instr, c: int) returns (ok: bool)
      requires Loadable(i)
      ensures ok == Tests(e, i, c)
    {
      match i
      case IRange(ps, ic) => ok := TestRange16(ps, Canon(e, ic, c));
      case IRange32(ps, ic) => ok := TestRange32(ps, Canon(e, ic, c));
      case _ => ok := Tests(e, i, c);
    }

    method ReadChar(i: Instr) returns (o: Outcome)
      requires Loadable(i) && ValidPos(e, cptr)
      modifies this`cptr
      ensures var len := |e.text.units|;
              var p := old(cptr);
              if p < len && Tests(e, i, CharAt(e.text, p, len)) then o == Proceed && cptr == Next(e.text, p, len)
                else o == Mismatch
    {
      var len := |e.text.units|;
      if cptr >= len {
        return Mismatch;
      }
      var c := CharAt(e.text, cptr, len);
      cptr := Next(e.text, cptr, len);
      var ok := TestChar(i, c);
      o := if ok then Proceed else Mismatch;
    }

    method BackReference(k: nat, back: bool, icase: bool) returns (o: Outcome)
      requires InBounds(e, State(cptr, capture))
      modifies this`cptr
      ensures match MatchRef(e, icase, back, k, old(State(cptr, capture)))
              case None => o == Mismatch
              case Some(s) => o == Proceed && s == State(cptr, capture)
    {
      if 2 * k + 1 >= |capture| {
        return Mismatch;
      }
      var start, end := capture[2 * k], capture[2 * k + 1];
      if start == NONE || end == NONE {
        return Proceed;
      }
      var p;
      if back {
        p := CompareBackward(e, icase, start, end, cptr);
      } else {
        p := CompareForward(e, icase, start, end, cptr);
      }
      if p.None? {
        return Mismatch;
      }
      cptr := p.value;
      o := Proceed;
    }

    /** The instructions that only test or update the cursor and the captures. */
    method ExecLocal(i: Instr) returns (o: Outcome)
      requires IsLocal(i) && Loadable(i) && InBounds(e, State(cptr, capture)) && CapturesInRange(i, |capture|)
      modifies this`cptr, this`capture
      ensures match Local(e, i, old(State(cptr, capture)))
              case None => o == Mismatch && capture == old(capture)
              case Some(s) => o == Proceed && s == State(cptr, capture)
    {
      hide Tests, Sorted, MatchRef, WordBefore, WordAfter, AtLineStart, AtLineEnd;
      o := Proceed;
      if i.ILineStart? {
        o := if AtLineStart(e, i.multi, cptr) then Proceed else Mismatch;
      } else if i.ILineEnd? {
        o := if AtLineEnd(e, i.multi, cptr) then Proceed else Mismatch;
      } else if i.IWordBoundary? {
        o := if (WordBefore(e, i.icase, cptr) != WordAfter(e, i.icase, cptr)) != i.negated then Proceed else Mismatch;
      } else if i.IBackRef? {
        o := BackReference(i.group, i.backward, i.icase);
      } else if i.IPrev? {
        if cptr == 0 {
          return Mismatch;
        }
        cptr := Prev(e.text, cptr, 0);
      } else if i.ISaveStart? {
        capture := capture[2 * i.group := cptr];
      } else if i.ISaveEnd? {
        capture := capture[2 * i.group + 1 := cptr];
      } else if i.ISaveReset? {
        capture := ResetLoop(capture, i.lo, i.hi);
      } else {
        o := ReadChar(i);
      }
    }

    method PushState(kind: Kind, pc1: int, count: nat)
      modifies this`states
      ensures states == old(states) + [Choice(kind, pc1, State(cptr, capture), stack, count)]
    {
      states := states + [Choice(kind, pc1, State(cptr, capture), stack, count)];
    }

    /** One instruction; `k` bounds the steps that are left. */
    method ExecInstr(ghost calls: seq<Frame>, ghost n: nat, ghost r: Option<seq<int>>)
      returns (o: Outcome, ghost k: nat)
      requires Ready() && Ends(m, Running(calls), n, r)
      modifies this
      ensures k < n && Ends(m, After(o, calls), k, r)
      decreases n, 0
    {
      hide Ends, Local, Loadable, Fetch, InBounds, NoMatch, AtomDone, Size, CapturesInRange, LeaveLoop;
      EndsStep(m, Running(calls), n, r);
      k := n - 1;
      NotCrashed(m, Step(m, Running(calls)), k, r);
      var i := Fetch(code, pc).value;
      var next := pc + Size(i);
      o := Proceed;
      match i
      case IGoto(off) => pc := next + off;
      case ISplitGotoFirst(off) =>
        PushState(SplitPoint, next, 0);
        pc := next + off;
      case ISplitNextFirst(off) =>
        PushState(SplitPoint, next + off, 0);
        pc := next;
      case IMatch => o := Matched;
      case ILoop(off) =>
        var top := |stack| - 1;
        stack := stack[top := stack[top] - 1];
        pc := if stack[top] != 0 then next + off else next;
      case IPushI32(v) =>
        stack := stack + [v];
        pc := next;
      case IDrop =>
        stack := stack[..|stack| - 1];
        pc := next;
      case ILookahead(negative, off) =>
        PushState(if negative then NegLookPoint else LookPoint, next + off, 0);
        pc := next;
      case IPushCharPos =>
        stack := stack + [cptr];
        pc := next;
      case ICheckAdvance =>
        var top := |stack| - 1;
        if stack[top] == cptr {
          o := Mismatch;
        } else {
          stack := stack[..top];
          pc := next;
        }
      case ISimpleGreedyQuant(_, _, _, _) => o, k := ExecQuant(i, calls, k, r);
      case _ =>
        o := ExecLocal(i);
        if o == Mismatch {
          NoMatchAnywhere(old(cptr), cptr, capture, states, calls);
        } else {
          pc := next;
        }
    }

    /**
     The loop of a one-instruction greedy quantifier: repeats the atom, then keeps one choice point for all
     retries.
     */
    method ExecQuant(i: Instr, ghost calls: seq<Frame>, ghost n: nat, ghost r: Option<seq<int>>)
      returns (o: Outcome, ghost k: nat)
      requires Ready() && i.ISimpleGreedyQuant?
      requires Ends(m, Run(pc + Size(i), State(cptr, capture), stack, states,
               calls + [Frame(pc, i, cptr, stack, 0)]), n, r)
      modifies this
      ensures k <= n && Ends(m, After(o, calls), k, r)
      decreases n, 2
    {
      hide Ends, NoMatch, Size, Loadable, Fetch;
      var pc0, pc1, q: nat := pc, pc + Size(i), 0;
      var stack0 := stack;
      k := n;
      while true
        invariant k <= n && stack == stack0
        invariant Ends(m, Run(pc1, State(cptr, capture), stack, states, calls + [Frame(pc0, i, cptr, stack, q)]), k, r)
        decreases k
      {
        ghost var f := Frame(pc0, i, cptr, stack, q);
        assert (calls + [f])[..|calls|] == calls;
        var pos := cptr;
        var res;
        res, k := ExecAtom(pc1, calls + [f], k, r);
        stack := stack0;
        if res.None? {
          cptr := pos;
          AtomFails(calls, f, State(pos, capture), states);
          break;
        }
        cptr := res.value;
        q := q + 1;
        AtomMatches(calls, f, State(cptr, capture), states);
        if q >= i.max && i.max != INT32_MAX {
          break;
        }
      }
      assert Ends(m, LeaveLoop(State(cptr, capture), states, calls, Frame(pc0, i, cptr, stack, q)), k, r);
      if q < i.min {
        return Mismatch, k;
      }
      if q > i.min {
        PushState(GreedyPoint, pc0, q - i.min);
      }
      pc := pc1 + i.off;
      o := Proceed;
    }

    /** The recursive call on the atom of a simple greedy quantifier: the position after it, or None. */
    method ExecAtom(pc1: int, ghost calls: seq<Frame>, ghost n: nat, ghost r: Option<seq<int>>)
      returns (res: Option<int>, ghost k: nat)
      requires Ready() && calls != [] && Ends(m, Run(pc1, State(cptr, capture), stack, states, calls), n, r)
      modifies this
      ensures k < n
      ensures match res
              case None => forall p :: Ends(m, NoMatch(State(p, capture), states, calls), k, r)
              case Some(p) => Ends(m, AtomDone(State(p, capture), states, calls), k, r)
      decreases n, 1
    {
      hide Ends, NoMatch, AtomDone, Loadable, Fetch;
      pc := pc1;
      k := n;
      while true
        invariant k <= n && Ends(m, Running(calls), k, r)
        decreases k
      {
        var o;
        o, k := ExecInstr(calls, k, r);
        if o == Matched {
          return Some(cptr), k;
        } else if o == Mismatch {
          forall p ensures NoMatch(State(p, capture), states, calls) == NoMatch(State(cptr, capture), states, calls) {
            NoMatchAnywhere(p, cptr, capture, states, calls);
          }
          return None, k;
        }
      }
    }

    /** Restores the captures of a state. */
    method PopState(k: Choice)
      requires states != []
      modifies this
      ensures pc == k.pc && cptr == k.s.pos && capture == k.s.caps && stack == k.stk
      ensures states == old(states[..|states| - 1])
    {
      pc, cptr, capture, stack := k.pc, k.s.pos, k.s.caps, k.stk;
      states := states[..|states| - 1];
    }

    /** Unwinds the state stack after a match or a failure: the result, or the next state to resume. */
    method Recurse(matched: bool, ghost n: nat, ghost r: Option<seq<int>>) returns (done: bool, ret: bool, ghost k: nat)
      requires Ready() && Ends(m, if matched then Succeed(capture, states) else Fail(states), n, r)
      modifies this
      ensures k <= n
      ensures done ==> r == if ret then Some(capture) else None
      ensures !done ==> Ends(m, Running([]), k, r)
    {
      hide Ends, Loadable, Fetch;
      ret, k := matched, n;
      while true
        invariant k <= n && Ends(m, if ret then Succeed(capture, states) else Fail(states), k, r)
        decreases k
      {
        EndsStep(m, if ret then Succeed(capture, states) else Fail(states), k, r);
        k := k - 1;
        if states == [] {
          DoneIs(m, if ret then Some(capture) else None, k, r);
          return true, ret, k;
        }
        var top := |states| - 1;
        var rs := states[top];
        if rs.kind.SplitPoint? {
          if !ret {
            PopState(rs);
            return false, ret, k;
          }
        } else if rs.kind.GreedyPoint? {
          if !ret {
            NotCrashed(m, Backtrack(m, states), k, r);
            Retry(rs, k, r);
            return false, ret, k;
          }
        } else {
          ret := if rs.kind.LookPoint? then ret else !ret;
          if ret {
            if rs.kind.LookPoint? {
              pc, cptr, stack, states := rs.pc, rs.s.pos, rs.stk, states[..top];
            } else {
              PopState(rs);
            }
            return false, ret, k;
          }
        }
        states := states[..top];
      }
    }

    /** Gives up the last repetition of a simple greedy quantifier. */
    method Retry(rs: Choice, ghost n: nat, ghost r: Option<seq<int>>)
      requires Ready() && states != [] && rs == states[|states| - 1] && rs.kind.GreedyPoint?
      requires !Backtrack(m, states).Crash?
      modifies this
      ensures Running([]) == Backtrack(m, old(states))
    {
      hide Loadable, Fetch, Size;
      var top := |states| - 1;
      var i := Fetch(code, rs.pc).value;
      capture, stack := rs.s.caps, rs.stk;
      cptr := StepBack(e.text, rs.s.pos, i.count);
      pc := rs.pc + Size(i) + i.off;
      var left := rs.(s := State(cptr, capture), count := rs.count - 1);
      states := if left.count == 0 then states[..top] else states[..top] + [left];
    }

    /** The whole run: the captures of the match, or None. */
    method Exec(ghost n: nat, ghost r: Option<seq<int>>) returns (result: Option<seq<int>>)
      requires Ready() && Ends(m, Running([]), n, r)
      modifies this
      ensures result == r
    {
      hide Ends, Loadable, Fetch, AtomDone;
      ghost var k := n;
      while true
        invariant Ends(m, Running([]), k, r)
        decreases k
      {
        var o;
        o, k := ExecInstr([], k, r);
        if o != Proceed {
          var done, ret;
          done, ret, k := Recurse(o == Matched, k, r);
          if done {
            return if ret then Some(capture) else None;
          }
        }
      }
    }
  }

  // ----- facts about the transition system -----

  lemma NotCrashed(m: Machine, c: Config, n: nat, r: Option<seq<int>>)
    requires Ends(m, c, n, r)
    ensures !c.Crash?
  {
    if c.Crash? {
      Absorbing(m, c, n);
    }
  }

  lemma DoneIs(m: Machine, x: Option<seq<int>>, n: nat, r: Option<seq<int>>)
    requires Ends(m, Done(x), n, r)
    ensures x == r
  {
    Absorbing(m, Done(x), n);
  }

  /** A failure forgets the position it happened at. */
  lemma NoMatchAnywhere(p: int, q: int, caps: seq<int>, ks: seq<Choice>, calls: seq<Frame>)
    ensures NoMatch(State(p, caps), ks, calls) == NoMatch(State(q, caps), ks, calls)
  {
  }

  lemma AtomFails(calls: seq<Frame>, f: Frame, s: State, ks: seq<Choice>)
    requires s.pos == f.pos
    ensures NoMatch(s, ks, calls + [f]) == LeaveLoop(s, ks, calls, f)
  {
    assert (calls + [f])[..|calls|] == calls;
  }

  lemma AtomMatches(calls: seq<Frame>, f: Frame, s: State, ks: seq<Choice>)
    requires f.instr.ISimpleGreedyQuant?
    ensures var f' := f.(pos := s.pos, count := f.count + 1);
            AtomDone(s, ks, calls + [f]) ==
            if f'.count >= f.instr.max && f.instr.max != INT32_MAX then LeaveLoop(s, ks, calls, f')
            else Run(f.pc + Size(f.instr), s, f.stk, ks, calls + [f'])
  {
    hide LeaveLoop, Size;
    assert (calls + [f])[..|calls|] == calls;
  }

  // ----- the entry point -----

  lemma ProgramReady(e: Env, q: Search, p: int)
    requires WfEnv(e) && Valid(q.n) && 1 + Groups(q.n) <= CAPTURE_COUNT_MAX
    requires |Bytes(Program(e.canon, q.f, q.n, q.sticky))| <= BYTECODE_MAX
    requires p in Layout(0, Program(e.canon, q.f, q.n, q.sticky))
    ensures var code := Program(e.canon, q.f, q.n, q.sticky);
            Fetch(Bytes(code), p) == Some(Layout(0, code)[p]) && Loadable(Layout(0, code)[p])
  {
    hide Program, Bytes, Layout, Loadable, Fetch, Len;
    var code := Program(e.canon, q.f, q.n, q.sticky);
    ProgramEncodable(e.canon, q.f, q.n, q.sticky);
    assert [] + Bytes(code) == Bytes(code);
    LayoutFetch([], code, p);
  }

  /** Running the bytes of a compiled pattern finds the first of all matches, leftmost position first. */
  method LreExec(re: Compiled, e: Env, index: nat, ghost q: Search) returns (result: Option<seq<int>>)
    requires WfEnv(e) && index <= |e.text.units|
    requires Valid(q.n) && re.captureCount == 1 + Groups(q.n) <= CAPTURE_COUNT_MAX
    requires re.code == Bytes(Program(e.canon, q.f, q.n, q.sticky)) && |re.code| <= BYTECODE_MAX
    ensures var s := State(StartPos(e.text, index), Unset(2 * re.captureCount));
            var rs := AllMatches(e, q, s);
            result == if rs == [] then None else Some(rs[0].caps)
  {
    hide Program, Bytes, Layout, Loadable, Fetch, Len, AllMatches, Loaded, Steps, Step;
    ghost var prog := Program(e.canon, q.f, q.n, q.sticky);
    ghost var m := Machine(e, Layout(0, prog));
    LayoutLoaded(m, 0, prog);
    var start := StartPos(e.text, index);
    ghost var s := State(start, Unset(2 * re.captureCount));
    ExecCorrect(m, q, s);
    ghost var rs := AllMatches(e, q, s);
    ghost var r: Option<seq<int>> := if rs == [] then None else Some(rs[0].caps);
    ghost var n: nat :| Steps(m, Run(0, s, [], [], []), n) == Done(r);
    var vm := new Interpreter(e, re.code, re.captureCount, start, m);
    assert vm.Ready() by {
      forall p | p in m.prog ensures Fetch(re.code, p) == Some(m.prog[p]) && Loadable(m.prog[p]) {
        ProgramReady(e, q, p);
      }
    }
    result := vm.Exec(n, r);
  }

  /**
   Compiling a pattern and running its bytes: no result if it cannot be compiled, else the captures of the first of all
   matches, leftmost position first, or none. By the standard the match is at the same place, with the same captures
   except for the groups that may be stale.
   */
  method CompileAndExec(e: Env, q: Search, index: nat) returns (r: Option<Option<seq<int>>>)
    requires WfEnv(e) && Valid(q.n) && index <= |e.text.units|
    ensures r.None? <==> !Compilable(e.canon, q.f, q.n, q.sticky)
    ensures var s := State(StartPos(e.text, index), Unset(2 * (1 + Groups(q.n))));
            r.Some? ==>
              && r.value == FirstCaps(AllMatches(e, q, s))
              && (StaleGroups(q).Some? ==>
                SameResult(StaleGroups(q).value, r.value, FirstCaps(EcmaAllMatches(e, q, s))))
              && (StaleGroups(q) == Some({}) ==> r.value == FirstCaps(EcmaAllMatches(e, q, s)))
  {
    hide Program, Bytes, AllMatches, EcmaAllMatches, MaxDepth, Valid, Groups, Wf, StaleGroups, SameResult;
    var re := LreCompile(e.canon, q.f, q.n, q.sticky);
    if re.None? {
      return None;
    }
    var result := LreExec(re.value, e, index, q);
    r := Some(result);
    if StaleGroups(q).Some? {
      StartFresh(e, q.n, StartPos(e.text, index));
      ResultAgrees(e, q, State(StartPos(e.text, index), Unset(2 * (1 + Groups(q.n)))));
    }
  }
}
