/**
 The one-instruction greedy loop: run the atom as often as possible, then give
 back one repetition at a time, stepping back over its characters, down to the
 minimum. It produces the same states in the same order as the general loop.
 */
module RegexpGreedy {
  import opened Basics
  import opened RegexpText
  import opened RegexpSyntax
  import opened RegexpMatcher
  import opened RegexpBytecode
  import opened RegexpCodegen
  import opened RegexpVm
  import opened RegexpSimulation
  import opened RegexpLeaves
  import opened RegexpAdvance

  // ----- simple atoms -----

  lemma SimpleIsLocal(code: seq<Instr>, n: nat)
    requires AllSimple(code)
    ensures LocalCode(code, n) && AllPredictable(code)
  {
  }

  /** A simple block keeps the captures and reads `CountChars` characters. */
  lemma {:induction false} SimpleReads(e: Env, code: seq<Instr>, s: State)
    requires Wf(e, s) && AllSimple(code) && LocalCode(code, |s.caps|)
    ensures ExecLine(e, code, s).Some? ==>
              && Wf(e, ExecLine(e, code, s).value) && ExecLine(e, code, s).value.caps == s.caps
              && Forward(e.text, s.pos, CountChars(code)) == Some(ExecLine(e, code, s).value.pos)
    decreases |code|
  {
    if code != [] {
      assert code[0] in code;
      var r := Local(e, code[0], s);
      if r.Some? {
        assert AllSimple(code[1..]);
        SimpleReads(e, code[1..], r.value);
      }
    }
  }

  lemma {:induction false} ExecAppend(e: Env, a: seq<Instr>, b: seq<Instr>, s: State)
    requires InBounds(e, s) && LocalCode(a, |s.caps|) && LocalCode(b, |s.caps|) && LocalCode(a + b, |s.caps|)
    ensures ExecLine(e, a + b, s) == (match ExecLine(e, a, s) case None => None case Some(r) => ExecLine(e, b, r))
    decreases |a|
  {
    if a == [] {
      assert a + b == b;
    } else {
      assert (a + b)[1..] == a[1..] + b;
      var r := Local(e, a[0], s);
      if r.Some? {
        ExecAppend(e, a[1..], b, r.value);
      }
    }
  }

  /** A pattern whose code is simple has at most one match: the run of its code. */
  lemma {:induction false} SimpleMatch(e: Env, f: Flags, n: Node, g: nat, back: bool, s: State)
    requires WfEnv(e) && Wf(e, s) && Valid(n) && 2 * (g + Groups(n)) <= |s.caps|
    requires AllSimple(Code(e.canon, f, n, g, back)) && LocalCode(Code(e.canon, f, n, g, back), |s.caps|)
    ensures Match(e, f, n, g, back, s) == ToSeq(ExecLine(e, Code(e.canon, f, n, g, back), s))
    decreases n, 1
  {
    hide Match, Code, AllSimple, LocalCode, ExecLine, Groups;
    if n.Cat? {
      SimpleCat(e, f, n, g, back, s);
    } else if n.Modify? {
      SimpleModify(e, f, n, g, back, s);
    } else if n.Repeat? {
      SimpleRepeat(e, f, n, g, back, s);
    } else if n.Or? || n.Group? || n.Look? || n.BackRef? {
      NeverSimple(e.canon, f, n, g, back);
    } else {
      SimpleLeaf(e, f, n, g, back, s);
    }
  }

  lemma NeverSimple(canon: int -> int, f: Flags, n: Node, g: nat, back: bool)
    requires Valid(n) && (n.Or? || n.Group? || n.Look? || n.BackRef?)
    ensures !AllSimple(Code(canon, f, n, g, back))
  {
    hide Len, QuantCode, OneChar, EmitRange;
    NotSimple(Code(canon, f, n, g, back), 0);
  }

  lemma SimpleLeaf(e: Env, f: Flags, n: Node, g: nat, back: bool, s: State)
    requires n.Empty? || IsOneChar(n) || n.LineStart? || n.LineEnd? || n.WordBoundary?
    requires WfEnv(e) && Wf(e, s) && Valid(n) && 2 * (g + Groups(n)) <= |s.caps|
    requires LocalCode(Code(e.canon, f, n, g, back), |s.caps|)
    ensures Match(e, f, n, g, back, s) == ToSeq(ExecLine(e, Code(e.canon, f, n, g, back), s))
  {
    hide QuantCode, MatchAll, Iterate, Len, EmitRange, MatchChar;
    var code := Code(e.canon, f, n, g, back);
    if IsOneChar(n) {
      OneCharExec(e, f, n, back, s);
    } else if !n.Empty? {
      assert code[1..] == [];
    }
  }

  lemma {:induction false} SimpleModify(e: Env, f: Flags, n: Node, g: nat, back: bool, s: State)
    requires n.Modify?
    requires WfEnv(e) && Wf(e, s) && Valid(n) && 2 * (g + Groups(n)) <= |s.caps|
    requires AllSimple(Code(e.canon, f, n, g, back)) && LocalCode(Code(e.canon, f, n, g, back), |s.caps|)
    ensures Match(e, f, n, g, back, s) == ToSeq(ExecLine(e, Code(e.canon, f, n, g, back), s))
    decreases n, 0
  {
    hide QuantCode, MatchAll, Iterate, Len, EmitRange, OneChar, AllSimple, LocalCode, ExecLine, MatchLeaf;
    SimpleMatch(e, Update(f, n.add, n.remove), n.scope, g, back, s);
  }

  lemma NotSimple(code: seq<Instr>, k: nat)
    requires k < |code| && !ReadsChar(code[k]) && !IsAssertion(code[k])
    ensures !AllSimple(code)
  {
    assert code[k] in code;
  }

  lemma {:induction false} SimpleCat(e: Env, f: Flags, n: Node, g: nat, back: bool, s: State)
    requires n.Cat?
    requires WfEnv(e) && Wf(e, s) && Valid(n) && 2 * (g + Groups(n)) <= |s.caps|
    requires AllSimple(Code(e.canon, f, n, g, back)) && LocalCode(Code(e.canon, f, n, g, back), |s.caps|)
    ensures Match(e, f, n, g, back, s) == ToSeq(ExecLine(e, Code(e.canon, f, n, g, back), s))
    decreases n, 0
  {
    var x, y, gx, gy := Lead(n, back), Trail(n, back), LeadGroup(n, g, back), TrailGroup(n, g, back);
    var cx, cy := Code(e.canon, f, x, gx, back), Code(e.canon, f, y, gy, back);
    assert forall i :: i in cx ==> i in cx + cy;
    assert forall i :: i in cy ==> i in cx + cy;
    SimpleIsLocal(cx, |s.caps|);
    SimpleIsLocal(cy, |s.caps|);
    ExecAppend(e, cx, cy, s);
    SimpleMatch(e, f, x, gx, back, s);
    SimpleReads(e, cx, s);
    var r := ExecLine(e, cx, s);
    if r.Some? {
      SimpleMatch(e, f, y, gy, back, r.value);
      assert Match(e, f, x, gx, back, s)[0] == r.value;
      MatchAllOne(e, f, y, gy, back, s, r.value);
    }
  }

  lemma MatchAllOne(e: Env, f: Flags, n: Node, g: nat, back: bool, s: State, r: State)
    requires Wf(e, s) && 2 * (g + Groups(n)) <= |s.caps| && Good(e, back, s, r)
    ensures MatchAll(e, f, n, g, back, s, [r]) == Match(e, f, n, g, back, r)
  {
    assert [r][1..] == [];
  }

  lemma {:induction false} SimpleRepeat(e: Env, f: Flags, n: Node, g: nat, back: bool, s: State)
    requires n.Repeat?
    requires WfEnv(e) && Wf(e, s) && Valid(n) && 2 * (g + Groups(n)) <= |s.caps|
    requires AllSimple(Code(e.canon, f, n, g, back)) && LocalCode(Code(e.canon, f, n, g, back), |s.caps|)
    ensures Match(e, f, n, g, back, s) == ToSeq(ExecLine(e, Code(e.canon, f, n, g, back), s))
    decreases n, 0
  {
    var a := n.body;
    var ca := Code(e.canon, f, a, g, back);
    SimpleIsLocal(Code(e.canon, f, n, g, back), |s.caps|);
    QuantPredictable(ca, g, Groups(a), n.min, n.max, n.greedy);
    if n.max == 0 {
      if Groups(a) > 0 {
        NotSimple(Reset(g, Groups(a)), 0);
      } else {
        assert ResetCaps(s.caps, g, g) == s.caps;
      }
    } else {
      OnceIsMatch(e, f, a, g, back, n.greedy, s);
      SimpleMatch(e, f, a, g, back, s);
    }
  }

  // ----- the repetitions of a simple atom -----

  /** A simple atom that reads at least one character. */
  ghost predicate SimpleAtom(code: seq<Instr>) {
    AllSimple(code) && CountChars(code) > 0
  }

  ghost function Once(e: Env, code: seq<Instr>, s: State): (r: Option<State>)
    requires SimpleAtom(code) && Wf(e, s)
    ensures r.Some? ==> Wf(e, r.value) && r.value.caps == s.caps && r.value.pos > s.pos
    ensures r.Some? ==> Backward(e.text, r.value.pos, CountChars(code)) == Some(s.pos)
  {
    SimpleIsLocal(code, |s.caps|);
    SimpleReads(e, code, s);
    ForwardThenBackward(e.text, s.pos, CountChars(code));
    ForwardMoves(e.text, s.pos, CountChars(code));
    ExecLine(e, code, s)
  }

  lemma ForwardMoves(t: Text, p: int, n: nat)
    requires 0 <= p <= |t.units|
    ensures Forward(t, p, n).Some? && n > 0 ==> p < Forward(t, p, n).value
  {
  }

  /** The state and the count when the repetitions stop, from `s` after `q` of them. */
  ghost function Runs(e: Env, code: seq<Instr>, max: nat, q: nat, s: State): (r: (State, nat))
    requires SimpleAtom(code) && Wf(e, s)
    ensures Wf(e, r.0) && r.0.caps == s.caps && r.1 >= q
    decreases |e.text.units| - s.pos
  {
    match Once(e, code, s)
    case None => (s, q)
    case Some(s') => if q + 1 >= max && max != INT32_MAX then (s', q + 1) else Runs(e, code, max, q + 1, s')
  }

  /** `k` repetitions given back from `s`; None when there is no room. */
  ghost function GiveBack(e: Env, n: nat, s: State, k: nat): (r: Option<State>)
    requires Wf(e, s)
    ensures r.Some? ==> Wf(e, r.value) && r.value.caps == s.caps
    decreases k
  {
    if k == 0 then Some(s)
    else match Backward(e.text, s.pos, n)
      case None => None
      case Some(p) =>
        BackwardSnoc(e.text, s.pos, n);
        GiveBack(e, n, s.(pos := p), k - 1)
  }

  lemma {:induction false} GiveBackSnoc(e: Env, n: nat, s: State, k: nat)
    requires Wf(e, s)
    ensures GiveBack(e, n, s,
            k + 1) == (match GiveBack(e, n, s, k) case None => None case Some(r) => GiveBack(e, n, r, 1))
    decreases k
  {
    if k > 0 {
      match Backward(e.text, s.pos, n)
      case None =>
      case Some(p) =>
        BackwardSnoc(e.text, s.pos, n);
        GiveBackSnoc(e, n, s.(pos := p), k - 1);
    }
  }

  /** The states from `s` down to `k` repetitions fewer. */
  ghost function Down(e: Env, n: nat, s: State, k: nat): (rs: seq<State>)
    requires Wf(e, s)
    requires GiveBack(e, n, s, k).Some?
    ensures |rs| == k + 1
    decreases k
  {
    if k == 0 then [s]
    else
      BackwardSnoc(e.text, s.pos, n);
      [s] + Down(e, n, s.(pos := Backward(e.text, s.pos, n).value), k - 1)
  }

  lemma {:induction false} DownSnoc(e: Env, n: nat, s: State, k: nat)
    requires Wf(e, s) && GiveBack(e, n, s, k + 1).Some?
    ensures GiveBack(e, n, s, k).Some?
    ensures Down(e, n, s, k + 1) == Down(e, n, s, k) + [GiveBack(e, n, s, k + 1).value]
    decreases k
  {
    BackwardSnoc(e.text, s.pos, n);
    var s' := s.(pos := Backward(e.text, s.pos, n).value);
    if k == 0 {
      assert Down(e, n, s, 1) == [s] + Down(e, n, s', 0);
    } else {
      DownSnoc(e, n, s', k - 1);
    }
  }

  /** Giving back all the repetitions made since `s` returns to `s`. */
  lemma {:induction false} RunsReturn(e: Env, code: seq<Instr>, max: nat, q: nat, s: State)
    requires SimpleAtom(code) && Wf(e, s)
    ensures var r := Runs(e, code, max, q, s);
            GiveBack(e, CountChars(code), r.0, r.1 - q) == Some(s)
    decreases |e.text.units| - s.pos
  {
    var n := CountChars(code);
    var r := Runs(e, code, max, q, s);
    match Once(e, code, s)
    case None =>
    case Some(s') =>
      assert GiveBack(e, n, s', 1) == GiveBack(e, n, s'.(pos := s.pos), 0) == Some(s);
      if !(q + 1 >= max && max != INT32_MAX) {
        RunsReturn(e, code, max, q + 1, s');
        GiveBackSnoc(e, n, r.0, r.1 - q - 1);
      }
  }

  /** `k` repetitions given back are possible whenever more are. */
  lemma {:induction false} GiveBackFewer(e: Env, n: nat, s: State, k: nat, j: nat)
    requires Wf(e, s) && GiveBack(e, n, s, k).Some? && j <= k
    ensures GiveBack(e, n, s, j).Some?
    decreases j
  {
    if j > 0 {
      BackwardSnoc(e.text, s.pos, n);
      GiveBackFewer(e, n, s.(pos := Backward(e.text, s.pos, n).value), k - 1, j - 1);
    }
  }

  /** The tail of the greedy choice: everything from the last state down to the minimum. */
  ghost function Retries(e: Env, code: seq<Instr>, min: nat, max: nat, q: nat, s: State): seq<State>
    requires SimpleAtom(code) && Wf(e, s)
  {
    var r := Runs(e, code, max, q, s);
    var n := CountChars(code);
    if r.1 < min then []
    else
      var k := if q >= min then r.1 - q else r.1 - min;
      RunsReturn(e, code, max, q, s);
      GiveBackFewer(e, n, r.0, r.1 - q, k);
      Down(e, n, r.0, k)
  }

  function Left(count: nat, q: nat): nat {
    if count == INFINITY then INFINITY else if q <= count then count - q else 0
  }

  function Still(min: nat, q: nat): nat {
    if q < min then min - q else 0
  }

  lemma SimpleOnce(e: Env, f: Flags, a: Node, g: nat, code: seq<Instr>, s: State)
    requires WfEnv(e) && Valid(a) && code == Code(e.canon, f, a, g, false) && SimpleAtom(code)
    requires Wf(e, s) && 2 * (g + Groups(a)) <= |s.caps|
    ensures Match(e, f, a, g, false, s) == ToSeq(Once(e, code, s))
  {
    SimpleIsLocal(code, |s.caps|);
    SimpleMatch(e, f, a, g, false, s);
  }

  /** The reference iterations of a simple atom, after `q` of them, are those retries. */
  lemma {:induction false} IterateIsRetries(e: Env, f: Flags, a: Node, g: nat, code: seq<Instr>, min: nat, max: nat,
                                            q: nat, s: State)
    requires WfEnv(e) && Valid(a) && code == Code(e.canon, f, a, g, false) && SimpleAtom(code)
    requires Wf(e, s) && 2 * (g + Groups(a)) <= |s.caps|
    requires min <= max <= INFINITY && (max == INFINITY || q < max)
    ensures Iterate(e, f, a, g, false, Still(min, q), Left(max, q), true, s) == Retries(e, code, min, max, q, s)
    decreases |e.text.units| - s.pos
  {
    hide Match, Iterate, Retries, Runs, Once, Code, Valid, Groups;
    SimpleOnce(e, f, a, g, code, s);
    match Once(e, code, s)
    case None =>
      NoRetry(e, code, min, max, q, s);
      IterateNone(e, f, a, g, min, max, q, s);
    case Some(s') =>
      IterateOne(e, f, a, g, min, max, q, s, s');
      if q + 1 >= max && max != INFINITY {
        LastRetry(e, code, min, max, q, s, s');
        IterateDone(e, f, a, g, s');
      } else {
        IterateIsRetries(e, f, a, g, code, min, max, q + 1, s');
        RetriesStep(e, code, min, max, q, s, s');
      }
  }

  lemma IterateDone(e: Env, f: Flags, a: Node, g: nat, s: State)
    requires Wf(e, s) && 2 * (g + Groups(a)) <= |s.caps|
    ensures Iterate(e, f, a, g, false, 0, 0, true, s) == [s]
  {
  }

  lemma NoRetry(e: Env, code: seq<Instr>, min: nat, max: nat, q: nat, s: State)
    requires SimpleAtom(code) && Wf(e, s) && Once(e, code, s).None?
    ensures Retries(e, code, min, max, q, s) == if q < min then [] else [s]
  {
    RunsReturn(e, code, max, q, s);
  }

  lemma RetriesStep(e: Env, code: seq<Instr>, min: nat, max: nat, q: nat, s: State, s': State)
    requires SimpleAtom(code) && Wf(e, s)
    requires Once(e, code, s) == Some(s') && (q + 1 < max || max == INFINITY)
    ensures Retries(e, code, min, max, q, s)
         == Retries(e, code, min, max, q + 1, s') + (if q < min then [] else [s])
  {
    var n := CountChars(code);
    var r := Runs(e, code, max, q, s);
    assert r == Runs(e, code, max, q + 1, s');
    if q >= min {
      RunsReturn(e, code, max, q, s);
      DownSnoc(e, n, r.0, r.1 - q - 1);
    }
  }

  lemma IterateNone(e: Env, f: Flags, a: Node, g: nat, min: nat, max: nat, q: nat, s: State)
    requires Wf(e, s) && 2 * (g + Groups(a)) <= |s.caps|
    requires Match(e, f, a, g, false, s) == []
    requires min <= max <= INFINITY && (max == INFINITY || q < max)
    ensures Iterate(e, f, a, g, false, Still(min, q), Left(max, q), true, s) == if q < min then [] else [s]
  {
    assert Moved([], s.pos) == [];
  }

  /** One iteration of an atom with the single match `s'`. */
  lemma IterateOne(e: Env, f: Flags, a: Node, g: nat, min: nat, max: nat, q: nat, s: State, s': State)
    requires Wf(e, s) && Wf(e, s') && 2 * (g + Groups(a)) <= |s.caps| && s'.caps == s.caps && s'.pos > s.pos
    requires Match(e, f, a, g, false, s) == [s']
    requires min <= max <= INFINITY && (max == INFINITY || q < max)
    ensures Iterate(e, f, a, g, false, Still(min, q), Left(max, q), true, s)
         == Iterate(e, f, a, g, false, Still(min, q + 1), Left(max, q + 1), true, s') + (if q < min then [] else [s])
  {
    hide Match, MatchAll, Groups, Valid, Boundary;
    var ms := [s'];
    assert ms[1..] == [] && Moved(ms, s.pos) == [s'];
    assert Less(Left(max, q)) == Left(max, q + 1);
    var k := Still(min, q + 1);
    assert IterateAll(e, f, a, g, false, k, Left(max, q + 1), true, Room(e, false, s) + (if q < min then 1 else 0),
           s, ms)
        == Iterate(e, f, a, g, false, k, Left(max, q + 1), true, s') + [];
  }

  lemma LastRetry(e: Env, code: seq<Instr>, min: nat, max: nat, q: nat, s: State, s': State)
    requires SimpleAtom(code) && Wf(e, s)
    requires Once(e, code, s) == Some(s') && min <= max == q + 1 && max != INFINITY
    ensures Retries(e, code, min, max, q, s) == if q < min then [s'] else [s', s]
  {
    var n := CountChars(code);
    if q >= min {
      RunsReturn(e, code, max, q, s);
      DownSnoc(e, n, s', 0);
    }
  }

  // ----- the machine -----

  /** The atom of a simple loop, run by a recursive call. */
  lemma {:induction false} AtomRuns(m: Machine, pc: int, code: seq<Instr>, s: State, stk: seq<int>, ks: seq<Choice>,
                                    fr: Frame)
    requires Wf(m.e, s) && AllSimple(code) && LocalCode(code, |s.caps|) && Loaded(m, pc, code)
    ensures Reaches(m, Run(pc, s, stk, ks, [fr]),
                    match ExecLine(m.e, code, s)
                    case None => LeaveLoop(State(fr.pos, s.caps), ks, [], fr)
                    case Some(r) => Run(pc + Len(code), r, stk, ks, [fr]))
    decreases |code|
  {
    var c := Run(pc, s, stk, ks, [fr]);
    ReachesStep(m, c);
    if code != [] {
      assert code[0] in code;
      match Local(m.e, code[0], s)
      case None =>
        assert [fr][..0] == [];
        assert Step(m, c) == NoMatch(s, ks, [fr]);
      case Some(s') =>
        assert Step(m, c) == Run(pc + Size(code[0]), s', stk, ks, [fr]);
        assert AllSimple(code[1..]);
        AtomRuns(m, pc + Size(code[0]), code[1..], s', stk, ks, fr);
        SimpleReads(m.e, [code[0]], s);
        assert ExecLine(m.e, [code[0]], s) == ExecLine(m.e, [], s');
        StepThenReaches(m, c, match ExecLine(m.e, code[1..], s')
                              case None => LeaveLoop(State(fr.pos, s.caps), ks, [], fr)
                              case Some(r) => Run(pc + Len(code), r, stk, ks, [fr]));
    }
  }

  /** A simple loop over the block `code` at `pc`. */
  ghost predicate SimpleLoopAt(m: Machine, code: seq<Instr>, pc: int, i: Instr) {
    && SimpleAtom(code)
    && i.ISimpleGreedyQuant? && i.off == Len(code) + 1 && i.count == CountChars(code)
    && Loaded(m, pc, [i] + code + [IMatch])
  }

  /** The repetitions stop where the reference says. */
  lemma {:induction false} LoopRuns(m: Machine, code: seq<Instr>, pc: int, i: Instr, q: nat, s: State, stk: seq<int>,
                                    ks: seq<Choice>)
    requires SimpleLoopAt(m, code, pc, i) && i.max >= 0 && Wf(m.e, s)
    ensures var r := Runs(m.e, code, i.max, q, s);
            Reaches(m, Run(pc + 17, s, stk, ks, [Frame(pc, i, s.pos, stk, q)]),
                    LeaveLoop(r.0, ks, [], Frame(pc, i, r.0.pos, stk, r.1)))
    decreases |m.e.text.units| - s.pos
  {
    hide Loaded, LeaveLoop, Backward, Forward, CountChars, AllSimple, ExecLine, Reaches, Boundary;
    var fr := Frame(pc, i, s.pos, stk, q);
    var c := Run(pc + 17, s, stk, ks, [fr]);
    LoadedAround(m, pc, i, code, [IMatch]);
    SimpleIsLocal(code, |s.caps|);
    AtomRuns(m, pc + 17, code, s, stk, ks, fr);
    match Once(m.e, code, s)
    case None =>
      assert State(s.pos, s.caps) == s;
    case Some(s') =>
      var d := Run(pc + 17 + Len(code), s', stk, ks, [fr]);
      AtomEnds(m, pc, i, code, s', stk, ks, fr);
      ReachesStep(m, d);
      ReachesTrans(m, c, d, Step(m, d));
      if !(q + 1 >= i.max && i.max != INT32_MAX) {
        LoopRuns(m, code, pc, i, q + 1, s', stk, ks);
        var r := Runs(m.e, code, i.max, q + 1, s');
        ReachesTrans(m, c, Step(m, d), LeaveLoop(r.0, ks, [], Frame(pc, i, r.0.pos, stk, r.1)));
      }
  }

  /** The `match` that ends the atom counts one repetition and starts the next, or leaves. */
  lemma AtomEnds(m: Machine, pc: int, i: Instr, code: seq<Instr>, s: State, stk: seq<int>, ks: seq<Choice>, fr: Frame)
    requires SimpleLoopAt(m, code, pc, i) && Wf(m.e, s) && fr.pc == pc && fr.instr == i && fr.stk == stk
    ensures var fr' := Frame(pc, i, s.pos, stk, fr.count + 1);
            Step(m, Run(pc + 17 + Len(code), s, stk, ks, [fr]))
            == if fr'.count >= i.max && i.max != INT32_MAX then LeaveLoop(s, ks, [], fr')
              else Run(pc + 17, s, stk, ks, [fr'])
  {
    LoadedAround(m, pc, i, code, [IMatch]);
    var fr' := Frame(pc, i, s.pos, stk, fr.count + 1);
    assert [fr][..0] == [] && [] + [fr'] == [fr'];
  }

  ghost function GreedyChoice(pc: int, s: State, stk: seq<int>, k: nat): seq<Choice> {
    if k == 0 then [] else [Choice(GreedyPoint, pc, s, stk, k)]
  }

  /** The greedy choice point gives back one repetition at a time. */
  lemma {:induction false} DownProduces(m: Machine, pc: int, i: Instr, s: State, stk: seq<int>, ks: seq<Choice>, k: nat)
    requires pc in m.prog && m.prog[pc] == i && i.ISimpleGreedyQuant? && i.count >= 0
    requires Wf(m.e, s) && GiveBack(m.e, i.count, s, k).Some?
    ensures Produces(m, Run(pc + 17 + i.off, s, stk, ks + GreedyChoice(pc, s, stk, k), []), ks, pc + 17 + i.off, stk,
                     Down(m.e, i.count, s, k))
    decreases k
  {
    var to := pc + 17 + i.off;
    var alt := GreedyChoice(pc, s, stk, k);
    if k == 0 {
      assert ks + alt == ks;
      ProducesOne(m, s, ks, to, stk);
    } else {
      BackwardSnoc(m.e.text, s.pos, i.count);
      var s' := s.(pos := Backward(m.e.text, s.pos, i.count).value);
      DownProduces(m, pc, i, s', stk, ks, k - 1);
      var d := Fail(ks + alt);
      assert (ks + alt)[..|ks + alt| - 1] == ks && (ks + alt)[|ks + alt| - 1] == alt[0];
      assert k == 1 ==> ks + GreedyChoice(pc, s', stk, k - 1) == ks;
      assert Step(m, d) == Run(to, s', stk, ks + GreedyChoice(pc, s', stk, k - 1), []);
      StepThenProduces(m, d, ks, to, stk, Down(m.e, i.count, s', k - 1));
      ProducesConsThen(m, s, ks, alt, to, stk, Down(m.e, i.count, s', k - 1));
    }
  }

  lemma RetriesDown(e: Env, code: seq<Instr>, min: nat, max: nat, s: State)
    requires SimpleAtom(code) && Wf(e, s)
    ensures var r := Runs(e, code, max, 0, s);
            r.1 >= min ==> && GiveBack(e, CountChars(code), r.0, r.1 - min).Some?
                           && Retries(e, code, min, max, 0, s) == Down(e, CountChars(code), r.0, r.1 - min)
  {
    var r := Runs(e, code, max, 0, s);
    RunsReturn(e, code, max, 0, s);
    if r.1 >= min {
      GiveBackFewer(e, CountChars(code), r.0, r.1, r.1 - min);
    }
  }

  /** From the end of the repetitions the machine produces the retries. */
  lemma LeaveProduces(m: Machine, code: seq<Instr>, pc: int, i: Instr, s: State, stk: seq<int>, ks: seq<Choice>)
    requires SimpleLoopAt(m, code, pc, i) && 0 <= i.min && 0 <= i.max && Wf(m.e, s)
    ensures var r := Runs(m.e, code, i.max, 0, s);
            Produces(m, LeaveLoop(r.0, ks, [], Frame(pc, i, r.0.pos, stk, r.1)), ks, pc + 17 + i.off, stk,
                     Retries(m.e, code, i.min, i.max, 0, s))
  {
    hide Loaded, Runs, Down, GiveBack;
    LoadedAround(m, pc, i, code, [IMatch]);
    var r := Runs(m.e, code, i.max, 0, s);
    var d := LeaveLoop(r.0, ks, [], Frame(pc, i, r.0.pos, stk, r.1));
    if r.1 < i.min {
      ReachesStep(m, d);
      assert Retries(m.e, code, i.min, i.max, 0, s) == [];
    } else {
      var k := r.1 - i.min;
      RetriesDown(m.e, code, i.min, i.max, s);
      assert d == Run(pc + 17 + i.off, r.0, stk, ks + GreedyChoice(pc, r.0, stk, k), []) by {
        assert k == 0 ==> ks + GreedyChoice(pc, r.0, stk, k) == ks;
      }
      DownProduces(m, pc, i, r.0, stk, ks, k);
    }
  }

  lemma GreedyProduces(m: Machine, code: seq<Instr>, pc: int, i: Instr, s: State, stk: seq<int>, ks: seq<Choice>)
    requires SimpleLoopAt(m, code, pc, i) && 0 <= i.min && 0 <= i.max && Wf(m.e, s)
    ensures Produces(m, Run(pc, s, stk, ks, []), ks, pc + 17 + i.off, stk, Retries(m.e, code, i.min, i.max, 0, s))
  {
    LoadedAround(m, pc, i, code, [IMatch]);
    var c := Run(pc, s, stk, ks, []);
    var fr := Frame(pc, i, s.pos, stk, 0);
    assert [] + [fr] == [fr];
    assert Step(m, c) == Run(pc + 17, s, stk, ks, [fr]);
    LoopRuns(m, code, pc, i, 0, s, stk, ks);
    var r := Runs(m.e, code, i.max, 0, s);
    var d := LeaveLoop(r.0, ks, [], Frame(pc, i, r.0.pos, stk, r.1));
    StepThenReaches(m, c, d);
    LeaveProduces(m, code, pc, i, s, stk, ks);
    ReachesThenProduces(m, c, d, ks, pc + 17 + i.off, stk, Retries(m.e, code, i.min, i.max, 0, s));
  }

  /** The simple loop tries the continuation at the same positions, in the same order, as the general loop. */
  lemma GreedyCorrect(m: Machine, f: Flags, a: Node, g: nat, code: seq<Instr>, pc: int, min: nat, max: nat, s: State,
                      stk: seq<int>, ks: seq<Choice>, rs: seq<State>)
    requires WfEnv(m.e) && Valid(a) && code == Code(m.e.canon, f, a, g, false)
    requires SimpleAtom(code) && Loaded(m, pc, SimpleLoop(code, min, max))
    requires Wf(m.e, s) && 2 * (g + Groups(a)) <= |s.caps| && min <= max <= INFINITY && max > 0
    requires rs == Iterate(m.e, f, a, g, false, min, max, true, s)
    ensures Produces(m, Run(pc, s, stk, ks, []), ks, pc + Len(SimpleLoop(code, min, max)), stk, rs)
  {
    RetriesAreIterations(m.e, f, a, g, code, min, max, s);
    LoopProduces(m, code, pc, min, max, s, stk, ks, rs);
  }

  lemma LoopProduces(m: Machine, code: seq<Instr>, pc: int, min: nat, max: nat, s: State, stk: seq<int>,
                     ks: seq<Choice>, rs: seq<State>)
    requires SimpleAtom(code) && Loaded(m, pc, SimpleLoop(code, min, max)) && Wf(m.e, s)
    requires rs == Retries(m.e, code, min, max, 0, s)
    ensures Produces(m, Run(pc, s, stk, ks, []), ks, pc + Len(SimpleLoop(code, min, max)), stk, rs)
  {
    var i := SimpleLoop(code, min, max)[0];
    LoadedAround(m, pc, i, code, [IMatch]);
    assert [IMatch][1..] == [];
    GreedyProduces(m, code, pc, i, s, stk, ks);
  }

  lemma RetriesAreIterations(e: Env, f: Flags, a: Node, g: nat, code: seq<Instr>, min: nat, max: nat, s: State)
    requires WfEnv(e) && Valid(a) && code == Code(e.canon, f, a, g, false) && SimpleAtom(code)
    requires Wf(e, s) && 2 * (g + Groups(a)) <= |s.caps| && min <= max <= INFINITY && max > 0
    ensures Iterate(e, f, a, g, false, min, max, true, s) == Retries(e, code, min, max, 0, s)
  {
    IterateIsRetries(e, f, a, g, code, min, max, 0, s);
  }
}
