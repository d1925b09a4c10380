/**
 Whole programs: execution of a compiled pattern ends, and its result is the
 first match of the reference matcher at the leftmost start position.
 */
module RegexpExec {
  import opened Basics
  import opened RegexpText
  import opened RegexpSyntax
  import opened RegexpMatcher
  import opened RegexpBytecode
  import opened RegexpCodegen
  import opened RegexpVm
  import opened RegexpSimulation
  import opened RegexpLeaves
  import opened RegexpCorrect

  /** A search: the flags, the pattern and whether only the first position is tried. */
  datatype Search = Search(f: Flags, n: Node, sticky: bool)

  ghost predicate Starts(e: Env, q: Search, s: State) {
    WfEnv(e) && Valid(q.n) && Wf(e, s) && 2 * (1 + Groups(q.n)) <= |s.caps|
  }

  /** The matches that begin at the position of `s`. */
  ghost function MatchesAt(e: Env, q: Search, s: State): seq<State>
    requires Starts(e, q, s)
  {
    Match(e, q.f, Group(q.n), 0, false, s)
  }

  ghost function Advance(e: Env, s: State): (r: State)
    requires Wf(e, s) && s.pos < |e.text.units|
    ensures Wf(e, r) && r.caps == s.caps && r.pos > s.pos
  {
    NextThenPrev(e.text, s.pos);
    s.(pos := Next(e.text, s.pos, |e.text.units|))
  }

  /** All matches in priority order: those at the first position, then those at the following ones. */
  ghost function AllMatches(e: Env, q: Search, s: State): seq<State>
    requires Starts(e, q, s)
    decreases |e.text.units| - s.pos
  {
    MatchesAt(e, q, s) + (if q.sticky || s.pos >= |e.text.units| then [] else AllMatches(e, q, Advance(e, s)))
  }

  // ----- the search loop -----

  ghost predicate BodyAt(m: Machine, q: Search, pc: int)
    requires Valid(q.n)
  {
    Loaded(m, pc, Code(m.e.canon, q.f, Group(q.n), 0, false) + [IMatch])
  }

  ghost function EndOf(m: Machine, q: Search, pc: int): int
    requires Valid(q.n)
  {
    pc + Len(Code(m.e.canon, q.f, Group(q.n), 0, false))
  }

  lemma BodyProduces(m: Machine, q: Search, pc: int, s: State, ks: seq<Choice>)
    requires Starts(m.e, q, s) && BodyAt(m, q, pc)
    ensures Produces(m, Run(pc, s, [], ks, []), ks, EndOf(m, q, pc), [], MatchesAt(m.e, q, s))
  {
    hide Produces, Loaded, Match, Code;
    var t := Site(q.f, Group(q.n), 0, false);
    LoadedSplit(m, pc, CodeOf(m, t), [IMatch]);
    CodeCorrect(m, t, pc, s, [], ks);
  }

  ghost predicate PrologueAt(m: Machine, pc: int) {
    && pc in m.prog && m.prog[pc] == ISplitGotoFirst(6)
    && pc + 5 in m.prog && m.prog[pc + 5] == IAny
    && pc + 6 in m.prog && m.prog[pc + 6] == IGoto(-11)
  }

  /** The prologue retries the body one character further, until the end of the subject. */
  lemma {:induction false} SearchProduces(m: Machine, q: Search, pc: int, s: State, ks: seq<Choice>)
    requires !q.sticky && Starts(m.e, q, s) && PrologueAt(m, pc) && BodyAt(m, q, pc + 11)
    ensures Produces(m, Run(pc, s, [], ks, []), ks, EndOf(m, q, pc + 11), [], AllMatches(m.e, q, s))
    decreases |m.e.text.units| - s.pos
  {
    hide Loaded, Match, Code, Produces, Valid, Groups;
    var to := EndOf(m, q, pc + 11);
    var c := Run(pc, s, [], ks, []);
    var alt := [Choice(SplitPoint, pc + 5, s, [], 0)];
    assert Step(m, c) == Run(pc + 11, s, [], ks + alt, []);
    BodyProduces(m, q, pc + 11, s, ks + alt);
    var d := Run(pc + 5, s, [], ks, []);
    if s.pos >= |m.e.text.units| {
      assert Step(m, d) == Fail(ks);
      ProducesNone(m, d, ks, to, []);
      ProducesSplit(m, c, ks, pc + 11, pc + 5, s, [], to, [], MatchesAt(m.e, q, s), []);
    } else {
      var s' := Advance(m.e, s);
      assert Step(m, d) == Run(pc + 6, s', [], ks, []);
      assert Step(m, Step(m, d)) == Run(pc, s', [], ks, []);
      SearchProduces(m, q, pc, s', ks);
      StepThenProduces(m, Step(m, d), ks, to, [], AllMatches(m.e, q, s'));
      StepThenProduces(m, d, ks, to, [], AllMatches(m.e, q, s'));
      ProducesSplit(m, c, ks, pc + 11, pc + 5, s, [], to, [], MatchesAt(m.e, q, s), AllMatches(m.e, q, s'));
    }
  }

  lemma PrologueLoaded(m: Machine, pc: int, rest: seq<Instr>)
    requires Loaded(m, pc, SEARCH_PROLOGUE + rest)
    ensures PrologueAt(m, pc) && Loaded(m, pc + 11, rest)
  {
    LoadedSplit(m, pc, SEARCH_PROLOGUE, rest);
    var p := SEARCH_PROLOGUE;
    assert p[1..] == [IAny, IGoto(-11)] && p[1..][1..] == [IGoto(-11)] && p[1..][1..][1..] == [];
  }

  // ----- results -----

  /** At the final `match` the first state produced is the result; if there is none the search fails. */
  lemma FirstIsResult(m: Machine, c: Config, to: int, stk: seq<int>, rs: seq<State>)
    requires Produces(m, c, [], to, stk, rs) && to in m.prog && m.prog[to] == IMatch
    requires forall i :: 0 <= i < |rs| ==> InBounds(m.e, rs[i])
    ensures Reaches(m, c, Done(if rs == [] then None else Some(rs[0].caps)))
  {
    if rs == [] {
      ReachesStep(m, Fail([]));
      ReachesTrans(m, c, Fail([]), Done(None));
    } else {
      var alt :| ProducesVia(m, c, [], alt, to, stk, rs);
      var d := Run(to, rs[0], stk, [] + alt, []);
      var caps := rs[0].caps;
      assert InBounds(m.e, rs[0]);
      assert Step(m, d) == Succeed(caps, [] + alt);
      UnwindTo(m, caps, [], alt);
      StepThenReaches(m, d, Succeed(caps, []));
      ReachesStep(m, Succeed(caps, []));
      ReachesTrans(m, d, Succeed(caps, []), Done(Some(caps)));
      ReachesTrans(m, c, d, Done(Some(caps)));
    }
  }

  lemma {:induction false} AllMatchesInBounds(e: Env, q: Search, s: State)
    requires Starts(e, q, s)
    ensures forall i :: 0 <= i < |AllMatches(e, q, s)| ==> Wf(e, AllMatches(e, q, s)[i])
    decreases |e.text.units| - s.pos
  {
    hide Match, Groups, Valid;
    var rs := MatchesAt(e, q, s);
    assert AllGood(e, false, s, rs);
    forall i | 0 <= i < |rs| ensures Good(e, false, s, rs[i]) { }
    if !(q.sticky || s.pos >= |e.text.units|) {
      AllMatchesInBounds(e, q, Advance(e, s));
    }
  }

  ghost function BodyPc(q: Search): int { if q.sticky then 0 else 11 }

  lemma ProgramLayout(m: Machine, q: Search)
    requires Valid(q.n) && Loaded(m, 0, Program(m.e.canon, q.f, q.n, q.sticky))
    ensures !q.sticky ==> PrologueAt(m, 0)
    ensures BodyAt(m, q, BodyPc(q))
    ensures var to := EndOf(m, q, BodyPc(q)); to in m.prog && m.prog[to] == IMatch
  {
    hide Code;
    var body := Code(m.e.canon, q.f, Group(q.n), 0, false);
    if q.sticky {
      assert [] + (body + [IMatch]) == body + [IMatch];
    } else {
      PrologueLoaded(m, 0, body + [IMatch]);
    }
    LoadedSplit(m, BodyPc(q), body, [IMatch]);
    LoadedOne(m, BodyPc(q) + Len(body), IMatch);
  }

  /** Execution of a compiled program ends with the first of all matches, or with none if there are none. */
  lemma ExecCorrect(m: Machine, q: Search, s: State)
    requires Starts(m.e, q, s)
    requires Loaded(m, 0, Program(m.e.canon, q.f, q.n, q.sticky))
    ensures var rs := AllMatches(m.e, q, s);
            Reaches(m, Run(0, s, [], [], []), Done(if rs == [] then None else Some(rs[0].caps)))
  {
    hide Match, Code, Produces, Groups, Reaches, Loaded, Program, EndOf, BodyAt;
    ProgramLayout(m, q);
    if q.sticky {
      BodyProduces(m, q, 0, s, []);
      assert AllMatches(m.e, q, s) == MatchesAt(m.e, q, s);
    } else {
      SearchProduces(m, q, 0, s, []);
    }
    AllMatchesInBounds(m.e, q, s);
    FirstIsResult(m, Run(0, s, [], [], []), EndOf(m, q, BodyPc(q)), [], AllMatches(m.e, q, s));
  }

  /** The result is a match at the leftmost character position that has one, and the first one there. */
  lemma {:induction false} Leftmost(e: Env, q: Search, s: State, p: int)
    requires Starts(e, q, s) && Boundary(e.text, p) && s.pos <= p && (q.sticky ==> p == s.pos)
    ensures AllMatches(e, q, s) == [] ==> MatchesAt(e, q, s.(pos := p)) == []
    ensures MatchesAt(e, q, s.(pos := p)) != []
            && (forall r :: s.pos <= r < p && Boundary(e.text, r) ==> MatchesAt(e, q, s.(pos := r)) == [])
            ==> AllMatches(e, q, s) != [] && AllMatches(e, q, s)[0] == MatchesAt(e, q, s.(pos := p))[0]
    decreases |e.text.units| - s.pos
  {
    hide Match, Groups, Valid;
    assert s.(pos := s.pos) == s;
    if p > s.pos {
      var s' := Advance(e, s);
      assert p >= s'.pos;
      Leftmost(e, q, s', p);
      forall r {:trigger s'.(pos := r)} | s'.pos <= r < p && Boundary(e.text, r)
        ensures s'.(pos := r) == s.(pos := r) { }
    }
  }

  /** A run that ends does not crash on the way. */
  lemma EndsCleanly(m: Machine, c: Config, r: Option<seq<int>>, n: nat)
    requires Reaches(m, c, Done(r))
    ensures Steps(m, c, n) != Crash
  {
    var k: nat :| Steps(m, c, k) == Done(r);
    if n <= k {
      StepsAdd(m, c, n, k - n);
      Absorbing(m, Crash, k - n);
    } else {
      StepsAdd(m, c, k, n - k);
      Absorbing(m, Done(r), n - k);
    }
  }

  /** Compiled code never crashes: no bad fetch, stack underflow or capture out of range at any point of any run. */
  lemma NeverCrashes(m: Machine, q: Search, s: State, n: nat)
    requires Starts(m.e, q, s) && Loaded(m, 0, Program(m.e.canon, q.f, q.n, q.sticky))
    ensures Steps(m, Run(0, s, [], [], []), n) != Crash
  {
    hide Starts, Loaded, Program, Steps, AllMatches;
    ExecCorrect(m, q, s);
    var rs := AllMatches(m.e, q, s);
    EndsCleanly(m, Run(0, s, [], [], []), if rs == [] then None else Some(rs[0].caps), n);
  }

  lemma {:induction false} Absorbing(m: Machine, c: Config, n: nat)
    requires c.Done? || c.Crash?
    ensures Steps(m, c, n) == c
    decreases n
  {
    if n > 0 {
      Absorbing(m, c, n - 1);
    }
  }

  // ----- character boundaries -----

  ghost predicate OnBoundaries(e: Env, caps: seq<int>) {
    forall i :: 0 <= i < |caps| ==> caps[i] == NONE || Boundary(e.text, caps[i])
  }

  /** Every position and capture held anywhere in a configuration is on a character boundary. */
  ghost predicate NoSplitPair(e: Env, c: Config) {
    match c
    case Run(_, s, _, ks, calls) => Wf(e, s) && ChoicesWf(e, ks) && forall i :: 0 <= i < |calls| ==>
      Boundary(e.text, calls[i].pos)
    case Fail(ks) => ChoicesWf(e, ks)
    case Succeed(caps, ks) => OnBoundaries(e, caps) && ChoicesWf(e, ks)
    case Done(r) => r.Some? ==> OnBoundaries(e, r.value)
    case Crash => true
  }

  ghost predicate ChoicesWf(e: Env, ks: seq<Choice>) {
    forall i :: 0 <= i < |ks| ==> Wf(e, ks[i].s)
  }

  lemma {:induction false} NoMatchNoSplit(e: Env, s: State, ks: seq<Choice>, calls: seq<Frame>)
    requires Wf(e, s) && ChoicesWf(e, ks) && forall i :: 0 <= i < |calls| ==> Boundary(e.text, calls[i].pos)
    ensures NoSplitPair(e, NoMatch(s, ks, calls))
    decreases |calls|, 0
  {
    if calls != [] {
      var n := |calls| - 1;
      LeaveNoSplit(e, State(calls[n].pos, s.caps), ks, calls[..n], calls[n]);
    }
  }

  lemma {:induction false} LeaveNoSplit(e: Env, s: State, ks: seq<Choice>, calls: seq<Frame>, f: Frame)
    requires Wf(e, s) && ChoicesWf(e, ks) && forall i :: 0 <= i < |calls| ==> Boundary(e.text, calls[i].pos)
    ensures NoSplitPair(e, LeaveLoop(s, ks, calls, f))
    decreases |calls|, 1
  {
    if f.instr.ISimpleGreedyQuant? && f.count < f.instr.min {
      NoMatchNoSplit(e, s, ks, calls);
    }
  }

  /** No step of any program, compiled or not, moves to the middle of a surrogate pair. */
  lemma StepNoSplit(m: Machine, c: Config)
    requires NoSplitPair(m.e, c)
    ensures NoSplitPair(m.e, Step(m, c))
  {
    match c
    case Run(pc, s, stk, ks, calls) =>
      if pc in m.prog {
        ExecuteNoSplit(m, m.prog[pc], pc, s, stk, ks, calls);
      }
    case Fail(ks) =>
      if ks != [] {
        var k := ks[|ks| - 1];
        if k.kind == GreedyPoint && k.pc in m.prog && m.prog[k.pc].ISimpleGreedyQuant? && m.prog[k.pc].count >= 0 {
          BackwardSnoc(m.e.text, k.s.pos, m.prog[k.pc].count);
        }
      }
    case Succeed(caps, ks) =>
    case _ =>
  }

  lemma ExecuteNoSplit(m: Machine, i: Instr, pc: int, s: State, stk: seq<int>, ks: seq<Choice>, calls: seq<Frame>)
    requires NoSplitPair(m.e, Run(pc, s, stk, ks, calls))
    ensures NoSplitPair(m.e, Execute(m, i, pc, s, stk, ks, calls))
  {
    hide Local, NoMatch, LeaveLoop, Size, Boundary, CapturesInRange;
    NoMatchNoSplit(m.e, s, ks, calls);
    if i.IMatch? && calls != [] {
      var n := |calls| - 1;
      LeaveNoSplit(m.e, s, ks, calls[..n], calls[n].(pos := s.pos, count := calls[n].count + 1));
    }
  }

  lemma {:induction false} RunsNoSplit(m: Machine, c: Config, n: nat)
    requires NoSplitPair(m.e, c)
    ensures NoSplitPair(m.e, Steps(m, c, n))
    decreases n
  {
    if n > 0 {
      StepNoSplit(m, c);
      RunsNoSplit(m, Step(m, c), n - 1);
    }
  }

  // ----- starting -----

  /** The start position, moved back when it is inside a surrogate pair. */
  function StartPos(t: Text, index: nat): (p: int)
    requires index <= |t.units|
    ensures Boundary(t, p) && p <= index <= p + 1
    ensures Boundary(t, index) ==> p == index
  {
    if t.utf16 && 0 < index < |t.units| && IsLoSurrogate(t.units[index]) && IsHiSurrogate(t.units[index - 1])
    then index - 1 else index
  }

  function Unset(n: nat): (caps: seq<int>)
    ensures |caps| == n && forall i :: 0 <= i < n ==> caps[i] == NONE
  {
    seq(n, _ => NONE)
  }
}
