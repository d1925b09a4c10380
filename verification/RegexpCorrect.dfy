/**
 Compiler correctness: the code of a pattern produces exactly the matches of
 the reference matcher, in priority order, and every run of a compiled program
 ends, with the first match or with none.
 */
module RegexpCorrect {
  import opened Basics
  import opened RegexpText
  import opened RegexpSyntax
  import opened RegexpMatcher
  import opened RegexpBytecode
  import opened RegexpCodegen
  import opened RegexpVm
  import opened RegexpSimulation
  import opened RegexpLeaves
  import opened RegexpAdvance
  import opened RegexpGreedy
  import opened RegexpLoops
  import opened RegexpQuantifiers

  ghost predicate Suits(m: Machine, t: Site, s: State) {
    WfEnv(m.e) && Valid(t.n) && Wf(m.e, s) && 2 * (t.g + Groups(t.n)) <= |s.caps|
  }

  ghost function CodeOf(m: Machine, t: Site): seq<Instr>
    requires Valid(t.n)
  {
    Code(m.e.canon, t.f, t.n, t.g, t.back)
  }

  ghost function MatchesOf(m: Machine, t: Site, s: State): seq<State>
    requires Suits(m, t, s)
  {
    Match(m.e, t.f, t.n, t.g, t.back, s)
  }

  ghost predicate ProducesMatches(m: Machine, t: Site, pc: int, s: State, stk: seq<int>, ks: seq<Choice>)
    requires Suits(m, t, s)
  {
    Produces(m, Run(pc, s, stk, ks, []), ks, pc + Len(CodeOf(m, t)), stk, MatchesOf(m, t, s))
  }

  /** The code of every pattern, wherever it is loaded, produces the matches of the pattern. */
  lemma {:induction false} CodeCorrect(m: Machine, t: Site, pc: int, s: State, stk: seq<int>, ks: seq<Choice>)
    requires Suits(m, t, s) && Loaded(m, pc, CodeOf(m, t))
    ensures ProducesMatches(m, t, pc, s, stk, ks)
    decreases t.n, 1, 0
  {
    hide Match, Code, Valid, Groups, WfEnv, Wf, Loaded, Produces, Update;
    var n := t.n;
    if n.Empty? {
      EmptyCorrect(m, t, pc, s, stk, ks);
    } else if IsOneChar(n) {
      CharCorrect(m, t, pc, s, stk, ks);
    } else if n.LineStart? || n.LineEnd? || n.WordBoundary? || n.BackRef? {
      AssertionCorrect(m, t, pc, s, stk, ks);
    } else if n.Cat? {
      CatCorrect(m, t, pc, s, stk, ks);
    } else if n.Or? {
      OrCorrect(m, t, pc, s, stk, ks);
    } else if n.Group? {
      GroupCorrect(m, t, pc, s, stk, ks);
    } else if n.Modify? {
      var inner := Site(Update(t.f, n.add, n.remove), n.scope, t.g, t.back);
      ModifyUnfold(m, t, s, inner);
      CodeCorrect(m, inner, pc, s, stk, ks);
    } else if n.Look? {
      LookCorrect(m, t, pc, s, stk, ks);
    } else {
      RepeatCorrect(m, t, pc, s, stk, ks);
    }
  }

  lemma EmptyCorrect(m: Machine, t: Site, pc: int, s: State, stk: seq<int>, ks: seq<Choice>)
    requires Suits(m, t, s) && t.n.Empty?
    ensures ProducesMatches(m, t, pc, s, stk, ks)
  {
    ProducesOne(m, s, ks, pc, stk);
  }

  /** Modifiers change the flags of their scope and nothing else. */
  lemma ModifyUnfold(m: Machine, t: Site, s: State, inner: Site)
    requires Suits(m, t, s) && t.n.Modify?
    requires inner == Site(Update(t.f, t.n.add, t.n.remove), t.n.scope, t.g, t.back)
    ensures Suits(m, inner, s) && CodeOf(m, t) == CodeOf(m, inner) && MatchesOf(m, t, s) == MatchesOf(m, inner, s)
  {
    hide Wf, WfEnv, Update;
  }

  lemma CharCorrect(m: Machine, t: Site, pc: int, s: State, stk: seq<int>, ks: seq<Choice>)
    requires Suits(m, t, s) && IsOneChar(t.n) && Loaded(m, pc, CodeOf(m, t))
    ensures ProducesMatches(m, t, pc, s, stk, ks)
  {
    OneCharExec(m.e, t.f, t.n, t.back, s);
    ProducesLine(m, pc, CodeOf(m, t), s, stk, ks);
  }

  lemma AssertionCorrect(m: Machine, t: Site, pc: int, s: State, stk: seq<int>, ks: seq<Choice>)
    requires Suits(m, t, s) && (t.n.LineStart? || t.n.LineEnd? || t.n.WordBoundary? || t.n.BackRef?)
    requires Loaded(m, pc, CodeOf(m, t))
    ensures ProducesMatches(m, t, pc, s, stk, ks)
  {
    var i := CodeOf(m, t)[0];
    LoadedOne(m, pc, i);
    ProducesLocal(m, pc, i, s, stk, ks);
  }

  /** The matches of `t` from each state produced at `pc`. */
  lemma {:induction false} ThenCorrect(m: Machine, t: Site, c: Config, pc: int, s: State, rs: seq<State>,
                                       stk: seq<int>, ks: seq<Choice>)
    requires Suits(m, t, s) && AllGood(m.e, t.back, s, rs)
    requires Loaded(m, pc, CodeOf(m, t))
    requires Produces(m, c, ks, pc, stk, rs)
    ensures Produces(m, c, ks, pc + Len(CodeOf(m, t)), stk, MatchAll(m.e, t.f, t.n, t.g, t.back, s, rs))
    decreases t.n, 2, |rs|
  {
    hide Match, Code, Loaded, Valid, Groups, NoLook, Reaches, WfEnv;
    var to := pc + Len(CodeOf(m, t));
    if rs == [] {
      assert Produces(m, c, ks, to, stk, []);
    } else {
      var alt :| ProducesVia(m, c, ks, alt, pc, stk, rs);
      var rest := MatchAll(m.e, t.f, t.n, t.g, t.back, s, rs[1..]);
      ThenCorrect(m, t, Fail(ks + alt), pc, s, rs[1..], stk, ks);
      assert Good(m.e, t.back, s, rs[0]);
      CodeCorrect(m, t, pc, rs[0], stk, ks + alt);
      ProducesBind(m, c, Run(pc, rs[0], stk, ks + alt, []), ks, alt, to, stk, MatchesOf(m, t, rs[0]), rest);
    }
  }

  lemma CatUnfold(m: Machine, t: Site, s: State)
    requires Suits(m, t, s) && t.n.Cat?
    ensures Suits(m, LeadOf(t), s) && Suits(m, TrailOf(t), s)
    ensures CodeOf(m, t) == CodeOf(m, LeadOf(t)) + CodeOf(m, TrailOf(t))
    ensures AllGood(m.e, t.back, s, MatchesOf(m, LeadOf(t), s))
    ensures var y := TrailOf(t);
            MatchesOf(m, t, s) == MatchAll(m.e, y.f, y.n, y.g, y.back, s, MatchesOf(m, LeadOf(t), s))
  {
    hide Iterate, Code, MatchLeaf;
    CatShape(m.e.canon, t.f, t.n, t.g, t.back);
  }

  lemma {:induction false} CatCorrect(m: Machine, t: Site, pc: int, s: State, stk: seq<int>, ks: seq<Choice>)
    requires Suits(m, t, s) && t.n.Cat? && Loaded(m, pc, CodeOf(m, t))
    ensures ProducesMatches(m, t, pc, s, stk, ks)
    decreases t.n, 0, 1
  {
    hide Match, MatchAll, Code, Loaded, Produces, Valid, Groups;
    CatUnfold(m, t, s);
    TwoCorrect(m, t.n, LeadOf(t), TrailOf(t), pc, s, stk, ks);
  }

  lemma {:induction false} TwoCorrect(m: Machine, n: Node, x: Site, y: Site, pc: int, s: State, stk: seq<int>,
                                      ks: seq<Choice>)
    requires x.n < n && y.n < n && x.back == y.back
    requires Suits(m, x, s) && Suits(m, y, s) && AllGood(m.e, y.back, s, MatchesOf(m, x, s))
    requires Loaded(m, pc, CodeOf(m, x) + CodeOf(m, y))
    ensures Produces(m, Run(pc, s, stk, ks, []), ks, pc + Len(CodeOf(m, x) + CodeOf(m, y)), stk,
                     MatchAll(m.e, y.f, y.n, y.g, y.back, s, MatchesOf(m, x, s)))
    decreases n, 0, 0
  {
    hide Match, MatchAll, Code, Loaded, Produces, Valid, Groups;
    LoadedSplit(m, pc, CodeOf(m, x), CodeOf(m, y));
    CodeCorrect(m, x, pc, s, stk, ks);
    ThenCorrect(m, y, Run(pc, s, stk, ks, []), pc + Len(CodeOf(m, x)), s, MatchesOf(m, x, s), stk, ks);
  }

  lemma {:induction false} OrCorrect(m: Machine, t: Site, pc: int, s: State, stk: seq<int>, ks: seq<Choice>)
    requires Suits(m, t, s) && t.n.Or? && Loaded(m, pc, CodeOf(m, t))
    ensures ProducesMatches(m, t, pc, s, stk, ks)
    decreases t.n, 0, 1
  {
    hide Match, MatchAll, Code, Loaded, Produces, Valid, Groups, OrCode;
    var x, y := LeftOf(t), RightOf(t);
    OrUnfold(m, t, s);
    OrParts(m, t.n, x, y, pc, s, stk, ks);
  }

  lemma OrUnfold(m: Machine, t: Site, s: State)
    requires Suits(m, t, s) && t.n.Or?
    ensures Suits(m, LeftOf(t), s) && Suits(m, RightOf(t), s)
    ensures CodeOf(m, t) == OrCode(CodeOf(m, LeftOf(t)), CodeOf(m, RightOf(t)))
    ensures MatchesOf(m, t, s) == MatchesOf(m, LeftOf(t), s) + MatchesOf(m, RightOf(t), s)
  {
    hide Match, Code, Wf;
    assert Valid(t.n.left) && Valid(t.n.right);
    OrShape(m.e.canon, t.f, t.n, t.g, t.back);
    OrUnfoldMatch(m, t, s);
  }

  lemma OrUnfoldMatch(m: Machine, t: Site, s: State)
    requires t.n.Or? && Suits(m, t, s) && Suits(m, LeftOf(t), s) && Suits(m, RightOf(t), s)
    ensures MatchesOf(m, t, s) == MatchesOf(m, LeftOf(t), s) + MatchesOf(m, RightOf(t), s)
  {
    hide MatchAll, Iterate, MatchLeaf, AllGood, Wf, Valid, WfEnv;
  }

  lemma {:induction false} OrParts(m: Machine, n: Node, x: Site, y: Site, pc: int, s: State, stk: seq<int>,
                                   ks: seq<Choice>)
    requires x.n < n && y.n < n && x.back == y.back
    requires Suits(m, x, s) && Suits(m, y, s)
    requires Loaded(m, pc, OrCode(CodeOf(m, x), CodeOf(m, y)))
    ensures Produces(m, Run(pc, s, stk, ks, []), ks, pc + Len(OrCode(CodeOf(m, x), CodeOf(m, y))), stk,
                     MatchesOf(m, x, s) + MatchesOf(m, y, s))
    decreases n, 0, 0
  {
    hide Match, MatchAll, Code, Loaded, Produces, Valid, Groups;
    var cx, cy := CodeOf(m, x), CodeOf(m, y);
    OrLayout(m, pc, cx, cy);
    var pcy := pc + 10 + Len(cx);
    CodeCorrect(m, x, pc + 5, s, stk, ks + [Choice(SplitPoint, pcy, s, stk, 0)]);
    CodeCorrect(m, y, pcy, s, stk, ks);
    OrCompose(m, pc, cx, cy, s, stk, ks, MatchesOf(m, x, s), MatchesOf(m, y, s), x.back);
  }

  lemma OrCompose(m: Machine, pc: int, cx: seq<Instr>, cy: seq<Instr>, s: State, stk: seq<int>, ks: seq<Choice>,
                  xs: seq<State>, ys: seq<State>, back: bool)
    requires Loaded(m, pc, OrCode(cx, cy)) && Wf(m.e, s) && AllGood(m.e, back, s, xs)
    requires var alt := [Choice(SplitPoint, pc + 10 + Len(cx), s, stk, 0)];
             Produces(m, Run(pc + 5, s, stk, ks + alt, []), ks + alt, pc + 5 + Len(cx), stk, xs)
    requires Produces(m, Run(pc + 10 + Len(cx), s, stk, ks, []), ks, pc + 10 + Len(cx) + Len(cy), stk, ys)
    ensures Produces(m, Run(pc, s, stk, ks, []), ks, pc + Len(OrCode(cx, cy)), stk, xs + ys)
  {
    hide Produces, Loaded, OrCode;
    OrLayout(m, pc, cx, cy);
    var pcy := pc + 10 + Len(cx);
    var c := Run(pc, s, stk, ks, []);
    var alt := [Choice(SplitPoint, pcy, s, stk, 0)];
    assert Step(m, c) == Run(pc + 5, s, stk, ks + alt, []);
    GoodInBounds(m.e, back, s, xs);
    ProducesGoto(m, Step(m, c), ks + alt, pcy - 5, Len(cy), stk, xs);
    ProducesSplit(m, c, ks, pc + 5, pcy, s, stk, pcy + Len(cy), stk, xs, ys);
  }

  lemma GoodInBounds(e: Env, back: bool, s: State, rs: seq<State>)
    requires AllGood(e, back, s, rs)
    ensures AllInBounds(e, |s.caps|, rs)
    ensures forall i :: 0 <= i < |rs| ==> InBounds(e, rs[i])
  {
    forall i | 0 <= i < |rs| ensures Good(e, back, s, rs[i]) { }
  }

  lemma OrLayout(m: Machine, pc: int, cx: seq<Instr>, cy: seq<Instr>)
    requires Loaded(m, pc, OrCode(cx, cy))
    ensures pc in m.prog && m.prog[pc] == ISplitNextFirst(Len(cx) + 5)
    ensures Loaded(m, pc + 5, cx) && Loaded(m, pc + 10 + Len(cx), cy)
    ensures pc + 5 + Len(cx) in m.prog && m.prog[pc + 5 + Len(cx)] == IGoto(Len(cy))
    ensures Len(OrCode(cx, cy)) == 10 + Len(cx) + Len(cy)
  {
    var split, goto := ISplitNextFirst(Len(cx) + 5), IGoto(Len(cy));
    LoadedSplit(m, pc, [split] + cx + [goto], cy);
    LoadedAround(m, pc, split, cx, [goto]);
    LoadedOne(m, pc + 5 + Len(cx), goto);
  }

  /** Setting the second capture of a group on each match of its body. */
  lemma {:induction false} SaveAll(e: Env, i: Instr, k: nat, n: nat, rs: seq<State>)
    requires AllInBounds(e, n, rs) && CapturesInRange(i, n)
    requires (i.ISaveStart? && k == 2 * i.group) || (i.ISaveEnd? && k == 2 * i.group + 1)
    ensures LocalAll(e, i, n, rs) == SetCaps(rs, k)
    decreases |rs|
  {
    if rs != [] {
      SaveAll(e, i, k, n, rs[1..]);
    }
  }

  // The instructions on entering a group and on leaving it.

  function EnterSave(g: nat, back: bool): Instr { if back then ISaveEnd(g) else ISaveStart(g) }
  function LeaveSave(g: nat, back: bool): Instr { if back then ISaveStart(g) else ISaveEnd(g) }

  lemma GroupUnfold(m: Machine, t: Site, s: State)
    requires Suits(m, t, s) && t.n.Group?
    ensures EnterCap(t.g, t.back) < |s.caps| && 2 * t.g + 2 <= |s.caps|
    ensures Suits(m, InnerOf(t), SetCap(s, EnterCap(t.g, t.back)))
    ensures CodeOf(m, t) == [EnterSave(t.g, t.back)] + CodeOf(m, InnerOf(t)) + [LeaveSave(t.g, t.back)]
    ensures var rs := MatchesOf(m, InnerOf(t), SetCap(s, EnterCap(t.g, t.back)));
            && (forall i :: 0 <= i < |rs| ==> LeaveCap(t.g, t.back) < |rs[i].caps|)
            && MatchesOf(m, t, s) == SetCaps(rs, LeaveCap(t.g, t.back))
  {
    hide Match, Code, WfEnv;
    GroupSuits(m, t, s);
    GroupShape(m.e.canon, t.f, t.n, t.g, t.back);
    GroupMatches(m, t, s);
  }

  lemma GroupSuits(m: Machine, t: Site, s: State)
    requires Suits(m, t, s) && t.n.Group?
    ensures EnterCap(t.g, t.back) < |s.caps| && 2 * t.g + 2 <= |s.caps|
    ensures Suits(m, InnerOf(t), SetCap(s, EnterCap(t.g, t.back)))
  {
    hide Boundary;
  }

  lemma GroupMatches(m: Machine, t: Site, s: State)
    requires Suits(m, t, s) && t.n.Group? && EnterCap(t.g, t.back) < |s.caps|
    requires Suits(m, InnerOf(t), SetCap(s, EnterCap(t.g, t.back)))
    ensures var rs := MatchesOf(m, InnerOf(t), SetCap(s, EnterCap(t.g, t.back)));
            && (forall i :: 0 <= i < |rs| ==> LeaveCap(t.g, t.back) < |rs[i].caps|)
            && MatchesOf(m, t, s) == SetCaps(rs, LeaveCap(t.g, t.back))
  {
    hide MatchAll, Iterate, MatchLeaf, WfEnv, Update, Valid;
  }

  lemma {:induction false} GroupCorrect(m: Machine, t: Site, pc: int, s: State, stk: seq<int>, ks: seq<Choice>)
    requires Suits(m, t, s) && t.n.Group? && Loaded(m, pc, CodeOf(m, t))
    ensures ProducesMatches(m, t, pc, s, stk, ks)
    decreases t.n, 0, 0
  {
    hide Match, MatchAll, Code, Loaded, Produces, Valid, Groups;
    GroupUnfold(m, t, s);
    var x, s' := InnerOf(t), SetCap(s, EnterCap(t.g, t.back));
    var i, j := EnterSave(t.g, t.back), LeaveSave(t.g, t.back);
    var cx := CodeOf(m, x);
    LoadedAround(m, pc, i, cx, [j]);
    CodeCorrect(m, x, pc + 2, s', stk, ks);
    GroupCompose(m, pc, i, cx, j, s, s', stk, ks, MatchesOf(m, x, s'), LeaveCap(t.g, t.back), t.back);
  }

  lemma GroupCompose(m: Machine, pc: int, i: Instr, cx: seq<Instr>, j: Instr, s: State, s': State, stk: seq<int>,
                     ks: seq<Choice>,
                     rs: seq<State>, last: nat, back: bool)
    requires Loaded(m, pc, [i] + cx + [j]) && InBounds(m.e, s)
    requires (i.ISaveStart? || i.ISaveEnd?) && CapturesInRange(i, |s.caps|) && Local(m.e, i, s) == Some(s')
    requires (j.ISaveStart? && last == 2 * j.group) || (j.ISaveEnd? && last == 2 * j.group + 1)
    requires CapturesInRange(j, |s.caps|) && AllGood(m.e, back, s', rs)
    requires Produces(m, Run(pc + 2, s', stk, ks, []), ks, pc + 2 + Len(cx), stk, rs)
    ensures AllInBounds(m.e, |s.caps|, rs)
    ensures Produces(m, Run(pc, s, stk, ks, []), ks, pc + Len([i] + cx + [j]), stk, SetCaps(rs, last))
  {
    hide Produces, Loaded, Len, Boundary, ValidPos, AllInBounds;
    LoadedAround(m, pc, i, cx, [j]);
    LoadedOne(m, pc + 2 + Len(cx), j);
    var c := Run(pc, s, stk, ks, []);
    assert Step(m, c) == Run(pc + 2, s', stk, ks, []);
    GoodInBounds(m.e, back, s', rs);
    ProducesLocalAll(m, Step(m, c), ks, pc + 2 + Len(cx), stk, j, |s.caps|, rs);
    SaveAll(m.e, j, last, |s.caps|, rs);
    StepThenProduces(m, c, ks, pc + 4 + Len(cx), stk, SetCaps(rs, last));
  }

  /** Leaving a successful lookahead body unwinds its choice points. */
  lemma {:induction false} UnwindTo(m: Machine, caps: seq<int>, ks: seq<Choice>, alt: seq<Choice>)
    requires NoLook(alt)
    ensures Reaches(m, Succeed(caps, ks + alt), Succeed(caps, ks))
    decreases |alt|
  {
    if alt == [] {
      assert ks + alt == ks;
      ReachesStep(m, Succeed(caps, ks));
    } else {
      var n := |alt| - 1;
      assert (ks + alt)[|ks + alt| - 1] == alt[n] && (ks + alt)[..|ks + alt| - 1] == ks + alt[..n];
      assert Step(m, Succeed(caps, ks + alt)) == Succeed(caps, ks + alt[..n]);
      UnwindTo(m, caps, ks, alt[..n]);
      StepThenReaches(m, Succeed(caps, ks + alt), Succeed(caps, ks));
    }
  }

  /** What a lookahead body's matches mean for the machine, at the `match` at `pc`. */
  lemma LookEnds(m: Machine, c: Config, ks: seq<Choice>, k: Choice, pc: int, stk: seq<int>, rs: seq<State>)
    requires k.kind == LookPoint || k.kind == NegLookPoint
    requires pc in m.prog && m.prog[pc] == IMatch
    requires forall i :: 0 <= i < |rs| ==> InBounds(m.e, rs[i])
    requires Produces(m, c, ks + [k], pc, stk, rs)
    ensures Reaches(m, c, if rs == [] then Backtrack(m, ks + [k]) else Unwind(rs[0].caps, ks + [k]))
  {
    var ks' := ks + [k];
    if rs == [] {
      ReachesStep(m, Fail(ks'));
      ReachesTrans(m, c, Fail(ks'), Backtrack(m, ks'));
    } else {
      var alt :| ProducesVia(m, c, ks', alt, pc, stk, rs);
      var d := Run(pc, rs[0], stk, ks' + alt, []);
      assert InBounds(m.e, rs[0]);
      assert Step(m, d) == Succeed(rs[0].caps, ks' + alt);
      UnwindTo(m, rs[0].caps, ks', alt);
      StepThenReaches(m, d, Succeed(rs[0].caps, ks'));
      ReachesTrans(m, c, d, Succeed(rs[0].caps, ks'));
      ReachesStep(m, Succeed(rs[0].caps, ks'));
      ReachesTrans(m, c, Succeed(rs[0].caps, ks'), Unwind(rs[0].caps, ks'));
    }
  }

  /** The state after a lookahead whose body has the matches `rs`. */
  function AfterLook(negative: bool, s: State, rs: seq<State>): seq<State> {
    if negative then (if rs == [] then [s] else [])
    else if rs == [] then [] else [State(s.pos, rs[0].caps)]
  }

  lemma LookUnfold(m: Machine, t: Site, s: State)
    requires Suits(m, t, s) && t.n.Look?
    ensures Suits(m, AheadOf(t), s)
    ensures CodeOf(m, t) == LookCode(t.n.negative, CodeOf(m, AheadOf(t)))
    ensures MatchesOf(m, t, s) == AfterLook(t.n.negative, s, MatchesOf(m, AheadOf(t), s))
  {
    hide MatchAll, Iterate, Code, MatchLeaf;
    LookShape(m.e.canon, t.f, t.n, t.g, t.back);
  }

  lemma {:induction false} LookCorrect(m: Machine, t: Site, pc: int, s: State, stk: seq<int>, ks: seq<Choice>)
    requires Suits(m, t, s) && t.n.Look? && Loaded(m, pc, CodeOf(m, t))
    ensures ProducesMatches(m, t, pc, s, stk, ks)
    decreases t.n, 0, 0
  {
    hide Match, MatchAll, Code, Loaded, Produces, Valid, Groups;
    var x := AheadOf(t);
    LookUnfold(m, t, s);
    var cx := CodeOf(m, x);
    LoadedAround(m, pc, ILookahead(t.n.negative, Len(cx) + 1), cx, [IMatch]);
    CodeCorrect(m, x, pc + 5, s, stk, ks + [LookChoice(t.n.negative, pc + 6 + Len(cx), s, stk)]);
    LookCompose(m, pc, t.n.negative, cx, s, stk, ks, MatchesOf(m, x, s), x.back);
  }

  function LookChoice(negative: bool, to: int, s: State, stk: seq<int>): Choice {
    Choice(if negative then NegLookPoint else LookPoint, to, s, stk, 0)
  }

  lemma LookCompose(m: Machine, pc: int, negative: bool, cx: seq<Instr>, s: State, stk: seq<int>, ks: seq<Choice>,
                    rs: seq<State>, back: bool)
    requires Loaded(m, pc, LookCode(negative, cx)) && Wf(m.e, s) && AllGood(m.e, back, s, rs)
    requires var k := LookChoice(negative, pc + 6 + Len(cx), s, stk);
             Produces(m, Run(pc + 5, s, stk, ks + [k], []), ks + [k], pc + 5 + Len(cx), stk, rs)
    ensures Produces(m, Run(pc, s, stk, ks, []), ks, pc + Len(LookCode(negative, cx)), stk, AfterLook(negative, s, rs))
  {
    LoadedAround(m, pc, ILookahead(negative, Len(cx) + 1), cx, [IMatch]);
    LoadedOne(m, pc + 5 + Len(cx), IMatch);
    var to := pc + 6 + Len(cx);
    var k := LookChoice(negative, to, s, stk);
    var c := Run(pc, s, stk, ks, []);
    assert Step(m, c) == Run(pc + 5, s, stk, ks + [k], []);
    GoodInBounds(m.e, back, s, rs);
    LookEnds(m, Step(m, c), ks, k, pc + 5 + Len(cx), stk, rs);
    LookResult(m, c, ks, k, to, stk, s, rs);
  }

  /** The state after a lookahead. */
  lemma LookResult(m: Machine, c: Config, ks: seq<Choice>, k: Choice, to: int, stk: seq<int>, s: State, rs: seq<State>)
    requires k == Choice(k.kind, to, s, stk, 0) && (k.kind == LookPoint || k.kind == NegLookPoint)
    requires Reaches(m, Step(m, c), if rs == [] then Backtrack(m, ks + [k]) else Unwind(rs[0].caps, ks + [k]))
    ensures Produces(m, c, ks, to, stk, AfterLook(k.kind == NegLookPoint, s, rs))
  {
    assert (ks + [k])[..|ks + [k]| - 1] == ks;
    var d := if rs == [] then Backtrack(m, ks + [k]) else Unwind(rs[0].caps, ks + [k]);
    StepThenReaches(m, c, d);
    if (k.kind == NegLookPoint) != (rs == []) {
      ReachesStep(m, d);
    } else {
      var s' := if rs == [] then s else State(s.pos, rs[0].caps);
      ProducesOne(m, s', ks, to, stk);
      ReachesThenProduces(m, c, d, ks, to, stk, [s']);
    }
  }

  // ----- quantifiers -----

  lemma {:induction false} AtomsCorrect(m: Machine, p: Rep, a: seq<Instr>)
    requires WfEnv(m.e) && Valid(p.a) && a == Code(m.e.canon, p.f, p.a, p.g, p.back)
    ensures AtomAnywhere(m, p, a)
    decreases p.a, 3, 0
  {
    hide Produces, Loaded, Len, Valid, Groups, Match, Code;
    var t := Site(p.f, p.a, p.g, p.back);
    forall pc | Loaded(m, pc, a) ensures AtomOk(m, p, pc, pc + Len(a)) {
      var to := pc + Len(a);
      forall s, stk, ks | Fits(m, p, s) ensures AtomFrom(m, p, pc, to, s, stk, ks) {
        CodeCorrect(m, t, pc, s, stk, ks);
      }
    }
    AtomsMove(m, p, a);
  }

  lemma AtomsMove(m: Machine, p: Rep, a: seq<Instr>)
    requires WfEnv(m.e) && Valid(p.a) && a == Code(m.e.canon, p.f, p.a, p.g, p.back)
    ensures !NeedCheckAdvance(a) ==> AlwaysMoves(m, p)
  {
    if !NeedCheckAdvance(a) {
      forall s | Fits(m, p, s) ensures AllMove(s, Matches(m, p, s)) {
        AdvanceSound(m.e, p.f, p.a, p.g, p.back, s);
      }
    }
  }

  lemma {:induction false} RepeatCorrect(m: Machine, t: Site, pc: int, s: State, stk: seq<int>, ks: seq<Choice>)
    requires Suits(m, t, s) && t.n.Repeat? && Loaded(m, pc, CodeOf(m, t))
    ensures ProducesMatches(m, t, pc, s, stk, ks)
    decreases t.n, 0, 0
  {
    var n := t.n;
    var a := Code(m.e.canon, t.f, n.body, t.g, t.back);
    if UsesSimpleLoop(a, n.max, n.greedy) {
      SimpleCorrect(m, t, a, pc, s, stk, ks);
    } else {
      var p := Rep(t.f, n.body, t.g, t.back, n.greedy);
      AtomsCorrect(m, p, a);
      LoopCorrect(m, t, p, a, pc, s, stk, ks);
    }
  }

  lemma SimpleUnfold(m: Machine, t: Site, a: seq<Instr>, s: State)
    requires Suits(m, t, s) && t.n.Repeat?
    requires a == Code(m.e.canon, t.f, t.n.body, t.g, t.back) && UsesSimpleLoop(a, t.n.max, t.n.greedy)
    ensures CodeOf(m, t) == SimpleLoop(a, t.n.min, t.n.max)
    ensures SimpleAtom(a) && !t.back && Valid(t.n.body) && t.n.min <= t.n.max <= INFINITY && t.n.max > 0
    ensures 2 * (t.g + Groups(t.n.body)) <= |s.caps|
    ensures MatchesOf(m, t, s) == Iterate(m.e, t.f, t.n.body, t.g, false, t.n.min, t.n.max, true, s)
  {
    hide SimpleLoop, Iterate, MatchAll, MatchLeaf;
    SimpleForward(m.e.canon, t.f, t.n.body, t.g, t.back);
    var s' := if t.n.min == 0 then State(s.pos, ResetCaps(s.caps, t.g, t.g + Groups(t.n.body))) else s;
    assert s'.caps == s.caps;
  }

  lemma SimpleCorrect(m: Machine, t: Site, a: seq<Instr>, pc: int, s: State, stk: seq<int>, ks: seq<Choice>)
    requires Suits(m, t, s) && t.n.Repeat? && Loaded(m, pc, CodeOf(m, t))
    requires a == Code(m.e.canon, t.f, t.n.body, t.g, t.back) && UsesSimpleLoop(a, t.n.max, t.n.greedy)
    ensures ProducesMatches(m, t, pc, s, stk, ks)
  {
    hide Produces, Loaded, MatchAll, SimpleLoop, Match, Iterate, Code, Valid, Groups, UsesSimpleLoop, SimpleAtom;
    SimpleUnfold(m, t, a, s);
    GreedyCorrect(m, t.f, t.n.body, t.g, a, pc, t.n.min, t.n.max, s, stk, ks, MatchesOf(m, t, s));
  }

  /** A simple atom has no groups, and reads characters only forward. */
  lemma {:induction false} SimpleForward(canon: int -> int, f: Flags, n: Node, g: nat, back: bool)
    requires Valid(n) && AllSimple(Code(canon, f, n, g, back))
    ensures Groups(n) == 0
    ensures CountChars(Code(canon, f, n, g, back)) > 0 ==> !back
    decreases n
  {
    var code := Code(canon, f, n, g, back);
    if n.Cat? {
      var cx := Code(canon, f, Lead(n, back), LeadGroup(n, g, back), back);
      var cy := Code(canon, f, Trail(n, back), TrailGroup(n, g, back), back);
      SimpleAppend(cx, cy);
      SimpleForward(canon, f, Lead(n, back), LeadGroup(n, g, back), back);
      SimpleForward(canon, f, Trail(n, back), TrailGroup(n, g, back), back);
    } else if n.Modify? {
      SimpleForward(canon, Update(f, n.add, n.remove), n.scope, g, back);
    } else if n.Repeat? {
      SimpleIsLocal(code, 0);
      QuantPredictable(Code(canon, f, n.body, g, back), g, Groups(n.body), n.min, n.max, n.greedy);
      if n.max == 0 {
        if Groups(n.body) > 0 {
          NotSimple(code, 0);
        }
      } else {
        SimpleForward(canon, f, n.body, g, back);
      }
    } else if n.Or? || n.Group? || n.Look? || (IsOneChar(n) && back) {
      NotSimple(code, 0);
    }
  }

  /** The capture reset, then the loops. */
  lemma LoopCorrect(m: Machine, t: Site, p: Rep, a: seq<Instr>, pc: int, s: State, stk: seq<int>, ks: seq<Choice>)
    requires Suits(m, t, s) && t.n.Repeat? && Loaded(m, pc, CodeOf(m, t))
    requires a == Code(m.e.canon, t.f, t.n.body, t.g, t.back) && !UsesSimpleLoop(a, t.n.max, t.n.greedy)
    requires p == Rep(t.f, t.n.body, t.g, t.back, t.n.greedy) && AtomAnywhere(m, p, a)
    ensures ProducesMatches(m, t, pc, s, stk, ks)
  {
    hide Loaded, Produces, Match, MatchAll, Code, Loops, Iterate, AtomAnywhere, Groups, Valid;
    LoopUnfold(m, t, p, a, s);
    if t.n.min == 0 {
      ResetCompose(m, p, a, t.n.max, pc, s, stk, ks);
    } else {
      LoopsLoaded(m, p, a, t.n.min, t.n.max, pc, s, stk, ks);
    }
  }

  lemma LoopUnfold(m: Machine, t: Site, p: Rep, a: seq<Instr>, s: State)
    requires Suits(m, t, s) && t.n.Repeat?
    requires a == Code(m.e.canon, t.f, t.n.body, t.g, t.back) && !UsesSimpleLoop(a, t.n.max, t.n.greedy)
    requires p == Rep(t.f, t.n.body, t.g, t.back, t.n.greedy)
    ensures Fits(m, p, s) && t.n.min <= t.n.max <= INFINITY
    ensures CodeOf(m, t) == if t.n.min == 0 then Reset(p.g, Groups(p.a)) + Loops(a, t.n.min, t.n.max, p.greedy)
                            else Loops(a, t.n.min, t.n.max, p.greedy)
    ensures MatchesOf(m, t, s) == Iterations(m, p, t.n.min, t.n.max,
                                             if t.n.min == 0 then State(s.pos,
                                               ResetCaps(s.caps, p.g, p.g + Groups(p.a))) else s)
  {
    hide Iterate, MatchAll, MatchLeaf, Loops, WfEnv, Len;
  }

  lemma ResetCompose(m: Machine, p: Rep, a: seq<Instr>, max: nat, pc: int, s: State, stk: seq<int>, ks: seq<Choice>)
    requires AtomAnywhere(m, p, a) && Fits(m, p, s) && max <= INFINITY
    requires Loaded(m, pc, Reset(p.g, Groups(p.a)) + Loops(a, 0, max, p.greedy))
    ensures var s' := State(s.pos, ResetCaps(s.caps, p.g, p.g + Groups(p.a)));
            Produces(m, Run(pc, s, stk, ks, []), ks, pc + Len(Reset(p.g, Groups(p.a)) + Loops(a, 0, max, p.greedy)),
              stk,
                     Iterations(m, p, 0, max, s'))
  {
    hide Produces, Groups, Match, Iterate, Loops, AtomAnywhere;
    var groups, loops := Groups(p.a), Loops(a, 0, max, p.greedy);
    var reset := Reset(p.g, groups);
    LoadedSplit(m, pc, reset, loops);
    var s' := State(s.pos, ResetCaps(s.caps, p.g, p.g + groups));
    LoopsLoaded(m, p, a, 0, max, pc + Len(reset), s', stk, ks);
    if groups > 0 {
      LoadedOne(m, pc, reset[0]);
      assert Step(m, Run(pc, s, stk, ks, [])) == Run(pc + 3, s', stk, ks, []);
      StepThenProduces(m, Run(pc, s, stk, ks, []), ks, pc + 3 + Len(loops), stk, Iterations(m, p, 0, max, s'));
    } else {
      assert s' == s by { assert s'.caps == s.caps; }
    }
  }
}
