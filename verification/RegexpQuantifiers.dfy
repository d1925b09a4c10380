/** Each form of code emitted for a quantifier produces the iterations of its atom. */
module RegexpQuantifiers {
  import opened RegexpSyntax
  import opened RegexpMatcher
  import opened RegexpBytecode
  import opened RegexpCodegen
  import opened RegexpVm
  import opened RegexpSimulation
  import opened RegexpLoops

  /** Wherever the atom's code is loaded, it produces the atom's matches. */
  ghost predicate AtomAnywhere(m: Machine, p: Rep, a: seq<Instr>) {
    && (forall pc :: Loaded(m, pc, a) ==> AtomOk(m, p, pc, pc + Len(a)))
    && (!NeedCheckAdvance(a) ==> AlwaysMoves(m, p))
  }

  lemma CheckedLoaded(m: Machine, p: Rep, a: seq<Instr>, pc: int)
    requires AtomAnywhere(m, p, a) && Loaded(m, pc, Checked(a))
    ensures Len(Checked(a)) == CheckLen(a)
    ensures CheckedOk(m, p, pc, pc + CheckLen(a))
  {
    hide Produces, Match, Iterate, MatchAll, Groups, NeedCheckAdvance, Valid;
    if NeedCheckAdvance(a) {
      LoadedAround(m, pc, IPushCharPos, a, [ICheckAdvance]);
      assert [ICheckAdvance][1..] == [];
      assert AtomOk(m, p, pc + 1, pc + 1 + Len(a));
    } else {
      assert AtomOk(m, p, pc, pc + Len(a));
    }
  }

  lemma OnceLoaded(m: Machine, p: Rep, a: seq<Instr>, pc: int, s: State, stk: seq<int>, ks: seq<Choice>)
    requires AtomAnywhere(m, p, a) && Loaded(m, pc, OnceLoop(a, p.greedy)) && Fits(m, p, s)
    ensures IterFrom(m, p, pc, stk, pc + Len(OnceLoop(a, p.greedy)), stk, 0, 1, s, ks)
  {
    hide Produces, Iterate, Match, MatchAll, Valid, Groups, NeedCheckAdvance, Checked, CheckedOk;
    var split := Split(p.greedy, CheckLen(a));
    LoadedSplit(m, pc, [split], Checked(a));
    assert [split][1..] == [];
    CheckedLoaded(m, p, a, pc + 5);
    OnceCorrect(m, p, pc, pc + 5 + CheckLen(a), s, stk, ks);
  }

  lemma StarLoaded(m: Machine, p: Rep, a: seq<Instr>, pc: int, s: State, stk: seq<int>, ks: seq<Choice>)
    requires AtomAnywhere(m, p, a) && Loaded(m, pc, StarLoop(a, p.greedy)) && Fits(m, p, s)
    ensures IterFrom(m, p, pc, stk, pc + Len(StarLoop(a, p.greedy)), stk, 0, INFINITY, s, ks)
  {
    hide Produces, Iterate, Match, MatchAll, Valid, Groups;
    var goto := IGoto(-(CheckLen(a) + 10));
    LoadedAround(m, pc, Split(p.greedy, CheckLen(a) + 5), Checked(a), [goto]);
    assert [goto][1..] == [];
    CheckedLoaded(m, p, a, pc + 5);
    StarCorrect(m, p, pc, pc + 10 + CheckLen(a), s, stk, ks);
  }

  lemma PushThenIterations(m: Machine, p: Rep, pc: int, k: nat, s: State, stk: seq<int>, ks: seq<Choice>, to: int,
                           min: nat, max: nat)
    requires Fits(m, p, s) && pc in m.prog && m.prog[pc] == IPushI32(k)
    requires IterFrom(m, p, pc + 5, stk + [k], to, stk, min, max, s, ks)
    ensures IterFrom(m, p, pc, stk, to, stk, min, max, s, ks)
  {
    var c := Run(pc, s, stk, ks, []);
    assert Step(m, c) == Run(pc + 5, s, stk + [k], ks, []);
    StepThenProduces(m, c, ks, to, stk, Iterations(m, p, min, max, s));
  }

  lemma CountedLayout(m: Machine, p: Rep, a: seq<Instr>, k: nat, pc: int)
    requires AtomAnywhere(m, p, a) && Loaded(m, pc, CountedLoop(a, k, p.greedy))
    ensures Len(CountedLoop(a, k, p.greedy)) == 16 + CheckLen(a)
    ensures pc in m.prog && m.prog[pc] == IPushI32(k)
    ensures CountedAt(m, p, pc + 5, pc + 16 + CheckLen(a))
  {
    hide Produces, Checked, CheckedOk, Match, Iterate, NeedCheckAdvance, Groups, Valid, MatchAll, Loaded, Len,
         AtomAnywhere, CheckLen;
    LoadedBetween(m, pc, IPushI32(k), Split(p.greedy, CheckLen(a) + 5), Checked(a), ILoop(-(CheckLen(a) + 10)), IDrop);
    CheckedLoaded(m, p, a, pc + 10);
    LoopLoaded(m, pc + 5, pc + 10 + CheckLen(a));
  }

  lemma CountedLoaded(m: Machine, p: Rep, a: seq<Instr>, k: nat, pc: int, s: State, stk: seq<int>, ks: seq<Choice>)
    requires AtomAnywhere(m, p, a) && Loaded(m, pc, CountedLoop(a, k, p.greedy)) && Fits(m, p, s) && 0 < k < INFINITY
    ensures IterFrom(m, p, pc, stk, pc + Len(CountedLoop(a, k, p.greedy)), stk, 0, k, s, ks)
  {
    hide Produces, Iterate, Match, MatchAll, Valid, Groups;
    CountedLayout(m, p, a, k, pc);
    var to := pc + 16 + CheckLen(a);
    CountedCorrect(m, p, pc + 5, to, s, k, stk, ks);
    PushThenIterations(m, p, pc, k, s, stk, ks, to, 0, k);
  }

  lemma LoopLoaded(m: Machine, pc: int, loop: int)
    requires Loaded(m, loop, [ILoop(pc - (loop + 5)), IDrop])
    ensures LoopAt(m, pc, loop) && Len([ILoop(pc - (loop + 5)), IDrop]) == 6
  {
    LoadedTwo(m, loop, ILoop(pc - (loop + 5)), IDrop);
  }

  /** The optional part after the mandatory iterations. */
  lemma OptionalLoaded(m: Machine, p: Rep, a: seq<Instr>, min: nat, max: nat, pc: int, stk: seq<int>, room: int)
    requires AtomAnywhere(m, p, a) && Loaded(m, pc, Optional(a, min, max, p.greedy)) && min <= max <= INFINITY
             && min > 0
    ensures IterOk(m, p, pc, stk, pc + Len(Optional(a, min, max, p.greedy)), stk, 0, Fewer(max, min), room)
  {
    hide Produces, Iterate, Match, MatchAll, Valid, Groups;
    var to, left := pc + Len(Optional(a, min, max, p.greedy)), Fewer(max, min);
    if max != INFINITY && max == min {
      ExitOk(m, p, pc, stk, room);
    } else {
      forall s, ks | Fits(m, p, s) ensures IterFrom(m, p, pc, stk, to, stk, 0, left, s, ks) {
        if max == INFINITY {
          StarLoaded(m, p, a, pc, s, stk, ks);
        } else {
          CountedLoaded(m, p, a, max - min, pc, s, stk, ks);
        }
      }
    }
  }

  lemma FirstLoaded(m: Machine, p: Rep, a: seq<Instr>, max: nat, pc: int, s: State, stk: seq<int>, ks: seq<Choice>)
    requires AtomAnywhere(m, p, a) && Fits(m, p, s) && 1 <= max <= INFINITY
    requires Loaded(m, pc, a + Optional(a, 1, max, p.greedy))
    ensures IterFrom(m, p, pc, stk, pc + Len(a + Optional(a, 1, max, p.greedy)), stk, 1, max, s, ks)
  {
    hide Produces, Loaded, Len, Iterate, Match, MatchAll, Valid, Groups, Optional;
    var o := Optional(a, 1, max, p.greedy);
    LoadedSplit(m, pc, a, o);
    OptionalLoaded(m, p, a, 1, max, pc + Len(a), stk, Room(m.e, p.back, s) + 1);
    assert AtomOk(m, p, pc, pc + Len(a));
    assert Fewer(max, 1) == Less(max);
    MandatoryStep(m, p, pc, pc + Len(a), s, stk, ks, pc + Len(a) + Len(o), stk, 1, max);
  }

  lemma ManyLayout(m: Machine, a: seq<Instr>, min: nat, pc: int, o: seq<Instr>)
    requires min > 1 && Loaded(m, pc, ExactLoop(a, min) + o)
    ensures pc in m.prog && m.prog[pc] == IPushI32(min)
    ensures Loaded(m, pc + 5, a) && LoopAt(m, pc + 5, pc + 5 + Len(a)) && Loaded(m, pc + 11 + Len(a), o)
    ensures Len(ExactLoop(a, min) + o) == 11 + Len(a) + Len(o)
  {
    hide Loaded;
    LoadedSplit(m, pc, ExactLoop(a, min), o);
    LoadedAround(m, pc, IPushI32(min), a, [ILoop(-(Len(a) + 5)), IDrop]);
    LoopLoaded(m, pc + 5, pc + 5 + Len(a));
  }

  lemma ManyLoaded(m: Machine, p: Rep, a: seq<Instr>, min: nat, max: nat, pc: int, s: State, stk: seq<int>,
                   ks: seq<Choice>)
    requires AtomAnywhere(m, p, a) && Fits(m, p, s) && 1 < min <= max <= INFINITY
    requires Loaded(m, pc, ExactLoop(a, min) + Optional(a, min, max, p.greedy))
    ensures IterFrom(m, p, pc, stk, pc + Len(ExactLoop(a, min) + Optional(a, min, max, p.greedy)), stk, min, max, s, ks)
  {
    hide Produces, Loaded, Len, Iterate, Match, MatchAll, Valid, Groups, Optional, ExactLoop;
    var o := Optional(a, min, max, p.greedy);
    var to, loop := pc + 11 + Len(a) + Len(o), pc + 5 + Len(a);
    ManyLayout(m, a, min, pc, o);
    OptionalLoaded(m, p, a, min, max, loop + 6, stk, |m.e.text.units| + 1);
    assert AtomOk(m, p, pc + 5, pc + 5 + Len(a));
    ExactCorrect(m, p, pc + 5, loop, s, min, stk, ks, to, max);
    PushThenIterations(m, p, pc, min, s, stk, ks, to, min, max);
  }

  lemma PlusLoaded(m: Machine, p: Rep, a: seq<Instr>, pc: int, s: State, stk: seq<int>, ks: seq<Choice>)
    requires AtomAnywhere(m, p, a) && Fits(m, p, s) && !NeedCheckAdvance(a)
    requires Loaded(m, pc, a + [BackSplit(p.greedy, -(Len(a) + 5))])
    ensures IterFrom(m, p, pc, stk, pc + Len(a + [BackSplit(p.greedy, -(Len(a) + 5))]), stk, 1, INFINITY, s, ks)
  {
    hide Produces, Iterate, Match, MatchAll, Valid, Groups;
    var i := BackSplit(p.greedy, -(Len(a) + 5));
    LoadedSplit(m, pc, a, [i]);
    assert [i][1..] == [];
    var split := pc + Len(a);
    var to := split + 5;
    assert AtomOk(m, p, pc, split);
    forall s', ks' | Fits(m, p, s') ensures IterFrom(m, p, split, stk, to, stk, 0, INFINITY, s', ks') {
      BackSplitCorrect(m, p, pc, split, s', stk, ks');
    }
    MandatoryStep(m, p, pc, split, s, stk, ks, to, stk, 1, INFINITY);
  }

  /** The general loops produce the iterations of the atom. */
  lemma LoopsLoaded(m: Machine, p: Rep, a: seq<Instr>, min: nat, max: nat, pc: int, s: State, stk: seq<int>,
                    ks: seq<Choice>)
    requires AtomAnywhere(m, p, a) && Fits(m, p, s) && min <= max <= INFINITY
    requires Loaded(m, pc, Loops(a, min, max, p.greedy))
    ensures IterFrom(m, p, pc, stk, pc + Len(Loops(a, min, max, p.greedy)), stk, min, max, s, ks)
  {
    hide Produces, Loaded, Iterate, Match, MatchAll, Valid, Groups, Optional, AtomAnywhere;
    if min == 0 {
      MaybeLoaded(m, p, a, max, pc, s, stk, ks);
    } else if min == 1 && max == INFINITY && !NeedCheckAdvance(a) {
      PlusLoaded(m, p, a, pc, s, stk, ks);
    } else if min == 1 {
      FirstLoaded(m, p, a, max, pc, s, stk, ks);
    } else {
      ManyLoaded(m, p, a, min, max, pc, s, stk, ks);
    }
  }

  lemma MaybeLoaded(m: Machine, p: Rep, a: seq<Instr>, max: nat, pc: int, s: State, stk: seq<int>, ks: seq<Choice>)
    requires AtomAnywhere(m, p, a) && Fits(m, p, s) && max <= INFINITY
    requires Loaded(m, pc, Loops(a, 0, max, p.greedy))
    ensures IterFrom(m, p, pc, stk, pc + Len(Loops(a, 0, max, p.greedy)), stk, 0, max, s, ks)
  {
    hide Loaded, Match, MatchAll, Valid, Groups, OnceLoop, StarLoop, CountedLoop;
    if max == 0 {
      ProducesOne(m, s, ks, pc, stk);
    } else if max == 1 {
      OnceLoaded(m, p, a, pc, s, stk, ks);
    } else if max == INFINITY {
      StarLoaded(m, p, a, pc, s, stk, ks);
    } else {
      CountedLoaded(m, p, a, max, pc, s, stk, ks);
    }
  }
}
