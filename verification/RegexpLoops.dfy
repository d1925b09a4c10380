/**
 The loops emitted for a quantifier produce the iterations of the reference
 matcher, given that the atom's code produces the matches of the atom.
 */
module RegexpLoops {
  import opened RegexpSyntax
  import opened RegexpMatcher
  import opened RegexpBytecode
  import opened RegexpCodegen
  import opened RegexpVm
  import opened RegexpSimulation

  /** An atom under repetition: flags, pattern, first group, direction, preference. */
  datatype Rep = Rep(f: Flags, a: Node, g: nat, back: bool, greedy: bool)

  ghost predicate Fits(m: Machine, p: Rep, s: State) {
    Wf(m.e, s) && 2 * (p.g + Groups(p.a)) <= |s.caps|
  }

  ghost function Matches(m: Machine, p: Rep, s: State): seq<State>
    requires Fits(m, p, s)
  {
    Match(m.e, p.f, p.a, p.g, p.back, s)
  }

  ghost function Iterations(m: Machine, p: Rep, min: nat, max: nat, s: State): seq<State>
    requires Fits(m, p, s)
  {
    Iterate(m.e, p.f, p.a, p.g, p.back, min, max, p.greedy, s)
  }

  ghost predicate AtomFrom(m: Machine, p: Rep, pc: int, to: int, s: State, stk: seq<int>, ks: seq<Choice>)
    requires Fits(m, p, s)
  {
    Produces(m, Run(pc, s, stk, ks, []), ks, to, stk, Matches(m, p, s))
  }

  /** The code at `pc`, up to `to`, produces the matches of the atom. */
  ghost predicate AtomOk(m: Machine, p: Rep, pc: int, to: int) {
    forall s, stk, ks | Fits(m, p, s) :: AtomFrom(m, p, pc, to, s, stk, ks)
  }

  ghost predicate IterFrom(m: Machine, p: Rep, pc: int, stk1: seq<int>, to: int, stk: seq<int>, min: nat, max: nat,
                           s: State, ks: seq<Choice>)
    requires Fits(m, p, s)
  {
    Produces(m, Run(pc, s, stk1, ks, []), ks, to, stk, Iterations(m, p, min, max, s))
  }

  /** From `pc` the machine produces, at `to`, the iterations from every state with less than `room` left. */
  ghost predicate IterOk(m: Machine, p: Rep, pc: int, stk1: seq<int>, to: int, stk: seq<int>, min: nat, max: nat,
                         room: int) {
    forall s, ks | Fits(m, p, s) && Room(m.e, p.back, s) < room :: IterFrom(m, p, pc, stk1, to, stk, min, max, s, ks)
  }

  /** At the exit of a loop no iteration is left. */
  lemma ExitOk(m: Machine, p: Rep, to: int, stk: seq<int>, room: int)
    ensures IterOk(m, p, to, stk, to, stk, 0, 0, room)
  {
    forall s, ks | Fits(m, p, s) ensures IterFrom(m, p, to, stk, to, stk, 0, 0, s, ks) {
      ProducesOne(m, s, ks, to, stk);
    }
  }

  /** Iterating from each of the states produced at `pc`. */
  lemma {:induction false} BindIterations(m: Machine, p: Rep, c: Config, ks: seq<Choice>, pc: int, stk1: seq<int>,
                                          to: int, stk: seq<int>,
                                          min: nat, max: nat, room: nat, s: State, rs: seq<State>)
    requires Fits(m, p, s) && AllGood(m.e, p.back, s, rs) && Within(m.e, p.back, room, |s.caps|, rs)
    requires Produces(m, c, ks, pc, stk1, rs)
    requires IterOk(m, p, pc, stk1, to, stk, min, max, room)
    ensures Produces(m, c, ks, to, stk, IterateAll(m.e, p.f, p.a, p.g, p.back, min, max, p.greedy, room, s, rs))
    decreases |rs|
  {
    if rs == [] {
      assert Produces(m, c, ks, to, stk, []);
    } else {
      var alt :| ProducesVia(m, c, ks, alt, pc, stk1, rs);
      BindIterations(m, p, Fail(ks + alt), ks, pc, stk1, to, stk, min, max, room, s, rs[1..]);
      assert Good(m.e, p.back, s, rs[0]) && Fits(m, p, rs[0]);
      assert IterFrom(m, p, pc, stk1, to, stk, min, max, rs[0], ks + alt);
      ProducesBind(m, c, Run(pc, rs[0], stk1, ks + alt, []), ks, alt, to, stk, Iterations(m, p, min, max, rs[0]),
                   IterateAll(m.e, p.f, p.a, p.g, p.back, min, max, p.greedy, room, s, rs[1..]));
    }
  }

  // ----- the advance check -----

  /** Every match of the atom moves the position. */
  ghost predicate AlwaysMoves(m: Machine, p: Rep) {
    forall s | Fits(m, p, s) :: forall i :: 0 <= i < |Matches(m, p, s)| ==> Matches(m, p, s)[i].pos != s.pos
  }

  lemma {:induction false} AllMoved(rs: seq<State>, pos: int)
    requires forall i :: 0 <= i < |rs| ==> rs[i].pos != pos
    ensures Moved(rs, pos) == rs
  {
    if rs != [] {
      AllMoved(rs[1..], pos);
    }
  }

  /** `check_advance` lets through exactly the states that moved. */
  lemma {:induction false} ProducesCheck(m: Machine, c: Config, ks: seq<Choice>, pc: int, stk: seq<int>, pos: int,
                                         rs: seq<State>)
    requires pc in m.prog && m.prog[pc] == ICheckAdvance
    requires forall i :: 0 <= i < |rs| ==> InBounds(m.e, rs[i])
    requires Produces(m, c, ks, pc, stk + [pos], rs)
    ensures Produces(m, c, ks, pc + 1, stk, Moved(rs, pos))
    decreases |rs|
  {
    if rs == [] {
      assert Produces(m, c, ks, pc + 1, stk, []);
    } else {
      var alt :| ProducesVia(m, c, ks, alt, pc, stk + [pos], rs);
      ProducesCheck(m, Fail(ks + alt), ks, pc, stk, pos, rs[1..]);
      var d := Run(pc, rs[0], stk + [pos], ks + alt, []);
      assert (stk + [pos])[..|stk|] == stk;
      var first := if rs[0].pos != pos then [rs[0]] else [];
      if rs[0].pos != pos {
        assert Step(m, d) == Run(pc + 1, rs[0], stk, ks + alt, []);
        ProducesOne(m, rs[0], ks + alt, pc + 1, stk);
        StepThenProduces(m, d, ks + alt, pc + 1, stk, first);
      } else {
        assert Step(m, d) == Fail(ks + alt);
        ProducesNone(m, d, ks + alt, pc + 1, stk);
      }
      ProducesBind(m, c, d, ks, alt, pc + 1, stk, first, Moved(rs[1..], pos));
    }
  }

  /** The code of a guarded atom: either it checks for an advance, or no match could fail the check. */
  ghost predicate CheckedOk(m: Machine, p: Rep, pc: int, to: int) {
    || (AtomOk(m, p, pc, to) && AlwaysMoves(m, p))
    || (&& pc in m.prog && m.prog[pc] == IPushCharPos
        && to - 1 in m.prog && m.prog[to - 1] == ICheckAdvance
        && AtomOk(m, p, pc + 1, to - 1))
  }

  lemma CheckedBody(m: Machine, p: Rep, pc: int, to: int, s: State, stk: seq<int>, ks: seq<Choice>)
    requires Fits(m, p, s) && CheckedOk(m, p, pc, to)
    ensures Produces(m, Run(pc, s, stk, ks, []), ks, to, stk, Moved(Matches(m, p, s), s.pos))
  {
    var rs := Matches(m, p, s);
    assert AllGood(m.e, p.back, s, rs);
    if AtomOk(m, p, pc, to) && AlwaysMoves(m, p) {
      AllMoved(rs, s.pos);
      assert AtomFrom(m, p, pc, to, s, stk, ks);
    } else {
      var c := Run(pc, s, stk, ks, []);
      assert Step(m, c) == Run(pc + 1, s, stk + [s.pos], ks, []);
      assert AtomFrom(m, p, pc + 1, to - 1, s, stk + [s.pos], ks);
      assert forall i :: 0 <= i < |rs| ==> Good(m.e, p.back, s, rs[i]);
      ProducesCheck(m, Step(m, c), ks, to - 1, stk, s.pos, rs);
      StepThenProduces(m, c, ks, to, stk, Moved(rs, s.pos));
    }
  }

  lemma MovedWithin(m: Machine, p: Rep, s: State)
    requires Fits(m, p, s)
    ensures AllGood(m.e, p.back, s, Moved(Matches(m, p, s), s.pos))
    ensures Within(m.e, p.back, Room(m.e, p.back, s), |s.caps|, Moved(Matches(m, p, s), s.pos))
  {
    var rs := Matches(m, p, s);
    var ms := Moved(rs, s.pos);
    forall i | 0 <= i < |ms| ensures Good(m.e, p.back, s, ms[i]) {
      assert ms[i] in rs;
    }
  }

  // ----- loops -----

  /** The iterations beyond the minimum, from the guarded atom at `body` and the exit at `exit`. */
  lemma OptionalStep(m: Machine, p: Rep, pc: int, first: int, second: int, body: int, exit: int, s: State,
                     stk1: seq<int>, ks: seq<Choice>,
                     to: int, stk: seq<int>, max: nat, rest: seq<State>)
    requires Fits(m, p, s) && pc in m.prog && max > 0
    requires || (m.prog[pc] == ISplitNextFirst(second - (pc + 5)) && first == pc + 5)
             || (m.prog[pc] == ISplitGotoFirst(first - (pc + 5)) && second == pc + 5)
    requires if p.greedy then first == body && second == exit else first == exit && second == body
    requires forall ks' :: Produces(m, Run(body, s, stk1, ks', []), ks', to, stk, rest)
    requires forall ks' :: Produces(m, Run(exit, s, stk1, ks', []), ks', to, stk, [s])
    ensures Produces(m, Run(pc, s, stk1, ks, []), ks, to, stk, if p.greedy then rest + [s] else [s] + rest)
  {
    var c := Run(pc, s, stk1, ks, []);
    var ks' := ks + [Choice(SplitPoint, second, s, stk1, 0)];
    assert Step(m, c) == Run(first, s, stk1, ks', []);
    if p.greedy {
      assert Produces(m, Run(body, s, stk1, ks', []), ks', to, stk, rest);
      assert Produces(m, Run(exit, s, stk1, ks, []), ks, to, stk, [s]);
      ProducesSplit(m, c, ks, first, second, s, stk1, to, stk, rest, [s]);
    } else {
      assert Produces(m, Run(exit, s, stk1, ks', []), ks', to, stk, [s]);
      assert Produces(m, Run(body, s, stk1, ks, []), ks, to, stk, rest);
      ProducesSplit(m, c, ks, first, second, s, stk1, to, stk, [s], rest);
    }
  }

  ghost function Rest(m: Machine, p: Rep, max: nat, s: State): seq<State>
    requires Fits(m, p, s)
  {
    MovedWithin(m, p, s);
    IterateAll(m.e, p.f, p.a, p.g, p.back, 0, Less(max), p.greedy, Room(m.e, p.back, s), s,
      Moved(Matches(m, p, s), s.pos))
  }

  lemma IterationsOptional(m: Machine, p: Rep, max: nat, s: State)
    requires Fits(m, p, s) && max > 0
    ensures Iterations(m, p, 0, max, s) == if p.greedy then Rest(m, p, max, s) + [s] else [s] + Rest(m, p, max, s)
  {
  }

  /** Zero or one time: a split around the guarded atom. */
  lemma OnceCorrect(m: Machine, p: Rep, pc: int, to: int, s: State, stk: seq<int>, ks: seq<Choice>)
    requires Fits(m, p, s) && pc in m.prog
    requires m.prog[pc] == Split(p.greedy, to - (pc + 5))
    requires CheckedOk(m, p, pc + 5, to)
    ensures IterFrom(m, p, pc, stk, to, stk, 0, 1, s, ks)
  {
    var room := Room(m.e, p.back, s);
    var rest, body := Rest(m, p, 1, s), pc + 5;
    ExitOk(m, p, to, stk, room);
    forall ks' ensures Produces(m, Run(body, s, stk, ks', []), ks', to, stk, rest)
    {
      CheckedBody(m, p, body, to, s, stk, ks');
      MovedWithin(m, p, s);
      BindIterations(m, p, Run(body, s, stk, ks', []), ks', to, stk, to, stk, 0, 0, room, s,
        Moved(Matches(m, p, s), s.pos));
    }
    forall ks' ensures Produces(m, Run(to, s, stk, ks', []), ks', to, stk, [s]) {
      ProducesOne(m, s, ks', to, stk);
    }
    if p.greedy {
      OptionalStep(m, p, pc, body, to, body, to, s, stk, ks, to, stk, 1, rest);
    } else {
      OptionalStep(m, p, pc, to, body, body, to, s, stk, ks, to, stk, 1, rest);
    }
    IterationsOptional(m, p, 1, s);
  }

  /** Any number of times: the split, the guarded atom and a jump back. */
  ghost predicate StarAt(m: Machine, p: Rep, pc: int, to: int) {
    && pc in m.prog && m.prog[pc] == Split(p.greedy, to - (pc + 5))
    && to - 5 in m.prog && m.prog[to - 5] == IGoto(pc - to)
    && CheckedOk(m, p, pc + 5, to - 5)
  }

  lemma {:induction false} StarCorrect(m: Machine, p: Rep, pc: int, to: int, s: State, stk: seq<int>, ks: seq<Choice>)
    requires Fits(m, p, s) && StarAt(m, p, pc, to)
    ensures IterFrom(m, p, pc, stk, to, stk, 0, INFINITY, s, ks)
    decreases Room(m.e, p.back, s)
  {
    hide Match, Iterate, MatchAll, Groups, Valid, Produces;
    var room := Room(m.e, p.back, s);
    var rest, body := Rest(m, p, INFINITY, s), pc + 5;
    forall s', ks' | Fits(m, p, s') && Room(m.e, p.back, s') < room
      ensures IterFrom(m, p, pc, stk, to, stk, 0, INFINITY, s', ks')
    {
      StarCorrect(m, p, pc, to, s', stk, ks');
    }
    forall ks' ensures Produces(m, Run(body, s, stk, ks', []), ks', to, stk, rest)
    {
      var ms := Moved(Matches(m, p, s), s.pos);
      CheckedBody(m, p, body, to - 5, s, stk, ks');
      MovedWithin(m, p, s);
      assert forall i :: 0 <= i < |ms| ==> Good(m.e, p.back, s, ms[i]);
      ProducesGoto(m, Run(body, s, stk, ks', []), ks', to - 5, pc - to, stk, ms);
      BindIterations(m, p, Run(body, s, stk, ks', []), ks', pc, stk, to, stk, 0, INFINITY, room, s, ms);
    }
    forall ks' ensures Produces(m, Run(to, s, stk, ks', []), ks', to, stk, [s]) {
      ProducesOne(m, s, ks', to, stk);
    }
    if p.greedy {
      OptionalStep(m, p, pc, body, to, body, to, s, stk, ks, to, stk, INFINITY, rest);
    } else {
      OptionalStep(m, p, pc, to, body, body, to, s, stk, ks, to, stk, INFINITY, rest);
    }
    IterationsOptional(m, p, INFINITY, s);
  }

  /** The compact form of `+`: the atom, which always moves, followed by a split back to it. */
  lemma {:induction false} BackSplitCorrect(m: Machine, p: Rep, pc: int, split: int, s: State, stk: seq<int>,
                                            ks: seq<Choice>)
    requires Fits(m, p, s)
    requires split in m.prog && m.prog[split] == BackSplit(p.greedy, pc - (split + 5))
    requires AtomOk(m, p, pc, split) && AlwaysMoves(m, p)
    ensures IterFrom(m, p, split, stk, split + 5, stk, 0, INFINITY, s, ks)
    decreases Room(m.e, p.back, s)
  {
    var to := split + 5;
    var room := Room(m.e, p.back, s);
    var rest := Rest(m, p, INFINITY, s);
    forall s', ks' | Fits(m, p, s') && Room(m.e, p.back, s') < room
      ensures IterFrom(m, p, split, stk, to, stk, 0, INFINITY, s', ks')
    {
      BackSplitCorrect(m, p, pc, split, s', stk, ks');
    }
    forall ks' ensures Produces(m, Run(pc, s, stk, ks', []), ks', to, stk, rest)
    {
      CheckedBody(m, p, pc, split, s, stk, ks');
      MovedWithin(m, p, s);
      BindIterations(m, p, Run(pc, s, stk, ks', []), ks', split, stk, to, stk, 0, INFINITY, room, s,
        Moved(Matches(m, p, s), s.pos));
    }
    forall ks' ensures Produces(m, Run(to, s, stk, ks', []), ks', to, stk, [s]) {
      ProducesOne(m, s, ks', to, stk);
    }
    if p.greedy {
      OptionalStep(m, p, split, pc, to, pc, to, s, stk, ks, to, stk, INFINITY, rest);
    } else {
      OptionalStep(m, p, split, to, pc, pc, to, s, stk, ks, to, stk, INFINITY, rest);
    }
    IterationsOptional(m, p, INFINITY, s);
  }

  /** `loop`: the states go back to `pc` with one repetition fewer, or on past the counter. */
  ghost predicate LoopAt(m: Machine, pc: int, loop: int) {
    && loop in m.prog && m.prog[loop] == ILoop(pc - (loop + 5))
    && loop + 5 in m.prog && m.prog[loop + 5] == IDrop
  }

  /** After the loop instruction with counter `k`: iterate again from `pc`, or leave. */
  lemma LoopStep(m: Machine, p: Rep, pc: int, loop: int, k: nat, to: int, stk: seq<int>, min: nat, max: nat,
                 exitMin: nat, exitMax: nat, room: int)
    requires k > 0 && LoopAt(m, pc, loop)
    requires k > 1 ==> IterOk(m, p, pc, stk + [k - 1], to, stk, min, max, room)
    requires k == 1 ==> IterOk(m, p, loop + 6, stk, to, stk, exitMin, exitMax, room)
    ensures k > 1 ==> IterOk(m, p, loop, stk + [k], to, stk, min, max, room)
    ensures k == 1 ==> IterOk(m, p, loop, stk + [k], to, stk, exitMin, exitMax, room)
  {
    forall s, ks | Fits(m, p, s) && Room(m.e, p.back, s) < room
      ensures k > 1 ==> IterFrom(m, p, loop, stk + [k], to, stk, min, max, s, ks)
      ensures k == 1 ==> IterFrom(m, p, loop, stk + [k], to, stk, exitMin, exitMax, s, ks)
    {
      var c := Run(loop, s, stk + [k], ks, []);
      assert (stk + [k])[|stk| := k - 1] == stk + [k - 1];
      if k > 1 {
        assert Step(m, c) == Run(pc, s, stk + [k - 1], ks, []);
        assert IterFrom(m, p, pc, stk + [k - 1], to, stk, min, max, s, ks);
        StepThenProduces(m, c, ks, to, stk, Iterations(m, p, min, max, s));
      } else {
        var d := Run(loop + 5, s, stk + [0], ks, []);
        assert Step(m, c) == d;
        assert (stk + [0])[..|stk|] == stk;
        assert Step(m, d) == Run(loop + 6, s, stk, ks, []);
        assert IterFrom(m, p, loop + 6, stk, to, stk, exitMin, exitMax, s, ks);
        StepThenProduces(m, d, ks, to, stk, Iterations(m, p, exitMin, exitMax, s));
        StepThenProduces(m, c, ks, to, stk, Iterations(m, p, exitMin, exitMax, s));
      }
    }
  }

  /** At most `k` times: a counter, the split, the guarded atom and the counting jump. */
  ghost predicate CountedAt(m: Machine, p: Rep, pc: int, to: int) {
    && pc in m.prog && m.prog[pc] == Split(p.greedy, to - 1 - (pc + 5))
    && LoopAt(m, pc, to - 6)
    && CheckedOk(m, p, pc + 5, to - 6)
  }

  /** The guarded atom of a counted loop with counter `k`, then the remaining iterations. */
  lemma CountedBody(m: Machine, p: Rep, pc: int, to: int, s: State, k: nat, stk: seq<int>, ks: seq<Choice>)
    requires Fits(m, p, s) && CountedAt(m, p, pc, to) && 0 < k < INFINITY
    requires k > 1 ==> IterOk(m, p, pc, stk + [k - 1], to, stk, 0, k - 1, Room(m.e, p.back, s))
    ensures Produces(m, Run(pc + 5, s, stk + [k], ks, []), ks, to, stk, Rest(m, p, k, s))
  {
    hide Match, Iterate, MatchAll, Groups, Valid, Produces;
    var room := Room(m.e, p.back, s);
    ExitOk(m, p, to, stk, room);
    LoopStep(m, p, pc, to - 6, k, to, stk, 0, k - 1, 0, 0, room);
    CheckedBody(m, p, pc + 5, to - 6, s, stk + [k], ks);
    MovedWithin(m, p, s);
    BindIterations(m, p, Run(pc + 5, s, stk + [k], ks, []), ks, to - 6, stk + [k], to, stk, 0, k - 1, room, s,
                   Moved(Matches(m, p, s), s.pos));
  }

  lemma CountedExit(m: Machine, pc: int, s: State, k: nat, stk: seq<int>, ks: seq<Choice>)
    requires InBounds(m.e, s) && pc in m.prog && m.prog[pc] == IDrop
    ensures Produces(m, Run(pc, s, stk + [k], ks, []), ks, pc + 1, stk, [s])
  {
    assert (stk + [k])[..|stk|] == stk;
    assert Step(m, Run(pc, s, stk + [k], ks, [])) == Run(pc + 1, s, stk, ks, []);
    ProducesOne(m, s, ks, pc + 1, stk);
    StepThenProduces(m, Run(pc, s, stk + [k], ks, []), ks, pc + 1, stk, [s]);
  }

  lemma {:induction false} CountedCorrect(m: Machine, p: Rep, pc: int, to: int, s: State, k: nat, stk: seq<int>,
                                          ks: seq<Choice>)
    requires Fits(m, p, s) && CountedAt(m, p, pc, to)
    requires 0 < k < INFINITY
    ensures IterFrom(m, p, pc, stk + [k], to, stk, 0, k, s, ks)
    decreases k
  {
    var rest, body, exit, stk1 := Rest(m, p, k, s), pc + 5, to - 1, stk + [k];
    if k > 1 {
      var k', stk' := k - 1, stk + [k - 1];
      forall s', ks' | Fits(m, p, s') ensures IterFrom(m, p, pc, stk', to, stk, 0, k', s', ks') {
        CountedCorrect(m, p, pc, to, s', k', stk, ks');
      }
    }
    forall ks' ensures Produces(m, Run(body, s, stk1, ks', []), ks', to, stk, rest) {
      CountedBody(m, p, pc, to, s, k, stk, ks');
    }
    forall ks' ensures Produces(m, Run(exit, s, stk1, ks', []), ks', to, stk, [s]) {
      CountedExit(m, exit, s, k, stk, ks');
    }
    if p.greedy {
      OptionalStep(m, p, pc, body, exit, body, exit, s, stk1, ks, to, stk, k, rest);
    } else {
      OptionalStep(m, p, pc, exit, body, body, exit, s, stk1, ks, to, stk, k, rest);
    }
    IterationsOptional(m, p, k, s);
  }

  // ----- the mandatory iterations -----

  function Fewer(max: nat, k: nat): nat {
    if max == INFINITY then max else if k <= max then max - k else 0
  }

  lemma MatchesWithin(m: Machine, p: Rep, s: State)
    requires Fits(m, p, s)
    ensures AllGood(m.e, p.back, s, Matches(m, p, s))
    ensures Within(m.e, p.back, Room(m.e, p.back, s) + 1, |s.caps|, Matches(m, p, s))
  {
    var rs := Matches(m, p, s);
    assert AllGood(m.e, p.back, s, rs);
    forall i | 0 <= i < |rs| ensures Good(m.e, p.back, s, rs[i]) {
    }
  }

  /** One mandatory iteration at `pc`, then the others from `next`. */
  lemma MandatoryStep(m: Machine, p: Rep, pc: int, next: int, s: State, stk1: seq<int>, ks: seq<Choice>, to: int,
                      stk: seq<int>, min: nat, max: nat)
    requires Fits(m, p, s) && min > 0
    requires AtomOk(m, p, pc, next)
    requires IterOk(m, p, next, stk1, to, stk, min - 1, Less(max), Room(m.e, p.back, s) + 1)
    ensures IterFrom(m, p, pc, stk1, to, stk, min, max, s, ks)
  {
    var c := Run(pc, s, stk1, ks, []);
    assert AtomFrom(m, p, pc, next, s, stk1, ks);
    MatchesWithin(m, p, s);
    BindIterations(m, p, c, ks, next, stk1, to, stk, min - 1, Less(max), Room(m.e, p.back, s) + 1, s, Matches(m, p, s));
  }

  /** Exactly `k` more times, then the optional iterations from the end of the loop. */
  lemma {:induction false} ExactCorrect(m: Machine, p: Rep, pc: int, loop: int, s: State, k: nat, stk: seq<int>,
                                        ks: seq<Choice>, to: int, max: nat)
    requires Fits(m, p, s) && 0 < k <= max <= INFINITY
    requires AtomOk(m, p, pc, loop) && LoopAt(m, pc, loop)
    requires IterOk(m, p, loop + 6, stk, to, stk, 0, Fewer(max, k), |m.e.text.units| + 1)
    ensures IterFrom(m, p, pc, stk + [k], to, stk, k, max, s, ks)
    decreases k
  {
    var room := Room(m.e, p.back, s) + 1;
    if k > 1 {
      var k', stk', max' := k - 1, stk + [k - 1], Less(max);
      assert Fewer(max', k') == Fewer(max, k);
      forall s', ks' | Fits(m, p, s') ensures IterFrom(m, p, pc, stk', to, stk, k', max', s', ks') {
        ExactCorrect(m, p, pc, loop, s', k', stk, ks', to, max');
      }
      LoopStep(m, p, pc, loop, k, to, stk, k', max', 0, 0, room);
    } else {
      assert Fewer(max, k) == Less(max);
      LoopStep(m, p, pc, loop, k, to, stk, 0, 0, 0, Less(max), room);
    }
    MandatoryStep(m, p, pc, loop, s, stk + [k], ks, to, stk, k, max);
  }
}
