/**
 What it means for the machine to produce a list of states: it runs to a given
 address with each state in turn, failing from one to the next, and fails
 below its own choice points after the last.
 */
module RegexpSimulation {
  import opened RegexpMatcher
  import opened RegexpBytecode
  import opened RegexpCodegen
  import opened RegexpVm

  // ----- blocks of a program -----

  /** The block `code` is at address `pc` of the program. */
  ghost predicate Loaded(m: Machine, pc: int, code: seq<Instr>)
    decreases |code|
  {
    code != [] ==>
      && pc in m.prog && m.prog[pc] == code[0]
      && Loaded(m, pc + Size(code[0]), code[1..])
  }

  lemma {:induction false} LoadedSplit(m: Machine, pc: int, a: seq<Instr>, b: seq<Instr>)
    requires Loaded(m, pc, a + b)
    ensures Loaded(m, pc, a) && Loaded(m, pc + Len(a), b) && Len(a + b) == Len(a) + Len(b)
    decreases |a|
  {
    LenAppend(a, b);
    if a == [] {
      assert a + b == b;
    } else {
      assert (a + b)[1..] == a[1..] + b;
      LoadedSplit(m, pc + Size(a[0]), a[1..], b);
    }
  }

  /** A block between one instruction and the rest. */
  lemma LoadedAround(m: Machine, pc: int, i: Instr, a: seq<Instr>, b: seq<Instr>)
    requires Loaded(m, pc, [i] + a + b)
    ensures pc in m.prog && m.prog[pc] == i
    ensures Loaded(m, pc + Size(i), a) && Loaded(m, pc + Size(i) + Len(a), b)
    ensures Len([i] + a + b) == Size(i) + Len(a) + Len(b)
  {
    assert [i] + a + b == [i] + (a + b);
    LoadedSplit(m, pc, [i], a + b);
    assert [i][1..] == [];
    LoadedSplit(m, pc + Size(i), a, b);
  }

  lemma LoadedOne(m: Machine, pc: int, i: Instr)
    requires Loaded(m, pc, [i])
    ensures pc in m.prog && m.prog[pc] == i && Len([i]) == Size(i)
  {
    assert [i][1..] == [];
  }

  lemma LoadedTwo(m: Machine, pc: int, i: Instr, j: Instr)
    requires Loaded(m, pc, [i, j])
    ensures pc in m.prog && m.prog[pc] == i
    ensures pc + Size(i) in m.prog && m.prog[pc + Size(i)] == j
    ensures Len([i, j]) == Size(i) + Size(j)
  {
    assert [i, j] == [i] + [j];
    LoadedSplit(m, pc, [i], [j]);
    LoadedOne(m, pc, i);
    LoadedOne(m, pc + Size(i), j);
  }

  /** A block between two instructions and two others. */
  lemma LoadedBetween(m: Machine, pc: int, i: Instr, j: Instr, a: seq<Instr>, k: Instr, l: Instr)
    requires Loaded(m, pc, [i, j] + a + [k, l])
    ensures pc in m.prog && m.prog[pc] == i
    ensures pc + Size(i) in m.prog && m.prog[pc + Size(i)] == j
    ensures Loaded(m, pc + Size(i) + Size(j), a)
    ensures Loaded(m, pc + Size(i) + Size(j) + Len(a), [k, l])
    ensures Len([i, j] + a + [k, l]) == Size(i) + Size(j) + Len(a) + Size(k) + Size(l)
  {
    LoadedSplit(m, pc, [i, j] + a, [k, l]);
    LoadedSplit(m, pc, [i, j], a);
    LoadedTwo(m, pc, i, j);
    LoadedTwo(m, pc + Size(i) + Size(j) + Len(a), k, l);
  }

  // ----- runs -----

  lemma {:induction false} StepsAdd(m: Machine, c: Config, i: nat, j: nat)
    ensures Steps(m, Steps(m, c, i), j) == Steps(m, c, i + j)
    decreases i
  {
    if i > 0 {
      StepsAdd(m, Step(m, c), i - 1, j);
    }
  }

  lemma ReachesTrans(m: Machine, a: Config, b: Config, c: Config)
    requires Reaches(m, a, b) && Reaches(m, b, c)
    ensures Reaches(m, a, c)
  {
    var i: nat :| Steps(m, a, i) == b;
    var j: nat :| Steps(m, b, j) == c;
    StepsAdd(m, a, i, j);
  }

  lemma ReachesStep(m: Machine, a: Config)
    ensures Reaches(m, a, Step(m, a))
    ensures Reaches(m, a, a)
  {
    assert Steps(m, a, 0) == a;
    assert Steps(m, a, 1) == Steps(m, Step(m, a), 0);
  }

  lemma StepThenReaches(m: Machine, a: Config, b: Config)
    requires Reaches(m, Step(m, a), b)
    ensures Reaches(m, a, b)
  {
    ReachesStep(m, a);
    ReachesTrans(m, a, Step(m, a), b);
  }

  // ----- produced states -----

  ghost predicate NoLook(ks: seq<Choice>) {
    forall i :: 0 <= i < |ks| ==> ks[i].kind == SplitPoint || ks[i].kind == GreedyPoint
  }

  /** From `c` the machine reaches address `to` with each of `rs` in turn, then fails into `ks`. */
  ghost predicate Produces(m: Machine, c: Config, ks: seq<Choice>, to: int, stk: seq<int>, rs: seq<State>)
    decreases |rs|, 1
  {
    if rs == [] then Reaches(m, c, Fail(ks))
    else exists alt: seq<Choice> :: ProducesVia(m, c, ks, alt, to, stk, rs)
  }

  /** The first of `rs` is reached leaving the choice points `alt`, which produce the others. */
  ghost predicate ProducesVia(m: Machine, c: Config, ks: seq<Choice>, alt: seq<Choice>, to: int, stk: seq<int>,
                              rs: seq<State>)
    requires rs != []
    decreases |rs|, 0
  {
    && NoLook(alt)
    && Reaches(m, c, Run(to, rs[0], stk, ks + alt, []))
    && Produces(m, Fail(ks + alt), ks, to, stk, rs[1..])
  }

  lemma ReachesThenProduces(m: Machine, c: Config, d: Config, ks: seq<Choice>, to: int, stk: seq<int>, rs: seq<State>)
    requires Reaches(m, c, d) && Produces(m, d, ks, to, stk, rs)
    ensures Produces(m, c, ks, to, stk, rs)
  {
    if rs == [] {
      ReachesTrans(m, c, d, Fail(ks));
    } else {
      var alt :| ProducesVia(m, d, ks, alt, to, stk, rs);
      ReachesTrans(m, c, d, Run(to, rs[0], stk, ks + alt, []));
      assert ProducesVia(m, c, ks, alt, to, stk, rs);
    }
  }

  lemma StepThenProduces(m: Machine, c: Config, ks: seq<Choice>, to: int, stk: seq<int>, rs: seq<State>)
    requires Produces(m, Step(m, c), ks, to, stk, rs)
    ensures Produces(m, c, ks, to, stk, rs)
  {
    ReachesStep(m, c);
    ReachesThenProduces(m, c, Step(m, c), ks, to, stk, rs);
  }

  /** Being at the address already is producing that one state. */
  lemma ProducesOne(m: Machine, s: State, ks: seq<Choice>, to: int, stk: seq<int>)
    ensures Produces(m, Run(to, s, stk, ks, []), ks, to, stk, [s])
  {
    var c := Run(to, s, stk, ks, []);
    ReachesStep(m, c);
    ReachesStep(m, Fail(ks));
    assert ks + [] == ks;
    assert ProducesVia(m, c, ks, [], to, stk, [s]);
  }

  lemma ProducesNone(m: Machine, c: Config, ks: seq<Choice>, to: int, stk: seq<int>)
    requires Step(m, c) == Fail(ks)
    ensures Produces(m, c, ks, to, stk, [])
  {
    ReachesStep(m, c);
  }

  lemma ProducesCons(m: Machine, c: Config, ks: seq<Choice>, alt: seq<Choice>, to: int, stk: seq<int>, s: State,
                     rs: seq<State>)
    requires NoLook(alt)
    requires Reaches(m, c, Run(to, s, stk, ks + alt, []))
    requires Produces(m, Fail(ks + alt), ks, to, stk, rs)
    ensures Produces(m, c, ks, to, stk, [s] + rs)
  {
    assert ([s] + rs)[1..] == rs;
    assert ProducesVia(m, c, ks, alt, to, stk, [s] + rs);
  }

  /** Produces `xs`, then whatever the choice points left below produce. */
  lemma {:induction false} ProducesThen(m: Machine, c: Config, ks: seq<Choice>, alt: seq<Choice>, to: int,
                                        stk: seq<int>,
                                        xs: seq<State>, ys: seq<State>)
    requires NoLook(alt)
    requires Produces(m, c, ks + alt, to, stk, xs)
    requires Produces(m, Fail(ks + alt), ks, to, stk, ys)
    ensures Produces(m, c, ks, to, stk, xs + ys)
    decreases |xs|
  {
    if xs == [] {
      assert xs + ys == ys;
      ReachesThenProduces(m, c, Fail(ks + alt), ks, to, stk, ys);
    } else {
      var more :| ProducesVia(m, c, ks + alt, more, to, stk, xs);
      ProducesThen(m, Fail(ks + alt + more), ks, alt, to, stk, xs[1..], ys);
      assert ks + alt + more == ks + (alt + more);
      ProducesCons(m, c, ks, alt + more, to, stk, xs[0], xs[1..] + ys);
      assert xs + ys == [xs[0]] + (xs[1..] + ys);
    }
  }

  /** A state `s` alone, then the choice points left below. */
  lemma ProducesConsThen(m: Machine, s: State, ks: seq<Choice>, alt: seq<Choice>, to: int, stk: seq<int>,
                         ys: seq<State>)
    requires NoLook(alt)
    requires Produces(m, Fail(ks + alt), ks, to, stk, ys)
    ensures Produces(m, Run(to, s, stk, ks + alt, []), ks, to, stk, [s] + ys)
  {
    ProducesOne(m, s, ks + alt, to, stk);
    ProducesThen(m, Run(to, s, stk, ks + alt, []), ks, alt, to, stk, [s], ys);
  }

  /** The successor, under a jump that only depends on the address, of each produced state. */
  lemma {:induction false} ProducesGoto(m: Machine, c: Config, ks: seq<Choice>, to: int, off: int, stk: seq<int>,
                                        rs: seq<State>)
    requires Produces(m, c, ks, to, stk, rs)
    requires to in m.prog && m.prog[to] == IGoto(off)
    requires forall i :: 0 <= i < |rs| ==> InBounds(m.e, rs[i])
    ensures Produces(m, c, ks, to + 5 + off, stk, rs)
    decreases |rs|
  {
    if rs != [] {
      var alt :| ProducesVia(m, c, ks, alt, to, stk, rs);
      ProducesGoto(m, Fail(ks + alt), ks, to, off, stk, rs[1..]);
      var d := Run(to, rs[0], stk, ks + alt, []);
      assert InBounds(m.e, rs[0]);
      ReachesStep(m, d);
      ReachesTrans(m, c, d, Run(to + 5 + off, rs[0], stk, ks + alt, []));
      ProducesCons(m, c, ks, alt, to + 5 + off, stk, rs[0], rs[1..]);
      assert rs == [rs[0]] + rs[1..];
    }
  }

  /** The first state of a list goes on to produce `xs`, and the others `ys`. */
  lemma ProducesBind(m: Machine, c: Config, d: Config, ks: seq<Choice>, alt: seq<Choice>, to: int, stk: seq<int>,
                     xs: seq<State>, ys: seq<State>)
    requires NoLook(alt)
    requires Reaches(m, c, d)
    requires Produces(m, d, ks + alt, to, stk, xs)
    requires Produces(m, Fail(ks + alt), ks, to, stk, ys)
    ensures Produces(m, c, ks, to, stk, xs + ys)
  {
    ProducesThen(m, d, ks, alt, to, stk, xs, ys);
    ReachesThenProduces(m, c, d, ks, to, stk, xs + ys);
  }

  /** A choice between two addresses: first what one produces, then what the other does. */
  lemma ProducesSplit(m: Machine, c: Config, ks: seq<Choice>, pc1: int, pc2: int, s: State, stk1: seq<int>,
                      to: int, stk: seq<int>, xs: seq<State>, ys: seq<State>)
    requires Step(m, c) == Run(pc1, s, stk1, ks + [Choice(SplitPoint, pc2, s, stk1, 0)], [])
    requires Produces(m, Step(m, c), ks + [Choice(SplitPoint, pc2, s, stk1, 0)], to, stk, xs)
    requires Produces(m, Run(pc2, s, stk1, ks, []), ks, to, stk, ys)
    ensures Produces(m, c, ks, to, stk, xs + ys)
  {
    var alt := [Choice(SplitPoint, pc2, s, stk1, 0)];
    assert (ks + alt)[..|ks + alt| - 1] == ks;
    assert Step(m, Fail(ks + alt)) == Run(pc2, s, stk1, ks, []);
    StepThenProduces(m, Fail(ks + alt), ks, to, stk, ys);
    ReachesStep(m, c);
    ProducesBind(m, c, Step(m, c), ks, alt, to, stk, xs, ys);
  }

  // ----- local instructions -----

  ghost predicate AllInBounds(e: Env, n: nat, rs: seq<State>) {
    forall i :: 0 <= i < |rs| ==> InBounds(e, rs[i]) && |rs[i].caps| == n
  }

  function LocalAll(e: Env, i: Instr, n: nat, rs: seq<State>): (r: seq<State>)
    requires IsLocal(i) && CapturesInRange(i, n) && AllInBounds(e, n, rs)
    ensures AllInBounds(e, n, r)
  {
    if rs == [] then [] else ToSeq(Local(e, i, rs[0])) + LocalAll(e, i, n, rs[1..])
  }

  lemma ProducesLocal(m: Machine, pc: int, i: Instr, s: State, stk: seq<int>, ks: seq<Choice>)
    requires InBounds(m.e, s) && IsLocal(i) && CapturesInRange(i, |s.caps|)
    requires pc in m.prog && m.prog[pc] == i
    ensures Produces(m, Run(pc, s, stk, ks, []), ks, pc + Size(i), stk, ToSeq(Local(m.e, i, s)))
  {
    var c := Run(pc, s, stk, ks, []);
    match Local(m.e, i, s)
    case None =>
      assert Step(m, c) == Fail(ks);
      ProducesNone(m, c, ks, pc + Size(i), stk);
    case Some(s') =>
      assert Step(m, c) == Run(pc + Size(i), s', stk, ks, []);
      ProducesOne(m, s', ks, pc + Size(i), stk);
      StepThenProduces(m, c, ks, pc + Size(i), stk, [s']);
  }

  lemma {:induction false} ProducesLocalAll(m: Machine, c: Config, ks: seq<Choice>, to: int, stk: seq<int>, i: Instr,
                                            n: nat, rs: seq<State>)
    requires IsLocal(i) && CapturesInRange(i, n) && AllInBounds(m.e, n, rs)
    requires to in m.prog && m.prog[to] == i
    requires Produces(m, c, ks, to, stk, rs)
    ensures Produces(m, c, ks, to + Size(i), stk, LocalAll(m.e, i, n, rs))
    decreases |rs|
  {
    if rs == [] {
      assert Produces(m, c, ks, to + Size(i), stk, []);
    } else {
      var alt :| ProducesVia(m, c, ks, alt, to, stk, rs);
      ProducesLocalAll(m, Fail(ks + alt), ks, to, stk, i, n, rs[1..]);
      ProducesLocal(m, to, i, rs[0], stk, ks + alt);
      ProducesBind(m, c, Run(to, rs[0], stk, ks + alt, []), ks, alt, to + Size(i), stk,
                   ToSeq(Local(m.e, i, rs[0])), LocalAll(m.e, i, n, rs[1..]));
    }
  }
}
