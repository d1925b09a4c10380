/** Straight-line code: character tests, assertions, and the class opcodes. */
module RegexpLeaves {
  import opened Basics
  import opened CharSet
  import opened RegexpText
  import opened RegexpSyntax
  import opened RegexpMatcher
  import opened RegexpBytecode
  import opened RegexpCodegen
  import opened RegexpVm
  import opened RegexpSimulation

  /** 16-bit units, and a canonicalisation that maps code points to code points. */
  ghost predicate WfEnv(e: Env) {
    && (forall i :: 0 <= i < |e.text.units| ==> e.text.units[i] <= 0xffff)
    && WfCanon(e.canon)
  }

  // ----- class opcodes -----

  /** Whether the opcode emitted for a class accepts the canonical character `c`. */
  predicate RangeAccepts(i: Instr, c: int) {
    match i
    case IRange(ps, _) => InPairs16(ps, c)
    case IRange32(ps, _) => InPairs(ps, c)
    case _ => false
  }

  /** The emitted 16-bit or 32-bit ranges accept exactly the members of the set. */
  lemma EmitRangeAccepts(pts: seq<int>, icase: bool, c: int)
    requires Valid(Class(pts)) && 0 <= c < UINT32_MAX
    ensures RangeAccepts(EmitRange(pts, icase), c) <==> InSet(pts, c)
  {
    InSetIsInterval(pts, c);
    if pts != [] {
      var n := |pts|;
      var last := pts[n - 1];
      var high := if last == UINT32_MAX then pts[n - 2] else last;
      if high <= 0xffff {
        Ranges16Accept(pts, c);
      } else {
        Ranges32Accept(pts, c);
      }
    }
  }

  lemma Ranges32Accept(pts: seq<int>, c: int)
    requires Valid(Class(pts))
    ensures InPairs(Pairs32(pts), c) <==> exists i :: 0 <= i < |pts| / 2 && pts[2 * i] <= c < pts[2 * i + 1]
  {
    var ps := Pairs32(pts);
    forall i | 0 <= i < |pts| / 2
      ensures (ps[2 * i] <= c <= ps[2 * i + 1]) <==> (pts[2 * i] <= c < pts[2 * i + 1])
    {
      assert pts[2 * i] < pts[2 * i + 1];
    }
  }

  lemma Ranges16Accept(pts: seq<int>, c: int)
    requires Valid(Class(pts)) && 0 <= c < UINT32_MAX && pts != []
    requires (if pts[|pts| - 1] == UINT32_MAX then pts[|pts| - 2] else pts[|pts| - 1]) <= 0xffff
    ensures InPairs16(Pairs16(pts), c) <==> exists i :: 0 <= i < |pts| / 2 && pts[2 * i] <= c < pts[2 * i + 1]
  {
    var k := |pts| / 2 - 1;
    var ps := Pairs16(pts);
    if c >= 0xffff && pts[2 * k + 1] == UINT32_MAX {
      assert pts[2 * k] <= c < pts[2 * k + 1];
    } else {
      forall i | 0 <= i <= k
        ensures (ps[2 * i] <= c <= ps[2 * i + 1]) <==> (pts[2 * i] <= c < pts[2 * i + 1])
      {
        Pair16(pts, i, c);
      }
      Pair16(pts, k, c);
    }
  }

  lemma Pair16(pts: seq<int>, i: nat, c: int)
    requires Valid(Class(pts)) && 0 <= c && i < |pts| / 2
    requires (if pts[|pts| - 1] == UINT32_MAX then pts[|pts| - 2] else pts[|pts| - 1]) <= 0xffff
    requires !(c >= 0xffff && pts[|pts| - 1] == UINT32_MAX)
    ensures (Pairs16(pts)[2 * i] <= c <= Pairs16(pts)[2 * i + 1]) <==> (pts[2 * i] <= c < pts[2 * i + 1])
    ensures i == |pts| / 2 - 1 && c >= 0xffff ==> Pairs16(pts)[2 * i + 1] != 0xffff
  {
    var k := |pts| / 2 - 1;
    assert pts[2 * i] < pts[2 * i + 1];
    assert pts[2 * i] <= pts[2 * k] <= 0xffff;
    if i < k {
      assert pts[2 * i + 1] < pts[2 * k];
    }
  }

  // ----- characters -----

  predicate IsOneChar(n: Node) { n.Char? || n.Dot? || n.Class? }

  /** The character-reading instruction of a one-character pattern. */
  function CharInstr(canon: int -> int, f: Flags, n: Node): (i: Instr)
    requires IsOneChar(n) && Valid(n)
    ensures ReadsChar(i)
  {
    match n
    case Char(c) => EmitChar(if f.ignoreCase then canon(c) else c, f.ignoreCase)
    case Dot => if f.dotAll then IAny else IDot
    case Class(pts) => EmitRange(pts, f.ignoreCase)
  }

  lemma CharAtBound(e: Env, p: int)
    requires WfEnv(e) && 0 <= p < |e.text.units|
    ensures 0 <= CharAt(e.text, p, |e.text.units|) <= 0x10ffff
  {
  }

  lemma CharInstrTests(e: Env, f: Flags, n: Node, c: int)
    requires WfEnv(e) && IsOneChar(n) && Valid(n) && 0 <= c <= 0x10ffff
    ensures Tests(e, CharInstr(e.canon, f, n), c) == Accepts(e, f, n, c)
  {
    match n
    case Char(d) => assert f.ignoreCase ==> 0 <= e.canon(d) <= 0x10ffff;
    case Dot =>
    case Class(pts) =>
      assert f.ignoreCase ==> 0 <= e.canon(c) <= 0x10ffff;
      EmitRangeAccepts(pts, f.ignoreCase, Canon(e, f.ignoreCase, c));
  }

  // ----- straight-line code -----

  ghost predicate LocalCode(code: seq<Instr>, n: nat) {
    forall i :: i in code ==> IsLocal(i) && CapturesInRange(i, n)
  }

  ghost function ExecLine(e: Env, code: seq<Instr>, s: State): (r: Option<State>)
    requires InBounds(e, s) && LocalCode(code, |s.caps|)
    ensures r.Some? ==> InBounds(e, r.value) && |r.value.caps| == |s.caps|
    decreases |code|
  {
    if code == [] then Some(s)
    else match Local(e, code[0], s)
      case None => None
      case Some(s') => ExecLine(e, code[1..], s')
  }

  lemma {:induction false} ProducesLine(m: Machine, pc: int, code: seq<Instr>, s: State, stk: seq<int>, ks: seq<Choice>)
    requires InBounds(m.e, s) && LocalCode(code, |s.caps|) && Loaded(m, pc, code)
    ensures Produces(m, Run(pc, s, stk, ks, []), ks, pc + Len(code), stk, ToSeq(ExecLine(m.e, code, s)))
    decreases |code|
  {
    var c := Run(pc, s, stk, ks, []);
    if code == [] {
      ProducesOne(m, s, ks, pc, stk);
    } else {
      var to := pc + Len(code);
      match Local(m.e, code[0], s)
      case None =>
        assert Step(m, c) == Fail(ks);
        ProducesNone(m, c, ks, to, stk);
      case Some(s') =>
        assert Step(m, c) == Run(pc + Size(code[0]), s', stk, ks, []);
        ProducesLine(m, pc + Size(code[0]), code[1..], s', stk, ks);
        StepThenProduces(m, c, ks, to, stk, ToSeq(ExecLine(m.e, code[1..], s')));
    }
  }

  /** The code of a one-character pattern, in either direction, is the reference character match. */
  lemma OneCharExec(e: Env, f: Flags, n: Node, back: bool, s: State)
    requires WfEnv(e) && Wf(e, s) && IsOneChar(n) && Valid(n)
    ensures LocalCode(OneChar(CharInstr(e.canon, f, n), back), |s.caps|)
    ensures ExecLine(e, OneChar(CharInstr(e.canon, f, n), back), s) == MatchChar(e, f, n, back, s)
  {
    hide Wf, CharInstr, MatchChar, ExecLine, Valid, WfEnv;
    CharInstrLocal(e.canon, f, n, |s.caps|);
    if back {
      CharExecBack(e, f, n, s);
    } else {
      CharExecForward(e, f, n, s);
    }
  }

  lemma CharInstrLocal(canon: int -> int, f: Flags, n: Node, caps: nat)
    requires IsOneChar(n) && Valid(n)
    ensures IsLocal(CharInstr(canon, f, n)) && CapturesInRange(CharInstr(canon, f, n), caps)
  {
  }

  lemma CharExecForward(e: Env, f: Flags, n: Node, s: State)
    requires WfEnv(e) && Wf(e, s) && IsOneChar(n) && Valid(n) && LocalCode([CharInstr(e.canon, f, n)], |s.caps|)
    ensures ExecLine(e, [CharInstr(e.canon, f, n)], s) == MatchChar(e, f, n, false, s)
  {
    hide CharInstr, Accepts, Tests, Valid;
    var code := [CharInstr(e.canon, f, n)];
    assert code[1..] == [];
    if s.pos < |e.text.units| {
      CharAtBound(e, s.pos);
      CharInstrTests(e, f, n, CharAt(e.text, s.pos, |e.text.units|));
    }
  }

  /** One step back, a forward match and a step back again. */
  lemma CharExecBack(e: Env, f: Flags, n: Node, s: State)
    requires WfEnv(e) && Wf(e, s) && IsOneChar(n) && Valid(n)
             && LocalCode([IPrev, CharInstr(e.canon, f, n), IPrev], |s.caps|)
    ensures ExecLine(e, [IPrev, CharInstr(e.canon, f, n), IPrev], s) == MatchChar(e, f, n, true, s)
  {
    hide CharInstr, Accepts, Tests, Valid, WfEnv;
    var i := CharInstr(e.canon, f, n);
    var code := [IPrev, i, IPrev];
    assert code[1..] == [i, IPrev] && code[1..][1..] == [IPrev] && code[1..][1..][1..] == [];
    if s.pos > 0 {
      var q := Prev(e.text, s.pos, 0);
      PrevThenNext(e.text, s.pos);
      CharAtBound(e, q);
      CharInstrTests(e, f, n, CharAt(e.text, q, |e.text.units|));
      var s1 := s.(pos := q);
      assert Local(e, IPrev, s) == Some(s1);
      assert ExecLine(e, code, s) == ExecLine(e, [i, IPrev], s1);
      if Accepts(e, f, n, CharBefore(e.text, s.pos, 0)) {
        assert Local(e, i, s1) == Some(s);
        assert ExecLine(e, [i, IPrev], s1) == ExecLine(e, [IPrev], s);
        assert ExecLine(e, [IPrev], s) == ExecLine(e, [], s1);
      }
    }
  }
}
