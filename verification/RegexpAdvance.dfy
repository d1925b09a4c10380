/** An atom whose advance check is omitted moves the position in every match. */
module RegexpAdvance {
  import opened RegexpSyntax
  import opened RegexpMatcher
  import opened RegexpBytecode
  import opened RegexpCodegen
  import opened RegexpLeaves

  ghost predicate AllMove(s: State, rs: seq<State>) {
    forall i :: 0 <= i < |rs| ==> rs[i].pos != s.pos
  }

  lemma PredictableAppend(a: seq<Instr>, b: seq<Instr>)
    ensures AllPredictable(a + b) <==> AllPredictable(a) && AllPredictable(b)
    ensures AnyReadsChar(a + b) <==> AnyReadsChar(a) || AnyReadsChar(b)
  {
    if i :| i in a && ReadsChar(i) { assert i in a + b; }
    if i :| i in b && ReadsChar(i) { assert i in a + b; }
    forall i | i in a ensures i in a + b { }
    forall i | i in b ensures i in a + b { }
  }

  /** If one of two consecutive patterns always moves, so does their sequence. */
  lemma {:induction false} SequenceMoves(e: Env, f: Flags, n: Node, g: nat, back: bool, s: State, rs: seq<State>,
                                         first: bool)
    requires Wf(e, s) && 2 * (g + Groups(n)) <= |s.caps| && AllGood(e, back, s, rs)
    requires first ==> AllMove(s, rs)
    requires !first ==> forall i :: 0 <= i < |rs| ==> AllMove(rs[i], Match(e, f, n, g, back, rs[i]))
    ensures AllMove(s, MatchAll(e, f, n, g, back, s, rs))
    decreases |rs|
  {
    if rs != [] {
      var xs := Match(e, f, n, g, back, rs[0]);
      assert AllGood(e, back, rs[0], xs);
      assert Good(e, back, s, rs[0]);
      assert !first ==> AllMove(rs[0], xs);
      forall i | 0 <= i < |xs| ensures xs[i].pos != s.pos {
        assert Good(e, back, rs[0], xs[i]);
      }
      assert forall i :: 0 <= i < |rs[1..]| ==> rs[1..][i] == rs[i + 1];
      SequenceMoves(e, f, n, g, back, s, rs[1..], first);
    }
  }

  lemma Unpredictable(a: seq<Instr>, i: Instr, b: seq<Instr>)
    requires !IsPredictable(i)
    ensures !AllPredictable(a + [i] + b)
  {
    assert (a + [i] + b)[|a|] == i;
    assert i in a + [i] + b;
  }

  lemma UnpredictableHead(code: seq<Instr>)
    requires code != [] && !IsPredictable(code[0])
    ensures !AllPredictable(code)
  {
    assert code[0] in code;
  }

  lemma LoopsUnpredictable(r: seq<Instr>, a: seq<Instr>, k: nat, greedy: bool)
    ensures !AllPredictable(r + OnceLoop(a, greedy))
    ensures !AllPredictable(r + StarLoop(a, greedy))
    ensures !AllPredictable(r + CountedLoop(a, k, greedy))
  {
    var b := Checked(a);
    Unpredictable(r, Split(greedy, CheckLen(a)), b);
    assert r + OnceLoop(a, greedy) == r + [Split(greedy, CheckLen(a))] + b;
    var split := Split(greedy, CheckLen(a) + 5);
    var tail := b + [IGoto(-(CheckLen(a) + 10))];
    Unpredictable(r, split, tail);
    assert r + StarLoop(a, greedy) == r + [split] + tail;
    tail := b + [ILoop(-(CheckLen(a) + 10)), IDrop];
    Unpredictable(r + [IPushI32(k)], split, tail);
    assert r + CountedLoop(a, k, greedy) == (r + [IPushI32(k)]) + [split] + tail;
  }

  lemma ExactUnpredictable(a: seq<Instr>, min: nat, o: seq<Instr>)
    requires min > 1
    ensures !AllPredictable(ExactLoop(a, min) + o)
  {
    Unpredictable([IPushI32(min)] + a, ILoop(-(Len(a) + 5)), [IDrop] + o);
    assert ExactLoop(a, min) + o == ([IPushI32(min)] + a) + [ILoop(-(Len(a) + 5))] + ([IDrop] + o);
  }

  lemma BackSplitUnpredictable(a: seq<Instr>, greedy: bool)
    ensures !AllPredictable(a + [BackSplit(greedy, -(Len(a) + 5))])
  {
    var split := BackSplit(greedy, -(Len(a) + 5));
    Unpredictable(a, split, []);
    assert a + [split] == a + [split] + [];
  }

  /** A quantified atom that is still predictable was dropped or kept as it is. */
  lemma QuantPredictable(a: seq<Instr>, g: nat, groups: nat, min: nat, max: nat, greedy: bool)
    requires min <= max
    requires AllPredictable(QuantCode(a, g, groups, min, max, greedy))
    ensures max == 0 || (min == 1 && max == 1)
    ensures QuantCode(a, g, groups, min, max, greedy) == if max == 0 then Reset(g, groups) else a
  {
    if UsesSimpleLoop(a, max, greedy) {
      UnpredictableHead(SimpleLoop(a, min, max));
    } else if min == 0 {
      LoopsUnpredictable(Reset(g, groups), a, max, greedy);
    } else if min == 1 && max == INFINITY && !NeedCheckAdvance(a) {
      BackSplitUnpredictable(a, greedy);
    } else if min > 1 {
      ExactUnpredictable(a, min, Optional(a, min, max, greedy));
    } else {
      LoopsUnpredictable(a, a, max - min, greedy);
    }
  }

  /** Whenever the check is omitted, every match of the atom moves strictly in the matching direction. */
  lemma {:induction false} AdvanceSound(e: Env, f: Flags, n: Node, g: nat, back: bool, s: State)
    requires WfEnv(e) && Wf(e, s) && Valid(n) && 2 * (g + Groups(n)) <= |s.caps|
    requires !NeedCheckAdvance(Code(e.canon, f, n, g, back))
    ensures AllMove(s, Match(e, f, n, g, back, s))
    decreases n, 1
  {
    hide Match, Code, NeedCheckAdvance, Groups, AllMove;
    if n.Cat? {
      AdvanceCat(e, f, n, g, back, s);
    } else if n.Or? || n.Look? {
      BranchUnpredictable(e.canon, f, n, g, back);
    } else if n.Group? {
      AdvanceGroup(e, f, n, g, back, s);
    } else if n.Modify? {
      AdvanceModify(e, f, n, g, back, s);
    } else if n.Repeat? {
      AdvanceRepeat(e, f, n, g, back, s);
    } else {
      AdvanceLeaf(e, f, n, g, back, s);
    }
  }

  lemma BranchUnpredictable(canon: int -> int, f: Flags, n: Node, g: nat, back: bool)
    requires Valid(n) && (n.Or? || n.Look?)
    ensures NeedCheckAdvance(Code(canon, f, n, g, back))
  {
    hide Len, QuantCode, OneChar, EmitRange;
    UnpredictableHead(Code(canon, f, n, g, back));
  }

  lemma AdvanceLeaf(e: Env, f: Flags, n: Node, g: nat, back: bool, s: State)
    requires !(n.Cat? || n.Or? || n.Group? || n.Modify? || n.Look? || n.Repeat?)
    requires WfEnv(e) && Wf(e, s) && Valid(n) && 2 * (g + Groups(n)) <= |s.caps|
    requires !NeedCheckAdvance(Code(e.canon, f, n, g, back))
    ensures AllMove(s, Match(e, f, n, g, back, s))
  {
    hide QuantCode, EmitRange, Len, MatchAll, Iterate;
    if n.LineStart? || n.LineEnd? || n.WordBoundary? || n.BackRef? {
      NoChar(Code(e.canon, f, n, g, back));
    }
  }

  lemma {:induction false} AdvanceModify(e: Env, f: Flags, n: Node, g: nat, back: bool, s: State)
    requires n.Modify?
    requires WfEnv(e) && Wf(e, s) && Valid(n) && 2 * (g + Groups(n)) <= |s.caps|
    requires !NeedCheckAdvance(Code(e.canon, f, n, g, back))
    ensures AllMove(s, Match(e, f, n, g, back, s))
    decreases n, 0
  {
    hide MatchAll, Iterate, QuantCode, MatchLeaf, EmitRange, Len, OneChar, NeedCheckAdvance;
    AdvanceSound(e, Update(f, n.add, n.remove), n.scope, g, back, s);
  }

  lemma {:induction false} AdvanceRepeat(e: Env, f: Flags, n: Node, g: nat, back: bool, s: State)
    requires n.Repeat?
    requires WfEnv(e) && Wf(e, s) && Valid(n) && 2 * (g + Groups(n)) <= |s.caps|
    requires !NeedCheckAdvance(Code(e.canon, f, n, g, back))
    ensures AllMove(s, Match(e, f, n, g, back, s))
    decreases n, 0
  {
    var a := n.body;
    QuantPredictable(Code(e.canon, f, a, g, back), g, Groups(a), n.min, n.max, n.greedy);
    assert !AnyReadsChar(Reset(g, Groups(a)));
    AdvanceSound(e, f, a, g, back, s);
    OnceIsMatch(e, f, a, g, back, n.greedy, s);
  }

  lemma {:induction false} AdvanceCat(e: Env, f: Flags, n: Node, g: nat, back: bool, s: State)
    requires n.Cat?
    requires WfEnv(e) && Wf(e, s) && Valid(n) && 2 * (g + Groups(n)) <= |s.caps|
    requires !NeedCheckAdvance(Code(e.canon, f, n, g, back))
    ensures AllMove(s, Match(e, f, n, g, back, s))
    decreases n, 0
  {
    var x, y, gx, gy := Lead(n, back), Trail(n, back), LeadGroup(n, g, back), TrailGroup(n, g, back);
    var cx := Code(e.canon, f, x, gx, back);
    PredictableAppend(cx, Code(e.canon, f, y, gy, back));
    var rs := Match(e, f, x, gx, back, s);
    assert AllGood(e, back, s, rs);
    if AnyReadsChar(cx) {
      AdvanceSound(e, f, x, gx, back, s);
      SequenceMoves(e, f, y, gy, back, s, rs, true);
    } else {
      forall i | 0 <= i < |rs| ensures AllMove(rs[i], Match(e, f, y, gy, back, rs[i])) {
        assert Good(e, back, s, rs[i]);
        AdvanceSound(e, f, y, gy, back, rs[i]);
      }
      SequenceMoves(e, f, y, gy, back, s, rs, false);
    }
  }

  lemma {:induction false} AdvanceGroup(e: Env, f: Flags, n: Node, g: nat, back: bool, s: State)
    requires n.Group?
    requires WfEnv(e) && Wf(e, s) && Valid(n) && 2 * (g + Groups(n)) <= |s.caps|
    requires !NeedCheckAdvance(Code(e.canon, f, n, g, back))
    ensures AllMove(s, Match(e, f, n, g, back, s))
    decreases n, 0
  {
    hide MatchAll, Iterate, MatchLeaf, Code, NeedCheckAdvance;
    GroupScan(e.canon, f, n, g, back);
    AdvanceSound(e, f, n.inner, g + 1, back, SetCap(s, EnterCap(g, back)));
  }

  /** The captures of a group do not matter to the scan. */
  lemma GroupScan(canon: int -> int, f: Flags, n: Node, g: nat, back: bool)
    requires n.Group? && Valid(n) && !NeedCheckAdvance(Code(canon, f, n, g, back))
    ensures !NeedCheckAdvance(Code(canon, f, n.inner, g + 1, back))
  {
    hide QuantCode, EmitRange, Len;
    var ca := Code(canon, f, n.inner, g + 1, back);
    var i, j := if back then ISaveEnd(g) else ISaveStart(g), if back then ISaveStart(g) else ISaveEnd(g);
    PredictableAppend([i] + ca, [j]);
    PredictableAppend([i], ca);
    NoChar([i]);
    NoChar([j]);
  }

  lemma NoChar(code: seq<Instr>)
    requires |code| == 1 && !ReadsChar(code[0])
    ensures !AnyReadsChar(code)
  {
  }

  /** Exactly one iteration is one match. */
  lemma OnceIsMatch(e: Env, f: Flags, a: Node, g: nat, back: bool, greedy: bool, s: State)
    requires Wf(e, s) && 2 * (g + Groups(a)) <= |s.caps|
    ensures Iterate(e, f, a, g, back, 1, 1, greedy, s) == Match(e, f, a, g, back, s)
  {
    hide Match, Wf;
    OnBoundary(e, s);
    var ms := Match(e, f, a, g, back, s);
    assert AllGood(e, back, s, ms);
    NoMore(e, f, a, g, back, greedy, Room(e, back, s) + 1, s, ms);
  }

  lemma {:induction false} NoMore(e: Env, f: Flags, a: Node, g: nat, back: bool, greedy: bool, room: nat, s: State,
                                  rs: seq<State>)
    requires Wf(e, s) && 2 * (g + Groups(a)) <= |s.caps|
    requires AllGood(e, back, s, rs) && Within(e, back, room, |s.caps|, rs)
    ensures IterateAll(e, f, a, g, back, 0, 0, greedy, room, s, rs) == rs
    decreases |rs|
  {
    if rs != [] {
      NoMore(e, f, a, g, back, greedy, room, s, rs[1..]);
    }
  }

  // ----- where the analyses are exact -----

  /** A pattern without alternatives, lookarounds and repetitions. */
  predicate Straight(n: Node) {
    match n
    case Cat(a, b) => Straight(a) && Straight(b)
    case Group(a) => Straight(a)
    case Modify(_, _, a) => Straight(a)
    case _ => !n.Or? && !n.Look? && !n.Repeat?
  }

  /** How many characters it names. */
  function CharCount(n: Node): nat {
    match n
    case Cat(a, b) => CharCount(a) + CharCount(b)
    case Group(a) => CharCount(a)
    case Modify(_, _, a) => CharCount(a)
    case Char(_) => 1
    case Dot => 1
    case Class(_) => 1
    case _ => 0
  }

  /** A straight pattern needs the advance check if and only if it names no character. */
  lemma {:induction false} StraightAdvance(canon: int -> int, f: Flags, n: Node, g: nat, back: bool)
    requires Valid(n) && Straight(n)
    ensures var c := Code(canon, f, n, g, back); AllPredictable(c) && (AnyReadsChar(c) <==> CharCount(n) > 0)
    ensures NeedCheckAdvance(Code(canon, f, n, g, back)) <==> CharCount(n) == 0
    decreases n
  {
    match n
    case Cat(_, _) =>
      hide AllPredictable, AnyReadsChar;
      StraightAdvance(canon, f, Lead(n, back), LeadGroup(n, g, back), back);
      StraightAdvance(canon, f, Trail(n, back), TrailGroup(n, g, back), back);
      CatShape(canon, f, n, g, back);
      PredictableAppend(Code(canon, f, Lead(n, back), LeadGroup(n, g, back), back),
                        Code(canon, f, Trail(n, back), TrailGroup(n, g, back), back));
    case Group(a) =>
      StraightGroup(canon, f, n, g, back);
    case Modify(add, remove, a) =>
      StraightAdvance(canon, Update(f, add, remove), a, g, back);
    case _ =>
      StraightLeaf(canon, f, n, g, back);
  }

  lemma {:induction false} StraightGroup(canon: int -> int, f: Flags, n: Node, g: nat, back: bool)
    requires Valid(n) && Straight(n) && n.Group?
    ensures var c := Code(canon, f, n, g, back); AllPredictable(c) && (AnyReadsChar(c) <==> CharCount(n) > 0)
    decreases n, 0
  {
    hide QuantCode, EmitRange, Len, OneChar;
    var ca := Code(canon, f, n.inner, g + 1, back);
    var i, j := if back then ISaveEnd(g) else ISaveStart(g), if back then ISaveStart(g) else ISaveEnd(g);
    StraightAdvance(canon, f, n.inner, g + 1, back);
    PredictableAppend([i] + ca, [j]);
    PredictableAppend([i], ca);
    NoChar([i]);
    NoChar([j]);
  }

  lemma StraightLeaf(canon: int -> int, f: Flags, n: Node, g: nat, back: bool)
    requires Valid(n) && Straight(n) && !n.Cat? && !n.Group? && !n.Modify?
    ensures var c := Code(canon, f, n, g, back); AllPredictable(c) && (AnyReadsChar(c) <==> CharCount(n) > 0)
  {
    hide QuantCode, EmitRange, Len;
    var c := Code(canon, f, n, g, back);
    if n.Char? || n.Dot? || n.Class? {
      var i := c[if back then 1 else 0];
      assert i in c && ReadsChar(i) by { ReadsOne(canon, f, n, g, back); }
    }
  }

  lemma ReadsOne(canon: int -> int, f: Flags, n: Node, g: nat, back: bool)
    requires Valid(n) && (n.Char? || n.Dot? || n.Class?)
    ensures var c := Code(canon, f, n, g, back); |c| == (if back then 3 else 1) && ReadsChar(c[if back then 1 else 0])
  {
    hide QuantCode, Pairs16, Pairs32;
  }

  /** Characters and assertions in a row, forward, are a simple atom of so many characters. */
  predicate Simple(n: Node) {
    match n
    case Cat(a, b) => Simple(a) && Simple(b)
    case Modify(_, _, a) => Simple(a)
    case _ => !n.Or? && !n.Look? && !n.Repeat? && !n.Group? && !n.BackRef?
  }

  lemma {:induction false} SimpleCount(canon: int -> int, f: Flags, n: Node, g: nat)
    requires Valid(n) && Simple(n)
    ensures SimpleQuantifier(Code(canon, f, n, g, false)) == CharCount(n)
    decreases n
  {
    hide AllSimple, CountChars, Code, Update;
    match n
    case Cat(a, b) =>
      SimpleCount(canon, f, a, g);
      SimpleCount(canon, f, b, g + Groups(a));
      CatShape(canon, f, n, g, false);
      SimpleAppend(Code(canon, f, a, g, false), Code(canon, f, b, g + Groups(a), false));
    case Modify(add, remove, a) =>
      SimpleCount(canon, Update(f, add, remove), a, g);
      ModifyShape(canon, f, n, g, false);
    case _ =>
      SimpleLeaf(canon, f, n, g);
  }

  /** A greedy repetition of such an atom is one instruction around it, with its number of characters. */
  lemma GreedyUsed(canon: int -> int, f: Flags, n: Node, g: nat, min: nat, max: nat)
    requires Valid(Repeat(n, min, max, true)) && Simple(n) && CharCount(n) > 0 && max > 0
    ensures var a := Code(canon, f, n, g, false);
            Code(canon, f, Repeat(n, min, max, true), g, false) ==
            [ISimpleGreedyQuant(Len(a) + 1, min, max, CharCount(n))] + a + [IMatch]
  {
    hide SimpleQuantifier, Len, EmitRange;
    SimpleCount(canon, f, n, g);
  }

  lemma ModifyShape(canon: int -> int, f: Flags, n: Node, g: nat, back: bool)
    requires Valid(n) && n.Modify?
    ensures Code(canon, f, n, g, back) == Code(canon, Update(f, n.add, n.remove), n.scope, g, back)
  {
    hide QuantCode, EmitRange, Len, OneChar, Update;
  }

  lemma SimpleLeaf(canon: int -> int, f: Flags, n: Node, g: nat)
    requires Valid(n) && Simple(n) && !n.Cat? && !n.Modify?
    ensures SimpleQuantifier(Code(canon, f, n, g, false)) == CharCount(n)
  {
    hide QuantCode, EmitRange, Len;
    var c := Code(canon, f, n, g, false);
    if n.Char? || n.Dot? || n.Class? {
      ReadsOne(canon, f, n, g, false);
      assert c == [c[0]] && c[1..] == [];
    } else {
      assert |c| <= 1 && (c != [] ==> c == [c[0]] && c[1..] == []);
    }
  }

  lemma {:induction false} SimpleAppend(a: seq<Instr>, b: seq<Instr>)
    ensures AllSimple(a + b) <==> AllSimple(a) && AllSimple(b)
    ensures CountChars(a + b) == CountChars(a) + CountChars(b)
    decreases |a|
  {
    forall i | i in a ensures i in a + b { }
    forall i | i in b ensures i in a + b { }
    if a == [] {
      assert a + b == b;
    } else {
      assert (a + b)[1..] == a[1..] + b;
      SimpleAppend(a[1..], b);
    }
  }
}
