/**
 How far compiled patterns agree with ECMA-262 on captures: a condition on the pattern under which all matches are
 those of the standard, its converse for plain patterns, and subjects that show the difference.
 */
module RegexpConformance {
  import opened Basics
  import opened RegexpText
  import opened RegexpSyntax
  import opened RegexpMatcher
  import opened RegexpCodegen
  import opened RegexpLeaves
  import opened RegexpExec
  import opened RegexpStandard
  import opened RegexpDeviations

  // ----- all matches of a pattern -----

  /** A state in which no group of the pattern is set. */
  ghost predicate Fresh(e: Env, n: Node, g: nat, s: State) {
    Wf(e, s) && |s.caps| % 2 == 0 && 2 * (g + Groups(n)) <= |s.caps| && AllUnset(s.caps, g, Groups(n))
  }

  lemma AlikeSelf(s: State)
    ensures Alike({}, {}, s, s)
  {
  }

  /** Without stale groups, states that correspond are equal. */
  lemma AlikeEqual(x: State, y: State)
    requires Alike({}, {}, x, y) && |x.caps| % 2 == 0
    ensures x == y
  {
    forall i | 0 <= i < |x.caps| ensures x.caps[i] == y.caps[i] {
      var k := i / 2;
      assert SameCap({}, {}, k, Cap(x.caps, k), Cap(y.caps, k));
    }
    assert x.caps == y.caps;
  }

  /**
   The matches of the compiled pattern are those of the standard, one by one, at the same positions and with the same
   captures except for the groups that the analysis names; there the standard has none where the code keeps an old one.
   */
  lemma AlmostConforms(e: Env, f: Flags, n: Node, g: nat, back: bool, s: State)
    requires Fresh(e, n, g, s) && After(n, g, back, {}).Some?
    ensures AllAlike(After(n, g, back, {}).value, {}, Match(e, f, n, g, back, s), EcmaMatch(e, f, n, g, back, s))
  {
    hide Match, EcmaMatch, Alike, Wf, AllUnset;
    AlikeSelf(s);
    Agree(e, Site(f, n, g, back), {}, {}, s, s);
  }

  /** If the analysis names no group, the matches are those of the standard. */
  lemma Conforms(e: Env, f: Flags, n: Node, g: nat, back: bool, s: State)
    requires Fresh(e, n, g, s) && After(n, g, back, {}) == Some({})
    ensures Match(e, f, n, g, back, s) == EcmaMatch(e, f, n, g, back, s)
  {
    hide Match, EcmaMatch, Alike, Wf, AllUnset, After;
    AlmostConforms(e, f, n, g, back, s);
    var xs, ys := Match(e, f, n, g, back, s), EcmaMatch(e, f, n, g, back, s);
    forall i | 0 <= i < |xs| ensures xs[i] == ys[i] {
      assert Good(e, back, s, xs[i]);
      AlikeEqual(xs[i], ys[i]);
    }
  }

  ghost predicate AlwaysConforms(canon: int -> int, f: Flags, n: Node, g: nat) {
    forall e: Env, s: State :: e.canon == canon && Fresh(e, n, g, s) ==>
      Match(e, f, n, g, false, s) == EcmaMatch(e, f, n, g, false, s)
  }

  /** Nothing is repeated more than once. */
  predicate Once(n: Node) {
    match n
    case Cat(a, b) => Once(a) && Once(b)
    case Or(a, b) => Once(a) && Once(b)
    case Group(a) => Once(a)
    case Modify(_, _, a) => Once(a)
    case Look(_, _, a) => Once(a)
    case Repeat(a, min, max, _) => min <= 1 && max <= 1 && Once(a)
    case _ => true
  }

  /** Then no group can be stale, back references or not. */
  lemma {:induction false} OnceNotStale(n: Node, g: nat, back: bool)
    requires Once(n)
    ensures After(n, g, back, {}) == Some({})
    decreases n
  {
    match n
    case Cat(_, _) =>
      OnceNotStale(Lead(n, back), LeadGroup(n, g, back), back);
      OnceNotStale(Trail(n, back), TrailGroup(n, g, back), back);
    case Or(a, b) =>
      OnceNotStale(a, g, back);
      OnceNotStale(b, g + Groups(a), back);
      var none: set<nat> := {};
      assert none + none == none;
    case Group(a) =>
      OnceNotStale(a, g + 1, back);
      var none: set<nat> := {};
      assert none - {g} == none;
    case Modify(_, _, a) =>
      OnceNotStale(a, g, back);
    case Look(b, _, a) =>
      OnceNotStale(a, g, b);
    case Repeat(a, _, _, _) =>
      OnceNotStale(a, g, back);
      var none: set<nat> := {};
      assert none - Own(g, Groups(a)) == none && none + none == none;
    case _ =>
  }

  /** So all its matches are those of the standard. */
  lemma OnceConforms(e: Env, f: Flags, n: Node, g: nat, back: bool, s: State)
    requires Fresh(e, n, g, s) && Once(n)
    ensures Match(e, f, n, g, back, s) == EcmaMatch(e, f, n, g, back, s)
  {
    hide Match, EcmaMatch, After, Fresh;
    OnceNotStale(n, g, back);
    FreshFits(e, n, g, s);
    Conforms(e, f, n, g, back, s);
  }

  lemma FreshFits(e: Env, n: Node, g: nat, s: State)
    requires Fresh(e, n, g, s)
    ensures Wf(e, s) && 2 * (g + Groups(n)) <= |s.caps|
  {
  }

  /**
   For plain patterns the condition is exact: the matches are those of the standard on every subject if and only if the
   analysis names no group.
   */
  lemma ConformsExactly(canon: int -> int, f: Flags, n: Node, g: nat)
    requires Plain(canon, f, n)
    ensures AlwaysConforms(canon, f, n, g) <==> After(n, g, false, {}) == Some({})
  {
    hide Match, EcmaMatch, Plain, After, Stale, AllUnset, Wf;
    if After(n, g, false, {}) == Some({}) {
      forall e: Env, s: State | e.canon == canon && Fresh(e, n, g, s)
        ensures Match(e, f, n, g, false, s) == EcmaMatch(e, f, n, g, false, s)
      {
        Conforms(e, f, n, g, false, s);
      }
    } else {
      AfterIsStale(canon, f, n, g, {}, 0);
      assert After(n, g, false, {}).value != {};
      var k: nat :| k in After(n, g, false, {}).value;
      AfterIsStale(canon, f, n, g, {}, k);
      var e, s := Deviation(canon, f, n, g, k);
      assert !AlwaysConforms(canon, f, n, g);
    }
  }

  /** A subject on which a stale group shows. */
  lemma Deviation(canon: int -> int, f: Flags, n: Node, g: nat, k: nat) returns (e: Env, s: State)
    requires Plain(canon, f, n) && Stale(n, g, k, false)
    ensures e.canon == canon && Fresh(e, n, g, s) && Match(e, f, n, g, false, s) != EcmaMatch(e, f, n, g, false, s)
  {
    hide Match, EcmaMatch, Plain, Stale, Both;
    var t := Site(f, n, g, false);
    var w := StaleRun(canon, t, k, false);
    e, s := Env(Text(w, false), canon), State(0, Unset(2 * (g + Groups(n))));
    AlikeSelf(s);
    WeakenAll({}, Own(0, |s.caps|), {}, [s], [s]);
    assert Alike(Own(0, |s.caps|), {}, [s][0], [s][0]);
    assert HitsAt(e, t, s, s, w, StaleAt(k));
    var xs, ys := Compiled(e, t, s), Standard(e, t, s);
    var p, q :| Both(xs, ys, p, q) && Meets(StaleAt(k), p, q);
    var i := BothAt(xs, ys, p, q);
    assert Meets(StaleAt(k), p, q);
    assert IsSet(Cap(p.caps, k));
    assert Cap(p.caps, k).0 != NONE && Cap(q.caps, k).0 == NONE;
    assert xs[i] != ys[i];
  }

  // ----- searches -----

  /** All matches of a search as the standard defines them, in priority order. */
  ghost function EcmaAllMatches(e: Env, q: Search, s: State): seq<State>
    requires Starts(e, q, s)
    decreases |e.text.units| - s.pos
  {
    EcmaMatch(e, q.f, Group(q.n), 0, false, s)
    + (if q.sticky || s.pos >= |e.text.units| then [] else EcmaAllMatches(e, q, Advance(e, s)))
  }

  /** The groups of a search that may show stale captures; None when one may be read. */
  function StaleGroups(q: Search): Option<set<nat>> {
    After(Group(q.n), 0, false, {})
  }

  ghost function FirstCaps(rs: seq<State>): Option<seq<int>> {
    if rs == [] then None else Some(rs[0].caps)
  }

  lemma {:induction false} SearchAgrees(e: Env, q: Search, s: State)
    requires Starts(e, q, s) && Fresh(e, Group(q.n), 0, s) && StaleGroups(q).Some?
    ensures AllAlike(StaleGroups(q).value, {}, AllMatches(e, q, s), EcmaAllMatches(e, q, s))
    decreases |e.text.units| - s.pos
  {
    hide Match, EcmaMatch, Alike, Wf, AllUnset, After, Valid, WfEnv;
    AlmostConforms(e, q.f, Group(q.n), 0, false, s);
    if !q.sticky && s.pos < |e.text.units| {
      var s' := Advance(e, s);
      SearchAgrees(e, q, s');
      ConcatAlike(StaleGroups(q).value, {}, MatchesAt(e, q, s), AllMatches(e, q, s'),
                  EcmaMatch(e, q.f, Group(q.n), 0, false, s), EcmaAllMatches(e, q, s'));
    }
  }

  /** Two results that differ at most in captures that the standard leaves unset. */
  ghost predicate SameResult(stale: set<nat>, x: Option<seq<int>>, y: Option<seq<int>>) {
    && x.Some? == y.Some?
    && (x.Some? ==> |x.value| == |y.value| && forall k: nat :: SameCap(stale, {}, k, Cap(x.value, k), Cap(y.value, k)))
  }

  /**
   The result of a search agrees with the standard on whether there is a match, on where it is, and on all groups but
   the stale ones; without stale groups the two are equal.
   */
  lemma ResultAgrees(e: Env, q: Search, s: State)
    requires Starts(e, q, s) && Fresh(e, Group(q.n), 0, s) && StaleGroups(q).Some?
    ensures var x, y := FirstCaps(AllMatches(e, q, s)), FirstCaps(EcmaAllMatches(e, q, s));
            && SameResult(StaleGroups(q).value, x, y) && 0 !in StaleGroups(q).value
            && (StaleGroups(q) == Some({}) ==> x == y)
  {
    hide Match, EcmaMatch, SameCap, Cap, Wf, AllUnset, AllMatches, EcmaAllMatches;
    SearchAgrees(e, q, s);
    var xs, ys := AllMatches(e, q, s), EcmaAllMatches(e, q, s);
    if xs != [] {
      assert Alike(StaleGroups(q).value, {}, xs[0], ys[0]);
      if StaleGroups(q) == Some({}) {
        MatchesEven(e, q, s);
        AlikeEqual(xs[0], ys[0]);
      }
    }
  }

  lemma {:induction false} MatchesEven(e: Env, q: Search, s: State)
    requires Starts(e, q, s)
    ensures forall i :: 0 <= i < |AllMatches(e, q, s)| ==> |AllMatches(e, q, s)[i].caps| == |s.caps|
    decreases |e.text.units| - s.pos
  {
    hide Match, Wf, Valid, WfEnv;
    var ms := MatchesAt(e, q, s);
    forall i | 0 <= i < |ms| ensures |ms[i].caps| == |s.caps| { assert Good(e, false, s, ms[i]); }
    if !q.sticky && s.pos < |e.text.units| {
      MatchesEven(e, q, Advance(e, s));
    }
  }

  lemma StartFresh(e: Env, n: Node, p: int)
    requires Boundary(e.text, p)
    ensures Fresh(e, Group(n), 0, State(p, Unset(2 * (1 + Groups(n)))))
  {
    UnsetFresh(e, Group(n), p);
  }

  lemma UnsetFresh(e: Env, n: Node, p: int)
    requires Boundary(e.text, p)
    ensures Fresh(e, n, 0, State(p, Unset(2 * Groups(n))))
  {
    hide Groups, Unset, Boundary, AllUnset;
    AllAreUnset(Unset(2 * Groups(n)), Groups(n));
  }

  lemma AllAreUnset(caps: seq<int>, n: nat)
    requires |caps| == 2 * n && forall i :: 0 <= i < |caps| ==> caps[i] == NONE
    ensures AllUnset(caps, 0, n)
  {
  }

  // ----- subjects that show the difference -----

  const NO_FLAGS := Flags(false, false, false)

  /** (a)|b, whose group is number one. */
  const CHOICE := Or(Group(Char('a' as nat)), Char('b' as nat))

  /** The subject "ab". */
  function Ab(canon: int -> int): Env { Env(Text(['a' as nat, 'b' as nat], false), canon) }

  function MatchChoice(p: int, caps: seq<int>): seq<State>
    requires |caps| == 4
  {
    if p == 0 then [State(1, [caps[0], caps[1], 0, 1])] else if p == 1 then [State(2, caps)] else []
  }

  lemma CharOnAb(canon: int -> int, c: nat, g: nat, s: State)
    requires Wf(Ab(canon), s) && 2 * g <= |s.caps| && (c == 'a' as nat || c == 'b' as nat)
    ensures Match(Ab(canon), NO_FLAGS, Char(c), g, false, s) == EcmaMatch(Ab(canon), NO_FLAGS, Char(c), g, false, s) ==
            if s.pos < 2 && Ab(canon).text.units[s.pos] == c then [s.(pos := s.pos + 1)] else []
  {
  }

  lemma ChoiceGroups()
    ensures Groups(CHOICE) == 1
  {
    assert Groups(Group(Char('a' as nat))) == 1;
  }

  lemma GroupOnAb(canon: int -> int, s: State)
    requires Wf(Ab(canon), s) && |s.caps| == 4
    ensures var r := if s.pos == 0 then [State(1, s.caps[2 := 0][3 := 1])] else [];
            && Match(Ab(canon), NO_FLAGS, Group(Char('a' as nat)), 1, false, s) == r
            && EcmaMatch(Ab(canon), NO_FLAGS, Group(Char('a' as nat)), 1, false, s) == r
  {
    hide MatchLeaf;
    CharOnAb(canon, 'a' as nat, 2, SetCap(s, 2));
    CharOnAb(canon, 'a' as nat, 2, s);
  }

  lemma ChoiceOnAb(canon: int -> int, s: State)
    requires Wf(Ab(canon), s) && |s.caps| == 4
    ensures (ChoiceGroups(); Match(Ab(canon), NO_FLAGS, CHOICE, 1, false, s) == MatchChoice(s.pos, s.caps))
    ensures (ChoiceGroups(); EcmaMatch(Ab(canon), NO_FLAGS, CHOICE, 1, false, s) == MatchChoice(s.pos, s.caps))
  {
    hide MatchLeaf;
    ChoiceGroups();
    CharOnAb(canon, 'b' as nat, 2, s);
    GroupOnAb(canon, s);
    OrStandard(Ab(canon), Site(NO_FLAGS, CHOICE, 1, false), s, s);
    assert s.caps[2 := 0][3 := 1] == [s.caps[0], s.caps[1], 0, 1];
  }

  lemma GoodRoom(e: Env, x: State, r: State)
    requires Good(e, false, x, r) && Wf(e, x) && r.pos != x.pos
    ensures Wf(e, r) && |r.caps| == |x.caps| && Boundary(e.text, r.pos) && Room(e, false, r) < Room(e, false, x)
  {
  }

  lemma CompiledStep(e: Env, min: nat, x: State, x': State)
    requires Wf(e, x) && |x.caps| == 4 && (ChoiceGroups(); Match(e, NO_FLAGS, CHOICE, 1, false, x) == [x'])
    requires Good(e, false, x, x') && x'.pos != x.pos
    ensures (ChoiceGroups();
             Iterate(e, NO_FLAGS, CHOICE, 1, false, min, INFINITY, true, x) ==
             if min > 0 then Iterate(e, NO_FLAGS, CHOICE, 1, false, min - 1, INFINITY, true, x')
             else Iterate(e, NO_FLAGS, CHOICE, 1, false, 0, INFINITY, true, x') + [x])
  {
    hide Match, Wf, Good;
    ChoiceGroups();
    OnBoundary(e, x);
    GoodRoom(e, x, x');
    assert [x'][1..] == [] && Moved([x'], x.pos) == [x'];
    var m, room := if min > 0 then min - 1 else 0, if min > 0 then Room(e, false, x) + 1 else Room(e, false, x);
    assert IterateAll(e, NO_FLAGS, CHOICE, 1, false, m, INFINITY, true, room, x, [x']) ==
           Iterate(e, NO_FLAGS, CHOICE, 1, false, m, INFINITY, true, x');
  }

  lemma EcmaStep(e: Env, min: nat, y: State, y': State)
    requires Wf(e, y) && |y.caps| == 4 && Wf(e, Renewed(y, 1, 1)) && Good(e, false, y, y') && y'.pos != y.pos
    requires (ChoiceGroups(); EcmaMatch(e, NO_FLAGS, CHOICE, 1, false, Renewed(y, 1, 1)) == [y'])
    ensures (ChoiceGroups();
             EcmaRepeat(e, NO_FLAGS, CHOICE, 1, false, min, INFINITY, true, y) ==
             if min > 0 then EcmaRepeat(e, NO_FLAGS, CHOICE, 1, false, min - 1, INFINITY, true, y')
             else EcmaRepeat(e, NO_FLAGS, CHOICE, 1, false, 0, INFINITY, true, y') + [y])
  {
    hide EcmaMatch, Wf, Good;
    ChoiceGroups();
    OnBoundary(e, y);
    GoodRoom(e, y, y');
    assert [y'][1..] == [] && Moved([y'], y.pos) == [y'];
    var m, room := if min > 0 then min - 1 else 0, if min > 0 then Room(e, false, y) + 1 else Room(e, false, y);
    assert EcmaRepeatEach(e, NO_FLAGS, CHOICE, 1, false, m, INFINITY, true, room, y, [y']) ==
           EcmaRepeat(e, NO_FLAGS, CHOICE, 1, false, m, INFINITY, true, y');
  }

  /** Where compiled code leaves the loop over (a)|b, from position `p` of "ab". */
  function LoopStates(p: nat, caps: seq<int>): (r: seq<State>)
    requires |caps| == 4 && p <= 2
    ensures |r| == 3 - p
  {
    var last := State(p, caps);
    if p == 2 then [last] else if p == 1 then [State(2, caps), last]
    else [State(2, [caps[0], caps[1], 0, 1]), State(1, [caps[0], caps[1], 0, 1]), last]
  }

  lemma {:induction false} CompiledLoop(canon: int -> int, min: nat, x: State)
    requires Wf(Ab(canon), x) && x.pos + min <= 2 && |x.caps| == 4
    ensures (ChoiceGroups();
             Iterate(Ab(canon), NO_FLAGS, CHOICE, 1, false, min, INFINITY, true, x) ==
             LoopStates(x.pos, x.caps)[..3 - x.pos - min])
    decreases 2 - x.pos
  {
    hide Match, Iterate;
    ChoiceGroups();
    ChoiceOnAb(canon, x);
    if x.pos < 2 {
      var x' := MatchChoice(x.pos, x.caps)[0];
      assert Good(Ab(canon), false, x, Match(Ab(canon), NO_FLAGS, CHOICE, 1, false, x)[0]);
      CompiledStep(Ab(canon), min, x, x');
      CompiledLoop(canon, if min > 0 then min - 1 else 0, x');
    } else {
      LoopEnds(Ab(canon), x);
    }
  }

  lemma LoopEnds(e: Env, s: State)
    requires Wf(e, s) && |s.caps| == 4
    ensures (ChoiceGroups(); Match(e, NO_FLAGS, CHOICE, 1, false, s) == [] ==>
               Iterate(e, NO_FLAGS, CHOICE, 1, false, 0, INFINITY, true, s) == [s])
    ensures (ChoiceGroups();
             Wf(e, Renewed(s, 1, 1)) && EcmaMatch(e, NO_FLAGS, CHOICE, 1, false, Renewed(s, 1, 1)) == [] ==>
               EcmaRepeat(e, NO_FLAGS, CHOICE, 1, false, 0, INFINITY, true, s) == [s])
  {
    hide Match, EcmaMatch;
    ChoiceGroups();
  }

  /** The standard has unset the group when b matched. */
  lemma {:induction false} EcmaLoop(canon: int -> int, min: nat, y: State)
    requires Wf(Ab(canon), y) && y.pos + min <= 2 && |y.caps| == 4
    ensures (ChoiceGroups();
             var ys := EcmaRepeat(Ab(canon), NO_FLAGS, CHOICE, 1, false, min, INFINITY, true, y);
             ys != [] && ys[0] == if y.pos == 2 then y else State(2, [y.caps[0], y.caps[1], NONE, NONE]))
    decreases 2 - y.pos
  {
    hide EcmaMatch, EcmaRepeat;
    ChoiceGroups();
    var y1 := Renewed(y, 1, 1);
    RenewWf(Ab(canon), y, 1, 1);
    ChoiceOnAb(canon, y1);
    if y.pos < 2 {
      var y' := MatchChoice(y.pos, y1.caps)[0];
      assert Good(Ab(canon), false, y1, EcmaMatch(Ab(canon), NO_FLAGS, CHOICE, 1, false, y1)[0]);
      EcmaStep(Ab(canon), min, y, y');
      EcmaLoop(canon, if min > 0 then min - 1 else 0, y');
    } else {
      LoopEnds(Ab(canon), y);
    }
  }

  function LoopOf(min: nat): Node { Repeat(CHOICE, min, INFINITY, true) }

  lemma AbStarts(canon: int -> int, n: Node)
    requires WfCanon(canon) && Valid(n) && Groups(n) == 1
    ensures Starts(Ab(canon), Search(NO_FLAGS, n, true), State(0, Unset(4)))
  {
  }

  lemma LoopValid(min: nat)
    requires min <= 2
    ensures Valid(LoopOf(min)) && Groups(LoopOf(min)) == 1
  {
    ChoiceGroups();
    assert Valid(Group(Char('a' as nat)));
    assert Valid(CHOICE);
  }

  /** The first match of a sticky search, from the first match of its pattern. */
  lemma FirstOf(e: Env, n: Node, s: State, x: State, y: State)
    requires Starts(e, Search(NO_FLAGS, n, true), s) && |s.caps| == 4 && Groups(n) == 1
    requires var xs := Match(e, NO_FLAGS, n, 1, false, SetCap(s, 0)); xs != [] && xs[0] == x
    requires var ys := EcmaMatch(e, NO_FLAGS, n, 1, false, s); ys != [] && ys[0] == y
    ensures |x.caps| == |y.caps| == 4
    ensures FirstCaps(AllMatches(e, Search(NO_FLAGS, n, true), s)) == Some(x.caps[1 := x.pos])
    ensures FirstCaps(EcmaAllMatches(e, Search(NO_FLAGS, n, true), s)) == Some(y.caps[0 := s.pos][1 := y.pos])
  {
    hide Match, EcmaMatch, Valid, Wf;
    GroupStandard(e, Site(NO_FLAGS, Group(n), 0, false), s, s);
    var xs, ys := Match(e, NO_FLAGS, Group(n), 0, false, s), EcmaMatch(e, NO_FLAGS, Group(n), 0, false, s);
    assert xs[0] == SetCap(x, 1) && ys[0] == SetGroup(y, 0, false, s.pos);
  }

  lemma LoopMatches(canon: int -> int, min: nat, x: State, y: State)
    requires min <= 2 && x.pos == y.pos == 0 && |x.caps| == |y.caps| == 4 && Wf(Ab(canon), x) && Wf(Ab(canon), y)
    requires x.caps[2..] == [NONE, NONE]
    ensures (LoopValid(min);
             && Match(Ab(canon), NO_FLAGS, LoopOf(min), 1, false, x) == LoopStates(0, x.caps)[..3 - min]
             && var ys := EcmaMatch(Ab(canon), NO_FLAGS, LoopOf(min), 1, false, y);
                ys != [] && ys[0] == State(2, [y.caps[0], y.caps[1], NONE, NONE]))
  {
    hide Match, EcmaMatch, Iterate, EcmaRepeat;
    ChoiceGroups();
    LoopValid(min);
    assert x.caps[2] == x.caps[2..][0] && x.caps[3] == x.caps[2..][1];
    assert Renewed(x, 1, 1).caps == x.caps;
    CompiledLoop(canon, min, x);
    EcmaLoop(canon, min, y);
    RepeatStandard(Ab(canon), Site(NO_FLAGS, LoopOf(min), 1, false), x, y);
  }

  /**
   On "ab" the repetitions of (?:(a)|b) with minimum zero, one and two match the whole subject; compiled code reports
   the a of the first iteration, and the standard nothing.
   */
  lemma StaleCapture(canon: int -> int, min: nat)
    requires WfCanon(canon) && min <= 2
    ensures (LoopValid(min); AbStarts(canon, LoopOf(min));
             var q, s := Search(NO_FLAGS, LoopOf(min), true), State(0, Unset(4));
             && FirstCaps(AllMatches(Ab(canon), q, s)) == Some([0, 2, 0, 1])
             && FirstCaps(EcmaAllMatches(Ab(canon), q, s)) == Some([0, 2, NONE, NONE]))
  {
    hide Match, EcmaMatch;
    LoopValid(min);
    AbStarts(canon, LoopOf(min));
    var e, s := Ab(canon), State(0, Unset(4));
    var x, y := State(2, [0, NONE, 0, 1]), State(2, [NONE, NONE, NONE, NONE]);
    LoopMatches(canon, min, SetCap(s, 0), s);
    FirstOf(e, LoopOf(min), s, x, y);
    assert x.caps[1 := x.pos] == [0, 2, 0, 1] && y.caps[0 := s.pos][1 := y.pos] == [0, 2, NONE, NONE];
  }

  /** The same loop followed by a back reference. */
  function LoopThenRef(): Node { Cat(LoopOf(0), BackRef(1)) }

  lemma RefValid()
    ensures Valid(LoopThenRef()) && Groups(LoopThenRef()) == 1
  {
    LoopValid(0);
  }

  /**
   On "ab" the pattern (?:(a)|b)*\1 matches the whole subject by the standard, where the reference is empty; compiled
   code compares with the old a, backtracks, and matches nothing but the empty string.
   */
  lemma StaleReference(canon: int -> int)
    requires WfCanon(canon)
    ensures (RefValid(); AbStarts(canon, LoopThenRef());
             var q, s := Search(NO_FLAGS, LoopThenRef(), true), State(0, Unset(4));
             && FirstCaps(AllMatches(Ab(canon), q, s)) == Some([0, 0, NONE, NONE])
             && FirstCaps(EcmaAllMatches(Ab(canon), q, s)) == Some([0, 2, NONE, NONE]))
  {
    hide Match, EcmaMatch;
    RefValid();
    AbStarts(canon, LoopThenRef());
    var e, s := Ab(canon), State(0, Unset(4));
    var x, y := SetCap(s, 0), State(2, [NONE, NONE, NONE, NONE]);
    RefMatches(canon, x, s);
    FirstOf(e, LoopThenRef(), s, x, y);
    assert x.caps[1 := x.pos] == [0, 0, NONE, NONE] && y.caps[0 := s.pos][1 := y.pos] == [0, 2, NONE, NONE];
  }

  lemma RefMatches(canon: int -> int, x: State, y: State)
    requires x.pos == y.pos == 0 && |x.caps| == |y.caps| == 4 && Wf(Ab(canon), x) && Wf(Ab(canon), y)
    requires x.caps[2..] == [NONE, NONE]
    ensures (RefValid();
             && Match(Ab(canon), NO_FLAGS, LoopThenRef(), 1, false, x) == [x]
             && var ys := EcmaMatch(Ab(canon), NO_FLAGS, LoopThenRef(), 1, false, y);
                ys != [] && ys[0] == State(2, [y.caps[0], y.caps[1], NONE, NONE]))
  {
    hide Match, EcmaMatch;
    RefValid();
    LoopValid(0);
    LoopMatches(canon, 0, x, y);
    var e, t := Ab(canon), Site(NO_FLAGS, LoopThenRef(), 1, false);
    CatStandard(e, t, x, y);
    var xs, ys := Match(e, NO_FLAGS, LoopOf(0), 1, false, x), EcmaMatch(e, NO_FLAGS, LoopOf(0), 1, false, y);
    assert Good(e, false, x, xs[0]) && Good(e, false, x, xs[1]) && Good(e, false, y, ys[0]);
    RefOnAb(canon, xs[0]);
    RefOnAb(canon, xs[1]);
    RefOnAb(canon, xs[2]);
    RefOnAb(canon, ys[0]);
    assert xs[2] == x;
    OnlyThird(e, BackRef(1), 2, x, xs);
  }

  lemma OnlyThird(e: Env, n: Node, g: nat, s: State, rs: seq<State>)
    requires Wf(e, s) && 2 * (g + Groups(n)) <= |s.caps| && AllGood(e, false, s, rs) && |rs| == 3
    requires Match(e, NO_FLAGS, n, g, false, rs[0]) == Match(e, NO_FLAGS, n, g, false, rs[1]) == []
    requires Match(e, NO_FLAGS, n, g, false, rs[2]) == [rs[2]]
    ensures MatchAll(e, NO_FLAGS, n, g, false, s, rs) == [rs[2]]
  {
    hide Match, Wf;
    assert rs[1..] == [rs[1], rs[2]] && rs[1..][1..] == [rs[2]] && rs[1..][1..][1..] == [];
    assert MatchAll(e, NO_FLAGS, n, g, false, s, rs[1..][1..]) == [rs[2]];
    assert MatchAll(e, NO_FLAGS, n, g, false, s, rs[1..]) == [rs[2]];
  }

  lemma RefOnAb(canon: int -> int, s: State)
    requires Wf(Ab(canon), s) && |s.caps| == 4
    ensures var rs := Match(Ab(canon), NO_FLAGS, BackRef(1), 2, false, s);
            && (s.caps[2] == NONE ==> rs == [s])
            && (s.caps[2] == 0 && s.caps[3] == 1 && s.pos >= 1 ==> rs == [])
    ensures s.caps[2] == NONE ==> EcmaMatch(Ab(canon), NO_FLAGS, BackRef(1), 2, false, s) == [s]
  {
  }
}
