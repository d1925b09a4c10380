/**
 The matcher of section 22.2.2 of ECMA-262: captures of a repeated pattern are
 unset at the start of every iteration, and a group is set when it is left. The
 compiler unsets them once, before a repetition whose minimum is zero. An
 analysis of the pattern says for which groups that may show.
 */
module RegexpStandard {
  import opened Basics
  import opened RegexpSyntax
  import opened RegexpMatcher

  // ----- the standard -----

  /** Both ends of a group, as the standard sets them on leaving it. */
  function SetGroup(r: State, g: nat, back: bool, from: int): (q: State)
    requires 2 * g + 1 < |r.caps|
  {
    var start, end := if back then r.pos else from, if back then from else r.pos;
    r.(caps := r.caps[2 * g := start][2 * g + 1 := end])
  }

  function SetGroups(rs: seq<State>, g: nat, back: bool, from: int): (r: seq<State>)
    requires forall k :: 0 <= k < |rs| ==> 2 * g + 1 < |rs[k].caps|
    ensures |r| == |rs| && forall k :: 0 <= k < |r| ==> r[k] == SetGroup(rs[k], g, back, from)
  {
    if rs == [] then [] else [SetGroup(rs[0], g, back, from)] + SetGroups(rs[1..], g, back, from)
  }

  /** The groups of an iteration are unset before it starts. */
  function Renewed(s: State, g: nat, n: nat): (r: State)
    requires 2 * (g + n) <= |s.caps|
    ensures r.pos == s.pos && |r.caps| == |s.caps|
  {
    State(s.pos, ResetCaps(s.caps, g, g + n))
  }

  /** All matches of `n`, whose first group is `g`, from `s`, best first, as the standard defines them. */
  function EcmaMatch(e: Env, f: Flags, n: Node, g: nat, back: bool, s: State): (rs: seq<State>)
    requires Wf(e, s) && 2 * (g + Groups(n)) <= |s.caps|
    ensures AllGood(e, back, s, rs)
    decreases n, 0, 0, 0, 0
  {
    match n
    case Cat(_, _) =>
      var rs := EcmaMatch(e, f, Lead(n, back), LeadGroup(n, g, back), back, s);
      EcmaEach(e, f, Trail(n, back), TrailGroup(n, g, back), back, s, rs)
    case Or(a, b) => EcmaMatch(e, f, a, g, back, s) + EcmaMatch(e, f, b, g + Groups(a), back, s)
    case Group(a) => SetGroups(EcmaMatch(e, f, a, g + 1, back, s), g, back, s.pos)
    case Modify(add, remove, a) => EcmaMatch(e, Update(f, add, remove), a, g, back, s)
    case Look(b, negative, a) =>
      var rs := EcmaMatch(e, f, a, g, b, s);
      if negative then (if rs == [] then [s] else [])
      else if rs == [] then [] else [State(s.pos, rs[0].caps)]
    case Repeat(a, min, max, greedy) => EcmaRepeat(e, f, a, g, back, min, max, greedy, s)
    case _ => MatchLeaf(e, f, n, back, s)
  }

  function EcmaEach(e: Env, f: Flags, n: Node, g: nat, back: bool, s: State, rs: seq<State>): (r: seq<State>)
    requires Wf(e, s) && 2 * (g + Groups(n)) <= |s.caps|
    requires AllGood(e, back, s, rs)
    ensures AllGood(e, back, s, r)
    decreases n, 1, 0, 0, |rs|
  {
    if rs == [] then [] else EcmaMatch(e, f, n, g, back, rs[0]) + EcmaEach(e, f, n, g, back, s, rs[1..])
  }

  /** RepeatMatcher, section 22.2.2.3.1: no iteration leaves the captures as they are. */
  function EcmaRepeat(e: Env, f: Flags, a: Node, g: nat, back: bool, min: nat, max: nat, greedy: bool, s: State)
    : (rs: seq<State>)
    requires Wf(e, s) && 2 * (g + Groups(a)) <= |s.caps|
    ensures AllGood(e, back, s, rs)
    decreases a, 1, min, Room(e, back, s) + 1, 0
  {
    if min > 0 then
      var ms := EcmaMatch(e, f, a, g, back, Renewed(s, g, Groups(a)));
      EcmaRepeatEach(e, f, a, g, back, min - 1, Less(max), greedy, Room(e, back, s) + 1, s, ms)
    else if max == 0 then [s]
    else
      var ms := Moved(EcmaMatch(e, f, a, g, back, Renewed(s, g, Groups(a))), s.pos);
      var rest := EcmaRepeatEach(e, f, a, g, back, 0, Less(max), greedy, Room(e, back, s), s, ms);
      if greedy then rest + [s] else [s] + rest
  }

  function EcmaRepeatEach(e: Env, f: Flags, a: Node, g: nat, back: bool, min: nat, max: nat, greedy: bool, room: nat,
                          s: State, rs: seq<State>): (r: seq<State>)
    requires Wf(e, s) && 2 * (g + Groups(a)) <= |s.caps|
    requires AllGood(e, back, s, rs)
    requires Within(e, back, room, |s.caps|, rs)
    ensures AllGood(e, back, s, r)
    decreases a, 1, min, room, |rs|
  {
    if rs == [] then []
    else
      EcmaRepeat(e, f, a, g, back, min, max, greedy, rs[0])
      + EcmaRepeatEach(e, f, a, g, back, min, max, greedy, room, s, rs[1..])
  }

  // ----- the analysis -----

  /** The groups from `g` on, `n` of them. */
  function Own(g: nat, n: nat): (r: set<nat>)
    ensures forall k: nat :: k in r <==> g <= k < g + n
  {
    if n == 0 then {} else Own(g, n - 1) + {g + n - 1}
  }

  /**
   The groups whose captures may be stale after `n`, when those in `stale` may be before it; None when a back
   reference may read a stale capture. From the second iteration on, the groups of a repeated pattern start stale.
   */
  function After(n: Node, g: nat, back: bool, stale: set<nat>): Option<set<nat>> {
    match n
    case BackRef(k) => if k in stale then None else Some(stale)
    case Cat(_, _) =>
      (match After(Lead(n, back), LeadGroup(n, g, back), back, stale)
       case None => None
       case Some(d) => After(Trail(n, back), TrailGroup(n, g, back), back, d))
    case Or(a, b) => Either(After(a, g, back, stale), After(b, g + Groups(a), back, stale))
    case Group(a) =>
      (match After(a, g + 1, back, stale)
       case None => None
       case Some(d) => Some(d - {g}))
    case Modify(_, _, a) => After(a, g, back, stale)
    case Look(b, negative, a) =>
      (match After(a, g, b, stale)
       case None => None
       case Some(d) => Some(if negative then stale else d))
    case Repeat(a, min, max, _) =>
      var d := Entered(stale, g, Groups(a), min);
      if min == 0 && max == 0 then Some(d)
      else
        var left := After(a, g, back, Inside(d, g, Groups(a), min, max));
        if min == 0 then Either(Some(d), left) else left
    case _ => Some(stale)
  }

  function Either(a: Option<set<nat>>, b: Option<set<nat>>): Option<set<nat>> {
    if a.None? || b.None? then None else Some(a.value + b.value)
  }

  /** A repetition of minimum zero first unsets its groups. */
  function Entered(stale: set<nat>, g: nat, n: nat, min: nat): set<nat> {
    if min == 0 then stale - Own(g, n) else stale
  }

  /** A second iteration finds the captures of the first. */
  function Inside(d: set<nat>, g: nat, n: nat, min: nat, max: nat): set<nat> {
    if min <= 1 && max <= 1 then d else d + Own(g, n)
  }

  // ----- states of the two matchers -----

  /** The two ends of a group. */
  function Cap(caps: seq<int>, k: nat): (int, int) {
    if 2 * k + 1 < |caps| then (caps[2 * k], caps[2 * k + 1]) else (NONE, NONE)
  }

  const UNSET := (NONE, NONE)

  /** Inside an open group the compiler has set one end already; elsewhere only stale groups differ, and are unset. */
  predicate SameCap(stale: set<nat>, open: set<nat>, k: nat, x: (int, int), y: (int, int)) {
    if k in stale then y == x || y == UNSET
    else if k in open then y == UNSET && (x.0 == NONE || x.1 == NONE)
    else x == y
  }

  ghost predicate Alike(stale: set<nat>, open: set<nat>, x: State, y: State) {
    && x.pos == y.pos && |x.caps| == |y.caps|
    && forall k: nat :: SameCap(stale, open, k, Cap(x.caps, k), Cap(y.caps, k))
  }

  ghost predicate AllAlike(stale: set<nat>, open: set<nat>, xs: seq<State>, ys: seq<State>) {
    |xs| == |ys| && forall i :: 0 <= i < |xs| ==> Alike(stale, open, xs[i], ys[i])
  }

  /** The groups from `g` on, `n` of them, are not set. */
  ghost predicate AllUnset(caps: seq<int>, g: nat, n: nat) {
    forall k: nat :: g <= k < g + n ==> Cap(caps, k) == UNSET
  }

  /** Only the groups from `g` on, `n` of them, changed. */
  ghost predicate Keeps(caps: seq<int>, r: State, g: nat, n: nat) {
    |r.caps| == |caps| && forall k: nat :: !(g <= k < g + n) ==> Cap(r.caps, k) == Cap(caps, k)
  }

  ghost predicate AllKeep(caps: seq<int>, rs: seq<State>, g: nat, n: nat) {
    forall i :: 0 <= i < |rs| ==> Keeps(caps, rs[i], g, n)
  }

  // ----- small steps -----

  lemma WeakenAll(a: set<nat>, b: set<nat>, open: set<nat>, xs: seq<State>, ys: seq<State>)
    requires AllAlike(a, open, xs, ys) && a <= b
    ensures AllAlike(b, open, xs, ys)
  {
    hide Cap;
  }

  lemma ConcatAlike(d: set<nat>, open: set<nat>, a: seq<State>, b: seq<State>, xs: seq<State>, ys: seq<State>)
    requires AllAlike(d, open, a, xs) && AllAlike(d, open, b, ys)
    ensures AllAlike(d, open, a + b, xs + ys)
  {
    hide Alike;
  }

  lemma ConcatKeep(caps: seq<int>, a: seq<State>, b: seq<State>, g: nat, n: nat)
    requires AllKeep(caps, a, g, n) && AllKeep(caps, b, g, n)
    ensures AllKeep(caps, a + b, g, n)
  {
    hide Keeps;
  }

  /** What changes in a state reached later, within a larger range. */
  lemma KeepFrom(caps: seq<int>, r: State, rs: seq<State>, g: nat, n: nat, g1: nat, n1: nat)
    requires Keeps(caps, r, g, n) && AllKeep(r.caps, rs, g1, n1) && g <= g1 && g1 + n1 <= g + n
    ensures AllKeep(caps, rs, g, n)
  {
    hide Cap;
    forall i | 0 <= i < |rs| ensures Keeps(caps, rs[i], g, n) {
      assert Keeps(r.caps, rs[i], g1, n1);
    }
  }

  lemma KeepWider(caps: seq<int>, rs: seq<State>, g: nat, n: nat, g1: nat, n1: nat)
    requires AllKeep(caps, rs, g1, n1) && g <= g1 && g1 + n1 <= g + n
    ensures AllKeep(caps, rs, g, n)
  {
    hide Cap;
    forall i | 0 <= i < |rs| ensures Keeps(caps, rs[i], g, n) {
      assert Keeps(caps, rs[i], g1, n1);
    }
  }

  lemma KeepsUnset(caps: seq<int>, r: State, g: nat, n: nat, g1: nat, n1: nat)
    requires AllUnset(caps, g1, n1) && Keeps(caps, r, g, n) && (g1 + n1 <= g || g + n <= g1)
    ensures AllUnset(r.caps, g1, n1)
  {
    hide Cap;
    forall k: nat | g1 <= k < g1 + n1 ensures Cap(r.caps, k) == UNSET {
      assert Cap(r.caps, k) == Cap(caps, k);
    }
  }

  lemma ResetCap(caps: seq<int>, lo: nat, hi: nat, k: nat)
    requires 2 * hi <= |caps|
    ensures Cap(ResetCaps(caps, lo, hi), k) == if lo <= k < hi then UNSET else Cap(caps, k)
  {
  }

  lemma SetOneCap(s: State, i: nat, k: nat)
    requires i < |s.caps|
    ensures k != i / 2 ==> Cap(SetCap(s, i).caps, k) == Cap(s.caps, k)
  {
  }

  lemma SetGroupCap(r: State, g: nat, back: bool, from: int, k: nat)
    requires 2 * g + 1 < |r.caps|
    ensures k != g ==> Cap(SetGroup(r, g, back, from).caps, k) == Cap(r.caps, k)
    ensures Cap(SetGroup(r, g, back, from).caps, g) == if back then (r.pos, from) else (from, r.pos)
  {
  }

  /** A back reference only sees its own group, and an unset group as the empty string. */
  lemma RefAlike(e: Env, icase: bool, back: bool, k: nat, stale: set<nat>, open: set<nat>, x: State, y: State)
    requires InBounds(e, x) && InBounds(e, y) && Alike(stale, open, x, y) && k !in stale
    ensures var p, q := MatchRef(e, icase, back, k, x), MatchRef(e, icase, back, k, y);
            p.Some? == q.Some? && (p.Some? ==> p.value.pos == q.value.pos)
  {
    hide RefForward, RefBackward;
    assert SameCap(stale, open, k, Cap(x.caps, k), Cap(y.caps, k));
  }

  lemma MoveAlike(stale: set<nat>, open: set<nat>, x: State, y: State, p: int)
    requires Alike(stale, open, x, y)
    ensures Alike(stale, open, x.(pos := p), y.(pos := p))
  {
  }

  // ----- the two matchers agree -----

  ghost predicate Ready(e: Env, t: Site, stale: set<nat>, open: set<nat>, x: State, y: State) {
    && Wf(e, x) && Wf(e, y) && 2 * (t.g + Groups(t.n)) <= |x.caps|
    && Alike(stale, open, x, y) && AllUnset(y.caps, t.g, Groups(t.n))
    && forall k :: k in open ==> !(t.g <= k < t.g + Groups(t.n))
  }

  ghost function Compiled(e: Env, t: Site, x: State): seq<State>
    requires Wf(e, x) && 2 * (t.g + Groups(t.n)) <= |x.caps|
  {
    Match(e, t.f, t.n, t.g, t.back, x)
  }

  ghost function Standard(e: Env, t: Site, y: State): seq<State>
    requires Wf(e, y) && 2 * (t.g + Groups(t.n)) <= |y.caps|
  {
    EcmaMatch(e, t.f, t.n, t.g, t.back, y)
  }

  /** The results correspond one to one, and only the given groups changed. */
  ghost predicate Linked(stale: set<nat>, open: set<nat>, x: State, y: State, xs: seq<State>, ys: seq<State>,
                         g: nat, n: nat) {
    AllAlike(stale, open, xs, ys) && AllKeep(x.caps, xs, g, n) && AllKeep(y.caps, ys, g, n)
  }

  /**
   Unless a back reference may read a stale capture, the matches of the compiler and of the standard correspond one to
   one, at the same positions, with the same captures except for the stale groups.
   */
  lemma {:induction false} Agree(e: Env, t: Site, stale: set<nat>, open: set<nat>, x: State, y: State)
    requires Ready(e, t, stale, open, x, y) && After(t.n, t.g, t.back, stale).Some?
    ensures Linked(After(t.n, t.g, t.back, stale).value, open, x, y, Compiled(e, t, x), Standard(e, t, y), t.g,
                   Groups(t.n))
    decreases t.n, 3, 0, 0, 0
  {
    hide Match, EcmaMatch, Linked, Ready, Groups;
    var n := t.n;
    if n.Cat? {
      AgreeCat(e, t, stale, open, x, y);
    } else if n.Or? {
      AgreeOr(e, t, stale, open, x, y);
    } else if n.Group? {
      AgreeGroup(e, t, stale, open, x, y);
    } else if n.Modify? {
      AgreeModify(e, t, stale, open, x, y);
    } else if n.Look? {
      AgreeLook(e, t, stale, open, x, y);
    } else if n.Repeat? {
      AgreeRepeat(e, t, stale, open, x, y);
    } else {
      AgreeLeaf(e, t, stale, open, x, y);
    }
  }

  predicate IsLeaf(n: Node) { !(n.Cat? || n.Or? || n.Group? || n.Modify? || n.Look? || n.Repeat?) }

  /** A leaf keeps the captures and moves both states alike. */
  lemma LeafAlike(e: Env, t: Site, x: State, y: State)
    requires IsLeaf(t.n) && Wf(e, x) && Wf(e, y) && x.pos == y.pos && |x.caps| == |y.caps| && 2 * t.g <= |x.caps|
    requires t.n.BackRef? ==>
               var p, q := MatchRef(e, t.f.ignoreCase, t.back, t.n.group, x),
                 MatchRef(e, t.f.ignoreCase, t.back, t.n.group, y);
               p.Some? == q.Some? && (p.Some? ==> p.value.pos == q.value.pos)
    ensures var xs, ys := Compiled(e, t, x), Standard(e, t, y);
            && |xs| == |ys| <= 1
            && (|xs| == 1 ==> xs[0] == x.(pos := xs[0].pos) && ys[0] == y.(pos := xs[0].pos))
  {
    hide RefForward, RefBackward, Wf;
  }

  lemma AgreeLeaf(e: Env, t: Site, stale: set<nat>, open: set<nat>, x: State, y: State)
    requires IsLeaf(t.n) && Ready(e, t, stale, open, x, y) && After(t.n, t.g, t.back, stale).Some?
    ensures Linked(After(t.n, t.g, t.back, stale).value, open, x, y, Compiled(e, t, x), Standard(e, t, y), t.g,
                   Groups(t.n))
  {
    hide SameCap, Cap, Match, EcmaMatch;
    if t.n.BackRef? {
      RefAlike(e, t.f.ignoreCase, t.back, t.n.group, stale, open, x, y);
    }
    LeafAlike(e, t, x, y);
    var xs := Compiled(e, t, x);
    if |xs| == 1 {
      MoveAlike(stale, open, x, y, xs[0].pos);
    }
  }

  lemma CatStandard(e: Env, t: Site, x: State, y: State)
    requires t.n.Cat? && Wf(e, x) && Wf(e, y) && 2 * (t.g + Groups(t.n)) <= |x.caps| == |y.caps|
    ensures Compiled(e, t, x) ==
            MatchAll(e, t.f, Trail(t.n, t.back), TrailGroup(t.n, t.g, t.back), t.back, x, Compiled(e, LeadOf(t), x))
    ensures Standard(e, t, y) ==
            EcmaEach(e, t.f, Trail(t.n, t.back), TrailGroup(t.n, t.g, t.back), t.back, y, Standard(e, LeadOf(t), y))
  {
  }

  lemma {:induction false} AgreeCat(e: Env, t: Site, stale: set<nat>, open: set<nat>, x: State, y: State)
    requires t.n.Cat? && Ready(e, t, stale, open, x, y) && After(t.n, t.g, t.back, stale).Some?
    ensures Linked(After(t.n, t.g, t.back, stale).value, open, x, y, Compiled(e, t, x), Standard(e, t, y), t.g,
                   Groups(t.n))
    decreases t.n, 2, 0, 0, 0
  {
    hide Match, EcmaMatch, Cap, SameCap, Wf;
    var l, r := LeadOf(t), TrailOf(t);
    Agree(e, l, stale, open, x, y);
    var d := After(l.n, l.g, l.back, stale).value;
    var xs, ys := Compiled(e, l, x), Standard(e, l, y);
    KeepWider(x.caps, xs, t.g, Groups(t.n), l.g, Groups(l.n));
    KeepWider(y.caps, ys, t.g, Groups(t.n), l.g, Groups(l.n));
    forall i | 0 <= i < |ys| ensures AllUnset(ys[i].caps, r.g, Groups(r.n)) {
      KeepsUnset(y.caps, ys[i], l.g, Groups(l.n), r.g, Groups(r.n));
    }
    AgreeEach(e, r, d, open, x, y, xs, ys, t.g, Groups(t.n));
    CatStandard(e, t, x, y);
  }

  /** Matching on from results that correspond. */
  lemma {:induction false} AgreeEach(e: Env, t: Site, stale: set<nat>, open: set<nat>, x: State, y: State,
                                     xs: seq<State>, ys: seq<State>, g: nat, n: nat)
    requires Wf(e, x) && Wf(e, y) && |x.caps| == |y.caps| && 2 * (t.g + Groups(t.n)) <= |x.caps|
    requires AllGood(e, t.back, x, xs) && AllGood(e, t.back, y, ys) && Linked(stale, open, x, y, xs, ys, g, n)
    requires g <= t.g && t.g + Groups(t.n) <= g + n
    requires forall i :: 0 <= i < |ys| ==> AllUnset(ys[i].caps, t.g, Groups(t.n))
    requires (forall k :: k in open ==> !(t.g <= k < t.g + Groups(t.n))) && After(t.n, t.g, t.back, stale).Some?
    ensures Linked(After(t.n, t.g, t.back, stale).value, open, x, y,
                   MatchAll(e, t.f, t.n, t.g, t.back, x, xs), EcmaEach(e, t.f, t.n, t.g, t.back, y, ys), g, n)
    decreases t.n, 4, 0, 0, |xs|
  {
    hide Match, EcmaMatch, Cap, SameCap, Wf;
    if xs != [] {
      assert Good(e, t.back, x, xs[0]) && Good(e, t.back, y, ys[0]) && Alike(stale, open, xs[0], ys[0]);
      Agree(e, t, stale, open, xs[0], ys[0]);
      KeepFrom(x.caps, xs[0], Compiled(e, t, xs[0]), g, n, t.g, Groups(t.n));
      KeepFrom(y.caps, ys[0], Standard(e, t, ys[0]), g, n, t.g, Groups(t.n));
      AgreeEach(e, t, stale, open, x, y, xs[1..], ys[1..], g, n);
      var d := After(t.n, t.g, t.back, stale).value;
      LinkedConcat(d, open, x, y, Compiled(e, t, xs[0]), MatchAll(e, t.f, t.n, t.g, t.back, x, xs[1..]),
                   Standard(e, t, ys[0]), EcmaEach(e, t.f, t.n, t.g, t.back, y, ys[1..]), g, n);
    }
  }

  lemma LinkedConcat(d: set<nat>, open: set<nat>, x: State, y: State, a: seq<State>, b: seq<State>,
                     c: seq<State>, z: seq<State>, g: nat, n: nat)
    requires Linked(d, open, x, y, a, c, g, n) && Linked(d, open, x, y, b, z, g, n)
    ensures Linked(d, open, x, y, a + b, c + z, g, n)
  {
    hide AllAlike, AllKeep;
    ConcatAlike(d, open, a, b, c, z);
    ConcatKeep(x.caps, a, b, g, n);
    ConcatKeep(y.caps, c, z, g, n);
  }

  lemma LinkedWiden(a: set<nat>, b: set<nat>, open: set<nat>, x: State, y: State, xs: seq<State>, ys: seq<State>,
                    g: nat, n: nat, g1: nat, n1: nat)
    requires Linked(a, open, x, y, xs, ys, g1, n1) && a <= b && g <= g1 && g1 + n1 <= g + n
    ensures Linked(b, open, x, y, xs, ys, g, n)
  {
    hide AllAlike, AllKeep;
    WeakenAll(a, b, open, xs, ys);
    KeepWider(x.caps, xs, g, n, g1, n1);
    KeepWider(y.caps, ys, g, n, g1, n1);
  }

  lemma {:induction false} AgreeOr(e: Env, t: Site, stale: set<nat>, open: set<nat>, x: State, y: State)
    requires t.n.Or? && Ready(e, t, stale, open, x, y) && After(t.n, t.g, t.back, stale).Some?
    ensures Linked(After(t.n, t.g, t.back, stale).value, open, x, y, Compiled(e, t, x), Standard(e, t, y), t.g,
                   Groups(t.n))
    decreases t.n, 2, 0, 0, 0
  {
    hide Match, EcmaMatch, Cap, SameCap, Wf, Linked;
    var l, r := Site(t.f, t.n.left, t.g, t.back), Site(t.f, t.n.right, t.g + Groups(t.n.left), t.back);
    var d := After(t.n, t.g, t.back, stale).value;
    Agree(e, l, stale, open, x, y);
    Agree(e, r, stale, open, x, y);
    LinkedWiden(After(l.n, l.g, l.back, stale).value, d, open, x, y, Compiled(e, l, x), Standard(e, l, y),
                t.g, Groups(t.n), l.g, Groups(l.n));
    LinkedWiden(After(r.n, r.g, r.back, stale).value, d, open, x, y, Compiled(e, r, x), Standard(e, r, y),
                t.g, Groups(t.n), r.g, Groups(r.n));
    LinkedConcat(d, open, x, y, Compiled(e, l, x), Compiled(e, r, x), Standard(e, l, y), Standard(e, r, y),
                 t.g, Groups(t.n));
    OrStandard(e, t, x, y);
  }

  lemma OrStandard(e: Env, t: Site, x: State, y: State)
    requires t.n.Or? && Wf(e, x) && Wf(e, y) && 2 * (t.g + Groups(t.n)) <= |x.caps| == |y.caps|
    ensures var l, r := Site(t.f, t.n.left, t.g, t.back), Site(t.f, t.n.right, t.g + Groups(t.n.left), t.back);
            && Compiled(e, t, x) == Compiled(e, l, x) + Compiled(e, r, x)
            && Standard(e, t, y) == Standard(e, l, y) + Standard(e, r, y)
  {
  }

  lemma {:induction false} AgreeModify(e: Env, t: Site, stale: set<nat>, open: set<nat>, x: State, y: State)
    requires t.n.Modify? && Ready(e, t, stale, open, x, y) && After(t.n, t.g, t.back, stale).Some?
    ensures Linked(After(t.n, t.g, t.back, stale).value, open, x, y, Compiled(e, t, x), Standard(e, t, y), t.g,
                   Groups(t.n))
    decreases t.n, 2, 0, 0, 0
  {
    hide Cap, SameCap, Wf, Linked, Update;
    var u := Site(Update(t.f, t.n.add, t.n.remove), t.n.scope, t.g, t.back);
    Agree(e, u, stale, open, x, y);
    assert Compiled(e, t, x) == Compiled(e, u, x) && Standard(e, t, y) == Standard(e, u, y);
  }

  lemma {:induction false} AgreeLook(e: Env, t: Site, stale: set<nat>, open: set<nat>, x: State, y: State)
    requires t.n.Look? && Ready(e, t, stale, open, x, y) && After(t.n, t.g, t.back, stale).Some?
    ensures Linked(After(t.n, t.g, t.back, stale).value, open, x, y, Compiled(e, t, x), Standard(e, t, y), t.g,
                   Groups(t.n))
    decreases t.n, 2, 0, 0, 0
  {
    hide Cap, SameCap, Wf;
    var u := Site(t.f, t.n.ahead, t.g, t.n.backward);
    Agree(e, u, stale, open, x, y);
    var xs, ys := Compiled(e, u, x), Standard(e, u, y);
    LookStandard(e, t, x, y);
    if xs != [] && !t.n.negative {
      assert Alike(After(u.n, u.g, u.back, stale).value, open, xs[0], ys[0]);
      MoveAlike(After(u.n, u.g, u.back, stale).value, open, xs[0], ys[0], x.pos);
      assert Keeps(x.caps, xs[0], u.g, Groups(u.n)) && Keeps(y.caps, ys[0], u.g, Groups(u.n));
    }
  }

  lemma LookStandard(e: Env, t: Site, x: State, y: State)
    requires t.n.Look? && Wf(e, x) && Wf(e, y) && 2 * (t.g + Groups(t.n)) <= |x.caps| == |y.caps|
    ensures var u := Site(t.f, t.n.ahead, t.g, t.n.backward);
            var xs, ys := Compiled(e, u, x), Standard(e, u, y);
            && Compiled(e, t, x) == (if t.n.negative then (if xs == [] then [x] else [])
                                     else if xs == [] then [] else [xs[0].(pos := x.pos)])
            && Standard(e, t, y) == (if t.n.negative then (if ys == [] then [y] else [])
                                     else if ys == [] then [] else [ys[0].(pos := y.pos)])
  {
  }

  // ----- groups -----

  lemma GroupStandard(e: Env, t: Site, x: State, y: State)
    requires t.n.Group? && Wf(e, x) && Wf(e, y) && 2 * (t.g + Groups(t.n)) <= |x.caps| == |y.caps|
    ensures var u, x1 := Site(t.f, t.n.inner, t.g + 1, t.back), SetCap(x, EnterCap(t.g, t.back));
            && Wf(e, x1) && 2 * (u.g + Groups(u.n)) <= |x.caps|
            && (forall i :: 0 <= i < |Compiled(e, u, x1)| ==> |Compiled(e, u, x1)[i].caps| == |x.caps|)
            && (forall i :: 0 <= i < |Standard(e, u, y)| ==> |Standard(e, u, y)[i].caps| == |x.caps|)
            && Compiled(e, t, x) == SetCaps(Compiled(e, u, x1), LeaveCap(t.g, t.back))
            && Standard(e, t, y) == SetGroups(Standard(e, u, y), t.g, t.back, y.pos)
  {
  }

  /** Entering a group sets one end, which nothing reads as set. */
  lemma EnterAlike(stale: set<nat>, open: set<nat>, x: State, y: State, g: nat, back: bool)
    requires Alike(stale, open, x, y) && g !in open && Cap(y.caps, g) == UNSET && 2 * g + 1 < |x.caps|
    ensures Alike(stale, open + {g}, SetCap(x, EnterCap(g, back)), y)
  {
    hide Cap;
    var x1 := SetCap(x, EnterCap(g, back));
    forall k: nat ensures SameCap(stale, open + {g}, k, Cap(x1.caps, k), Cap(y.caps, k)) {
      assert SameCap(stale, open, k, Cap(x.caps, k), Cap(y.caps, k));
      SetOneCap(x, EnterCap(g, back), k);
      EnteredCap(x, g, back);
    }
  }

  lemma EnteredCap(x: State, g: nat, back: bool)
    requires 2 * g + 1 < |x.caps|
    ensures var c, d := Cap(x.caps, g), Cap(SetCap(x, EnterCap(g, back)).caps, g);
            d == if back then (c.0, x.pos) else (x.pos, c.1)
  {
  }

  lemma LeftCap(r: State, g: nat, back: bool)
    requires 2 * g + 1 < |r.caps|
    ensures var c, d := Cap(r.caps, g), Cap(SetCap(r, LeaveCap(g, back)).caps, g);
            d == if back then (r.pos, c.1) else (c.0, r.pos)
  {
  }

  /** Leaving a group sets both ends to the same positions. */
  lemma LeaveAlike(d: set<nat>, open: set<nat>, x: State, y: State, r: State, q: State, g: nat, back: bool, n: nat)
    requires |x.caps| == |y.caps| && 2 * g + 1 < |x.caps| && x.pos == y.pos && g !in open
    requires Alike(d, open + {g}, r, q) && Keeps(SetCap(x, EnterCap(g, back)).caps, r, g + 1, n)
             && Keeps(y.caps, q, g + 1, n)
    ensures var r1, q1 := SetCap(r, LeaveCap(g, back)), SetGroup(q, g, back, y.pos);
            Alike(d - {g}, open, r1, q1) && Keeps(x.caps, r1, g, n + 1) && Keeps(y.caps, q1, g, n + 1)
  {
    hide Cap;
    var r1, q1 := SetCap(r, LeaveCap(g, back)), SetGroup(q, g, back, y.pos);
    EnteredCap(x, g, back);
    LeftCap(r, g, back);
    assert Cap(r.caps, g) == Cap(SetCap(x, EnterCap(g, back)).caps, g);
    forall k: nat
      ensures SameCap(d - {g}, open, k, Cap(r1.caps, k), Cap(q1.caps, k))
      ensures !(g <= k < g + (n + 1)) ==> Cap(r1.caps, k) == Cap(x.caps, k) && Cap(q1.caps, k) == Cap(y.caps, k)
    {
      assert SameCap(d, open + {g}, k, Cap(r.caps, k), Cap(q.caps, k));
      SetOneCap(r, LeaveCap(g, back), k);
      SetOneCap(x, EnterCap(g, back), k);
      SetGroupCap(q, g, back, y.pos, k);
    }
  }

  lemma {:induction false} AgreeGroup(e: Env, t: Site, stale: set<nat>, open: set<nat>, x: State, y: State)
    requires t.n.Group? && Ready(e, t, stale, open, x, y) && After(t.n, t.g, t.back, stale).Some?
    ensures Linked(After(t.n, t.g, t.back, stale).value, open, x, y, Compiled(e, t, x), Standard(e, t, y), t.g,
                   Groups(t.n))
    decreases t.n, 2, 0, 0, 0
  {
    hide Match, EcmaMatch, Cap, SameCap, Wf, SetCap, SetGroup;
    var u, x1 := Site(t.f, t.n.inner, t.g + 1, t.back), SetCap(x, EnterCap(t.g, t.back));
    GroupStandard(e, t, x, y);
    EnterAlike(stale, open, x, y, t.g, t.back);
    Agree(e, u, stale, open + {t.g}, x1, y);
    var xs, ys := Compiled(e, u, x1), Standard(e, u, y);
    var d := After(u.n, u.g, u.back, stale).value;
    forall i | 0 <= i < |xs|
      ensures var r1, q1 := SetCap(xs[i], LeaveCap(t.g, t.back)), SetGroup(ys[i], t.g, t.back, y.pos);
              && Alike(d - {t.g}, open, r1, q1)
              && Keeps(x.caps, r1, t.g, Groups(t.n)) && Keeps(y.caps, q1, t.g, Groups(t.n))
    {
      LeaveAlike(d, open, x, y, xs[i], ys[i], t.g, t.back, Groups(u.n));
    }
  }

  // ----- repetitions -----

  lemma RenewAlike(h: set<nat>, b: set<nat>, open: set<nat>, x: State, y: State, g: nat, n: nat)
    requires Alike(h, open, x, y) && h <= b && 2 * (g + n) <= |x.caps|
    requires Own(g, n) <= b || AllUnset(y.caps, g, n)
    ensures Alike(b, open, x, Renewed(y, g, n)) && AllUnset(Renewed(y, g, n).caps, g, n)
    ensures Keeps(y.caps, Renewed(y, g, n), g, n)
  {
    hide Cap;
    var y1 := Renewed(y, g, n);
    forall k: nat
      ensures SameCap(b, open, k, Cap(x.caps, k), Cap(y1.caps, k))
      ensures Cap(y1.caps, k) == if g <= k < g + n then UNSET else Cap(y.caps, k)
    {
      assert SameCap(h, open, k, Cap(x.caps, k), Cap(y.caps, k));
      ResetCap(y.caps, g, g + n, k);
    }
  }

  lemma RenewWf(e: Env, y: State, g: nat, n: nat)
    requires Wf(e, y) && 2 * (g + n) <= |y.caps|
    ensures Wf(e, Renewed(y, g, n))
  {
  }

  lemma {:induction false} MovedAlike(d: set<nat>, open: set<nat>, xs: seq<State>, ys: seq<State>, p: int)
    requires AllAlike(d, open, xs, ys)
    ensures AllAlike(d, open, Moved(xs, p), Moved(ys, p))
    decreases |xs|
  {
    hide Cap, SameCap;
    if xs != [] {
      assert Alike(d, open, xs[0], ys[0]);
      MovedAlike(d, open, xs[1..], ys[1..], p);
    }
  }

  lemma MovedKeep(caps: seq<int>, rs: seq<State>, p: int, g: nat, n: nat)
    requires AllKeep(caps, rs, g, n)
    ensures AllKeep(caps, Moved(rs, p), g, n)
  {
    hide Keeps;
    var ms := Moved(rs, p);
    forall i | 0 <= i < |ms| ensures Keeps(caps, ms[i], g, n) {
      assert ms[i] in rs;
    }
  }

  lemma {:induction false} AgreeRepeat(e: Env, t: Site, stale: set<nat>, open: set<nat>, x: State, y: State)
    requires t.n.Repeat? && Ready(e, t, stale, open, x, y) && After(t.n, t.g, t.back, stale).Some?
    ensures Linked(After(t.n, t.g, t.back, stale).value, open, x, y, Compiled(e, t, x), Standard(e, t, y), t.g,
                   Groups(t.n))
    decreases t.n, 2, 0, 0, 0
  {
    hide Match, EcmaMatch, Cap, SameCap, Wf;
    var a, min, max := t.n.body, t.n.min, t.n.max;
    var u := Site(t.f, a, t.g, t.back);
    var x1 := if min == 0 then Renewed(x, t.g, Groups(a)) else x;
    var d := Entered(stale, t.g, Groups(a), min);
    RepeatEntered(stale, open, x, y, t.g, Groups(a), min);
    RenewWf(e, x, t.g, Groups(a));
    RepeatStandard(e, t, x, y);
    var r := After(t.n, t.g, t.back, stale).value;
    var b := Inside(d, t.g, Groups(a), min, max);
    AgreeIterate(e, u, d, b, r, open, x1, y, min, max, t.n.greedy);
    KeepFrom(x.caps, x1, Iterate(e, t.f, a, t.g, t.back, min, max, t.n.greedy, x1), t.g, Groups(a), t.g, Groups(a));
  }

  /** The reset before a repetition of minimum zero makes its groups unset in both. */
  lemma RepeatEntered(stale: set<nat>, open: set<nat>, x: State, y: State, g: nat, n: nat, min: nat)
    requires Alike(stale, open, x, y) && AllUnset(y.caps, g, n) && 2 * (g + n) <= |x.caps|
    requires forall k :: k in open ==> !(g <= k < g + n)
    ensures var x1 := if min == 0 then Renewed(x, g, n) else x;
            Alike(Entered(stale, g, n, min), open, x1, y) && Keeps(x.caps, x1, g, n)
  {
    hide Cap;
    if min == 0 {
      var x1 := Renewed(x, g, n);
      forall k: nat
        ensures SameCap(Entered(stale, g, n, min), open, k, Cap(x1.caps, k), Cap(y.caps, k))
        ensures !(g <= k < g + n) ==> Cap(x1.caps, k) == Cap(x.caps, k)
      {
        assert SameCap(stale, open, k, Cap(x.caps, k), Cap(y.caps, k));
        ResetCap(x.caps, g, g + n, k);
      }
    }
  }

  lemma RepeatStandard(e: Env, t: Site, x: State, y: State)
    requires t.n.Repeat? && Wf(e, x) && Wf(e, y) && 2 * (t.g + Groups(t.n)) <= |x.caps| == |y.caps|
    ensures var a, x1 := t.n.body, if t.n.min == 0 then Renewed(x, t.g, Groups(t.n.body)) else x;
            && Wf(e, x1)
            && Compiled(e, t, x) == Iterate(e, t.f, a, t.g, t.back, t.n.min, t.n.max, t.n.greedy, x1)
            && Standard(e, t, y) == EcmaRepeat(e, t.f, a, t.g, t.back, t.n.min, t.n.max, t.n.greedy, y)
  {
  }

  /** A loop head: `h` may be stale now, `b` at the start of an iteration, and `r` after the loop. */
  ghost predicate Looping(e: Env, t: Site, h: set<nat>, b: set<nat>, r: set<nat>, open: set<nat>, x: State, y: State,
                          min: nat, max: nat) {
    && Wf(e, x) && Wf(e, y) && 2 * (t.g + Groups(t.n)) <= |x.caps| && Alike(h, open, x, y)
    && (forall k :: k in open ==> !(t.g <= k < t.g + Groups(t.n)))
    && (min == 0 ==> h <= r)
    && (min > 0 || max > 0 ==> h <= b && Iterating(t, b, r) && Covered(t, b, y, min, max))
  }

  ghost predicate Iterating(t: Site, b: set<nat>, r: set<nat>) {
    After(t.n, t.g, t.back, b).Some? && After(t.n, t.g, t.back, b).value <= r
  }

  /** Either the groups of the body count as stale, or there is one iteration at most and they are unset. */
  ghost predicate Covered(t: Site, b: set<nat>, y: State, min: nat, max: nat) {
    Own(t.g, Groups(t.n)) <= b || (AllUnset(y.caps, t.g, Groups(t.n)) && min <= 1 && max <= 1)
  }

  /** Nothing but the groups of a pattern becomes stale in it. */
  lemma {:induction false} AfterBelow(n: Node, g: nat, back: bool, stale: set<nat>)
    requires After(n, g, back, stale).Some?
    ensures After(n, g, back, stale).value <= stale + Own(g, Groups(n))
    decreases n
  {
    match n
    case Cat(_, _) =>
      AfterBelow(Lead(n, back), LeadGroup(n, g, back), back, stale);
      var d := After(Lead(n, back), LeadGroup(n, g, back), back, stale).value;
      AfterBelow(Trail(n, back), TrailGroup(n, g, back), back, d);
    case Or(a, b) =>
      AfterBelow(a, g, back, stale);
      AfterBelow(b, g + Groups(a), back, stale);
    case Group(a) => AfterBelow(a, g + 1, back, stale);
    case Modify(_, _, a) => AfterBelow(a, g, back, stale);
    case Look(b, _, a) => AfterBelow(a, g, b, stale);
    case Repeat(a, min, max, _) =>
      if min > 0 || max > 0 {
        AfterBelow(a, g, back, Inside(Entered(stale, g, Groups(a), min), g, Groups(a), min, max));
      }
    case _ =>
  }

  lemma LinkedStart(h: set<nat>, r: set<nat>, open: set<nat>, x: State, y: State, g: nat, n: nat)
    requires Alike(h, open, x, y) && h <= r
    ensures Linked(r, open, x, y, [x], [y], g, n)
  {
    hide Cap, SameCap;
    WeakenAll(h, r, open, [x], [y]);
  }

  /** What corresponds after an iteration corresponds before it, and so does what moved. */
  lemma LinkedBack(d: set<nat>, open: set<nat>, x: State, y: State, y1: State, xs: seq<State>, ys: seq<State>, g: nat,
                   n: nat)
    requires Linked(d, open, x, y1, xs, ys, g, n) && Keeps(y.caps, y1, g, n)
    ensures Linked(d, open, x, y, xs, ys, g, n)
    ensures Linked(d, open, x, y, Moved(xs, x.pos), Moved(ys, x.pos), g, n)
  {
    hide Alike, Keeps, Moved;
    KeepFrom(y.caps, y1, ys, g, n, g, n);
    MovedAlike(d, open, xs, ys, x.pos);
    MovedKeep(x.caps, xs, x.pos, g, n);
    MovedKeep(y.caps, ys, x.pos, g, n);
  }

  /** Every iteration of the standard starts with its groups unset. */
  lemma LoopReady(e: Env, t: Site, h: set<nat>, b: set<nat>, r: set<nat>, open: set<nat>, x: State, y: State, min: nat,
                  max: nat)
    requires Looping(e, t, h, b, r, open, x, y, min, max) && (min > 0 || max > 0)
    ensures var y1 := Renewed(y, t.g, Groups(t.n)); Ready(e, t, b, open, x, y1) && Keeps(y.caps, y1, t.g, Groups(t.n))
    ensures x.pos == y.pos && |x.caps| == |y.caps|
  {
    hide Cap, SameCap, Wf, Own, After, AllUnset, Keeps;
    RenewWf(e, y, t.g, Groups(t.n));
    RenewAlike(h, b, open, x, y, t.g, Groups(t.n));
  }

  lemma {:induction false} AgreeIterate(e: Env, t: Site, h: set<nat>, b: set<nat>, r: set<nat>, open: set<nat>,
                                        x: State, y: State, min: nat, max: nat, greedy: bool)
    requires Looping(e, t, h, b, r, open, x, y, min, max)
    ensures Linked(r, open, x, y, Iterate(e, t.f, t.n, t.g, t.back, min, max, greedy, x),
                   EcmaRepeat(e, t.f, t.n, t.g, t.back, min, max, greedy, y), t.g, Groups(t.n))
    decreases t.n, 4, min, Room(e, t.back, x) + 1, 0
  {
    hide Match, EcmaMatch, Alike, Keeps, Linked, AllUnset, Wf, Own, After, Moved;
    var own := Groups(t.n);
    OnBoundary(e, x);
    OnBoundary(e, y);
    if min == 0 && max == 0 {
      LinkedStart(h, r, open, x, y, t.g, own);
    } else {
      LoopReady(e, t, h, b, r, open, x, y, min, max);
      var y1 := Renewed(y, t.g, own);
      Agree(e, t, b, open, x, y1);
      var xs, ys, d := Compiled(e, t, x), Standard(e, t, y1), After(t.n, t.g, t.back, b).value;
      AfterBelow(t.n, t.g, t.back, b);
      LinkedBack(d, open, x, y, y1, xs, ys, t.g, own);
      if min > 0 {
        AgreeIterateEach(e, t, d, b, r, open, x, y, xs, ys, min - 1, Less(max), greedy, Room(e, t.back, x) + 1);
      } else {
        var ms, ns := Moved(xs, x.pos), Moved(ys, x.pos);
        AgreeIterateEach(e, t, d, b, r, open, x, y, ms, ns, 0, Less(max), greedy, Room(e, t.back, x));
        LinkedStart(h, r, open, x, y, t.g, own);
        var us := IterateAll(e, t.f, t.n, t.g, t.back, 0, Less(max), greedy, Room(e, t.back, x), x, ms);
        var vs := EcmaRepeatEach(e, t.f, t.n, t.g, t.back, 0, Less(max), greedy, Room(e, t.back, y), y, ns);
        LinkedConcat(r, open, x, y, us, [x], vs, [y], t.g, own);
        LinkedConcat(r, open, x, y, [x], us, [y], vs, t.g, own);
      }
    }
  }

  lemma {:induction false} AgreeIterateEach(e: Env, t: Site, d: set<nat>, b: set<nat>, r: set<nat>, open: set<nat>,
                                            x: State, y: State, xs: seq<State>, ys: seq<State>,
                                            min: nat, max: nat, greedy: bool, room: nat)
    requires Wf(e, x) && Wf(e, y) && 2 * (t.g + Groups(t.n)) <= |x.caps| == |y.caps|
    requires AllGood(e, t.back, x, xs) && AllGood(e, t.back, y, ys) && Linked(d, open, x, y, xs, ys, t.g, Groups(t.n))
    requires Within(e, t.back, room, |x.caps|, xs) && Within(e, t.back, room, |y.caps|, ys)
    requires (forall k :: k in open ==> !(t.g <= k < t.g + Groups(t.n))) && d <= r
    requires min > 0 || max > 0 ==> d <= b && Iterating(t, b, r) && Own(t.g, Groups(t.n)) <= b
    ensures Linked(r, open, x, y, IterateAll(e, t.f, t.n, t.g, t.back, min, max, greedy, room, x, xs),
                   EcmaRepeatEach(e, t.f, t.n, t.g, t.back, min, max, greedy, room, y, ys), t.g, Groups(t.n))
    decreases t.n, 4, min, room, |xs|
  {
    hide Match, EcmaMatch, Cap, SameCap, Wf, Own, After;
    if xs != [] {
      var own := Groups(t.n);
      assert Good(e, t.back, x, xs[0]) && Good(e, t.back, y, ys[0]) && Alike(d, open, xs[0], ys[0]);
      assert Keeps(x.caps, xs[0], t.g, own) && Keeps(y.caps, ys[0], t.g, own);
      AgreeIterate(e, t, d, b, r, open, xs[0], ys[0], min, max, greedy);
      var us := Iterate(e, t.f, t.n, t.g, t.back, min, max, greedy, xs[0]);
      var vs := EcmaRepeat(e, t.f, t.n, t.g, t.back, min, max, greedy, ys[0]);
      KeepFrom(x.caps, xs[0], us, t.g, own, t.g, own);
      KeepFrom(y.caps, ys[0], vs, t.g, own, t.g, own);
      AgreeIterateEach(e, t, d, b, r, open, x, y, xs[1..], ys[1..], min, max, greedy, room);
      LinkedConcat(r, open, x, y, us, IterateAll(e, t.f, t.n, t.g, t.back, min, max, greedy, room, x, xs[1..]),
                   vs, EcmaRepeatEach(e, t.f, t.n, t.g, t.back, min, max, greedy, room, y, ys[1..]), t.g, own);
    }
  }
}
