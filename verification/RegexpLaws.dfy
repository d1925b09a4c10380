/**
 What the patterns without sub-patterns match, in terms of the characters of the subject: single characters,
 assertions and back references; and what modifiers do.
 */
module RegexpLaws {
  import opened Basics
  import opened CharSet
  import opened RegexpText
  import opened RegexpSyntax
  import opened RegexpMatcher

  // ----- back references -----

  /** Two characters agree: they are the same, or have the same canonical form if case is ignored. */
  predicate Agree(e: Env, icase: bool, c: nat, d: nat) { if icase then e.canon(c) == e.canon(d) else c == d }

  ghost predicate SameUpToCase(e: Env, icase: bool, a: seq<nat>, b: seq<nat>) {
    |a| == |b| && forall i :: 0 <= i < |a| ==> Agree(e, icase, a[i], b[i])
  }

  lemma SameCons(e: Env, icase: bool, c: nat, a: seq<nat>, d: nat, b: seq<nat>)
    ensures SameUpToCase(e, icase, [c] + a, [d] + b) <==>
            Agree(e, icase, c, d) && SameUpToCase(e, icase, a, b)
  {
    if SameUpToCase(e, icase, [c] + a, [d] + b) {
      forall i | 0 <= i < |a| ensures Agree(e, icase, a[i], b[i]) {
        assert ([c] + a)[i + 1] == a[i] && ([d] + b)[i + 1] == b[i];
      }
      assert ([c] + a)[0] == c && ([d] + b)[0] == d;
    }
  }

  lemma SameSnoc(e: Env, icase: bool, c: nat, a: seq<nat>, d: nat, b: seq<nat>)
    ensures SameUpToCase(e, icase, a + [c], b + [d]) <==>
            Agree(e, icase, c, d) && SameUpToCase(e, icase, a, b)
  {
    if SameUpToCase(e, icase, a + [c], b + [d]) {
      forall i | 0 <= i < |a| ensures Agree(e, icase, a[i], b[i]) {
        assert (a + [c])[i] == a[i] && (b + [d])[i] == b[i];
      }
      assert (a + [c])[|a|] == c && (b + [d])[|b|] == d;
    }
  }

  /** Whole characters lead from `p` forward to `q`, or back to it. */
  predicate Lands(t: Text, p: int, q: int)
    requires 0 <= p <= |t.units|
    ensures Lands(t, p, q) ==> p <= q <= |t.units|
    decreases |t.units| - p
  {
    if p >= q || p == |t.units| then p == q else Lands(t, Next(t, p, |t.units|), q)
  }

  predicate LandsBack(t: Text, p: int, q: int)
    requires 0 <= p <= |t.units|
    ensures LandsBack(t, p, q) ==> 0 <= q <= p
    decreases p
  {
    if p <= q || p == 0 then p == q else LandsBack(t, Prev(t, p, 0), q)
  }

  /** From a boundary that is to the boundaries. */
  lemma {:induction false} LandsIff(t: Text, p: int, q: int)
    requires Boundary(t, p)
    ensures Lands(t, p, q) <==> p <= q && Boundary(t, q)
    decreases |t.units| - p
  {
    if p < q && p < |t.units| {
      NextThenPrev(t, p);
      LandsIff(t, Next(t, p, |t.units|), q);
    }
  }

  lemma {:induction false} LandsBackIff(t: Text, p: int, q: int)
    requires Boundary(t, p)
    ensures LandsBack(t, p, q) <==> q <= p && Boundary(t, q)
    decreases p
  {
    if p > q && p > 0 {
      PrevThenNext(t, p);
      LandsBackIff(t, Prev(t, p, 0), q);
    }
  }

  /** The characters from `p` to `q` repeat those of [start, end). */
  ghost predicate Repeats(e: Env, icase: bool, start: int, end: int, p: int, q: int) {
    && 0 <= start && end <= |e.text.units| && 0 <= p && q <= |e.text.units|
    && SameUpToCase(e, icase, Chars(e.text, start, end), Chars(e.text, p, q))
  }

  /** The forward comparison ends at `q` if and only if the characters from `p` to `q` repeat the captured ones. */
  lemma {:induction false} RefForwardIff(e: Env, icase: bool, start: int, end: int, p: int, q: int)
    requires ValidPos(e, p) && 0 <= start && end <= |e.text.units|
    ensures RefForward(e, icase, start, end, p) == Some(q) <==>
            Lands(e.text, p, q) && Repeats(e, icase, start, end, p, q)
    decreases end - start
  {
    hide SameUpToCase;
    var t, len := e.text, |e.text.units|;
    if start >= end || p >= len || q <= p {
      ForwardEdge(e, icase, start, end, p, q);
    } else {
      RefForwardIff(e, icase, Next(t, start, end), end, Next(t, p, len), q);
      if Lands(t, p, q) {
        assert Next(t, p, q) == Next(t, p, len) && CharAt(t, p, q) == CharAt(t, p, len);
        SameCons(e, icase, CharAt(t, start, end), Chars(t, Next(t, start, end), end), CharAt(t, p, q),
                 Chars(t, Next(t, p, q), q));
      }
    }
  }

  lemma ForwardEdge(e: Env, icase: bool, start: int, end: int, p: int, q: int)
    requires ValidPos(e, p) && 0 <= start && end <= |e.text.units|
    requires start >= end || p >= |e.text.units| || q <= p
    ensures RefForward(e, icase, start, end, p) == Some(q) <==>
            Lands(e.text, p, q) && Repeats(e, icase, start, end, p, q)
  {
  }

  /** The same backward. */
  lemma {:induction false} RefBackwardIff(e: Env, icase: bool, start: int, end: int, p: int, q: int)
    requires ValidPos(e, p) && 0 <= start && end <= |e.text.units|
    ensures RefBackward(e, icase, start, end, p) == Some(q) <==>
            LandsBack(e.text, p, q) && Repeats(e, icase, start, end, q, p)
    decreases end - start
  {
    hide SameUpToCase;
    var t := e.text;
    if end <= start || p == 0 || q >= p {
      BackwardEdge(e, icase, start, end, p, q);
    } else {
      RefBackwardIff(e, icase, start, Prev(t, end, start), Prev(t, p, 0), q);
      if LandsBack(t, p, q) {
        assert Prev(t, p, q) == Prev(t, p, 0) && CharBefore(t, p, q) == CharBefore(t, p, 0);
        CharsSnoc(t, start, end);
        CharsSnoc(t, q, p);
        SameSnoc(e, icase, CharBefore(t, end, start), Chars(t, start, Prev(t, end, start)), CharBefore(t, p, q),
                 Chars(t, q, Prev(t, p, q)));
      }
    }
  }

  lemma BackwardEdge(e: Env, icase: bool, start: int, end: int, p: int, q: int)
    requires ValidPos(e, p) && 0 <= start && end <= |e.text.units|
    requires end <= start || p == 0 || q >= p
    ensures RefBackward(e, icase, start, end, p) == Some(q) <==>
            LandsBack(e.text, p, q) && Repeats(e, icase, start, end, q, p)
  {
  }

  /**
   A back reference to a group that is set matches exactly the stretches between boundaries, in the matching direction,
   that repeat the captured characters; one to a group that is not set matches the empty string.
   */
  lemma MatchRefIff(e: Env, icase: bool, back: bool, group: nat, s: State, q: int)
    requires Wf(e, s) && 2 * group + 1 < |s.caps|
    ensures var start, end := s.caps[2 * group], s.caps[2 * group + 1];
            MatchRef(e, icase, back, group, s) == Some(s.(pos := q)) <==>
            if start == NONE || end == NONE then q == s.pos
            else && Boundary(e.text, q) && Ahead(back, s.pos, q)
                 && Repeats(e, icase, start, end, if back then q else s.pos, if back then s.pos else q)
  {
    hide Repeats, RefForward, RefBackward;
    var start, end := s.caps[2 * group], s.caps[2 * group + 1];
    if start != NONE && end != NONE {
      if back {
        RefBackwardIff(e, icase, start, end, s.pos, q);
        LandsBackIff(e.text, s.pos, q);
      } else {
        RefForwardIff(e, icase, start, end, s.pos, q);
        LandsIff(e.text, s.pos, q);
      }
    }
  }

  // ----- single characters and assertions -----

  const LINE_TERMINATORS := {0xA, 0xD, 0x2028, 0x2029}

  /** The points of the class \w. */
  const WORD_POINTS := [0x30, 0x3A, 0x41, 0x5B, 0x5F, 0x60, 0x61, 0x7B]

  lemma WordCharIff(c: int)
    ensures IsWordChar(c) <==> InSet(WORD_POINTS, c)
  {
    InSetOf8(WORD_POINTS, c);
  }

  lemma InSetOf8(p: seq<int>, c: int)
    requires |p| == 8 && StrictlySorted(p)
    ensures InSet(p, c) <==> p[0] <= c < p[1] || p[2] <= c < p[3] || p[4] <= c < p[5] || p[6] <= c < p[7]
  {
    InSetIsInterval(p, c);
    assert p[2 * 0] == p[0] && p[2 * 1] == p[2] && p[2 * 2] == p[4] && p[2 * 3] == p[6];
  }

  /** A pattern of one character takes `c`. */
  predicate Takes(e: Env, f: Flags, n: Node, c: nat) {
    match n
    case Char(d) => Agree(e, f.ignoreCase, c, d)
    case Dot => f.dotAll || c !in LINE_TERMINATORS
    case Class(points) => InSet(points, if f.ignoreCase then e.canon(c) else c)
    case _ => false
  }

  /** It matches exactly the stretches of one such character in the matching direction. */
  lemma MatchCharIff(e: Env, f: Flags, n: Node, back: bool, s: State, q: int)
    requires Wf(e, s)
    ensures MatchChar(e, f, n, back, s) == Some(s.(pos := q)) <==>
            && Boundary(e.text, q) && Ahead(back, s.pos, q)
            && var cs := Chars(e.text, if back then q else s.pos, if back then s.pos else q);
               |cs| == 1 && Takes(e, f, n, cs[0])
  {
  }

  /** The start of the subject, or of a line behind a line terminator. */
  lemma LineStartIff(e: Env, multi: bool, p: int)
    requires ValidPos(e, p)
    ensures AtLineStart(e, multi, p) <==>
            var cs := Chars(e.text, 0, p); cs == [] || (multi && cs[|cs| - 1] in LINE_TERMINATORS)
  {
    if p > 0 {
      CharsSnoc(e.text, 0, p);
    }
  }

  lemma LineEndIff(e: Env, multi: bool, p: int)
    requires ValidPos(e, p)
    ensures AtLineEnd(e, multi, p) <==>
            var cs := Chars(e.text, p, |e.text.units|); cs == [] || (multi && cs[0] in LINE_TERMINATORS)
  {
  }

  predicate InWord(e: Env, icase: bool, c: nat) { InSet(WORD_POINTS, if icase then e.canon(c) else c) }

  /** Exactly one of the characters before and behind is one of the class \w; a missing one is not. */
  lemma WordBoundaryIff(e: Env, icase: bool, p: int)
    requires ValidPos(e, p)
    ensures WordBefore(e, icase, p) <==>
            var cs := Chars(e.text, 0, p); cs != [] && InWord(e, icase, cs[|cs| - 1])
    ensures WordAfter(e, icase, p) <==>
            var cs := Chars(e.text, p, |e.text.units|); cs != [] && InWord(e, icase, cs[0])
  {
    if p > 0 {
      CharsSnoc(e.text, 0, p);
      WordCharIff(Canon(e, icase, CharBefore(e.text, p, 0)));
    }
    if p < |e.text.units| {
      WordCharIff(Canon(e, icase, CharAt(e.text, p, |e.text.units|)));
    }
  }

  // ----- modifiers -----

  function Letters(f: Flags): set<char> {
    (if f.ignoreCase then {'i'} else {}) + (if f.multiLine then {'m'} else {}) + (if f.dotAll then {'s'} else {})
  }

  /** The modifiers in force: those added, and those removed taken away. */
  lemma UpdateIs(f: Flags, add: Flags, remove: Flags)
    ensures Letters(Update(f, add, remove)) == Letters(f) + Letters(add) - Letters(remove)
  {
  }

  /** No modifier inside the pattern turns `i` on. */
  predicate NeverAdds(n: Node) {
    match n
    case Cat(a, b) => NeverAdds(a) && NeverAdds(b)
    case Or(a, b) => NeverAdds(a) && NeverAdds(b)
    case Group(a) => NeverAdds(a)
    case Modify(add, remove, a) => (!add.ignoreCase || remove.ignoreCase) && NeverAdds(a)
    case Look(_, _, a) => NeverAdds(a)
    case Repeat(a, _, _, _) => NeverAdds(a)
    case _ => true
  }

  /** Where case is not ignored, the matches do not depend on the canonicalisation. */
  lemma {:induction false} CanonFree(e: Env, d: Env, f: Flags, n: Node, g: nat, back: bool, s: State)
    requires Wf(e, s) && 2 * (g + Groups(n)) <= |s.caps| && d.text == e.text && Wf(d, s)
    requires !f.ignoreCase && NeverAdds(n)
    ensures Match(e, f, n, g, back, s) == Match(d, f, n, g, back, s)
    decreases n, 0, 1
  {
    hide MatchLeaf, Iterate, MatchAll, Wf, Update;
    match n
    case Cat(_, _) =>
      CatFree(e, d, f, n, g, back, s);
    case Or(a, b) =>
      CanonFree(e, d, f, a, g, back, s);
      CanonFree(e, d, f, b, g + Groups(a), back, s);
    case Group(a) =>
      EnterWf(e, d, s, EnterCap(g, back));
      CanonFree(e, d, f, a, g + 1, back, SetCap(s, EnterCap(g, back)));
    case Modify(add, remove, a) =>
      StaysOff(f, add, remove);
      CanonFree(e, d, Update(f, add, remove), a, g, back, s);
    case Look(b, _, a) =>
      CanonFree(e, d, f, a, g, b, s);
    case Repeat(a, min, max, greedy) =>
      ResetWf(e, d, s, g, g + Groups(a));
      IterateFree(e, d, f, a, g, back, min, max, greedy,
                  if min == 0 then State(s.pos, ResetCaps(s.caps, g, g + Groups(a))) else s);
    case _ =>
      LeafFree(e, d, f, n, back, s);
  }

  lemma StaysOff(f: Flags, add: Flags, remove: Flags)
    requires !f.ignoreCase && (!add.ignoreCase || remove.ignoreCase)
    ensures !Update(f, add, remove).ignoreCase
  {
  }

  lemma EnterWf(e: Env, d: Env, s: State, i: nat)
    requires Wf(e, s) && Wf(d, s) && i < |s.caps|
    ensures Wf(e, SetCap(s, i)) && Wf(d, SetCap(s, i))
  {
  }

  lemma ResetWf(e: Env, d: Env, s: State, lo: nat, hi: nat)
    requires Wf(e, s) && Wf(d, s) && 2 * hi <= |s.caps|
    ensures var r := State(s.pos, ResetCaps(s.caps, lo, hi)); Wf(e, r) && Wf(d, r)
  {
  }

  lemma LeafFree(e: Env, d: Env, f: Flags, n: Node, back: bool, s: State)
    requires Wf(e, s) && d.text == e.text && Wf(d, s) && !f.ignoreCase
    ensures MatchLeaf(e, f, n, back, s) == MatchLeaf(d, f, n, back, s)
  {
    hide MatchRef, Next, Prev, CharAt, CharBefore, IsWordChar, IsLineTerminator, Boundary;
    if n.BackRef? {
      RefFree(e, d, back, n.group, s);
    }
  }

  lemma {:induction false} CatFree(e: Env, d: Env, f: Flags, n: Node, g: nat, back: bool, s: State)
    requires n.Cat? && Wf(e, s) && 2 * (g + Groups(n)) <= |s.caps| && d.text == e.text && Wf(d, s)
    requires !f.ignoreCase && NeverAdds(n)
    ensures Match(e, f, n, g, back, s) == Match(d, f, n, g, back, s)
    decreases n, 0, 0
  {
    hide MatchLeaf;
    var x, y, gx, gy := Lead(n, back), Trail(n, back), LeadGroup(n, g, back), TrailGroup(n, g, back);
    assert NeverAdds(x) && NeverAdds(y);
    CanonFree(e, d, f, x, gx, back, s);
    AllFree(e, d, f, y, gy, back, s, Match(e, f, x, gx, back, s));
  }

  lemma {:induction false} AllFree(e: Env, d: Env, f: Flags, n: Node, g: nat, back: bool, s: State, rs: seq<State>)
    requires Wf(e, s) && 2 * (g + Groups(n)) <= |s.caps| && d.text == e.text && Wf(d, s)
    requires !f.ignoreCase && NeverAdds(n) && AllGood(e, back, s, rs) && AllGood(d, back, s, rs)
    ensures MatchAll(e, f, n, g, back, s, rs) == MatchAll(d, f, n, g, back, s, rs)
    decreases n, 1, 0, 0, |rs|
  {
    hide Match;
    if rs != [] {
      CanonFree(e, d, f, n, g, back, rs[0]);
      AllFree(e, d, f, n, g, back, s, rs[1..]);
    }
  }

  lemma {:induction false} IterateFree(e: Env, d: Env, f: Flags, a: Node, g: nat, back: bool, min: nat, max: nat,
                                       greedy: bool, s: State)
    requires Wf(e, s) && 2 * (g + Groups(a)) <= |s.caps| && d.text == e.text && Wf(d, s)
    requires !f.ignoreCase && NeverAdds(a)
    ensures Iterate(e, f, a, g, back, min, max, greedy, s) == Iterate(d, f, a, g, back, min, max, greedy, s)
    decreases a, 1, min, Room(e, back, s) + 1, 0
  {
    hide Match, Wf, IterateAll, Moved;
    OnBoundary(e, s);
    CanonFree(e, d, f, a, g, back, s);
    var ms := Match(e, f, a, g, back, s);
    if min > 0 {
      IteratesFree(e, d, f, a, g, back, min - 1, Less(max), greedy, Room(e, back, s) + 1, s, ms);
    } else if max > 0 {
      IteratesFree(e, d, f, a, g, back, 0, Less(max), greedy, Room(e, back, s), s, Moved(ms, s.pos));
    }
  }

  lemma {:induction false} IteratesFree(e: Env, d: Env, f: Flags, a: Node, g: nat, back: bool, min: nat, max: nat,
                                        greedy: bool, room: nat, s: State, rs: seq<State>)
    requires Wf(e, s) && 2 * (g + Groups(a)) <= |s.caps| && d.text == e.text && Wf(d, s)
    requires !f.ignoreCase && NeverAdds(a) && AllGood(e, back, s, rs) && AllGood(d, back, s, rs)
    requires Within(e, back, room, |s.caps|, rs) && Within(d, back, room, |s.caps|, rs)
    ensures IterateAll(e, f, a, g, back, min, max, greedy, room, s, rs)
         == IterateAll(d, f, a, g, back, min, max, greedy, room, s, rs)
    decreases a, 1, min, room, |rs|
  {
    hide Match, Iterate, Wf;
    if rs != [] {
      IterateFree(e, d, f, a, g, back, min, max, greedy, rs[0]);
      IteratesFree(e, d, f, a, g, back, min, max, greedy, room, s, rs[1..]);
    }
  }

  lemma RefFree(e: Env, d: Env, back: bool, k: nat, s: State)
    requires Wf(e, s) && d.text == e.text && Wf(d, s)
    ensures MatchRef(e, false, back, k, s) == MatchRef(d, false, back, k, s)
  {
    hide RefForward, RefBackward;
    if 2 * k + 1 < |s.caps| && s.caps[2 * k] != NONE && s.caps[2 * k + 1] != NONE {
      ForwardFree(e, d, s.caps[2 * k], s.caps[2 * k + 1], s.pos);
      BackwardFree(e, d, s.caps[2 * k], s.caps[2 * k + 1], s.pos);
    }
  }

  lemma {:induction false} ForwardFree(e: Env, d: Env, start: int, end: int, p: int)
    requires ValidPos(e, p) && 0 <= start && end <= |e.text.units| && d.text == e.text
    ensures RefForward(e, false, start, end, p) == RefForward(d, false, start, end, p)
    decreases end - start
  {
    if start < end && p < |e.text.units| {
      ForwardFree(e, d, Next(e.text, start, end), end, Next(e.text, p, |e.text.units|));
    }
  }

  lemma {:induction false} BackwardFree(e: Env, d: Env, start: int, end: int, p: int)
    requires ValidPos(e, p) && 0 <= start && end <= |e.text.units| && d.text == e.text
    ensures RefBackward(e, false, start, end, p) == RefBackward(d, false, start, end, p)
    decreases end - start
  {
    if start < end && p > 0 {
      BackwardFree(e, d, start, Prev(e.text, end, start), Prev(e.text, p, 0));
    }
  }

  /** Under a removed `i` the matches do not depend on the canonicalisation, nor on whether `i` was on outside. */
  lemma RemovedCase(e: Env, d: Env, f: Flags, icase: bool, add: Flags, remove: Flags, n: Node, g: nat, back: bool,
                    s: State)
    requires Wf(e, s) && 2 * (g + Groups(n)) <= |s.caps| && d.text == e.text && Wf(d, s)
    requires remove.ignoreCase && NeverAdds(n)
    ensures Match(e, f, Modify(add, remove, n), g, back, s)
         == Match(d, f.(ignoreCase := icase), Modify(add, remove, n), g, back, s)
  {
    hide MatchLeaf;
    CanonFree(e, d, Update(f, add, remove), n, g, back, s);
  }
}
