/**
 The reference matcher: the list of all ways a pattern can match from a state,
 in priority order, in the style of section 22.2.2 of ECMA-262. Captures are
 reset where the compiler resets them, once before a repetition whose minimum
 is zero.
 */
module RegexpMatcher {
  import opened Basics
  import opened RegexpText
  import opened RegexpSyntax
  import opened CharSet

  /** The constants of one execution: the subject and the case canonicalisation. */
  datatype Env = Env(text: Text, canon: int -> int)

  /** The canonicalisation maps code points to code points. */
  ghost predicate WfCanon(canon: int -> int) {
    forall c {:trigger canon(c)} :: 0 <= c <= 0x10ffff ==> 0 <= canon(c) <= 0x10ffff
  }

  /** A position and the capture array; a capture that is not set is NONE. */
  datatype State = State(pos: int, caps: seq<int>)

  const NONE := -1

  predicate ValidPos(e: Env, p: int) { 0 <= p <= |e.text.units| }

  /** The position and the captures lie in the subject. */
  predicate InBounds(e: Env, s: State) {
    && ValidPos(e, s.pos)
    && forall i :: 0 <= i < |s.caps| ==> s.caps[i] == NONE || ValidPos(e, s.caps[i])
  }

  /** The position and the captures lie on character boundaries. */
  predicate Wf(e: Env, s: State)
    ensures Wf(e, s) ==> InBounds(e, s)
  {
    && Boundary(e.text, s.pos)
    && forall i :: 0 <= i < |s.caps| ==> s.caps[i] == NONE || Boundary(e.text, s.caps[i])
  }

  lemma OnBoundary(e: Env, s: State)
    requires Wf(e, s)
    ensures Boundary(e.text, s.pos)
  {
  }

  /** `q` is reached from `p` without moving against the matching direction. */
  predicate Ahead(back: bool, p: int, q: int) {
    if back then q <= p else p <= q
  }

  /** How many positions are left in the matching direction. */
  function Room(e: Env, back: bool, s: State): (n: nat)
    requires Boundary(e.text, s.pos)
  {
    if back then s.pos else |e.text.units| - s.pos
  }

  ghost predicate Good(e: Env, back: bool, s: State, r: State) {
    Wf(e, r) && Ahead(back, s.pos, r.pos) && |r.caps| == |s.caps|
  }

  ghost predicate AllGood(e: Env, back: bool, s: State, rs: seq<State>) {
    forall i :: 0 <= i < |rs| ==> Good(e, back, s, rs[i])
  }

  /** Every state is well formed and has the given room and number of captures. */
  ghost predicate Within(e: Env, back: bool, room: int, ncaps: int, rs: seq<State>) {
    forall i :: 0 <= i < |rs| ==> Wf(e, rs[i]) && Room(e, back, rs[i]) < room && |rs[i].caps| == ncaps
  }

  function Canon(e: Env, icase: bool, c: int): int {
    if icase then e.canon(c) else c
  }

  /** Whether the one-character pattern `n` accepts the character `c`. */
  predicate Accepts(e: Env, f: Flags, n: Node, c: int) {
    match n
    case Char(d) => Canon(e, f.ignoreCase, c) == Canon(e, f.ignoreCase, d)
    case Dot => f.dotAll || !IsLineTerminator(c)
    case Class(points) => InSet(points, Canon(e, f.ignoreCase, c))
    case _ => false
  }

  predicate AtLineStart(e: Env, multi: bool, p: int)
    requires ValidPos(e, p)
  {
    p == 0 || (multi && IsLineTerminator(CharBefore(e.text, p, 0)))
  }

  predicate AtLineEnd(e: Env, multi: bool, p: int)
    requires ValidPos(e, p)
  {
    p == |e.text.units| || (multi && IsLineTerminator(CharAt(e.text, p, |e.text.units|)))
  }

  predicate WordBefore(e: Env, icase: bool, p: int)
    requires ValidPos(e, p)
  {
    p != 0 && IsWordChar(Canon(e, icase, CharBefore(e.text, p, 0)))
  }

  predicate WordAfter(e: Env, icase: bool, p: int)
    requires ValidPos(e, p)
  {
    p < |e.text.units| && IsWordChar(Canon(e, icase, CharAt(e.text, p, |e.text.units|)))
  }

  /** Compares the characters of [p1, end) with those from `p`; the position after them. */
  function RefForward(e: Env, icase: bool, p1: int, end: int, p: int): (r: Option<int>)
    requires ValidPos(e, p) && 0 <= p1 && end <= |e.text.units|
    ensures r.Some? ==> ValidPos(e, r.value) && p <= r.value
    ensures r.Some? && Boundary(e.text, p) ==> Boundary(e.text, r.value)
    decreases end - p1
  {
    var len := |e.text.units|;
    if p1 >= end then Some(p)
    else if p >= len then None
    else if Canon(e, icase, CharAt(e.text, p1, end)) != Canon(e, icase, CharAt(e.text, p, len)) then None
    else RefForward(e, icase, Next(e.text, p1, end), end, Next(e.text, p, len))
  }

  /** Compares the characters of [start, p1), last first, with those before `p`. */
  function RefBackward(e: Env, icase: bool, start: int, p1: int, p: int): (r: Option<int>)
    requires ValidPos(e, p) && 0 <= start && p1 <= |e.text.units|
    ensures r.Some? ==> ValidPos(e, r.value) && r.value <= p
    ensures r.Some? && Boundary(e.text, p) ==> Boundary(e.text, r.value)
    decreases p1 - start
  {
    if p1 <= start then Some(p)
    else if p == 0 then None
    else if Canon(e, icase, CharBefore(e.text, p1, start)) != Canon(e, icase, CharBefore(e.text, p, 0)) then None
    else RefBackward(e, icase, start, Prev(e.text, p1, start), Prev(e.text, p, 0))
  }

  /** A back reference to a group that is not set matches the empty string. */
  function MatchRef(e: Env, icase: bool, back: bool, group: nat, s: State): (r: Option<State>)
    requires InBounds(e, s)
    ensures r.Some? ==> InBounds(e, r.value) && Ahead(back, s.pos, r.value.pos) && r.value.caps == s.caps
    ensures r.Some? && Wf(e, s) ==> Wf(e, r.value)
  {
    if 2 * group + 1 >= |s.caps| then None
    else
      var start, end := s.caps[2 * group], s.caps[2 * group + 1];
      if start == NONE || end == NONE then Some(s)
      else
        var p := if back then RefBackward(e, icase, start, end, s.pos) else RefForward(e, icase, start, end, s.pos);
        if p.None? then None else Some(s.(pos := p.value))
  }

  /** One character in the matching direction. */
  function MatchChar(e: Env, f: Flags, n: Node, back: bool, s: State): (r: Option<State>)
    requires Wf(e, s)
    ensures r.Some? ==> Good(e, back, s, r.value) && r.value.caps == s.caps && r.value.pos != s.pos
  {
    var t := e.text;
    if back then
      if s.pos > 0 && Accepts(e, f, n, CharBefore(t, s.pos, 0)) then
        PrevThenNext(t, s.pos);
        Some(s.(pos := Prev(t, s.pos, 0)))
      else None
    else
      if s.pos < |t.units| && Accepts(e, f, n, CharAt(t, s.pos, |t.units|)) then
        NextThenPrev(t, s.pos);
        Some(s.(pos := Next(t, s.pos, |t.units|)))
      else None
  }

  function ToSeq(r: Option<State>): seq<State> {
    match r case None => [] case Some(s) => [s]
  }

  function SetCap(s: State, i: nat): (r: State)
    requires i < |s.caps|
  {
    s.(caps := s.caps[i := s.pos])
  }

  /** Sets capture `i` of each state to its position. */
  function SetCaps(rs: seq<State>, i: nat): (r: seq<State>)
    requires forall k :: 0 <= k < |rs| ==> i < |rs[k].caps|
    ensures |r| == |rs| && forall k :: 0 <= k < |r| ==> r[k] == SetCap(rs[k], i)
  {
    if rs == [] then [] else [SetCap(rs[0], i)] + SetCaps(rs[1..], i)
  }

  /** Unsets the groups lo .. hi-1. */
  function ResetCaps(caps: seq<int>, lo: nat, hi: nat): (r: seq<int>)
    requires 2 * hi <= |caps|
    ensures |r| == |caps|
    ensures forall i :: 0 <= i < |r| ==> r[i] == if 2 * lo <= i < 2 * hi then NONE else caps[i]
  {
    seq(|caps|, i requires 0 <= i < |caps| => if 2 * lo <= i < 2 * hi then NONE else caps[i])
  }

  /** Drops the states that did not move away from `p`. */
  function Moved(rs: seq<State>, p: int): (r: seq<State>)
    ensures forall k :: 0 <= k < |r| ==> r[k].pos != p && r[k] in rs
  {
    if rs == [] then []
    else (if rs[0].pos != p then [rs[0]] else []) + Moved(rs[1..], p)
  }

  /** The capture that is set on entering a group, and the one on leaving it. */
  function EnterCap(g: nat, back: bool): nat { if back then 2 * g + 1 else 2 * g }
  function LeaveCap(g: nat, back: bool): nat { if back then 2 * g else 2 * g + 1 }

  /** The matches of a pattern without sub-patterns. */
  function MatchLeaf(e: Env, f: Flags, n: Node, back: bool, s: State): (rs: seq<State>)
    requires Wf(e, s)
    ensures AllGood(e, back, s, rs)
  {
    match n
    case Empty => [s]
    case LineStart => if AtLineStart(e, f.multiLine, s.pos) then [s] else []
    case LineEnd => if AtLineEnd(e, f.multiLine, s.pos) then [s] else []
    case WordBoundary(negated) =>
      if (WordBefore(e, f.ignoreCase, s.pos) != WordAfter(e, f.ignoreCase, s.pos)) != negated then [s] else []
    case BackRef(k) => ToSeq(MatchRef(e, f.ignoreCase, back, k, s))
    case _ => ToSeq(MatchChar(e, f, n, back, s))
  }

  /** All matches of `n`, whose first group is `g`, from `s`, best first. */
  function Match(e: Env, f: Flags, n: Node, g: nat, back: bool, s: State): (rs: seq<State>)
    requires Wf(e, s) && 2 * (g + Groups(n)) <= |s.caps|
    ensures AllGood(e, back, s, rs)
    decreases n, 0, 0, 0, 0
  {
    match n
    case Cat(_, _) =>
      var rs := Match(e, f, Lead(n, back), LeadGroup(n, g, back), back, s);
      MatchAll(e, f, Trail(n, back), TrailGroup(n, g, back), back, s, rs)
    case Or(a, b) => Match(e, f, a, g, back, s) + Match(e, f, b, g + Groups(a), back, s)
    case Group(a) =>
      var first, last := EnterCap(g, back), LeaveCap(g, back);
      var rs := Match(e, f, a, g + 1, back, SetCap(s, first));
      SetCaps(rs, last)
    case Modify(add, remove, a) => Match(e, Update(f, add, remove), a, g, back, s)
    case Look(b, negative, a) =>
      var rs := Match(e, f, a, g, b, s);
      if negative then (if rs == [] then [s] else [])
      else if rs == [] then [] else [State(s.pos, rs[0].caps)]
    case Repeat(a, min, max, greedy) =>
      var s' := if min == 0 then State(s.pos, ResetCaps(s.caps, g, g + Groups(a))) else s;
      Iterate(e, f, a, g, back, min, max, greedy, s')
    case _ => MatchLeaf(e, f, n, back, s)
  }

  /** The matches of `n` from each of `rs` in turn, all of them ahead of `s`. */
  function MatchAll(e: Env, f: Flags, n: Node, g: nat, back: bool, s: State, rs: seq<State>): (r: seq<State>)
    requires Wf(e, s) && 2 * (g + Groups(n)) <= |s.caps|
    requires AllGood(e, back, s, rs)
    ensures AllGood(e, back, s, r)
    decreases n, 1, 0, 0, |rs|
  {
    if rs == [] then [] else Match(e, f, n, g, back, rs[0]) + MatchAll(e, f, n, g, back, s, rs[1..])
  }

  /**
   The repetition of `a` between `min` and `max` times. Beyond the minimum an
   iteration that does not move is rejected.
   */
  function Iterate(e: Env, f: Flags, a: Node, g: nat, back: bool, min: nat, max: nat, greedy: bool, s: State)
    : (rs: seq<State>)
    requires Wf(e, s) && 2 * (g + Groups(a)) <= |s.caps|
    ensures AllGood(e, back, s, rs)
    decreases a, 1, min, Room(e, back, s) + 1, 0
  {
    if min > 0 then
      var ms := Match(e, f, a, g, back, s);
      IterateAll(e, f, a, g, back, min - 1, Less(max), greedy, Room(e, back, s) + 1, s, ms)
    else if max == 0 then [s]
    else
      var ms := Moved(Match(e, f, a, g, back, s), s.pos);
      var rest := IterateAll(e, f, a, g, back, 0, Less(max), greedy, Room(e, back, s), s, ms);
      if greedy then rest + [s] else [s] + rest
  }

  function IterateAll(e: Env, f: Flags, a: Node, g: nat, back: bool, min: nat, max: nat, greedy: bool, room: nat,
                      s: State, rs: seq<State>): (r: seq<State>)
    requires Wf(e, s) && 2 * (g + Groups(a)) <= |s.caps|
    requires AllGood(e, back, s, rs)
    requires Within(e, back, room, |s.caps|, rs)
    ensures AllGood(e, back, s, r)
    decreases a, 1, min, room, |rs|
  {
    if rs == [] then []
    else
      Iterate(e, f, a, g, back, min, max, greedy, rs[0])
      + IterateAll(e, f, a, g, back, min, max, greedy, room, s, rs[1..])
  }
}
