/**
 The analysis of stale captures is exact: for patterns of characters, sequences, alternatives, groups and quantifiers,
 every group that it names shows a stale capture on some subject.
 */
module RegexpDeviations {
  import opened RegexpText
  import opened RegexpSyntax
  import opened RegexpMatcher
  import opened RegexpStandard

  // ----- patterns that can match -----

  predicate Nullable(n: Node) {
    match n
    case Empty => true
    case Cat(a, b) => Nullable(a) && Nullable(b)
    case Or(a, b) => Nullable(a) || Nullable(b)
    case Group(a) => Nullable(a)
    case Repeat(a, min, _, _) => min == 0 || Nullable(a)
    case _ => false
  }

  predicate IsPlainUnit(c: nat) { c < 0xD800 }

  ghost predicate Sample(canon: int -> int, f: Flags, n: Node, c: nat) {
    IsPlainUnit(c) && Accepts(Env(Text([], false), canon), f, n, c)
  }

  /** Characters that match something, put together; what is repeated is not empty. */
  ghost predicate Plain(canon: int -> int, f: Flags, n: Node) {
    match n
    case Empty => true
    case Char(_) => exists c: nat :: Sample(canon, f, n, c)
    case Dot => exists c: nat :: Sample(canon, f, n, c)
    case Class(_) => exists c: nat :: Sample(canon, f, n, c)
    case Cat(a, b) => Plain(canon, f, a) && Plain(canon, f, b)
    case Or(a, b) => Plain(canon, f, a) && Plain(canon, f, b)
    case Group(a) => Plain(canon, f, a)
    case Repeat(a, min, max, _) => Plain(canon, f, a) && !Nullable(a) && min <= max && 1 <= max
    case _ => false
  }

  /** Whether group `k` may be stale after `n`, when `d` says whether it may be before. */
  predicate Stale(n: Node, g: nat, k: nat, d: bool) {
    match n
    case Cat(a, b) => Stale(b, g + Groups(a), k, Stale(a, g, k, d))
    case Or(a, b) => Stale(a, g, k, d) || Stale(b, g + Groups(a), k, d)
    case Group(a) => k != g && Stale(a, g + 1, k, d)
    case Repeat(a, min, max, _) =>
      var own := g <= k < g + Groups(a);
      var d0 := d && !(own && min == 0);
      if min == 0 && max == 0 then d0
      else (min == 0 && d0) || Stale(a, g, k, d0 || (own && !(min <= 1 && max <= 1)))
    case _ => d
  }

  /** The analysis, one group at a time. */
  lemma {:induction false} AfterIsStale(canon: int -> int, f: Flags, n: Node, g: nat, stale: set<nat>, k: nat)
    requires Plain(canon, f, n)
    ensures var r := After(n, g, false, stale); r.Some? && (k in r.value <==> Stale(n, g, k, k in stale))
    decreases n
  {
    match n
    case Cat(a, b) =>
      AfterIsStale(canon, f, a, g, stale, k);
      AfterIsStale(canon, f, b, g + Groups(a), After(a, g, false, stale).value, k);
    case Or(a, b) =>
      AfterIsStale(canon, f, a, g, stale, k);
      AfterIsStale(canon, f, b, g + Groups(a), stale, k);
    case Group(a) => AfterIsStale(canon, f, a, g + 1, stale, k);
    case Repeat(a, min, max, _) =>
      AfterIsStale(canon, f, a, g, Inside(Entered(stale, g, Groups(a), min), g, Groups(a), min, max), k);
    case _ =>
  }

  // ----- runs of both matchers -----

  /** The states `p` and `q` stand at the same place of two lists. */
  ghost predicate Both(xs: seq<State>, ys: seq<State>, p: State, q: State) {
    exists i :: 0 <= i < |xs| && i < |ys| && xs[i] == p && ys[i] == q
  }

  lemma BothConcat(a: seq<State>, b: seq<State>, c: seq<State>, d: seq<State>, p: State, q: State)
    requires |a| == |c| && (Both(a, c, p, q) || Both(b, d, p, q))
    ensures Both(a + b, c + d, p, q)
  {
    if Both(a, c, p, q) {
      var i :| 0 <= i < |a| && i < |c| && a[i] == p && c[i] == q;
      assert (a + b)[i] == p && (c + d)[i] == q;
    } else {
      var i :| 0 <= i < |b| && i < |d| && b[i] == p && d[i] == q;
      assert (a + b)[|a| + i] == p && (c + d)[|a| + i] == q;
    }
  }

  /** States of the two matchers that differ in stale captures only. */
  ghost predicate Near(e: Env, x: State, y: State) {
    Wf(e, x) && Wf(e, y) && |x.caps| == |y.caps| && Alike(Own(0, |x.caps|), {}, x, y)
  }

  ghost predicate Entering(e: Env, t: Site, x: State, y: State) {
    Near(e, x, y) && 2 * (t.g + Groups(t.n)) <= |x.caps| && AllUnset(y.caps, t.g, Groups(t.n))
  }

  /** Results that correspond. */
  ghost predicate Paired(e: Env, x: State, y: State, xs: seq<State>, ys: seq<State>, g: nat, n: nat) {
    |xs| == |ys| && forall p, q :: Both(xs, ys, p, q) ==> PairedAt(e, x, y, p, q, g, n)
  }

  ghost predicate PairedAt(e: Env, x: State, y: State, p: State, q: State, g: nat, n: nat) {
    Near(e, p, q) && Keeps(x.caps, p, g, n) && Keeps(y.caps, q, g, n)
  }

  lemma LinkedPaired(e: Env, back: bool, stale: set<nat>, x: State, y: State, xs: seq<State>, ys: seq<State>, g: nat,
                     n: nat)
    requires Linked(stale, {}, x, y, xs, ys, g, n) && stale <= Own(0, |x.caps|) && |x.caps| == |y.caps|
    requires AllGood(e, back, x, xs) && AllGood(e, back, y, ys)
    ensures Paired(e, x, y, xs, ys, g, n)
  {
    hide Cap, SameCap, Wf, Own;
    WeakenAll(stale, Own(0, |x.caps|), {}, xs, ys);
    forall p, q | Both(xs, ys, p, q) ensures PairedAt(e, x, y, p, q, g, n) {
      var i :| 0 <= i < |xs| && i < |ys| && xs[i] == p && ys[i] == q;
      assert Good(e, back, x, xs[i]) && Good(e, back, y, ys[i]);
      assert Keeps(x.caps, xs[i], g, n) && Keeps(y.caps, ys[i], g, n) && Alike(Own(0, |x.caps|), {}, xs[i], ys[i]);
    }
  }

  lemma PlainAfter(canon: int -> int, t: Site, stale: set<nat>)
    requires Plain(canon, t.f, t.n) && !t.back
    ensures After(t.n, t.g, t.back, stale).Some?
  {
    AfterIsStale(canon, t.f, t.n, t.g, stale, 0);
  }

  /** The matches of a plain pattern correspond, whatever is stale. */
  lemma MatchesPaired(e: Env, t: Site, x: State, y: State)
    requires Entering(e, t, x, y) && Plain(e.canon, t.f, t.n) && !t.back
    ensures Paired(e, x, y, Compiled(e, t, x), Standard(e, t, y), t.g, Groups(t.n))
  {
    hide Cap, SameCap, Wf, Match, EcmaMatch, Paired, AllUnset, Alike;
    var all := Own(0, |x.caps|);
    PlainAfter(e.canon, t, all);
    assert |y.caps| == |x.caps| by { SameLength(all, {}, x, y); }
    Agree(e, t, all, {}, x, y);
    AfterBelow(t.n, t.g, t.back, all);
    LinkedPaired(e, t.back, After(t.n, t.g, t.back, all).value, x, y, Compiled(e, t, x), Standard(e, t, y), t.g,
      Groups(t.n));
  }

  lemma SameLength(d: set<nat>, open: set<nat>, x: State, y: State)
    requires Alike(d, open, x, y)
    ensures |x.caps| == |y.caps| && x.pos == y.pos
  {
  }

  // ----- conditions on a group -----

  datatype Cond = True | SetAt(k: nat) | StaleAt(k: nat)

  predicate IsSet(c: (int, int)) { c.0 != NONE && c.1 != NONE }

  /** Nothing, a group set by the compiled code, or one that the standard has unset meanwhile. */
  predicate Meets(c: Cond, x: State, y: State) {
    match c
    case True => true
    case SetAt(k) => IsSet(Cap(x.caps, k))
    case StaleAt(k) => IsSet(Cap(x.caps, k)) && Cap(y.caps, k) == UNSET
  }

  predicate PlainWord(w: seq<nat>) { forall i :: 0 <= i < |w| ==> IsPlainUnit(w[i]) }

  predicate At(e: Env, p: int, w: seq<nat>) {
    0 <= p && p + |w| <= |e.text.units| && e.text.units[p..p + |w|] == w && PlainWord(w)
  }

  ghost predicate Hits(x: State, xs: seq<State>, ys: seq<State>, w: seq<nat>, c: Cond) {
    exists p, q :: Both(xs, ys, p, q) && p.pos == x.pos + |w| && Meets(c, p, q)
  }

  ghost predicate HitsAt(e: Env, t: Site, x: State, y: State, w: seq<nat>, c: Cond) {
    Entering(e, t, x, y) && Hits(x, Compiled(e, t, x), Standard(e, t, y), w, c)
  }

  /** Wherever `w` stands in a subject, the pattern matches it, and leads from condition `c` to condition `d`. */
  ghost predicate Runs(canon: int -> int, t: Site, w: seq<nat>, c: Cond, d: Cond) {
    forall e: Env, x: State, y: State ::
      e.canon == canon && Entering(e, t, x, y) && At(e, x.pos, w) && Meets(c, x, y) ==>
        HitsAt(e, t, x, y, w, d)
  }

  lemma AtSplit(e: Env, p: int, v: seq<nat>, w: seq<nat>)
    requires At(e, p, v + w)
    ensures At(e, p, v) && At(e, p + |v|, w)
  {
    var u := e.text.units[p..p + |v + w|];
    assert u[..|v|] == v && u[|v|..] == w;
    forall i | 0 <= i < |v| ensures IsPlainUnit(v[i]) { assert (v + w)[i] == v[i]; }
    forall i | 0 <= i < |w| ensures IsPlainUnit(w[i]) { assert (v + w)[|v| + i] == w[i]; }
  }

  // ----- sequences -----

  ghost predicate AllEntering(e: Env, t: Site, xs: seq<State>, ys: seq<State>) {
    |xs| == |ys| && forall i :: 0 <= i < |xs| ==> Entering(e, t, xs[i], ys[i])
  }

  lemma {:induction false} EachBoth(e: Env, t: Site, x: State, y: State, xs: seq<State>, ys: seq<State>, i: nat,
                                    p: State, q: State)
    requires Plain(e.canon, t.f, t.n) && !t.back && AllEntering(e, t, xs, ys) && i < |xs|
    requires Wf(e, x) && Wf(e, y) && 2 * (t.g + Groups(t.n)) <= |x.caps| == |y.caps|
    requires AllGood(e, t.back, x, xs) && AllGood(e, t.back, y, ys)
    requires Both(Compiled(e, t, xs[i]), Standard(e, t, ys[i]), p, q)
    ensures Both(MatchAll(e, t.f, t.n, t.g, t.back, x, xs), EcmaEach(e, t.f, t.n, t.g, t.back, y, ys), p, q)
    decreases |xs|
  {
    hide Cap, SameCap, Wf, Match, EcmaMatch, AllUnset, Alike, Both, Plain, PairedAt;
    MatchesPaired(e, t, xs[0], ys[0]);
    var a, b := Compiled(e, t, xs[0]), MatchAll(e, t.f, t.n, t.g, t.back, x, xs[1..]);
    var c, d := Standard(e, t, ys[0]), EcmaEach(e, t.f, t.n, t.g, t.back, y, ys[1..]);
    if i > 0 {
      EachBoth(e, t, x, y, xs[1..], ys[1..], i - 1, p, q);
    }
    BothConcat(a, b, c, d, p, q);
  }

  /** Matching on with another part of a pattern. */
  lemma EntersNext(e: Env, t: Site, x: State, y: State, p: State, q: State, l: Site, r: Site)
    requires Entering(e, t, x, y) && PairedAt(e, x, y, p, q, l.g, Groups(l.n))
    requires t.g <= r.g && r.g + Groups(r.n) <= t.g + Groups(t.n)
    requires r.g + Groups(r.n) <= l.g || l.g + Groups(l.n) <= r.g
    ensures Entering(e, r, p, q)
  {
    hide Cap, SameCap, Wf;
    KeepsUnset(y.caps, q, l.g, Groups(l.n), r.g, Groups(r.n));
  }

  lemma CatRuns(canon: int -> int, t: Site, v: seq<nat>, w: seq<nat>, c: Cond, d: Cond, d': Cond)
    requires t.n.Cat? && !t.back && Plain(canon, t.f, t.n)
    requires Runs(canon, LeadOf(t), v, c, d) && Runs(canon, TrailOf(t), w, d, d')
    ensures Runs(canon, t, v + w, c, d')
  {
    hide Cap, SameCap, Wf, Match, EcmaMatch, AllUnset, Alike, Both, At, Meets;
    forall e: Env, x: State, y: State | e.canon == canon && Entering(e, t, x, y) && At(e, x.pos, v + w)
      && Meets(c, x, y)
      ensures HitsAt(e, t, x, y, v + w, d')
    {
      CatHits(e, t, x, y, v, w, c, d, d');
    }
  }

  lemma CatHits(e: Env, t: Site, x: State, y: State, v: seq<nat>, w: seq<nat>, c: Cond, d: Cond, d': Cond)
    requires t.n.Cat? && !t.back && Plain(e.canon, t.f, t.n)
    requires Runs(e.canon, LeadOf(t), v, c, d) && Runs(e.canon, TrailOf(t), w, d, d')
    requires Entering(e, t, x, y) && At(e, x.pos, v + w) && Meets(c, x, y)
    ensures HitsAt(e, t, x, y, v + w, d')
  {
    hide Cap, SameCap, Wf, Match, EcmaMatch, Alike, Both, At, Meets, AllUnset;
    var l, r := LeadOf(t), TrailOf(t);
    AtSplit(e, x.pos, v, w);
    EnterPart(e, t, x, y, l);
    var xs, ys := Compiled(e, l, x), Standard(e, l, y);
    MatchesPaired(e, l, x, y);
    var p, q :| Both(xs, ys, p, q) && p.pos == x.pos + |v| && Meets(d, p, q);
    assert Entering(e, r, p, q) by { EntersNext(e, t, x, y, p, q, l, r); }
    var p', q' :| Both(Compiled(e, r, p), Standard(e, r, q), p', q') && p'.pos == p.pos + |w| && Meets(d', p', q');
    var i := BothAt(xs, ys, p, q);
    assert AllEntering(e, r, xs, ys) by {
      forall j | 0 <= j < |xs| ensures Entering(e, r, xs[j], ys[j]) {
        BothIs(xs, ys, j);
        EntersNext(e, t, x, y, xs[j], ys[j], l, r);
      }
    }
    EachBoth(e, r, x, y, xs, ys, i, p', q');
    CatStandard(e, t, x, y);
  }

  lemma EnterPart(e: Env, t: Site, x: State, y: State, r: Site)
    requires Entering(e, t, x, y) && t.g <= r.g && r.g + Groups(r.n) <= t.g + Groups(t.n)
    ensures Entering(e, r, x, y)
  {
    hide Cap, SameCap, Wf, Alike;
  }

  lemma BothAt(xs: seq<State>, ys: seq<State>, p: State, q: State) returns (i: nat)
    requires Both(xs, ys, p, q)
    ensures i < |xs| && i < |ys| && xs[i] == p && ys[i] == q
  {
    i :| 0 <= i < |xs| && i < |ys| && xs[i] == p && ys[i] == q;
  }

  lemma BothIs(xs: seq<State>, ys: seq<State>, i: nat)
    requires i < |xs| && i < |ys|
    ensures Both(xs, ys, xs[i], ys[i])
  {
  }

  // ----- conditions -----

  /** Groups outside a pattern keep their condition. */
  lemma KeepRuns(canon: int -> int, t: Site, w: seq<nat>, c: Cond)
    requires Runs(canon, t, w, True, True) && Plain(canon, t.f, t.n) && !t.back
    requires !c.True? && !(t.g <= c.k < t.g + Groups(t.n))
    ensures Runs(canon, t, w, c, c)
  {
    hide Cap, SameCap, Wf, Match, EcmaMatch, Alike, Both, At, AllUnset;
    forall e: Env, x: State, y: State | e.canon == canon && Entering(e, t, x, y) && At(e, x.pos, w) && Meets(c, x, y)
      ensures HitsAt(e, t, x, y, w, c)
    {
      var xs, ys := Compiled(e, t, x), Standard(e, t, y);
      assert Meets(True, x, y);
      MatchesPaired(e, t, x, y);
      var p, q :| Both(xs, ys, p, q) && p.pos == x.pos + |w|;
      assert PairedAt(e, x, y, p, q, t.g, Groups(t.n));
      assert Cap(p.caps, c.k) == Cap(x.caps, c.k) && Cap(q.caps, c.k) == Cap(y.caps, c.k);
      assert Meets(c, p, q);
    }
  }

  lemma WeakRuns(canon: int -> int, t: Site, w: seq<nat>, c: Cond, d: Cond)
    requires Runs(canon, t, w, True, d)
    ensures Runs(canon, t, w, c, d)
  {
    hide At, Hits;
    forall e: Env, x: State, y: State | e.canon == canon && Entering(e, t, x, y) && At(e, x.pos, w) && Meets(c, x, y)
      ensures HitsAt(e, t, x, y, w, d)
    {
      assert Meets(True, x, y);
    }
  }

  // ----- alternatives and groups -----

  lemma OrRuns(canon: int -> int, t: Site, w: seq<nat>, c: Cond, d: Cond, right: bool)
    requires t.n.Or? && !t.back && Plain(canon, t.f, t.n)
    requires Runs(canon, if right then Site(t.f, t.n.right, t.g + Groups(t.n.left), false)
                         else Site(t.f, t.n.left, t.g, false), w, c, d)
    ensures Runs(canon, t, w, c, d)
  {
    hide Cap, SameCap, Wf, Match, EcmaMatch, Alike, Both, At, AllUnset, Meets;
    var l, r := Site(t.f, t.n.left, t.g, false), Site(t.f, t.n.right, t.g + Groups(t.n.left), false);
    forall e: Env, x: State, y: State | e.canon == canon && Entering(e, t, x, y) && At(e, x.pos, w) && Meets(c, x, y)
      ensures HitsAt(e, t, x, y, w, d)
    {
      EnterPart(e, t, x, y, l);
      EnterPart(e, t, x, y, r);
      MatchesPaired(e, l, x, y);
      OrSplit(e, t, x, y);
      var a, b, m, n := Compiled(e, l, x), Compiled(e, r, x), Standard(e, l, y), Standard(e, r, y);
      if right {
        var p, q :| Both(b, n, p, q) && p.pos == x.pos + |w| && Meets(d, p, q);
        BothConcat(a, b, m, n, p, q);
      } else {
        var p, q :| Both(a, m, p, q) && p.pos == x.pos + |w| && Meets(d, p, q);
        BothConcat(a, b, m, n, p, q);
      }
    }
  }

  lemma OrSplit(e: Env, t: Site, x: State, y: State)
    requires t.n.Or? && Entering(e, t, x, y) && !t.back
    ensures var l, r := Site(t.f, t.n.left, t.g, false), Site(t.f, t.n.right, t.g + Groups(t.n.left), false);
            && Compiled(e, t, x) == Compiled(e, l, x) + Compiled(e, r, x)
            && Standard(e, t, y) == Standard(e, l, y) + Standard(e, r, y)
  {
    hide Match, EcmaMatch, Cap, SameCap, Wf;
    OrStandard(e, t, x, y);
  }

  lemma EnterGroup(e: Env, t: Site, x: State, y: State, c: Cond)
    requires t.n.Group? && !t.back && Entering(e, t, x, y) && Meets(c, x, y) && (!c.True? ==> c.k != t.g)
    ensures var x1 := SetCap(x, 2 * t.g);
            Entering(e, Site(t.f, t.n.inner, t.g + 1, false), x1, y) && Meets(c, x1, y)
  {
    hide Cap;
    var x1 := SetCap(x, 2 * t.g);
    forall k: nat ensures SameCap(Own(0, |x1.caps|), {}, k, Cap(x1.caps, k), Cap(y.caps, k)) {
      assert SameCap(Own(0, |x.caps|), {}, k, Cap(x.caps, k), Cap(y.caps, k));
      SetOneCap(x, 2 * t.g, k);
    }
    if !c.True? {
      SetOneCap(x, 2 * t.g, c.k);
    }
  }

  lemma LeaveGroup(e: Env, x: State, p: State, q: State, g: nat, n: nat, from: int, d: Cond, d': Cond)
    requires 2 * g + 1 < |x.caps| && Wf(e, p) && Wf(e, x) && |q.caps| == |p.caps|
             && Keeps(SetCap(x, 2 * g).caps, p, g + 1, n)
    requires Meets(d, p, q) && ((d' == d && (!d.True? ==> d.k != g)) || d' == SetAt(g))
    ensures var p1, q1 := SetCap(p, 2 * g + 1), SetGroup(q, g, false, from); p1.pos == p.pos && Meets(d', p1, q1)
  {
    hide Cap;
    if d' == SetAt(g) {
      EnteredCap(x, g, false);
      LeftCap(p, g, false);
      assert Cap(p.caps, g) == Cap(SetCap(x, 2 * g).caps, g);
    } else if !d.True? {
      SetOneCap(p, 2 * g + 1, d.k);
      SetGroupCap(q, g, false, from, d.k);
    }
  }

  lemma GroupHits(e: Env, t: Site, x: State, y: State, w: seq<nat>, c: Cond, d: Cond, d': Cond)
    requires t.n.Group? && !t.back && Plain(e.canon, t.f, t.n)
    requires Runs(e.canon, Site(t.f, t.n.inner, t.g + 1, false), w, c, d)
    requires !c.True? ==> c.k != t.g
    requires (d' == d && (!d.True? ==> d.k != t.g)) || d' == SetAt(t.g)
    requires Entering(e, t, x, y) && At(e, x.pos, w) && Meets(c, x, y)
    ensures HitsAt(e, t, x, y, w, d')
  {
    hide Cap, SameCap, Wf, Match, EcmaMatch, Alike, Both, At, AllUnset, Meets, SetCap, SetGroup;
    var u, x1 := Site(t.f, t.n.inner, t.g + 1, false), SetCap(x, 2 * t.g);
    GroupStandard(e, t, x, y);
    EnterGroup(e, t, x, y, c);
    assert x1.pos == x.pos by { SetCapPos(x, 2 * t.g); }
    var xs, ys := Compiled(e, u, x1), Standard(e, u, y);
    MatchesPaired(e, u, x1, y);
    var p, q :| Both(xs, ys, p, q) && p.pos == x.pos + |w| && Meets(d, p, q);
    assert PairedAt(e, x1, y, p, q, u.g, Groups(u.n));
    var i := BothAt(xs, ys, p, q);
    LeaveGroup(e, x, p, q, t.g, Groups(u.n), y.pos, d, d');
    BothIs(Compiled(e, t, x), Standard(e, t, y), i);
  }

  lemma SetCapPos(x: State, i: nat)
    requires i < |x.caps|
    ensures SetCap(x, i).pos == x.pos && |SetCap(x, i).caps| == |x.caps|
  {
  }

  /** A group runs as its body, and is set afterwards. */
  lemma GroupRuns(canon: int -> int, t: Site, w: seq<nat>, c: Cond, d: Cond, d': Cond)
    requires t.n.Group? && !t.back && Plain(canon, t.f, t.n)
    requires Runs(canon, Site(t.f, t.n.inner, t.g + 1, false), w, c, d)
    requires !c.True? ==> c.k != t.g
    requires (d' == d && (!d.True? ==> d.k != t.g)) || d' == SetAt(t.g)
    ensures Runs(canon, t, w, c, d')
  {
    hide Cap, SameCap, Wf, Match, EcmaMatch, Alike, Both, At, AllUnset, Meets;
    forall e: Env, x: State, y: State | e.canon == canon && Entering(e, t, x, y) && At(e, x.pos, w) && Meets(c, x, y)
      ensures HitsAt(e, t, x, y, w, d')
    {
      GroupHits(e, t, x, y, w, c, d, d');
    }
  }

  // ----- repetitions -----

  ghost predicate Looping(e: Env, t: Site, x: State, y: State) {
    Near(e, x, y) && 2 * (t.g + Groups(t.n)) <= |x.caps|
  }

  ghost function Iterated(e: Env, t: Site, min: nat, max: nat, greedy: bool, x: State): seq<State>
    requires Wf(e, x) && 2 * (t.g + Groups(t.n)) <= |x.caps|
  {
    Iterate(e, t.f, t.n, t.g, t.back, min, max, greedy, x)
  }

  ghost function Repeated(e: Env, t: Site, min: nat, max: nat, greedy: bool, y: State): seq<State>
    requires Wf(e, y) && 2 * (t.g + Groups(t.n)) <= |y.caps|
  {
    EcmaRepeat(e, t.f, t.n, t.g, t.back, min, max, greedy, y)
  }

  ghost predicate LoopHitsAt(e: Env, t: Site, min: nat, max: nat, greedy: bool, x: State, y: State, w: seq<nat>,
                             d: Cond) {
    Looping(e, t, x, y) && Hits(x, Iterated(e, t, min, max, greedy, x), Repeated(e, t, min, max, greedy, y), w, d)
  }

  ghost predicate LoopRuns(canon: int -> int, t: Site, min: nat, max: nat, greedy: bool, w: seq<nat>, c: Cond,
                           d: Cond) {
    forall e: Env, x: State, y: State ::
      e.canon == canon && Looping(e, t, x, y) && At(e, x.pos, w) && Meets(c, x, y) ==>
        LoopHitsAt(e, t, min, max, greedy, x, y, w, d)
  }

  /** The iterations correspond, whatever is stale. */
  lemma IterationsPaired(e: Env, t: Site, min: nat, max: nat, greedy: bool, x: State, y: State)
    requires Looping(e, t, x, y) && Plain(e.canon, t.f, t.n) && !t.back
    ensures Paired(e, x, y, Iterated(e, t, min, max, greedy, x), Repeated(e, t, min, max, greedy, y), t.g, Groups(t.n))
  {
    hide Cap, SameCap, Wf, Iterate, EcmaRepeat, Paired, Alike, After, Own;
    var all := Own(0, |x.caps|);
    PlainAfter(e.canon, t, all);
    AfterBelow(t.n, t.g, t.back, all);
    AgreeIterate(e, t, all, all, all, {}, x, y, min, max, greedy);
    LinkedPaired(e, t.back, all, x, y, Iterated(e, t, min, max, greedy, x), Repeated(e, t, min, max, greedy, y), t.g,
                 Groups(t.n));
  }

  ghost predicate AllLooping(e: Env, t: Site, xs: seq<State>, ys: seq<State>) {
    |xs| == |ys| && forall i :: 0 <= i < |xs| ==> Looping(e, t, xs[i], ys[i])
  }

  lemma {:induction false} IterateBoth(e: Env, t: Site, min: nat, max: nat, greedy: bool, room: nat, x: State, y: State,
                                       xs: seq<State>, ys: seq<State>, i: nat, p: State, q: State)
    requires Plain(e.canon, t.f, t.n) && !t.back && AllLooping(e, t, xs, ys) && i < |xs|
    requires Wf(e, x) && Wf(e, y) && 2 * (t.g + Groups(t.n)) <= |x.caps| == |y.caps|
    requires AllGood(e, t.back, x, xs) && AllGood(e, t.back, y, ys)
    requires Within(e, t.back, room, |x.caps|, xs) && Within(e, t.back, room, |y.caps|, ys)
    requires Both(Iterated(e, t, min, max, greedy, xs[i]), Repeated(e, t, min, max, greedy, ys[i]), p, q)
    ensures Both(IterateAll(e, t.f, t.n, t.g, t.back, min, max, greedy, room, x, xs),
                 EcmaRepeatEach(e, t.f, t.n, t.g, t.back, min, max, greedy, room, y, ys), p, q)
    decreases |xs|
  {
    hide Cap, SameCap, Wf, Iterate, EcmaRepeat, Alike, Both, Plain, PairedAt;
    IterationsPaired(e, t, min, max, greedy, xs[0], ys[0]);
    var a := Iterated(e, t, min, max, greedy, xs[0]);
    var b := IterateAll(e, t.f, t.n, t.g, t.back, min, max, greedy, room, x, xs[1..]);
    var c := Repeated(e, t, min, max, greedy, ys[0]);
    var d := EcmaRepeatEach(e, t.f, t.n, t.g, t.back, min, max, greedy, room, y, ys[1..]);
    if i > 0 {
      IterateBoth(e, t, min, max, greedy, room, x, y, xs[1..], ys[1..], i - 1, p, q);
    }
    BothConcat(a, b, c, d, p, q);
  }

  /** The condition at the start of an iteration, when the standard has unset the groups. */
  function Renew(c: Cond): Cond {
    match c
    case SetAt(k) => StaleAt(k)
    case _ => c
  }

  lemma RenewMeets(e: Env, t: Site, c: Cond, x: State, y: State)
    requires Looping(e, t, x, y) && Meets(c, x, y) && (!c.True? ==> t.g <= c.k < t.g + Groups(t.n))
    ensures var y1 := Renewed(y, t.g, Groups(t.n));
            Entering(e, t, x, y1) && Meets(Renew(c), x, y1) && Keeps(y.caps, y1, t.g, Groups(t.n))
  {
    hide Cap;
    var y1, n, all := Renewed(y, t.g, Groups(t.n)), Groups(t.n), Own(0, |x.caps|);
    RenewWf(e, y, t.g, n);
    RenewAlike(all, all, {}, x, y, t.g, n);
  }

  /** No more iterations. */
  lemma LoopExit(canon: int -> int, t: Site, max: nat, greedy: bool, c: Cond)
    requires Plain(canon, t.f, t.n) && !t.back
    ensures LoopRuns(canon, t, 0, max, greedy, [], c, c)
  {
    hide Cap, SameCap, Wf, Match, EcmaMatch, Alike, AllUnset, Meets;
    forall e: Env, x: State, y: State | e.canon == canon && Looping(e, t, x, y) && Meets(c, x, y)
      ensures LoopHitsAt(e, t, 0, max, greedy, x, y, [], c)
    {
      var xs, ys := Iterated(e, t, 0, max, greedy, x), Repeated(e, t, 0, max, greedy, y);
      IterationsPaired(e, t, 0, max, greedy, x, y);
      var i := if max == 0 || !greedy then 0 else |xs| - 1;
      assert xs[i] == x && ys[i] == y;
      BothIs(xs, ys, i);
    }
  }

  /** Dropping the states that did not move keeps the pairs. */
  lemma {:induction false} MovedPairs(xs: seq<State>, ys: seq<State>, p: int)
    requires |xs| == |ys| && (forall k :: 0 <= k < |xs| ==> xs[k].pos == ys[k].pos)
    ensures |Moved(xs, p)| == |Moved(ys, p)|
    ensures forall a, b :: Both(Moved(xs, p), Moved(ys, p), a, b) <==> Both(xs, ys, a, b) && a.pos != p
    decreases |xs|
  {
    if xs != [] {
      var xt, yt := xs[1..], ys[1..];
      MovedPairs(xt, yt, p);
      forall a, b ensures Both(Moved(xs, p), Moved(ys, p), a, b) <==> Both(xs, ys, a, b) && a.pos != p {
        BothCons(xs[0], xt, ys[0], yt, a, b);
        BothCons(xs[0], Moved(xt, p), ys[0], Moved(yt, p), a, b);
        assert xs == [xs[0]] + xt && ys == [ys[0]] + yt;
        assert xs[0].pos == p ==> Moved(xs, p) == Moved(xt, p) && Moved(ys, p) == Moved(yt, p);
      }
    }
  }

  lemma BothCons(x: State, xs: seq<State>, y: State, ys: seq<State>, a: State, b: State)
    ensures Both([x] + xs, [y] + ys, a, b) <==> (a == x && b == y) || Both(xs, ys, a, b)
  {
    if Both([x] + xs, [y] + ys, a, b) {
      var i := BothAt([x] + xs, [y] + ys, a, b);
      if i > 0 {
        BothIs(xs, ys, i - 1);
      }
    }
    if a == x && b == y {
      BothIs([x] + xs, [y] + ys, 0);
    } else if Both(xs, ys, a, b) {
      var i := BothAt(xs, ys, a, b);
      BothIs([x] + xs, [y] + ys, i + 1);
    }
  }

  /** One iteration more at the start. */
  lemma LoopStep(canon: int -> int, t: Site, min: nat, max: nat, greedy: bool, v: seq<nat>, w: seq<nat>, c: Cond,
                 d: Cond,
                 d': Cond)
    requires Plain(canon, t.f, t.n) && !t.back && v != [] && max > 0
    requires !c.True? ==> t.g <= c.k < t.g + Groups(t.n)
    requires Runs(canon, t, v, Renew(c), d)
    requires LoopRuns(canon, t, if min > 0 then min - 1 else 0, Less(max), greedy, w, d, d')
    ensures LoopRuns(canon, t, min, max, greedy, v + w, c, d')
  {
    hide Cap, SameCap, Wf, Match, EcmaMatch, Alike, AllUnset, Meets, At, Both;
    forall e: Env, x: State, y: State | e.canon == canon && Looping(e, t, x, y) && At(e, x.pos, v + w) && Meets(c, x, y)
      ensures LoopHitsAt(e, t, min, max, greedy, x, y, v + w, d')
    {
      LoopHits(e, t, min, max, greedy, x, y, v, w, c, d, d');
    }
  }

  lemma LoopHits(e: Env, t: Site, min: nat, max: nat, greedy: bool, x: State, y: State, v: seq<nat>, w: seq<nat>,
                 c: Cond,
                 d: Cond, d': Cond)
    requires Plain(e.canon, t.f, t.n) && !t.back && v != [] && max > 0
    requires !c.True? ==> t.g <= c.k < t.g + Groups(t.n)
    requires Runs(e.canon, t, v, Renew(c), d)
    requires LoopRuns(e.canon, t, if min > 0 then min - 1 else 0, Less(max), greedy, w, d, d')
    requires Looping(e, t, x, y) && At(e, x.pos, v + w) && Meets(c, x, y)
    ensures LoopHitsAt(e, t, min, max, greedy, x, y, v + w, d')
  {
    hide Cap, SameCap, Wf, Match, EcmaMatch, Alike, AllUnset, Meets, At, Both, Own;
    var y1, min' := Renewed(y, t.g, Groups(t.n)), if min > 0 then min - 1 else 0;
    AtSplit(e, x.pos, v, w);
    RenewMeets(e, t, c, x, y);
    var xs, ys := Compiled(e, t, x), Standard(e, t, y1);
    assert HitsAt(e, t, x, y1, v, d);
    MatchesPaired(e, t, x, y1);
    var p, q :| Both(xs, ys, p, q) && p.pos == x.pos + |v| && Meets(d, p, q);
    assert PairedAt(e, x, y1, p, q, t.g, Groups(t.n));
    assert Looping(e, t, p, q);
    assert LoopHitsAt(e, t, min', Less(max), greedy, p, q, w, d');
    var p', q' :| Both(Iterated(e, t, min', Less(max), greedy, p), Repeated(e, t, min', Less(max), greedy, q), p', q')
                  && p'.pos == p.pos + |w| && Meets(d', p', q');
    IterationHits(e, t, min, max, greedy, x, y, p, q, p', q');
  }

  lemma PairedLooping(e: Env, t: Site, x: State, y: State, xs: seq<State>, ys: seq<State>)
    requires Paired(e, x, y, xs, ys, t.g, Groups(t.n)) && 2 * (t.g + Groups(t.n)) <= |x.caps|
    ensures AllLooping(e, t, xs, ys) && forall k :: 0 <= k < |xs| ==> xs[k].pos == ys[k].pos
  {
    hide Cap, SameCap, Wf, Own, Both;
    forall k | 0 <= k < |xs| ensures Looping(e, t, xs[k], ys[k]) && xs[k].pos == ys[k].pos {
      BothIs(xs, ys, k);
      assert PairedAt(e, x, y, xs[k], ys[k], t.g, Groups(t.n));
    }
  }

  lemma MovedLooping(e: Env, t: Site, xs: seq<State>, ys: seq<State>, p: int)
    requires AllLooping(e, t, xs, ys) && (forall k :: 0 <= k < |xs| ==> xs[k].pos == ys[k].pos)
    ensures AllLooping(e, t, Moved(xs, p), Moved(ys, p))
  {
    hide Looping, Both;
    MovedPairs(xs, ys, p);
    var ms, ns := Moved(xs, p), Moved(ys, p);
    forall k | 0 <= k < |ms| ensures Looping(e, t, ms[k], ns[k]) {
      BothIs(ms, ns, k);
      var i := BothAt(xs, ys, ms[k], ns[k]);
    }
  }

  /** What is reached after an iteration is reached by the loop. */
  lemma IterationHits(e: Env, t: Site, min: nat, max: nat, greedy: bool, x: State, y: State, p: State, q: State,
                      p': State, q': State)
    requires Plain(e.canon, t.f, t.n) && !t.back && max > 0 && Looping(e, t, x, y) && p.pos != x.pos
    requires var y1 := Renewed(y, t.g, Groups(t.n));
             Entering(e, t, x, y1) && Both(Compiled(e, t, x), Standard(e, t, y1), p, q) && Looping(e, t, p, q)
    requires var min' := if min > 0 then min - 1 else 0;
             Both(Iterated(e, t, min', Less(max), greedy, p), Repeated(e, t, min', Less(max), greedy, q), p', q')
    ensures Both(Iterated(e, t, min, max, greedy, x), Repeated(e, t, min, max, greedy, y), p', q')
  {
    hide Cap, SameCap, Wf, Match, EcmaMatch, Iterate, EcmaRepeat, Alike, AllUnset, Both, Own, PairedAt, Plain;
    var y1 := Renewed(y, t.g, Groups(t.n));
    var xs, ys := Compiled(e, t, x), Standard(e, t, y1);
    MatchesPaired(e, t, x, y1);
    PairedLooping(e, t, x, y1, xs, ys);
    if min > 0 {
      var i := BothAt(xs, ys, p, q);
      MandatoryBoth(e, t, min, max, greedy, x, y, xs, ys, i, p', q');
    } else {
      MovedPairs(xs, ys, x.pos);
      MovedLooping(e, t, xs, ys, x.pos);
      var i := BothAt(Moved(xs, x.pos), Moved(ys, x.pos), p, q);
      OptionalBoth(e, t, max, greedy, x, y, xs, ys, i, p', q');
    }
  }

  lemma MandatoryBoth(e: Env, t: Site, min: nat, max: nat, greedy: bool, x: State, y: State, xs: seq<State>,
                      ys: seq<State>, i: nat, p: State, q: State)
    requires Plain(e.canon, t.f, t.n) && !t.back && Looping(e, t, x, y) && min > 0 && AllLooping(e, t, xs, ys)
             && i < |xs|
    requires Wf(e, Renewed(y, t.g, Groups(t.n)))
    requires xs == Compiled(e, t, x) && ys == Standard(e, t, Renewed(y, t.g, Groups(t.n)))
    requires Both(Iterated(e, t, min - 1, Less(max), greedy, xs[i]),
             Repeated(e, t, min - 1, Less(max), greedy, ys[i]), p, q)
    ensures Both(Iterated(e, t, min, max, greedy, x), Repeated(e, t, min, max, greedy, y), p, q)
  {
    hide Cap, SameCap, Wf, Match, EcmaMatch, Alike, Both, Own, Plain, AllLooping;
    SameLength(Own(0, |x.caps|), {}, x, y);
    OnBoundary(e, x);
    IterateBoth(e, t, min - 1, Less(max), greedy, Room(e, t.back, x) + 1, x, y, xs, ys, i, p, q);
  }

  lemma OptionalBoth(e: Env, t: Site, max: nat, greedy: bool, x: State, y: State, xs: seq<State>, ys: seq<State>,
                     i: nat,
                     p: State, q: State)
    requires Plain(e.canon, t.f, t.n) && !t.back && Looping(e, t, x, y) && max > 0
             && Wf(e, Renewed(y, t.g, Groups(t.n)))
    requires xs == Compiled(e, t, x) && ys == Standard(e, t, Renewed(y, t.g, Groups(t.n)))
    requires var ms, ns := Moved(xs, x.pos), Moved(ys, x.pos);
             && AllLooping(e, t, ms, ns) && i < |ms|
             && Both(Iterated(e, t, 0, Less(max), greedy, ms[i]), Repeated(e, t, 0, Less(max), greedy, ns[i]), p, q)
    ensures Both(Iterated(e, t, 0, max, greedy, x), Repeated(e, t, 0, max, greedy, y), p, q)
  {
    hide Cap, SameCap, Wf, Match, EcmaMatch, Alike, Both, Own, Plain, AllLooping, PairedAt;
    var ms, ns, room := Moved(xs, x.pos), Moved(ys, x.pos), |e.text.units| - x.pos;
    SameLength(Own(0, |x.caps|), {}, x, y);
    OnBoundary(e, x);
    IterateBoth(e, t, 0, Less(max), greedy, room, x, y, ms, ns, i, p, q);
    var us := IterateAll(e, t.f, t.n, t.g, t.back, 0, Less(max), greedy, room, x, ms);
    var vs := EcmaRepeatEach(e, t.f, t.n, t.g, t.back, 0, Less(max), greedy, room, y, ns);
    IterationsPaired(e, t, 0, max, greedy, x, y);
    assert |us| == |vs|;
    BothConcat(us, [x], vs, [y], p, q);
    BothConcat([x], us, [y], vs, p, q);
  }

  /** A repetition runs as its loop, after the reset if its minimum is zero. */
  lemma RepeatRuns(canon: int -> int, t: Site, w: seq<nat>, c: Cond, d: Cond)
    requires t.n.Repeat? && !t.back && (t.n.min == 0 ==> c.True?)
    requires LoopRuns(canon, Site(t.f, t.n.body, t.g, false), t.n.min, t.n.max, t.n.greedy, w, c, d)
    ensures Runs(canon, t, w, c, d)
  {
    hide Cap, SameCap, Wf, Match, EcmaMatch, Iterate, EcmaRepeat, Alike, Both, At;
    var u := Site(t.f, t.n.body, t.g, false);
    forall e: Env, x: State, y: State | e.canon == canon && Entering(e, t, x, y) && At(e, x.pos, w) && Meets(c, x, y)
      ensures HitsAt(e, t, x, y, w, d)
    {
      var x1 := if t.n.min == 0 then Renewed(x, t.g, Groups(u.n)) else x;
      EnterLoop(e, t, x, y);
      assert Looping(e, u, x1, y) && Meets(c, x1, y);
      assert LoopHitsAt(e, u, t.n.min, t.n.max, t.n.greedy, x1, y, w, d);
      RepeatStandard(e, t, x, y);
    }
  }

  lemma EnterLoop(e: Env, t: Site, x: State, y: State)
    requires t.n.Repeat? && !t.back && Entering(e, t, x, y)
    ensures var u := Site(t.f, t.n.body, t.g, false);
            Looping(e, u, if t.n.min == 0 then Renewed(x, t.g, Groups(u.n)) else x, y)
  {
    hide Cap, Wf;
    var u, all := Site(t.f, t.n.body, t.g, false), Own(0, |x.caps|);
    if t.n.min == 0 {
      var x1 := Renewed(x, t.g, Groups(u.n));
      RenewWf(e, x, t.g, Groups(u.n));
      RepeatEntered(all, {}, x, y, t.g, Groups(u.n), 0);
      WeakenAll(Entered(all, t.g, Groups(u.n), 0), all, {}, [x1], [y]);
      assert Alike(all, {}, [x1][0], [y][0]);
    }
  }

  // ----- words for every pattern -----

  lemma EmptyRuns(canon: int -> int, t: Site)
    requires t.n.Empty?
    ensures Runs(canon, t, [], True, True)
  {
    hide Cap, SameCap, Alike, AllUnset;
    forall e: Env, x: State, y: State | e.canon == canon && Entering(e, t, x, y) ensures HitsAt(e, t, x, y, [], True) {
      assert Compiled(e, t, x) == [x] && Standard(e, t, y) == [y];
      BothIs([x], [y], 0);
    }
  }

  lemma CharRuns(canon: int -> int, t: Site, c: nat)
    requires (t.n.Char? || t.n.Dot? || t.n.Class?) && !t.back && Sample(canon, t.f, t.n, c)
    ensures IsPlainUnit(c)
    ensures Runs(canon, t, [c], True, True)
  {
    hide Cap, SameCap, Alike, AllUnset;
    forall e: Env, x: State, y: State | e.canon == canon && Entering(e, t, x, y) && At(e, x.pos, [c])
      ensures HitsAt(e, t, x, y, [c], True)
    {
      SameLength(Own(0, |x.caps|), {}, x, y);
      assert e.text.units[x.pos] == e.text.units[x.pos..x.pos + 1][0] == c;
      assert Accepts(e, t.f, t.n, c);
      var p, q := x.(pos := x.pos + 1), y.(pos := y.pos + 1);
      assert Compiled(e, t, x) == [p] && Standard(e, t, y) == [q];
      BothIs([p], [q], 0);
    }
  }

  /** Every plain pattern matches some word, and only empty ones the empty word. */
  lemma {:induction false} AnyRun(canon: int -> int, t: Site) returns (w: seq<nat>)
    requires Plain(canon, t.f, t.n) && !t.back
    ensures Runs(canon, t, w, True, True) && (!Nullable(t.n) ==> w != [])
    ensures PlainWord(w)
    decreases t.n, 0
  {
    hide Runs, Sample;
    match t.n
    case Empty =>
      EmptyRuns(canon, t);
      w := [];
    case Cat(_, _) =>
      var u := AnyRun(canon, LeadOf(t));
      var v := AnyRun(canon, TrailOf(t));
      CatRuns(canon, t, u, v, True, True, True);
      w := u + v;
    case Or(a, _) =>
      w := AnyRun(canon, Site(t.f, a, t.g, false));
      OrRuns(canon, t, w, True, True, false);
    case Group(a) =>
      w := AnyRun(canon, Site(t.f, a, t.g + 1, false));
      GroupRuns(canon, t, w, True, True, True);
    case Repeat(a, min, max, greedy) =>
      w := AnyLoop(canon, Site(t.f, a, t.g, false), min, max, greedy);
      RepeatRuns(canon, t, w, True, True);
    case Char(_) => w := LeafRun(canon, t);
    case Dot => w := LeafRun(canon, t);
    case Class(_) => w := LeafRun(canon, t);
    case _ =>
  }

  lemma LeafRun(canon: int -> int, t: Site) returns (w: seq<nat>)
    requires (t.n.Char? || t.n.Dot? || t.n.Class?) && !t.back && exists c: nat :: Sample(canon, t.f, t.n, c)
    ensures Runs(canon, t, w, True, True) && w != [] && PlainWord(w)
  {
    hide Runs, Sample;
    var c: nat :| Sample(canon, t.f, t.n, c);
    CharRuns(canon, t, c);
    w := [c];
  }

  lemma {:induction false} AnyLoop(canon: int -> int, t: Site, min: nat, max: nat, greedy: bool) returns (w: seq<nat>)
    requires Plain(canon, t.f, t.n) && !t.back && !Nullable(t.n) && min <= max
    ensures LoopRuns(canon, t, min, max, greedy, w, True, True) && (min > 0 ==> w != [])
    ensures PlainWord(w)
    decreases t.n, 1, min
  {
    hide Runs, LoopRuns, Plain;
    if min == 0 {
      LoopExit(canon, t, max, greedy, True);
      w := [];
    } else {
      var u := AnyRun(canon, t);
      var v := AnyLoop(canon, t, min - 1, Less(max), greedy);
      LoopStep(canon, t, min, max, greedy, u, v, True, True, True);
      w := u + v;
    }
  }

  /** Every group of a plain pattern is set by some match. */
  lemma {:induction false} SetRun(canon: int -> int, t: Site, k: nat) returns (w: seq<nat>)
    requires Plain(canon, t.f, t.n) && !t.back && t.g <= k < t.g + Groups(t.n)
    ensures Runs(canon, t, w, True, SetAt(k)) && (!Nullable(t.n) ==> w != [])
    ensures PlainWord(w)
    decreases t.n, 0
  {
    hide Runs;
    match t.n
    case Cat(a, _) =>
      var l, r := LeadOf(t), TrailOf(t);
      if k < t.g + Groups(a) {
        var u := SetRun(canon, l, k);
        var v := AnyRun(canon, r);
        KeepRuns(canon, r, v, SetAt(k));
        CatRuns(canon, t, u, v, True, SetAt(k), SetAt(k));
        w := u + v;
      } else {
        var u := AnyRun(canon, l);
        var v := SetRun(canon, r, k);
        CatRuns(canon, t, u, v, True, True, SetAt(k));
        w := u + v;
      }
    case Or(a, b) =>
      if k < t.g + Groups(a) {
        w := SetRun(canon, Site(t.f, a, t.g, false), k);
        OrRuns(canon, t, w, True, SetAt(k), false);
      } else {
        w := SetRun(canon, Site(t.f, b, t.g + Groups(a), false), k);
        OrRuns(canon, t, w, True, SetAt(k), true);
      }
    case Group(a) =>
      if k == t.g {
        w := AnyRun(canon, Site(t.f, a, t.g + 1, false));
        GroupRuns(canon, t, w, True, True, SetAt(k));
      } else {
        w := SetRun(canon, Site(t.f, a, t.g + 1, false), k);
        GroupRuns(canon, t, w, True, SetAt(k), SetAt(k));
      }
    case Repeat(a, min, max, greedy) =>
      w := SetLoop(canon, Site(t.f, a, t.g, false), k, min, max, greedy);
      RepeatRuns(canon, t, w, True, SetAt(k));
    case _ =>
  }

  /** The last of the iterations sets the group. */
  lemma {:induction false} SetLoop(canon: int -> int, t: Site, k: nat, min: nat, max: nat, greedy: bool)
    returns (w: seq<nat>)
    requires Plain(canon, t.f, t.n) && !t.back && !Nullable(t.n) && min <= max && 1 <= max
    requires t.g <= k < t.g + Groups(t.n)
    ensures LoopRuns(canon, t, min, max, greedy, w, True, SetAt(k)) && w != []
    ensures PlainWord(w)
    decreases t.n, 1, min
  {
    hide Runs, LoopRuns, Plain;
    if min <= 1 {
      var u := SetRun(canon, t, k);
      LoopExit(canon, t, Less(max), greedy, SetAt(k));
      LoopStep(canon, t, min, max, greedy, u, [], True, SetAt(k), SetAt(k));
      w := u + [];
    } else {
      var u := AnyRun(canon, t);
      var v := SetLoop(canon, t, k, min - 1, Less(max), greedy);
      LoopStep(canon, t, min, max, greedy, u, v, True, True, SetAt(k));
      w := u + v;
    }
  }

  /** Every group that may be stale is stale after some match. */
  lemma {:induction false} StaleRun(canon: int -> int, t: Site, k: nat, d: bool) returns (w: seq<nat>)
    requires Plain(canon, t.f, t.n) && !t.back && Stale(t.n, t.g, k, d)
    ensures Runs(canon, t, w, if d then StaleAt(k) else True, StaleAt(k)) && (!Nullable(t.n) ==> w != [])
    ensures PlainWord(w)
    decreases t.n, 0
  {
    hide Runs;
    var c := if d then StaleAt(k) else True;
    if !(t.g <= k < t.g + Groups(t.n)) {
      StaleOutside(t.n, t.g, k, d);
      w := AnyRun(canon, t);
      KeepRuns(canon, t, w, StaleAt(k));
    } else {
      match t.n
      case Cat(a, b) =>
        var l, r := LeadOf(t), TrailOf(t);
        if Stale(a, t.g, k, d) {
          var u := StaleRun(canon, l, k, d);
          var v := StaleRun(canon, r, k, true);
          CatRuns(canon, t, u, v, c, StaleAt(k), StaleAt(k));
          w := u + v;
        } else {
          var u := AnyRun(canon, l);
          var v := StaleRun(canon, r, k, false);
          WeakRuns(canon, l, u, c, True);
          CatRuns(canon, t, u, v, c, True, StaleAt(k));
          w := u + v;
        }
      case Or(a, b) =>
        if Stale(a, t.g, k, d) {
          w := StaleRun(canon, Site(t.f, a, t.g, false), k, d);
          OrRuns(canon, t, w, c, StaleAt(k), false);
        } else {
          w := StaleRun(canon, Site(t.f, b, t.g + Groups(a), false), k, d);
          OrRuns(canon, t, w, c, StaleAt(k), true);
        }
      case Group(a) =>
        w := StaleRun(canon, Site(t.f, a, t.g + 1, false), k, d);
        GroupRuns(canon, t, w, c, StaleAt(k), StaleAt(k));
      case Repeat(a, min, max, greedy) =>
        var u := Site(t.f, a, t.g, false);
        if min <= 1 && max <= 1 {
          var d0 := d && min > 0;
          var c0 := if d0 then StaleAt(k) else True;
          var v := StaleRun(canon, u, k, d0);
          LoopExit(canon, u, Less(max), greedy, StaleAt(k));
          LoopStep(canon, u, min, max, greedy, v, [], c0, StaleAt(k), StaleAt(k));
          w := v + [];
          RepeatRuns(canon, t, w, c0, StaleAt(k));
          if c0 == True {
            WeakRuns(canon, t, w, c, StaleAt(k));
          }
        } else {
          var v := SetRun(canon, u, k);
          var z := StaleLoop(canon, u, k, if min > 0 then min - 1 else 0, Less(max), greedy);
          LoopStep(canon, u, min, max, greedy, v, z, True, SetAt(k), StaleAt(k));
          w := v + z;
          RepeatRuns(canon, t, w, True, StaleAt(k));
          WeakRuns(canon, t, w, c, StaleAt(k));
        }
      case _ =>
    }
  }

  lemma {:induction false} StaleOutside(n: Node, g: nat, k: nat, d: bool)
    requires !(g <= k < g + Groups(n))
    ensures Stale(n, g, k, d) == d
    decreases n
  {
    match n
    case Cat(a, b) =>
      StaleOutside(a, g, k, d);
      StaleOutside(b, g + Groups(a), k, d);
    case Or(a, b) =>
      StaleOutside(a, g, k, d);
      StaleOutside(b, g + Groups(a), k, d);
    case Group(a) => StaleOutside(a, g + 1, k, d);
    case Repeat(a, _, _, _) => StaleOutside(a, g, k, d);
    case _ =>
  }

  /** From a group that is set, one iteration or more that leave it alone. */
  lemma {:induction false} StaleLoop(canon: int -> int, t: Site, k: nat, min: nat, max: nat, greedy: bool)
    returns (w: seq<nat>)
    requires Plain(canon, t.f, t.n) && !t.back && !Nullable(t.n) && min <= max && 1 <= max
    requires t.g <= k < t.g + Groups(t.n) && Stale(t.n, t.g, k, true)
    ensures LoopRuns(canon, t, min, max, greedy, w, SetAt(k), StaleAt(k))
    ensures PlainWord(w)
    decreases t.n, 1, min
  {
    hide Runs, LoopRuns, Plain;
    var u := StaleRun(canon, t, k, true);
    if min <= 1 {
      LoopExit(canon, t, Less(max), greedy, StaleAt(k));
      LoopStep(canon, t, min, max, greedy, u, [], SetAt(k), StaleAt(k), StaleAt(k));
      w := u + [];
    } else {
      var v := StaleLoop(canon, t, k, min - 1, Less(max), greedy);
      StaleIsSet(canon, t, min - 1, Less(max), greedy, v, k);
      LoopStep(canon, t, min, max, greedy, u, v, SetAt(k), StaleAt(k), StaleAt(k));
      w := u + v;
    }
  }

  lemma StaleIsSet(canon: int -> int, t: Site, min: nat, max: nat, greedy: bool, w: seq<nat>, k: nat)
    requires LoopRuns(canon, t, min, max, greedy, w, SetAt(k), StaleAt(k))
    ensures LoopRuns(canon, t, min, max, greedy, w, StaleAt(k), StaleAt(k))
  {
    hide Cap, At, LoopHitsAt, Looping;
    forall e: Env, x: State, y: State | e.canon == canon && Looping(e, t, x, y) && At(e, x.pos, w)
      && Meets(StaleAt(k), x, y)
      ensures LoopHitsAt(e, t, min, max, greedy, x, y, w, StaleAt(k))
    {
      assert Meets(SetAt(k), x, y);
    }
  }
}
