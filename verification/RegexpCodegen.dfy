/** The bytecode of each pattern, as the one-pass compiler leaves it in its buffer. */
module RegexpCodegen {
  import opened Basics
  import opened RegexpSyntax
  import opened RegexpBytecode

  /** The length in bytes of a block of instructions. */
  function Len(code: seq<Instr>): (n: nat)
    ensures code != [] ==> n > 0
  {
    if code == [] then 0 else Size(code[0]) + Len(code[1..])
  }

  lemma {:induction false} LenAppend(a: seq<Instr>, b: seq<Instr>)
    ensures Len(a + b) == Len(a) + Len(b)
  {
    if a == [] {
      assert a + b == b;
    } else {
      assert (a + b)[1..] == a[1..] + b;
      LenAppend(a[1..], b);
    }
  }

  // ----- analyses of a block -----

  /** Reads exactly one character. */
  predicate ReadsChar(i: Instr) {
    i.IChar? || i.IChar32? || i.IDot? || i.IAny? || i.IRange? || i.IRange32?
  }

  predicate IsAssertion(i: Instr) {
    i.ILineStart? || i.ILineEnd? || i.IWordBoundary?
  }

  /** Instructions whose effect on the position `re_need_check_advance` predicts. */
  predicate IsPredictable(i: Instr) {
    || ReadsChar(i) || IsAssertion(i)
    || i.IPushI32? || i.IPushCharPos? || i.IDrop? || i.IPrev?
    || i.ISaveStart? || i.ISaveEnd? || i.ISaveReset? || i.IBackRef?
  }

  predicate AllPredictable(code: seq<Instr>) {
    forall i :: i in code ==> IsPredictable(i)
  }

  predicate AnyReadsChar(code: seq<Instr>) {
    exists i :: i in code && ReadsChar(i)
  }

  /** Whether an iteration of the block might not advance. */
  predicate NeedCheckAdvance(code: seq<Instr>) {
    !(AllPredictable(code) && AnyReadsChar(code))
  }

  predicate AllSimple(code: seq<Instr>) {
    forall i :: i in code ==> ReadsChar(i) || IsAssertion(i)
  }

  function CountChars(code: seq<Instr>): (n: nat)
    ensures n <= |code|
  {
    if code == [] then 0 else (if ReadsChar(code[0]) then 1 else 0) + CountChars(code[1..])
  }

  /** The number of characters read by a block that a simple greedy loop can run, or -1. */
  function SimpleQuantifier(code: seq<Instr>): int {
    if AllSimple(code) then CountChars(code) else -1
  }

  // ----- code of the leaves -----

  function EmitChar(c: int, icase: bool): Instr {
    if c <= 0xffff then IChar(c, icase) else IChar32(c, icase)
  }

  function Low16(p: int): int { p % 0x1_0000 }

  function High16(p: int): int {
    if p - 1 == UINT32_MAX - 1 then 0xffff else (p - 1) % 0x1_0000
  }

  /** A boundary list as inclusive 16-bit intervals, 0xffff as a last value meaning infinity. */
  function Pairs16(pts: seq<int>): (r: seq<int>)
    ensures |r| == |pts|
  {
    seq(|pts|, i requires 0 <= i < |pts| => if i % 2 == 0 then Low16(pts[i]) else High16(pts[i]))
  }

  /** A boundary list as inclusive 32-bit intervals. */
  function Pairs32(pts: seq<int>): (r: seq<int>)
    ensures |r| == |pts|
  {
    seq(|pts|, i requires 0 <= i < |pts| => if i % 2 == 0 then pts[i] else (pts[i] - 1) % 0x1_0000_0000)
  }

  function EmitRange(pts: seq<int>, icase: bool): Instr
    requires |pts| % 2 == 0
  {
    if pts == [] then IChar32(UINT32_MAX, false)
    else
      var last := pts[|pts| - 1];
      var high := if last == UINT32_MAX then pts[|pts| - 2] else last;
      if high <= 0xffff then IRange(Pairs16(pts), icase) else IRange32(Pairs32(pts), icase)
  }

  /** Backward, a character is read between two steps back. */
  function OneChar(i: Instr, back: bool): seq<Instr> {
    if back then [IPrev, i, IPrev] else [i]
  }

  // ----- code of the quantifiers -----

  function Split(greedy: bool, off: int): Instr {
    if greedy then ISplitNextFirst(off) else ISplitGotoFirst(off)
  }

  function BackSplit(greedy: bool, off: int): Instr {
    if greedy then ISplitGotoFirst(off) else ISplitNextFirst(off)
  }

  /** The atom, guarded by an advance check when one is needed. */
  function Checked(a: seq<Instr>): seq<Instr> {
    if NeedCheckAdvance(a) then [IPushCharPos] + a + [ICheckAdvance] else a
  }

  function CheckLen(a: seq<Instr>): nat {
    if NeedCheckAdvance(a) then Len(a) + 2 else Len(a)
  }

  /** Zero or one time. */
  function OnceLoop(a: seq<Instr>, greedy: bool): seq<Instr> {
    [Split(greedy, CheckLen(a))] + Checked(a)
  }

  /** Any number of times. */
  function StarLoop(a: seq<Instr>, greedy: bool): seq<Instr> {
    [Split(greedy, CheckLen(a) + 5)] + Checked(a) + [IGoto(-(CheckLen(a) + 10))]
  }

  /** At most `max` times. */
  function CountedLoop(a: seq<Instr>, max: nat, greedy: bool): seq<Instr> {
    [IPushI32(max), Split(greedy, CheckLen(a) + 5)] + Checked(a) + [ILoop(-(CheckLen(a) + 10)), IDrop]
  }

  /** Exactly `min` times. */
  function ExactLoop(a: seq<Instr>, min: nat): seq<Instr> {
    if min == 1 then a else [IPushI32(min)] + a + [ILoop(-(Len(a) + 5)), IDrop]
  }

  function Optional(a: seq<Instr>, min: nat, max: nat, greedy: bool): seq<Instr> {
    if max == INFINITY then StarLoop(a, greedy)
    else if max > min then CountedLoop(a, max - min, greedy)
    else []
  }

  function Reset(g: nat, groups: nat): seq<Instr> {
    if groups > 0 then [ISaveReset(g, g + groups - 1)] else []
  }

  predicate UsesSimpleLoop(a: seq<Instr>, max: nat, greedy: bool) {
    greedy && max > 0 && SimpleQuantifier(a) > 0
  }

  function SimpleLoop(a: seq<Instr>, min: nat, max: nat): seq<Instr> {
    [ISimpleGreedyQuant(Len(a) + 1, min, max, SimpleQuantifier(a))] + a + [IMatch]
  }

  /** The general loops, after the capture reset. */
  function Loops(a: seq<Instr>, min: nat, max: nat, greedy: bool): seq<Instr> {
    if min == 0 then
      if max == 0 then []
      else if max == 1 then OnceLoop(a, greedy)
      else if max == INFINITY then StarLoop(a, greedy)
      else CountedLoop(a, max, greedy)
    else if min == 1 && max == INFINITY && !NeedCheckAdvance(a) then
      a + [BackSplit(greedy, -(Len(a) + 5))]
    else
      ExactLoop(a, min) + Optional(a, min, max, greedy)
  }

  function QuantCode(a: seq<Instr>, g: nat, groups: nat, min: nat, max: nat, greedy: bool): seq<Instr> {
    if UsesSimpleLoop(a, max, greedy) then SimpleLoop(a, min, max)
    else if min == 0 then Reset(g, groups) + Loops(a, min, max, greedy)
    else Loops(a, min, max, greedy)
  }

  // ----- code of a pattern -----

  /** The patterns the parser builds: counts in range, classes as boundary lists. */
  ghost predicate Valid(n: Node) {
    match n
    case Char(c) => c <= 0x10ffff
    case Class(pts) =>
      && |pts| % 2 == 0 && |pts| / 2 < 65535
      && (forall i :: 0 <= i < |pts| ==> 0 <= pts[i] <= UINT32_MAX)
      && (forall i, j :: 0 <= i < j < |pts| ==> pts[i] < pts[j])
    case BackRef(k) => k < 256
    case Cat(a, b) => Valid(a) && Valid(b)
    case Or(a, b) => Valid(a) && Valid(b)
    case Group(a) => Valid(a)
    case Modify(_, _, a) => Valid(a)
    case Look(_, _, a) => Valid(a)
    case Repeat(a, min, max, _) => min <= max <= INFINITY && Valid(a)
    case _ => true
  }

  function Code(canon: int -> int, f: Flags, n: Node, g: nat, back: bool): seq<Instr>
    requires Valid(n)
    decreases n
  {
    match n
    case Empty => []
    case Char(c) => OneChar(EmitChar(if f.ignoreCase then canon(c) else c, f.ignoreCase), back)
    case Dot => OneChar(if f.dotAll then IAny else IDot, back)
    case Class(pts) => OneChar(EmitRange(pts, f.ignoreCase), back)
    case LineStart => [ILineStart(f.multiLine)]
    case LineEnd => [ILineEnd(f.multiLine)]
    case WordBoundary(negated) => [IWordBoundary(negated, f.ignoreCase)]
    case BackRef(k) => [IBackRef(k, back, f.ignoreCase)]
    case Cat(_, _) =>
      Code(canon, f, Lead(n, back), LeadGroup(n, g, back), back) + Code(canon, f, Trail(n, back),
        TrailGroup(n, g, back), back)
    case Or(a, b) =>
      var ca, cb := Code(canon, f, a, g, back), Code(canon, f, b, g + Groups(a), back);
      [ISplitNextFirst(Len(ca) + 5)] + ca + [IGoto(Len(cb))] + cb
    case Group(a) =>
      var ca := Code(canon, f, a, g + 1, back);
      if back then [ISaveEnd(g)] + ca + [ISaveStart(g)] else [ISaveStart(g)] + ca + [ISaveEnd(g)]
    case Modify(add, remove, a) => Code(canon, Update(f, add, remove), a, g, back)
    case Look(b, negative, a) =>
      var ca := Code(canon, f, a, g, b);
      [ILookahead(negative, Len(ca) + 1)] + ca + [IMatch]
    case Repeat(a, min, max, greedy) =>
      QuantCode(Code(canon, f, a, g, back), g, Groups(a), min, max, greedy)
  }

  // ----- the code of a pattern from the code of its parts -----

  function OrCode(cx: seq<Instr>, cy: seq<Instr>): seq<Instr> {
    [ISplitNextFirst(Len(cx) + 5)] + cx + [IGoto(Len(cy))] + cy
  }

  function LookCode(negative: bool, cx: seq<Instr>): seq<Instr> {
    [ILookahead(negative, Len(cx) + 1)] + cx + [IMatch]
  }

  lemma CatShape(canon: int -> int, f: Flags, n: Node, g: nat, back: bool)
    requires Valid(n) && n.Cat?
    ensures Code(canon, f, n, g, back) == Code(canon, f, Lead(n, back), LeadGroup(n, g, back), back)
                                          + Code(canon, f, Trail(n, back), TrailGroup(n, g, back), back)
  {
    hide QuantCode, EmitRange, Len, OneChar;
  }

  lemma GroupShape(canon: int -> int, f: Flags, n: Node, g: nat, back: bool)
    requires Valid(n) && n.Group?
    ensures Code(canon, f, n, g, back)
         == [if back then ISaveEnd(g) else ISaveStart(g)] + Code(canon, f, n.inner, g + 1, back)
            + [if back then ISaveStart(g) else ISaveEnd(g)]
  {
    hide QuantCode, EmitRange, Len, OneChar;
  }

  lemma LookShape(canon: int -> int, f: Flags, n: Node, g: nat, back: bool)
    requires Valid(n) && n.Look?
    ensures var x := Code(canon, f, n.ahead, g, n.backward);
            Code(canon, f, n, g, back) == LookCode(n.negative, x)
  {
    hide QuantCode, EmitRange, Len, OneChar;
  }

  lemma OrShape(canon: int -> int, f: Flags, n: Node, g: nat, back: bool)
    requires Valid(n) && n.Or?
    ensures var cx, cy := Code(canon, f, n.left, g, back), Code(canon, f, n.right, g + Groups(n.left), back);
            Code(canon, f, n, g, back) == OrCode(cx, cy)
  {
    hide QuantCode, EmitRange, Len, OneChar, Groups, Lead, Trail, LeadGroup, TrailGroup, Update, EmitChar;
  }

  /** Tries every start position, leftmost first. */
  const SEARCH_PROLOGUE: seq<Instr> := [ISplitGotoFirst(6), IAny, IGoto(-11)]

  /** The compiled program: group 0 is the whole match. */
  function Program(canon: int -> int, f: Flags, n: Node, sticky: bool): seq<Instr>
    requires Valid(n)
  {
    (if sticky then [] else SEARCH_PROLOGUE) + (Code(canon, f, Group(n), 0, false) + [IMatch])
  }
}
