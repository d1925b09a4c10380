/** Patterns, as the parser recognises them, without their surface syntax. */
module RegexpSyntax {
  import opened Basics

  /** The modifiers in force: `i`, `m` and `s`. */
  datatype Flags = Flags(ignoreCase: bool, multiLine: bool, dotAll: bool)

  /**
   A pattern. A non-capturing group is just its body. The term list of an
   alternative is the left spine of `Cat`, and the alternatives of a
   disjunction are the left spine of `Or`, in source order.
   */
  datatype Node =
    | Empty
    | Char(c: nat)
    | Dot
    | Class(points: seq<int>)
    | LineStart
    | LineEnd
    | WordBoundary(negated: bool)
    | BackRef(group: nat)
    | Cat(first: Node, term: Node)
    | Or(left: Node, right: Node)
    | Group(inner: Node)
    | Modify(add: Flags, remove: Flags, scope: Node)
    | Look(backward: bool, negative: bool, ahead: Node)
    | Repeat(body: Node, min: nat, max: nat, greedy: bool)

  /** A repetition count of INT32_MAX means no upper bound. */
  const INFINITY: nat := INT32_MAX

  /** The number of capture groups opened by a pattern. */
  function Groups(n: Node): nat {
    match n
    case Cat(a, b) => Groups(a) + Groups(b)
    case Or(a, b) => Groups(a) + Groups(b)
    case Group(a) => 1 + Groups(a)
    case Modify(_, _, a) => Groups(a)
    case Look(_, _, a) => Groups(a)
    case Repeat(a, _, _, _) => Groups(a)
    case _ => 0
  }

  // A sequence runs in the matching direction: its leading pattern is the first
  // one forward, and the last one backward. Groups are numbered in source order.

  function Lead(n: Node, back: bool): (x: Node)
    requires n.Cat?
    ensures x < n
  {
    if back then n.term else n.first
  }

  function Trail(n: Node, back: bool): (y: Node)
    requires n.Cat?
    ensures y < n
  {
    if back then n.first else n.term
  }

  function LeadGroup(n: Node, g: nat, back: bool): (h: nat)
    requires n.Cat?
    ensures h + Groups(Lead(n, back)) <= g + Groups(n)
  {
    if back then g + Groups(n.first) else g
  }

  function TrailGroup(n: Node, g: nat, back: bool): (h: nat)
    requires n.Cat?
    ensures h + Groups(Trail(n, back)) <= g + Groups(n)
  {
    if back then g else g + Groups(n.first)
  }

  /** A pattern in its context: flags, first group number and matching direction. */
  datatype Site = Site(f: Flags, n: Node, g: nat, back: bool)

  function LeadOf(t: Site): Site
    requires t.n.Cat?
  {
    Site(t.f, Lead(t.n, t.back), LeadGroup(t.n, t.g, t.back), t.back)
  }

  function TrailOf(t: Site): Site
    requires t.n.Cat?
  {
    Site(t.f, Trail(t.n, t.back), TrailGroup(t.n, t.g, t.back), t.back)
  }

  function LeftOf(t: Site): Site
    requires t.n.Or?
  {
    Site(t.f, t.n.left, t.g, t.back)
  }

  function RightOf(t: Site): Site
    requires t.n.Or?
  {
    Site(t.f, t.n.right, t.g + Groups(t.n.left), t.back)
  }

  function InnerOf(t: Site): Site
    requires t.n.Group?
  {
    Site(t.f, t.n.inner, t.g + 1, t.back)
  }

  function AheadOf(t: Site): Site
    requires t.n.Look?
  {
    Site(t.f, t.n.ahead, t.g, t.n.backward)
  }

  function UpdateModifier(v: bool, add: bool, remove: bool): bool {
    if remove then false else if add then true else v
  }

  function Update(f: Flags, add: Flags, remove: Flags): Flags {
    Flags(UpdateModifier(f.ignoreCase, add.ignoreCase, remove.ignoreCase),
          UpdateModifier(f.multiLine, add.multiLine, remove.multiLine),
          UpdateModifier(f.dotAll, add.dotAll, remove.dotAll))
  }

  /** One fewer repetition allowed. */
  function Less(max: nat): nat {
    if max == INFINITY then max else if max == 0 then 0 else max - 1
  }
}
