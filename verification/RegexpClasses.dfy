/** Case-insensitive classes end to end: folding the set, emitting its opcode, and what the opcode accepts. */
module RegexpClasses {
  import opened Basics
  import opened CharSet
  import opened CharRanges
  import opened CaseFolding
  import opened CaseSets
  import opened RegexpText
  import opened RegexpSyntax
  import opened RegexpMatcher
  import opened RegexpCodegen
  import opened RegexpVm
  import opened RegexpLeaves
  import opened RegexpBuffer
  import opened RegexpCompiler

  /** The canonicalisation of a table, as executions use it. */
  function Folding(t: Table, unicode: bool): int -> int
    requires |t.low| == |t.runs|
  {
    (c: int) => if c < 0 then c else Canonical(t, c, unicode)
  }

  /** Every well-formed table gives a canonicalisation that executions can use. */
  lemma FoldingWf(t: Table, unicode: bool)
    requires WellFormed(t, unicode)
    ensures WfCanon(Folding(t, unicode))
  {
    hide Canonical;
    forall c {:trigger Folding(t, unicode)(c)} | 0 <= c <= 0x10ffff ensures 0 <= Folding(t, unicode)(c) <= 0x10ffff {
      CanonicalBelow(t, c, unicode, 0x10ffff);
    }
  }

  /** Some member of a set has the canonical form of `c`. */
  ghost predicate SameForm(t: Table, unicode: bool, members: seq<int>, c: nat)
    requires |t.low| == |t.runs|
  {
    exists x: nat :: InSet(members, x) && Canonical(t, x, unicode) == Canonical(t, c, unicode)
  }

  /** The opcode of a folded class accepts a character iff some member of the class has the same canonical form. */
  lemma FoldedClassAccepts(text: Text, t: Table, unicode: bool, members: seq<int>, folded: seq<int>, c: nat)
    requires WellFormed(t, unicode) && Valid(Class(folded)) && c <= 0x10ffff
    requires forall y :: InSet(folded, y) <==> exists x: nat :: InSet(members, x) && Canonical(t, x, unicode) == y
    ensures Tests(Env(text, Folding(t, unicode)), EmitRange(folded, true), c) <==> SameForm(t, unicode, members, c)
  {
    hide InSet, Canonical, AsciiAgrees;
    var e, d := Env(text, Folding(t, unicode)), Canonical(t, c, unicode);
    FoldingWf(t, unicode);
    CanonicalBelow(t, c, unicode, 0x10ffff);
    EmitRangeAccepts(folded, true, d);
    assert Tests(e, EmitRange(folded, true), c) == RangeAccepts(EmitRange(folded, true), d);
  }

  /**
   Compiles a case-insensitive class, unless it has too many intervals: the set is folded in place, and the opcode
   emitted for it accepts exactly the characters that agree with a member of the set up to case.
   */
  method CompileFolded(comp: Compiler, cr: CharRange, t: Table, unicode: bool, f: Flags, back: bool) returns (ok: bool)
    requires WellFormed(t, unicode) && comp.canon == Folding(t, unicode) && f.ignoreCase
    requires Sorted(cr.points) && |cr.points| % 2 == 0 && Bounded(cr.points, UINT32_MAX)
    modifies cr, comp`buf
    ensures forall y :: InSet(cr.points, y) <==>
            exists x: nat :: InSet(old(cr.points), x) && Canonical(t, x, unicode) == y
    ensures ok <==> |cr.points| / 2 < 65535
    ensures !ok ==> comp.buf == old(comp.buf)
    ensures ok ==> Valid(Class(cr.points))
    ensures ok ==> comp.buf == old(comp.buf) + Bytes(OneChar(EmitRange(cr.points, true), back))
    ensures ok ==> forall text: Text,
            c: nat {:trigger Tests(Env(text, Folding(t, unicode)), EmitRange(cr.points, true), c)} ::
              c <= 0x10ffff ==>
              (Tests(Env(text, Folding(t, unicode)), EmitRange(cr.points, true), c) <==>
                SameForm(t, unicode, old(cr.points), c))
  {
    hide InSet, Canonical, EmitRange, WellFormed, Tests, SameForm, Bytes;
    WellFormedOrdered(t, unicode);
    ghost var members := cr.points;
    RegexpCanonicalize(cr, t, unicode);
    ghost var folded := cr.points;
    ok := |cr.points| / 2 < 65535;
    if ok {
      comp.CompileChar(f, Class(cr.points), back);
      forall text: Text, c: nat {:trigger Tests(Env(text, Folding(t, unicode)), EmitRange(folded, true),
        c)} | c <= 0x10ffff
        ensures Tests(Env(text, Folding(t, unicode)), EmitRange(folded, true), c) <==> SameForm(t, unicode, members, c)
      {
        FoldedClassAccepts(text, t, unicode, members, folded, c);
      }
    }
  }
}
