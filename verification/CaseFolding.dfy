/**
 Case conversion of code points from a run table, and the canonicalisation that
 case-insensitive regular expressions use. The table is a parameter: everything
 holds for each table whose runs are sorted and apart.
 */
module CaseFolding {
  import opened Basics

  /** The packed runs, their low data bytes and the extra code points. */
  datatype Table = Table(runs: seq<nat>, low: seq<nat>, ext: seq<nat>)

  // ----- fields of a packed run -----

  function CodeOf(v: nat): nat { v / 0x8000 }
  function LenOf(v: nat): nat { v / 0x100 % 0x80 }
  function KindOf(v: nat): nat { v / 0x10 % 0x10 }

  function DataOf(t: Table, idx: nat): nat
    requires idx < |t.runs| && idx < |t.low|
  {
    t.runs[idx] % 0x10 * 0x100 + t.low[idx]
  }

  predicate InRun(v: nat, c: nat) { CodeOf(v) <= c < CodeOf(v) + LenOf(v) }

  const RUN_U := 0
  const RUN_L := 1
  const RUN_UF := 2
  const RUN_LF := 3
  const RUN_UL := 4
  const RUN_LSU := 5
  const RUN_U2L_399_EXT2 := 6
  const RUN_UF_D20 := 7
  const RUN_UF_D1_EXT := 8
  const RUN_U_EXT := 9
  const RUN_LF_EXT := 10
  const RUN_UF_EXT2 := 11
  const RUN_LF_EXT2 := 12
  const RUN_UF_EXT3 := 13

  /** The conversions: 0 to upper case, 1 to lower case, 2 case folding. */
  const UPPER := 0
  const FOLD := 2

  /** A conversion gives one code point, or several whose values do not matter here. */
  datatype Conv = One(c: nat) | Many

  function ExtAt(t: Table, i: nat): nat {
    if i < |t.ext| then t.ext[i] else 0
  }

  /** The code of the run a conversion points to. */
  function TargetCode(t: Table, data: nat): nat {
    if data < |t.runs| then CodeOf(t.runs[data]) else 0
  }

  /** Converts `c` by the run at `idx`. */
  function ConvEntry(t: Table, c: nat, conv: nat, idx: nat): (r: Conv)
    requires idx < |t.runs| && idx < |t.low| && InRun(t.runs[idx], c) && conv <= 2
  {
    var v := t.runs[idx];
    var kind, code, data, a := KindOf(v), CodeOf(v), DataOf(t, idx), c - CodeOf(v);
    if kind <= RUN_LF then
      if conv == kind % 2 || (kind >= RUN_UF && conv == FOLD) then One(a + TargetCode(t, data)) else One(c)
    else if kind == RUN_UL then
      if a % 2 != (if conv != UPPER then 0 else 1) then One(c)
      else One((if a % 2 == 0 then a + 1 else a - 1) + code)
    else if kind == RUN_LSU then
      if a == 1 then One(if conv != UPPER then c + 1 else c - 1)
      else if conv != UPPER && a == 0 then One(c + 2)
      else if conv == UPPER && a == 2 then One(c - 2)
      else One(c)
    else if kind == RUN_U2L_399_EXT2 then
      if conv == UPPER then Many else One(a + ExtAt(t, data % 0x40))
    else if kind == RUN_UF_D20 then
      if conv == 1 then One(c) else One(data + (if conv == FOLD then 0x20 else 0))
    else if kind == RUN_UF_D1_EXT then
      if conv == 1 then One(c) else One(ExtAt(t, data) + (if conv == FOLD then 1 else 0))
    else if kind == RUN_U_EXT then
      if conv != UPPER then One(c) else One(ExtAt(t, data))
    else if kind == RUN_LF_EXT then
      if conv == UPPER then One(c) else One(ExtAt(t, data))
    else if kind == RUN_LF_EXT2 then
      if conv == UPPER then One(c) else Many
    else
      if conv == 1 then One(c) else Many
  }

  predicate IsLowerAscii(c: nat) { 'a' as nat <= c <= 'z' as nat }
  predicate IsUpperAscii(c: nat) { 'A' as nat <= c <= 'Z' as nat }

  /** The fast path below 128. */
  function FoldAscii(c: nat, unicode: bool): (r: nat)
    ensures c < 128 ==> r < 128
  {
    if unicode then (if IsUpperAscii(c) then c + 32 else c)
    else if IsLowerAscii(c) then c - 32 else c
  }

  /** Folds `c` by the run at `idx`. */
  function FoldEntry(t: Table, c: nat, idx: nat, unicode: bool): (r: nat)
    requires idx < |t.runs| && idx < |t.low| && InRun(t.runs[idx], c)
  {
    if unicode then
      match ConvEntry(t, c, FOLD, idx)
      case One(d) => d
      case Many => if c == 0xfb06 then 0xfb05 else if c == 0x1fd3 then 0x390 else if c == 0x1fe3 then 0x3b0 else c
    else if c < 128 then FoldAscii(c, false)
    else
      match ConvEntry(t, c, UPPER, idx)
      case One(d) => if d >= 128 then d else c
      case Many => c
  }

  // ----- finding the run -----

  /** The runs are not empty, in order and apart. */
  ghost predicate Ordered(t: Table) {
    && |t.low| == |t.runs|
    && (forall i :: 0 <= i < |t.runs| ==> LenOf(t.runs[i]) > 0)
    && (forall i, j :: 0 <= i < j < |t.runs| ==> CodeOf(t.runs[i]) + LenOf(t.runs[i]) <= CodeOf(t.runs[j]))
  }

  /** The index of the run that holds `c`, by a linear scan from `i`. */
  function Find(t: Table, c: nat, i: nat): (r: Option<nat>)
    ensures r.Some? ==> i <= r.value < |t.runs| && InRun(t.runs[r.value], c)
    ensures r.None? ==> forall k :: i <= k < |t.runs| ==> !InRun(t.runs[k], c)
    decreases |t.runs| - i
  {
    if i >= |t.runs| then None else if InRun(t.runs[i], c) then Some(i) else Find(t, c, i + 1)
  }

  /** At most one run holds a code point. */
  lemma RunUnique(t: Table, c: nat, i: nat)
    requires Ordered(t) && i < |t.runs| && InRun(t.runs[i], c)
    ensures Find(t, c, 0) == Some(i)
  {
    var r := Find(t, c, 0);
    assert r.Some?;
    if r.value != i {
      assert false;
    }
  }

  /** The canonical form of a code point. */
  function Canonical(t: Table, c: nat, unicode: bool): (r: nat)
    requires |t.low| == |t.runs|
  {
    if c < 128 then FoldAscii(c, unicode)
    else
      match Find(t, c, 0)
      case None => c
      case Some(i) => FoldEntry(t, c, i, unicode)
  }

  /** The binary search for the run, and the fold. */
  method Canonicalize(t: Table, c: nat, unicode: bool) returns (r: nat)
    requires Ordered(t)
    ensures r == Canonical(t, c, unicode)
  {
    if c < 128 {
      return FoldAscii(c, unicode);
    }
    var idxMin, idxMax := 0, |t.runs| - 1;
    while idxMin <= idxMax
      invariant 0 <= idxMin <= idxMax + 1 <= |t.runs|
      invariant forall k :: 0 <= k < |t.runs| && InRun(t.runs[k], c) ==> idxMin <= k <= idxMax
    {
      var idx := (idxMax + idxMin) / 2;
      var v := t.runs[idx];
      if c < CodeOf(v) {
        idxMax := idx - 1;
      } else if c >= CodeOf(v) + LenOf(v) {
        idxMin := idx + 1;
      } else {
        RunUnique(t, c, idx);
        return FoldEntry(t, c, idx, unicode);
      }
    }
    r := c;
  }

  // ----- which code points a run changes -----

  /** The runs that case folding, or conversion to upper case, may change. */
  predicate MaskedKind(kind: nat, unicode: bool) {
    if unicode then kind in {RUN_UF, RUN_LF, RUN_UL, RUN_LSU, RUN_U2L_399_EXT2, RUN_LF_EXT, RUN_LF_EXT2, RUN_UF_D20,
                             RUN_UF_D1_EXT, RUN_UF_EXT2, RUN_UF_EXT3}
    else kind in {RUN_U, RUN_UF, RUN_UL, RUN_LSU, RUN_U2L_399_EXT2, RUN_UF_D20, RUN_UF_D1_EXT, RUN_U_EXT, RUN_UF_EXT2,
                  RUN_UF_EXT3}
  }

  /** The code points of a run that are put into the mask. */
  predicate MaskedIn(v: nat, c: nat, unicode: bool) {
    && InRun(v, c) && MaskedKind(KindOf(v), unicode)
    && (KindOf(v) == RUN_UL ==> (c - CodeOf(v)) % 2 == if unicode then 0 else 1)
    && (KindOf(v) == RUN_LSU ==> if unicode then c - CodeOf(v) <= 1 else 1 <= c - CodeOf(v) <= 2)
  }

  /** Outside the mask a run leaves its code points alone. */
  lemma UnmaskedUnchanged(t: Table, c: nat, idx: nat, unicode: bool)
    requires idx < |t.runs| && idx < |t.low| && InRun(t.runs[idx], c) && KindOf(t.runs[idx]) <= RUN_UF_EXT3
    requires !MaskedIn(t.runs[idx], c, unicode) && (c >= 128 || unicode)
    ensures FoldEntry(t, c, idx, unicode) == c
  {
  }

  /** Runs are stored in 32 bits, their low data in 8 and extra code points in 16. */
  ghost predicate Stored(t: Table) {
    && (forall i :: 0 <= i < |t.runs| ==> t.runs[i] < 0x1_0000_0000)
    && (forall i :: 0 <= i < |t.low| ==> t.low[i] < 0x100)
    && (forall i :: 0 <= i < |t.ext| ==> t.ext[i] < 0x1_0000)
  }

  /** What the scans of the table rely on. */
  ghost predicate WellFormed(t: Table, unicode: bool) {
    && Ordered(t)
    && Stored(t)
    && (forall i :: 0 <= i < |t.runs| ==> KindOf(t.runs[i]) <= RUN_UF_EXT3)
    && (forall i :: 0 <= i < |t.runs| && KindOf(t.runs[i]) == RUN_UL ==> LenOf(t.runs[i]) % 2 == 0)
    && (forall i :: 0 <= i < |t.runs| && KindOf(t.runs[i]) == RUN_LSU ==> LenOf(t.runs[i]) == 3)
    && (forall c: nat :: c < 128 ==> AsciiAgrees(t, c, unicode))
  }

  /** The fast path and the table treat an ASCII code point alike. */
  ghost predicate AsciiAgrees(t: Table, c: nat, unicode: bool)
    requires |t.low| == |t.runs|
  {
    match Find(t, c, 0)
    case None => FoldAscii(c, unicode) == c
    case Some(i) => if MaskedIn(t.runs[i], c, unicode) then FoldEntry(t, c, i, unicode) == FoldAscii(c, unicode)
                    else FoldAscii(c, unicode) == c
  }

  /** The code points of the mask are canonicalised by their run, and the others are canonical already. */
  lemma MaskedCanonical(t: Table, c: nat, unicode: bool)
    requires WellFormed(t, unicode)
    ensures match Find(t, c, 0)
            case None => Canonical(t, c, unicode) == c
            case Some(i) => if MaskedIn(t.runs[i], c, unicode)
              then Canonical(t, c, unicode) == FoldEntry(t, c, i, unicode)
                            else Canonical(t, c, unicode) == c
  {
    if c < 128 {
      assert AsciiAgrees(t, c, unicode);
    } else {
      var r := Find(t, c, 0);
      if r.Some? && !MaskedIn(t.runs[r.value], c, unicode) {
        UnmaskedUnchanged(t, c, r.value, unicode);
      }
    }
  }

  // ----- the range of the canonical forms -----

  /** Code points of runs, and what they are converted to, stay below this bound. */
  const CONVERTED_MAX := 0x2_0100

  lemma RunBelow(v: nat, c: nat)
    requires v < 0x1_0000_0000 && InRun(v, c)
    ensures CodeOf(v) < 0x2_0000 && c - CodeOf(v) < 0x80 && c < 0x2_0080
  {
  }

  lemma FoldedBelow(t: Table, c: nat, idx: nat, unicode: bool)
    requires Stored(t) && idx < |t.runs| && idx < |t.low| && InRun(t.runs[idx], c)
    ensures FoldEntry(t, c, idx, unicode) <= CONVERTED_MAX
  {
    RunBelow(t.runs[idx], c);
    ConvertedBelow(t, c, FOLD, idx);
    ConvertedBelow(t, c, UPPER, idx);
  }

  lemma ConvertedBelow(t: Table, c: nat, conv: nat, idx: nat)
    requires Stored(t) && idx < |t.runs| && idx < |t.low| && InRun(t.runs[idx], c) && conv <= 2
    ensures var r := ConvEntry(t, c, conv, idx); r.One? ==> r.c <= CONVERTED_MAX
  {
    RunBelow(t.runs[idx], c);
    var data := DataOf(t, idx);
    assert data < 0x1000;
    assert TargetCode(t, data) < 0x2_0000;
    assert ExtAt(t, data) < 0x1_0000 && ExtAt(t, data % 0x40) < 0x1_0000;
    hide ExtAt, TargetCode, CodeOf, LenOf, KindOf, DataOf;
  }

  /** Canonicalisation maps code points to code points, for every table. */
  lemma CanonicalBelow(t: Table, c: nat, unicode: bool, bound: nat)
    requires Ordered(t) && Stored(t) && c <= bound && CONVERTED_MAX <= bound
    ensures Canonical(t, c, unicode) <= bound
  {
    hide FoldEntry;
    var r := Find(t, c, 0);
    if c >= 128 && r.Some? {
      FoldedBelow(t, c, r.value, unicode);
    }
  }
}
