/**
 What each kind of run in the case table does to its code points, in terms of the numbers that are packed into the
 table. The laws hold for every table whose runs are in order and apart.
 */
module CaseLaws {
  import opened CaseFolding

  /** A run as it is packed: 17 bits of code, 7 of length, 4 of kind and 12 of data, the low 8 in their own table. */
  ghost predicate HasRun(t: Table, i: nat, code: nat, len: nat, kind: nat, data: nat) {
    && i < |t.runs| && i < |t.low| && len < 0x80 && kind < 0x10 && data < 0x1000
    && t.runs[i] == code * 0x8000 + len * 0x100 + kind * 0x10 + data / 0x100
    && t.low[i] == data % 0x100
  }

  /** Unpacking gives the numbers back. */
  lemma Unpacked(t: Table, i: nat, code: nat, len: nat, kind: nat, data: nat)
    requires HasRun(t, i, code, len, kind, data)
    ensures CodeOf(t.runs[i]) == code && LenOf(t.runs[i]) == len && KindOf(t.runs[i]) == kind && DataOf(t, i) == data
  {
    var v, h := t.runs[i], data / 0x100;
    assert v == code * 0x8000 + (len * 0x100 + kind * 0x10 + h) && len * 0x100 + kind * 0x10 + h < 0x8000;
    assert v / 0x100 == code * 0x80 + len && v / 0x10 == code * 0x800 + len * 0x10 + kind;
  }

  lemma FoldedBy(t: Table, i: nat, code: nat, len: nat, kind: nat, data: nat, c: nat, unicode: bool)
    requires Ordered(t) && HasRun(t, i, code, len, kind, data) && code <= c < code + len && c >= 128
    ensures InRun(t.runs[i], c) && Canonical(t, c, unicode) == FoldEntry(t, c, i, unicode)
  {
    hide FoldEntry, CodeOf, LenOf, KindOf, DataOf;
    Unpacked(t, i, code, len, kind, data);
    RunUnique(t, c, i);
  }

  /** Letters in alternating case come in pairs; the odd one stands for both in Unicode mode, else the even one. */
  lemma AlternatingPair(t: Table, i: nat, code: nat, len: nat, data: nat, k: nat, unicode: bool)
    requires Ordered(t) && HasRun(t, i, code, len, RUN_UL, data) && 2 * k + 1 < len && code >= 128
    ensures Canonical(t, code + 2 * k, unicode) == Canonical(t, code + 2 * k + 1, unicode)
            == code + 2 * k + (if unicode then 1 else 0)
  {
    hide Canonical, FoldEntry, Ordered;
    FoldedBy(t, i, code, len, RUN_UL, data, code + 2 * k, unicode);
    FoldedBy(t, i, code, len, RUN_UL, data, code + 2 * k + 1, unicode);
    AlternatingFold(t, i, code, len, data, code + 2 * k, unicode);
    AlternatingFold(t, i, code, len, data, code + 2 * k + 1, unicode);
  }

  lemma AlternatingFold(t: Table, i: nat, code: nat, len: nat, data: nat, c: nat, unicode: bool)
    requires HasRun(t, i, code, len, RUN_UL, data) && code <= c < code + len && code >= 128
    requires InRun(t.runs[i], c)
    ensures FoldEntry(t, c, i, unicode) == c - (c - code) % 2 + (if unicode then 1 else 0)
  {
    Unpacked(t, i, code, len, RUN_UL, data);
    hide CodeOf, LenOf, KindOf, DataOf, HasRun;
  }

  /** Two letters of such a run agree up to case if and only if they are a pair. */
  lemma AlternatingPairs(t: Table, i: nat, code: nat, len: nat, data: nat, a: nat, b: nat, unicode: bool)
    requires Ordered(t) && HasRun(t, i, code, len, RUN_UL, data) && len % 2 == 0 && code >= 128 && a < len && b < len
    ensures Canonical(t, code + a, unicode) == Canonical(t, code + b, unicode) <==> a / 2 == b / 2
  {
    hide Canonical;
    AlternatingPair(t, i, code, len, data, a / 2, unicode);
    AlternatingPair(t, i, code, len, data, b / 2, unicode);
    assert a == 2 * (a / 2) + a % 2 && b == 2 * (b / 2) + b % 2;
  }

  /** Upper, title and lower case in a row: the last stands for all three in Unicode mode, else the first. */
  lemma ThreeForms(t: Table, i: nat, code: nat, data: nat, k: nat, unicode: bool)
    requires Ordered(t) && HasRun(t, i, code, 3, RUN_LSU, data) && k < 3 && code >= 128
    ensures Canonical(t, code + k, unicode) == if unicode then code + 2 else code
  {
    Unpacked(t, i, code, 3, RUN_LSU, data);
    hide CodeOf, LenOf, KindOf, DataOf, Canonical, Ordered, HasRun;
    FoldedBy(t, i, code, 3, RUN_LSU, data, code + k, unicode);
  }

  /** Below 128 the other case is not taken over without Unicode mode. */
  function Accepted(c: nat, d: nat, unicode: bool): nat {
    if unicode || d >= 128 then d else c
  }

  /** A run that is mapped to another run keeps the offset: both upper- and lower-case runs that fold, or the former. */
  lemma ShiftedRun(t: Table, i: nat, code: nat, len: nat, kind: nat, c: nat, j: nat, code2: nat, len2: nat,
                   kind2: nat, data2: nat, unicode: bool)
    requires Ordered(t) && HasRun(t, i, code, len, kind, j) && HasRun(t, j, code2, len2, kind2, data2)
    requires kind <= RUN_LF && code <= c < code + len && c >= 128
    ensures Canonical(t, c, unicode) ==
            if kind == RUN_UF || kind == (if unicode then RUN_LF else RUN_U)
            then Accepted(c, code2 + (c - code), unicode) else c
  {
    hide CodeOf, LenOf, KindOf, DataOf, Canonical, Ordered, HasRun;
    Unpacked(t, i, code, len, kind, j);
    TargetIs(t, j, code2, len2, kind2, data2);
    FoldedBy(t, i, code, len, kind, j, c, unicode);
    hide TargetCode;
  }

  lemma TargetIs(t: Table, j: nat, code: nat, len: nat, kind: nat, data: nat)
    requires HasRun(t, j, code, len, kind, data)
    ensures TargetCode(t, j) == code
  {
    Unpacked(t, j, code, len, kind, data);
  }

  /** Single letters whose forms are 32 or 1 apart, from the data or the extra code points. */
  lemma SingleLetter(t: Table, i: nat, code: nat, len: nat, kind: nat, data: nat, c: nat, unicode: bool)
    requires Ordered(t) && HasRun(t, i, code, len, kind, data) && code <= c < code + len && c >= 128
    requires kind == RUN_UF_D20 || (kind == RUN_UF_D1_EXT && data < |t.ext|)
    ensures Canonical(t, c, unicode) ==
            var upper := if kind == RUN_UF_D20 then data else t.ext[data];
            if unicode then upper + (if kind == RUN_UF_D20 then 0x20 else 1) else Accepted(c, upper, false)
  {
    Unpacked(t, i, code, len, kind, data);
    hide CodeOf, LenOf, KindOf, DataOf, Canonical, Ordered, HasRun;
    FoldedBy(t, i, code, len, kind, data, c, unicode);
  }

  /** Letters with one extra form: lower-case ones only without Unicode mode, upper-case ones only in it. */
  lemma ExtraLetter(t: Table, i: nat, code: nat, len: nat, kind: nat, data: nat, c: nat, unicode: bool)
    requires Ordered(t) && HasRun(t, i, code, len, kind, data) && code <= c < code + len && c >= 128
    requires kind in {RUN_U_EXT, RUN_LF_EXT} && data < |t.ext|
    ensures Canonical(t, c, unicode) ==
            if unicode == (kind == RUN_LF_EXT) then Accepted(c, t.ext[data], unicode) else c
  {
    Unpacked(t, i, code, len, kind, data);
    hide CodeOf, LenOf, KindOf, DataOf, Canonical, Ordered, HasRun;
    FoldedBy(t, i, code, len, kind, data, c, unicode);
  }

  /** Letters with iota subscript: the low six bits of the data name where the lower-case run starts. */
  lemma IotaLetter(t: Table, i: nat, code: nat, len: nat, data: nat, c: nat, unicode: bool)
    requires Ordered(t) && HasRun(t, i, code, len, RUN_U2L_399_EXT2, data) && code <= c < code + len && c >= 128
    requires data % 0x40 < |t.ext|
    ensures Canonical(t, c, unicode) == if unicode then t.ext[data % 0x40] + (c - code) else c
  {
    Unpacked(t, i, code, len, RUN_U2L_399_EXT2, data);
    hide CodeOf, LenOf, KindOf, DataOf, Canonical, Ordered, HasRun;
    FoldedBy(t, i, code, len, RUN_U2L_399_EXT2, data, c, unicode);
  }

  /** Letters with several forms at once stay, but for three that agree with another one in Unicode mode. */
  lemma SeveralForms(t: Table, i: nat, code: nat, len: nat, kind: nat, data: nat, c: nat, unicode: bool)
    requires Ordered(t) && HasRun(t, i, code, len, kind, data) && code <= c < code + len && c >= 128
    requires kind in {RUN_UF_EXT2, RUN_LF_EXT2, RUN_UF_EXT3}
    ensures Canonical(t, c, unicode) ==
            if !unicode then c
            else if c == 0xfb06 then 0xfb05 else if c == 0x1fd3 then 0x390 else if c == 0x1fe3 then 0x3b0 else c
  {
    Unpacked(t, i, code, len, kind, data);
    hide CodeOf, LenOf, KindOf, DataOf, Canonical, Ordered, HasRun;
    FoldedBy(t, i, code, len, kind, data, c, unicode);
  }

  /** Code points outside all runs stay. */
  lemma OutsideRuns(t: Table, c: nat, unicode: bool)
    requires |t.low| == |t.runs| && c >= 128 && forall i :: 0 <= i < |t.runs| ==> !InRun(t.runs[i], c)
    ensures Canonical(t, c, unicode) == c
  {
  }

  /** Below 128 the letters come in pairs, whatever the table: the lower-case one stands for both in Unicode mode. */
  lemma AsciiLetters(t: Table, k: nat, unicode: bool)
    requires |t.low| == |t.runs| && k < 26
    ensures Canonical(t, 'A' as nat + k, unicode) == Canonical(t, 'a' as nat + k, unicode)
            == (if unicode then 'a' else 'A') as nat + k
  {
  }

  lemma AsciiOthers(t: Table, c: nat, unicode: bool)
    requires |t.low| == |t.runs| && c < 128
    requires !('A' as nat <= c <= 'Z' as nat) && !('a' as nat <= c <= 'z' as nat)
    ensures Canonical(t, c, unicode) == c
  {
  }

  /** In runs of pairs and of three forms the mask holds exactly the code points that are not canonical. */
  lemma MaskedMoves(t: Table, i: nat, code: nat, len: nat, kind: nat, data: nat, c: nat, unicode: bool)
    requires Ordered(t) && HasRun(t, i, code, len, kind, data) && code <= c < code + len && code >= 128
    requires (kind == RUN_UL && len % 2 == 0) || (kind == RUN_LSU && len == 3)
    ensures MaskedIn(t.runs[i], c, unicode) <==> Canonical(t, c, unicode) != c
  {
    hide Canonical;
    Unpacked(t, i, code, len, kind, data);
    hide CodeOf, LenOf, KindOf, DataOf;
    var a := c - code;
    if kind == RUN_UL {
      AlternatingPair(t, i, code, len, data, a / 2, unicode);
      assert a == 2 * (a / 2) + a % 2;
    } else {
      ThreeForms(t, i, code, data, a, unicode);
    }
  }

  /** Two runs: one of any kind, and one it may be mapped to. */
  function Sample(kind: nat): Table {
    Table([1000 * 0x8000 + 3 * 0x100 + kind * 0x10, 3000 * 0x8000 + 3 * 0x100], [1, 0], [5000, 5000])
  }

  ghost predicate Converts(t: Table, c: nat, i: nat, conv: nat, kind: nat) {
    && i < |t.runs| && i < |t.low| && InRun(t.runs[i], c) && conv <= 2 && KindOf(t.runs[i]) == kind
    && ConvEntry(t, c, conv, i) != One(c)
  }

  /** The kinds in the mask are exactly those that case folding, or conversion to upper case, changes in some table. */
  lemma MaskedKindIff(kind: nat, unicode: bool)
    requires kind <= RUN_UF_EXT3
    ensures var conv := if unicode then FOLD else UPPER;
            MaskedKind(kind, unicode) <==> exists t, c: nat, i: nat :: Converts(t, c, i, conv, kind)
  {
    var conv := if unicode then FOLD else UPPER;
    if MaskedKind(kind, unicode) {
      SampleConverts(kind, unicode);
    } else {
      forall t, c: nat, i: nat ensures !Converts(t, c, i, conv, kind) {
        hide CodeOf, LenOf, KindOf, DataOf;
      }
    }
  }

  lemma SampleConverts(kind: nat, unicode: bool)
    requires kind <= RUN_UF_EXT3 && MaskedKind(kind, unicode)
    ensures Converts(Sample(kind), if kind == RUN_UL && unicode then 1000 else 1001, 0, if unicode then FOLD else UPPER,
                     kind)
  {
    SampleIs(kind);
    hide CodeOf, LenOf, KindOf, DataOf, TargetCode, ExtAt, Sample;
  }

  lemma SampleIs(kind: nat)
    requires kind < 0x10
    ensures var t := Sample(kind);
            && |t.runs| == |t.low| == 2 && CodeOf(t.runs[0]) == 1000 && LenOf(t.runs[0]) == 3
              && KindOf(t.runs[0]) == kind
            && DataOf(t, 0) == 1 && TargetCode(t, 1) == 3000 && ExtAt(t, 1) == 5000
  {
    var t := Sample(kind);
    Unpacked(t, 0, 1000, 3, kind, 1);
    Unpacked(t, 1, 3000, 3, 0, 0);
  }
}
