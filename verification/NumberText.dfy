/**
 The text of a number as the reader scans it: sign, prefix, digits with separators, point and exponent.
 */
module NumberText {
  import opened Basics
  import opened BigNumbers
  import opened FloorLog
  import opened DoubleBits
  import opened Reading

  // ----- characters -----

  /** The character of a digit. */
  function DigitChar(d: nat): (c: char)
    requires d < 36
  {
    if d < 10 then '0' + d as char else 'a' + (d - 10) as char
  }

  /** The digit of a character, 36 if there is none. */
  function ToDigit(c: char): (d: nat) {
    if '0' <= c <= '9' then (c - '0') as nat
    else if 'A' <= c <= 'Z' then (c - 'A') as nat + 10
    else if 'a' <= c <= 'z' then (c - 'a') as nat + 10
    else 36
  }

  /** Reading the character of a digit gives the digit back. */
  lemma ToDigitOfChar(d: nat)
    requires d < 36
    ensures ToDigit(DigitChar(d)) == d && DigitChar(d) !in {'.', '+', '-', '@', 'I', 'X', '_'}
    ensures d < 16 ==> DigitChar(d) != 'x'
  {
  }

  /** The character at a position of a text, zero behind its end. */
  function At(str: string, i: nat): char {
    if i < |str| then str[i] else '\0'
  }

  // ----- what the reader scans -----

  /** How a text is read; radix 0 leaves the radix to the prefix, ten without one. */
  datatype Options = Options(radix: nat, intOnly: bool, binOct: bool, legacyOctal: bool, underscores: bool)

  predicate WfOptions(o: Options) { o.radix == 0 || IsRadix(o.radix) }

  /** Any number in a given radix. */
  function Plainly(radix: nat): Options { Options(radix, false, false, false, false) }

  predicate IsDigit(str: string, p: nat, radix: nat) { ToDigit(At(str, p)) < radix }

  /** Whether a separator between digits stands at `p`. */
  predicate IsSeparator(str: string, p: nat, start: nat, radix: nat, sep: bool) {
    sep && At(str, p) == '_' && p > start && IsDigit(str, p + 1, radix)
  }

  /** The end of the longest run of digits and separators from `p` on; none stands at `start`. */
  function RunEnd(str: string, p: nat, start: nat, radix: nat, sep: bool): (q: nat)
    requires p <= |str| && radix <= 36
    ensures p <= q <= |str|
    decreases |str| - p
  {
    if IsDigit(str, p, radix) then RunEnd(str, p + 1, start, radix, sep)
    else if IsSeparator(str, p, start, radix, sep) then RunEnd(str, p + 2, start, radix, sep)
    else p
  }

  /** The digits from `i` to `j`, without separators. */
  function DigitsIn(str: string, i: nat, j: nat): (ds: seq<nat>)
    requires i <= j <= |str|
    ensures |ds| <= j - i
  {
    if i == j then [] else DigitsIn(str, i, j - 1) + (if str[j - 1] == '_' then [] else [ToDigit(str[j - 1])])
  }

  /** Whether a character starts an exponent. */
  predicate IsMark(radix: nat, c: char)
    requires IsRadix(radix)
  {
    if radix == 10 then c == 'e' || c == 'E'
    else c == '@' || (IsPow2(radix) && radix <= 16 && IsBinaryMark(c))
  }

  predicate IsBinaryMark(c: char) { c == 'p' || c == 'P' }

  datatype Scanned =
    | Failure
    | Infinite(neg: bool)
    | Number(neg: bool, radix: nat, ds: seq<nat>, dot: nat, expNeg: bool, expDigits: seq<nat>, isBin: bool, next: nat)

  /** Whether a point at `q` belongs to the number. */
  predicate IsPoint(str: string, q: nat, start: nat, radix: nat, intOnly: bool) {
    At(str, q) == '.' && (q > start || IsDigit(str, q + 1, radix)) && !intOnly
  }

  /** A run of digits and, unless only integers are read, a point with another run. */
  function ScanMantissa(str: string, p: nat, start: nat, radix: nat, sep: bool, intOnly: bool)
    : (r: (seq<nat>, nat, nat))
    requires p <= |str| && radix <= 36
    ensures r.1 <= |r.0| <= r.2 - p && r.2 <= |str|
  {
    var q := RunEnd(str, p, start, radix, sep);
    var whole := DigitsIn(str, p, q);
    if IsPoint(str, q, start, radix, intOnly) then
      var q2 := RunEnd(str, q + 1, start, radix, sep);
      (whole + DigitsIn(str, q + 1, q2), |whole|, q2)
    else
      (whole, |whole|, q)
  }

  function SignEnd(str: string, p: nat): nat {
    if At(str, p) == '+' || At(str, p) == '-' then p + 1 else p
  }

  /** The digits read so far and the exponent from `q` on. */
  function Exponent(str: string, neg: bool, ds: seq<nat>, dot: nat, q: nat, start: nat, radix: nat, sep: bool,
                    intOnly: bool): (r: Scanned)
    requires IsRadix(radix) && q <= |str|
  {
    if IsMark(radix, At(str, q)) && !intOnly && q > start then
      var s := SignEnd(str, q + 1);
      if !IsDigit(str, s, 10) then Failure
      else
        var r := RunEnd(str, s, start, 10, sep);
        Number(neg, radix, ds, dot, At(str, q + 1) == '-', DigitsIn(str, s, r), IsBinaryMark(At(str, q)), r)
    else if q == start then Failure
    else Number(neg, radix, ds, dot, false, [], false, q)
  }

  /** The number from `p` on; the text of the number starts at `start`. */
  function ScanNumber(str: string, neg: bool, p: nat, start: nat, radix: nat, sep: bool, intOnly: bool): (r: Scanned)
    requires IsRadix(radix) && p <= |str|
  {
    var r := ScanMantissa(str, p, start, radix, sep, intOnly);
    Exponent(str, neg, r.0, r.1, r.2, start, radix, sep, intOnly)
  }

  // ----- prefixes -----

  predicate IsLetter(c: char, lower: char, upper: char) { c == lower || c == upper }

  /** The end of the octal digits from `p` on. */
  function OctalEnd(str: string, p: nat): (q: nat)
    ensures p <= q
    decreases |str| - p
  {
    if '0' <= At(str, p) <= '7' then OctalEnd(str, p + 1) else p
  }

  /** What stands before the digits: how many characters, the radix, and whether separators are accepted. */
  datatype Prefix = Prefix(len: nat, radix: nat, sep: bool)

  function NoPrefix(o: Options): Prefix { Prefix(0, if o.radix == 0 then 10 else o.radix, o.underscores) }

  /** The prefix at `p`, which has a digit behind it unless it is empty. */
  function PrefixAt(str: string, p: nat, o: Options): (r: Prefix)
    requires WfOptions(o)
    ensures IsRadix(r.radix) && r.len <= 2 && (r.len > 0 ==> p + r.len <= |str|)
  {
    if At(str, p) != '0' then NoPrefix(o)
    else if IsLetter(At(str, p + 1), 'x', 'X') && (o.radix == 0 || o.radix == 16) then Prefix(2, 16, o.underscores)
    else if IsLetter(At(str, p + 1), 'o', 'O') && o.radix == 0 && o.binOct then Prefix(2, 8, o.underscores)
    else if IsLetter(At(str, p + 1), 'b', 'B') && o.radix == 0 && o.binOct then Prefix(2, 2, o.underscores)
    else if '0' <= At(str, p + 1) <= '9' && o.radix == 0 && o.legacyOctal then
      if At(str, OctalEnd(str, p + 1)) in {'8', '9'} then Prefix(0, 10, false) else Prefix(1, 8, false)
    else NoPrefix(o)
  }

  const INFINITY_TEXT := "Infinity"

  predicate IsInfinity(str: string, p: nat)
    requires p <= |str|
  {
    INFINITY_TEXT <= str[p..]
  }

  /** Infinity or a number, with a prefix if the options allow it. */
  function ScanUnsigned(str: string, neg: bool, start: nat, o: Options): (r: Scanned)
    requires WfOptions(o) && start <= |str|
  {
    var x := PrefixAt(str, start, o);
    if x.len > 0 && !IsDigit(str, start + x.len, x.radix) then Failure
    else if At(str, start) != '0' && !o.intOnly && IsInfinity(str, start) then Infinite(neg)
    else ScanNumber(str, neg, start + x.len, start, x.radix, x.sep, o.intOnly)
  }

  /** What a text stands for, sign included. */
  function Scan(str: string, o: Options): (r: Scanned)
    requires WfOptions(o)
  {
    ScanUnsigned(str, At(str, 0) == '-', SignEnd(str, 0), o)
  }

  // ----- the scanner -----

  /** A run holds digits and separators, every one of these before a digit. */
  ghost predicate Grouped(str: string, i: nat, j: nat, start: nat, radix: nat, sep: bool) {
    && i <= j <= |str|
    && forall k: nat :: i <= k < j ==>
         IsDigit(str, k, radix) || (IsSeparator(str, k, start, radix, sep) && k + 1 < j)
  }

  lemma {:induction false} RunGrouped(str: string, p: nat, start: nat, radix: nat, sep: bool)
    requires p <= |str| && radix <= 36
    ensures Grouped(str, p, RunEnd(str, p, start, radix, sep), start, radix, sep)
    decreases |str| - p
  {
    if IsDigit(str, p, radix) {
      RunGrouped(str, p + 1, start, radix, sep);
    } else if IsSeparator(str, p, start, radix, sep) {
      RunGrouped(str, p + 2, start, radix, sep);
    }
  }

  lemma {:induction false} DigitsOfPart(str: string, i: nat, j: nat, radix: nat)
    requires i <= j <= |str| && forall k :: i <= k < j ==> str[k] == '_' || ToDigit(str[k]) < radix
    ensures DigitsOf(radix, DigitsIn(str, i, j))
    decreases j
  {
    hide ToDigit;
    if i < j {
      DigitsOfPart(str, i, j - 1, radix);
    }
  }

  lemma DigitsInRun(str: string, p: nat, start: nat, radix: nat, sep: bool)
    requires p <= |str| && radix <= 36
    ensures DigitsOf(radix, DigitsIn(str, p, RunEnd(str, p, start, radix, sep)))
  {
    hide ToDigit, DigitsIn, RunEnd;
    var q := RunEnd(str, p, start, radix, sep);
    RunGrouped(str, p, start, radix, sep);
    forall k | p <= k < q ensures str[k] == '_' || ToDigit(str[k]) < radix {
      assert IsDigit(str, k, radix) || IsSeparator(str, k, start, radix, sep);
    }
    DigitsOfPart(str, p, q, radix);
  }

  lemma MantissaDigits(str: string, p: nat, start: nat, radix: nat, sep: bool, intOnly: bool)
    requires p <= |str| && radix <= 36
    ensures DigitsOf(radix, ScanMantissa(str, p, start, radix, sep, intOnly).0)
  {
    hide RunEnd, DigitsIn;
    var q := RunEnd(str, p, start, radix, sep);
    DigitsInRun(str, p, start, radix, sep);
    if IsPoint(str, q, start, radix, intOnly) {
      DigitsInRun(str, q + 1, start, radix, sep);
    }
  }

  lemma NoDigitsIn(str: string, p: nat)
    requires p <= |str|
    ensures DigitsIn(str, p, p) == []
  {
  }

  lemma DigitsSnoc(str: string, i: nat, j: nat)
    requires i <= j < |str|
    ensures DigitsIn(str, i, j + 1) == DigitsIn(str, i, j) + (if str[j] == '_' then [] else [ToDigit(str[j])])
  {
  }

  lemma NoDigit(radix: nat)
    requires radix <= 36
    ensures ToDigit('.') >= radix && ToDigit('_') >= radix && ToDigit('\0') >= radix
  {
  }

  /** The digits up to `p` are collected; a point, if one was met, stands at `q`. */
  ghost predicate Collected(str: string, p0: nat, start: nat, q: nat, p: nat, ds: seq<nat>, dotPos: int, radix: nat,
                            sep: bool)
    requires radix <= 36
  {
    && p0 <= q <= |str| && p0 <= p <= |str|
    && if dotPos < 0 then RunEnd(str, p, start, radix, sep) == q && ds == DigitsIn(str, p0, p)
       else && dotPos == |DigitsIn(str, p0, q)| && q < p
            && RunEnd(str, p, start, radix, sep) == RunEnd(str, q + 1, start, radix, sep)
            && ds == DigitsIn(str, p0, q) + DigitsIn(str, q + 1, p)
  }

  lemma CollectDigit(str: string, p0: nat, start: nat, q: nat, p: nat, ds: seq<nat>, dotPos: int, radix: nat, sep: bool)
    requires radix <= 36 && Collected(str, p0, start, q, p, ds, dotPos, radix, sep) && IsDigit(str, p, radix)
    ensures Collected(str, p0, start, q, p + 1, ds + [ToDigit(At(str, p))], dotPos, radix, sep)
  {
    assert p < |str| && str[p] != '_';
    hide ToDigit, DigitsIn;
    DigitsSnoc(str, if dotPos < 0 then p0 else q + 1, p);
  }

  lemma CollectSeparator(str: string, p0: nat, start: nat, q: nat, p: nat, ds: seq<nat>, dotPos: int, radix: nat,
                         sep: bool)
    requires radix <= 36 && Collected(str, p0, start, q, p, ds, dotPos, radix, sep)
    requires IsSeparator(str, p, start, radix, sep)
    ensures Collected(str, p0, start, q, p + 1, ds, dotPos, radix, sep)
  {
    assert p + 1 < |str| && str[p] == '_' && !IsDigit(str, p, radix);
    hide ToDigit, DigitsIn;
    DigitsSnoc(str, if dotPos < 0 then p0 else q + 1, p);
  }

  lemma CollectPoint(str: string, p0: nat, start: nat, q: nat, p: nat, ds: seq<nat>, radix: nat, sep: bool)
    requires radix <= 36 && Collected(str, p0, start, q, p, ds, -1, radix, sep) && At(str, p) == '.'
    ensures p == q && Collected(str, p0, start, q, p + 1, ds, |ds|, radix, sep)
  {
    NoDigitsIn(str, p + 1);
  }

  /** Collects the digits and notes where the point is. */
  method ScanDigits(str: string, p0: nat, start: nat, radix: nat, sep: bool, intOnly: bool)
    returns (p: nat, ds: seq<nat>, dot: nat)
    requires IsRadix(radix) && start <= p0 <= |str|
    ensures var r := ScanMantissa(str, p0, start, radix, sep, intOnly); ds == r.0 && dot == r.1 && p == r.2
  {
    hide Collected, ToDigit;
    p, ds := p0, [];
    var dotPos := -1;
    ghost var q := RunEnd(str, p0, start, radix, sep);
    assert Collected(str, p0, start, q, p, ds, dotPos, radix, sep) by { CollectNothing(str, p0, start, radix, sep); }
    while true
      invariant p <= |str| && dotPos >= -1 && Collected(str, p0, start, q, p, ds, dotPos, radix, sep)
      invariant dotPos >= 0 ==> IsPoint(str, q, start, radix, intOnly)
      decreases |str| - p
    {
      if At(str, p) == '.' && (p > start || ToDigit(At(str, p + 1)) < radix) && !intOnly {
        if dotPos >= 0 {
          NoDigit(radix);
          break;
        }
        CollectPoint(str, p0, start, q, p, ds, radix, sep);
        dotPos := |ds|;
        p := p + 1;
      }
      if sep && At(str, p) == '_' && p > start && ToDigit(At(str, p + 1)) < radix {
        CollectSeparator(str, p0, start, q, p, ds, dotPos, radix, sep);
        p := p + 1;
      }
      var c := ToDigit(At(str, p));
      if c >= radix {
        break;
      }
      CollectDigit(str, p0, start, q, p, ds, dotPos, radix, sep);
      CollectedInside(str, p0, start, q, p + 1, ds + [c], dotPos, radix, sep);
      p := p + 1;
      ds := ds + [c];
    }
    CollectEnd(str, p0, start, q, p, ds, dotPos, radix, sep, intOnly);
    dot := if dotPos < 0 then |ds| else dotPos;
  }

  lemma CollectNothing(str: string, p0: nat, start: nat, radix: nat, sep: bool)
    requires p0 <= |str| && radix <= 36
    ensures Collected(str, p0, start, RunEnd(str, p0, start, radix, sep), p0, [], -1, radix, sep)
  {
  }

  lemma CollectedInside(str: string, p0: nat, start: nat, q: nat, p: nat, ds: seq<nat>, dotPos: int, radix: nat,
                        sep: bool)
    requires radix <= 36 && Collected(str, p0, start, q, p, ds, dotPos, radix, sep)
    ensures p <= |str|
  {
  }

  lemma CollectEnd(str: string, p0: nat, start: nat, q: nat, p: nat, ds: seq<nat>, dotPos: int, radix: nat, sep: bool,
                   intOnly: bool)
    requires radix <= 36 && p0 <= |str| && q == RunEnd(str, p0, start, radix, sep)
    requires Collected(str, p0, start, q, p, ds, dotPos, radix, sep) && dotPos >= -1
    requires !IsDigit(str, p, radix) && !IsSeparator(str, p, start, radix, sep)
    requires if dotPos >= 0 then IsPoint(str, q, start, radix, intOnly) else !IsPoint(str, p, start, radix, intOnly)
    ensures var r := ScanMantissa(str, p0, start, radix, sep, intOnly);
            ds == r.0 && p == r.2 && r.1 == if dotPos < 0 then |ds| else dotPos
  {
    assert RunEnd(str, p, start, radix, sep) == p;
  }

  /** The decimal digits of an exponent, of which there is one. */
  method ScanExponent(str: string, p0: nat, start: nat, sep: bool) returns (p: nat, ds: seq<nat>)
    requires start < p0 <= |str| && IsDigit(str, p0, 10)
    ensures p == RunEnd(str, p0, start, 10, sep) && ds == DigitsIn(str, p0, p)
  {
    hide Collected, ToDigit;
    p, ds := p0, [];
    ghost var q := RunEnd(str, p0, start, 10, sep);
    assert Collected(str, p0, start, q, p, ds, -1, 10, sep) by { CollectNothing(str, p0, start, 10, sep); }
    while true
      invariant p <= |str| && p0 <= p && Collected(str, p0, start, q, p, ds, -1, 10, sep)
      invariant p == p0 ==> IsDigit(str, p, 10)
      decreases |str| - p
    {
      if sep && p > p0 && At(str, p) == '_' && ToDigit(At(str, p + 1)) < 10 {
        CollectSeparator(str, p0, start, q, p, ds, -1, 10, sep);
        p := p + 1;
      }
      if ToDigit(At(str, p)) >= 10 {
        break;
      }
      CollectDigit(str, p0, start, q, p, ds, -1, 10, sep);
      ds := ds + [ToDigit(At(str, p))];
      p := p + 1;
      CollectedInside(str, p0, start, q, p, ds, -1, 10, sep);
    }
    RunStops(str, p0, start, q, p, ds, sep);
  }

  lemma RunStops(str: string, p0: nat, start: nat, q: nat, p: nat, ds: seq<nat>, sep: bool)
    requires Collected(str, p0, start, q, p, ds, -1, 10, sep)
    requires !IsDigit(str, p, 10) && !IsSeparator(str, p, start, 10, sep)
    ensures p == q && ds == DigitsIn(str, p0, p)
  {
    hide ToDigit;
  }

  /** The result agrees with what the text stands for. */
  ghost predicate Agrees(scanned: Scanned, r: Option<(bool, nat)>, p: nat) {
    match scanned
    case Failure => r == None
    case Infinite(neg) => r == Some((neg, INFINITE))
    case Number(neg, radix, ds, dot, expNeg, expDigits, isBin, next) =>
      && r.Some? && r.value.0 == neg && p == next && IsRadix(radix)
      && ReadAs(r.value.1, radix, ds, dot, isBin, Signed(expNeg, ToNat(10, expDigits)))
  }

  /** The exponent of a number, if there is one; fails when its digits are missing. */
  method ReadExponentText(str: string, p0: nat, start: nat, radix: nat, sep: bool, intOnly: bool)
    returns (ok: bool, p: nat, expNeg: bool, ds: seq<nat>, isBin: bool)
    requires IsRadix(radix) && start <= p0 <= |str|
    ensures DigitsOf(10, ds) && (isBin ==> IsPow2(radix) && radix <= 16)
    ensures forall neg, mant, dot {:trigger Exponent(str, neg, mant, dot, p0, start, radix, sep, intOnly)} ::
              Exponent(str, neg, mant, dot, p0, start, radix, sep, intOnly) ==
              if ok then Number(neg, radix, mant, dot, expNeg, ds, isBin, p) else Failure
  {
    hide ToDigit, RunEnd, DigitsIn;
    ok, p, expNeg, ds, isBin := true, p0, false, [], false;
    if !intOnly && IsMark(radix, At(str, p)) && p > start {
      isBin := IsBinaryMark(At(str, p));
      p := p + 1;
      if At(str, p) == '+' {
        p := p + 1;
      } else if At(str, p) == '-' {
        expNeg := true;
        p := p + 1;
      }
      if ToDigit(At(str, p)) >= 10 {
        return false, p, expNeg, [], isBin;
      }
      DigitsInRun(str, p, start, 10, sep);
      p, ds := ScanExponent(str, p, start, sep);
    } else if p == start {
      ok := false;
    }
  }

  /** Reads the digits, the point and the exponent. */
  method ReadNumber(str: string, neg: bool, p0: nat, start: nat, radix: nat, sep: bool, intOnly: bool)
    returns (r: Option<(bool, nat)>, p: nat)
    requires IsRadix(radix) && start <= p0 <= |str| <= INT32_MAX
    ensures Agrees(ScanNumber(str, neg, p0, start, radix, sep, intOnly), r, p)
  {
    hide ReadAs, ToNat, ScanMantissa, Exponent;
    MantissaDigits(str, p0, start, radix, sep, intOnly);
    var ds, dot;
    p, ds, dot := ScanDigits(str, p0, start, radix, sep, intOnly);
    assert ScanNumber(str, neg, p0, start, radix, sep, intOnly)
        == Exponent(str, neg, ds, dot, p, start, radix, sep, intOnly);
    var ok, expNeg, expDigits, isBin;
    ok, p, expNeg, expDigits, isBin := ReadExponentText(str, p, start, radix, sep, intOnly);
    if !ok {
      return None, p;
    }
    var tmp := new Mpb(0);
    var a := Atod(tmp, ds, dot, expNeg, expDigits, isBin, radix);
    r := Some((neg, a));
  }

  /** Whether a zero and decimal digits are an octal number of the old kind. */
  method IsOldOctal(str: string, p: nat) returns (octal: bool)
    ensures octal == (At(str, OctalEnd(str, p + 1)) !in {'8', '9'})
  {
    var i := p + 1;
    while '0' <= At(str, i) <= '7'
      invariant p + 1 <= i && OctalEnd(str, i) == OctalEnd(str, p + 1)
      decreases |str| - i
    {
      i := i + 1;
    }
    octal := !(At(str, i) == '8' || At(str, i) == '9');
  }

  /** The prefix of a number that starts with a zero. */
  method ReadPrefix(str: string, p: nat, o: Options) returns (x: Prefix)
    requires WfOptions(o) && At(str, p) == '0'
    ensures x == PrefixAt(str, p, o)
  {
    var c := At(str, p + 1);
    if (c == 'x' || c == 'X') && (o.radix == 0 || o.radix == 16) {
      x := Prefix(2, 16, o.underscores);
    } else if (c == 'o' || c == 'O') && o.radix == 0 && o.binOct {
      x := Prefix(2, 8, o.underscores);
    } else if (c == 'b' || c == 'B') && o.radix == 0 && o.binOct {
      x := Prefix(2, 2, o.underscores);
    } else if '0' <= c <= '9' && o.radix == 0 && o.legacyOctal {
      var octal := IsOldOctal(str, p);
      x := if octal then Prefix(1, 8, false) else Prefix(0, 10, false);
    } else {
      x := NoPrefix(o);
    }
  }

  lemma FailureAgrees(p: nat)
    ensures Agrees(Failure, None, p)
  {
  }

  lemma InfinityAgrees(neg: bool, p: nat)
    ensures Agrees(Infinite(neg), Some((neg, INFINITE)), p)
  {
  }

  lemma PlainStart(str: string, p: nat, o: Options)
    requires WfOptions(o)
    ensures At(str, p) != '0' ==> PrefixAt(str, p, o) == NoPrefix(o)
  {
  }

  /** Reads what stands behind the sign. */
  method ReadUnsigned(str: string, neg: bool, start: nat, o: Options) returns (r: Option<(bool, nat)>, p: nat)
    requires WfOptions(o) && start <= |str| <= INT32_MAX
    ensures Agrees(ScanUnsigned(str, neg, start, o), r, p)
  {
    hide ScanNumber, ToDigit, PrefixAt, IsInfinity, Agrees;
    PlainStart(str, start, o);
    p := start;
    var x := NoPrefix(o);
    if At(str, p) == '0' {
      x := ReadPrefix(str, p, o);
      p := p + x.len;
      if x.len > 0 && ToDigit(At(str, p)) >= x.radix {
        FailureAgrees(p);
        return None, p;
      }
    } else if !o.intOnly && IsInfinity(str, p) {
      InfinityAgrees(neg, p + |INFINITY_TEXT|);
      return Some((neg, INFINITE)), p + |INFINITY_TEXT|;
    }
    r, p := ReadNumber(str, neg, p, start, x.radix, x.sep, o.intOnly);
  }

  /** Reads a text: the sign and the pattern of the number, or nothing; and where reading stopped. */
  method AtodText(str: string, o: Options) returns (r: Option<(bool, nat)>, p: nat)
    requires WfOptions(o) && |str| <= INT32_MAX
    ensures Agrees(Scan(str, o), r, p)
  {
    hide ScanUnsigned, Agrees;
    p := 0;
    var neg := false;
    if At(str, p) == '+' {
      p := p + 1;
    } else if At(str, p) == '-' {
      neg := true;
      p := p + 1;
    }
    r, p := ReadUnsigned(str, neg, p, o);
  }
}
