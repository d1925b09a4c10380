/**
 The numerals that the reader accepts, as a grammar of texts: every numeral is scanned as what it says, up to the place
 where nothing continues it, and nothing else is accepted.
 */
module NumberGrammar {
  import opened Basics
  import opened FloorLog
  import opened DoubleBits
  import opened Reading
  import opened NumberText

  // ----- characters -----

  const LOWER := "0123456789abcdefghijklmnopqrstuvwxyz"
  const UPPER := "0123456789ABCDEFGHIJKLMNOPQRSTUVWXYZ"

  /** Digits are those of the two alphabets. */
  lemma ToDigitIs(c: char, d: nat)
    requires d < 36
    ensures ToDigit(c) == d <==> c == LOWER[d] || c == UPPER[d]
  {
    Alphabets(d);
    hide LOWER, UPPER;
  }

  lemma Alphabets(d: nat)
    requires d < 36
    ensures LOWER[d] == (if d < 10 then '0' + d as char else 'a' + (d - 10) as char)
    ensures UPPER[d] == (if d < 10 then '0' + d as char else 'A' + (d - 10) as char)
  {
  }

  /** The characters that start an exponent: of the radix, or of two. */
  function Marks(radix: nat): string {
    if radix == 10 then "eE" else if radix in {2, 4, 8, 16} then "@pP" else "@"
  }

  lemma MarksAre(radix: nat, c: char)
    requires IsRadix(radix)
    ensures IsMark(radix, c) <==> c in Marks(radix)
    ensures c in Marks(radix) ==> ToDigit(c) >= radix && c !in {'.', '_', '+', '-', '\0'}
    ensures c in Marks(radix) ==> (IsBinaryMark(c) <==> c in "pP")
  {
  }

  // ----- the grammar -----

  predicate IsSign(s: string) { s == "" || s == "+" || s == "-" }

  /** Digits of a radix; a separator may stand before any of them. */
  ghost predicate Run(s: string, radix: nat, sep: bool) {
    forall k: nat :: k < |s| ==> InRun(s, k, radix, sep)
  }

  predicate InRun(s: string, k: nat, radix: nat, sep: bool) {
    IsDigit(s, k, radix) || (sep && At(s, k) == '_' && IsDigit(s, k + 1, radix))
  }

  datatype Power = Power(mark: char, sign: string, digits: string)

  datatype Literal = Literal(sign: string, prefix: string, whole: string, fraction: Option<string>,
                             power: Option<Power>)

  function FractionText(f: Option<string>): string { if f.None? then "" else "." + f.value }

  function PowerText(w: Option<Power>): string {
    if w.None? then "" else [w.value.mark] + w.value.sign + w.value.digits
  }

  function Front(x: Literal): string { x.sign + x.prefix }

  function Show(x: Literal): string { Front(x) + x.whole + FractionText(x.fraction) + PowerText(x.power) }

  /** At least one digit before or directly after the point; an exponent has digits. */
  ghost predicate WfLiteral(x: Literal, radix: nat, sep: bool, intOnly: bool) {
    && IsSign(x.sign) && Run(x.whole, radix, sep)
    && (if x.whole != "" then IsDigit(x.whole, 0, radix)
        else x.prefix == "" && x.fraction.Some? && IsDigit(x.fraction.value, 0, radix))
    && (x.fraction.Some? ==> !intOnly && Run(x.fraction.value, radix, sep))
    && (x.power.Some? ==> !intOnly && WfPower(x.power.value, radix, sep))
  }

  ghost predicate WfPower(w: Power, radix: nat, sep: bool) {
    w.mark in Marks(radix) && IsSign(w.sign) && Run(w.digits, 10, sep) && IsDigit(w.digits, 0, 10)
  }

  predicate Continues(rest: string, radix: nat, sep: bool) { InRun(rest, 0, radix, sep) }

  /** What follows a numeral does not continue it. */
  predicate Ends(x: Literal, radix: nat, sep: bool, intOnly: bool, rest: string) {
    if x.power.Some? then !Continues(rest, 10, sep)
    else && !Continues(rest, radix, sep)
         && (!intOnly ==> At(rest, 0) !in Marks(radix) && (x.fraction.None? ==> At(rest, 0) != '.'))
  }

  /** The prefixes that the options allow, with their radices. */
  predicate IsPrefix(prefix: string, radix: nat, o: Options) {
    || (prefix == "" && radix == if o.radix == 0 then 10 else o.radix)
    || (prefix in {"0x", "0X"} && radix == 16 && o.radix in {0, 16})
    || (prefix in {"0o", "0O"} && radix == 8 && o.radix == 0 && o.binOct)
    || (prefix in {"0b", "0B"} && radix == 2 && o.radix == 0 && o.binOct)
  }

  predicate IsOctal(c: char) { '0' <= c <= '7' }

  /** A zero before decimal digits, where old octal numbers are accepted. */
  predicate StartsWithZero(t: string, o: Options) {
    o.radix == 0 && o.legacyOctal && At(t, 0) == '0' && '0' <= At(t, 1) <= '9'
  }

  /** An old octal number: no 8 or 9 stands behind octal digits only. */
  ghost predicate OldOctal(t: string) {
    forall k: nat :: k >= 1 && At(t, k) in {'8', '9'} ==> exists j: nat :: 1 <= j < k && !IsOctal(At(t, j))
  }

  /** The prefix of a text behind its sign; an allowed prefix that stands there is taken. */
  ghost predicate Prefixed(t: string, prefix: string, radix: nat, sep: bool, o: Options) {
    if StartsWithZero(t, o) then
      !sep && if OldOctal(t) then prefix == "0" && radix == 8 else prefix == "" && radix == 10
    else
      && sep == o.underscores && IsPrefix(prefix, radix, o) && prefix <= t
      && (prefix == "" ==> forall q, r :: IsPrefix(q, r, o) && q != "" ==> !(q <= t))
  }

  /** The text starts with the numeral `x`, and nothing continues it. */
  ghost predicate Reads(str: string, o: Options, x: Literal, radix: nat, sep: bool) {
    && Show(x) <= str && IsRadix(radix) && WfLiteral(x, radix, sep, o.intOnly)
    && Prefixed(str[|x.sign|..], x.prefix, radix, sep, o)
    && (o.intOnly || !(INFINITY_TEXT <= str[|x.sign|..]))
    && Ends(x, radix, sep, o.intOnly, str[|Show(x)|..])
  }

  /** The text starts with a sign and infinity. */
  ghost predicate ReadsInfinity(str: string, o: Options, sign: string) {
    !o.intOnly && IsSign(sign) && sign + INFINITY_TEXT <= str
  }

  function TextDigits(s: string): seq<nat> { DigitsIn(s, 0, |s|) }

  /** What a numeral says. */
  function Said(x: Literal, radix: nat): Scanned {
    var whole := TextDigits(x.whole);
    var ds := whole + (if x.fraction.None? then [] else TextDigits(x.fraction.value));
    match x.power
    case None => Number(x.sign == "-", radix, ds, |whole|, false, [], false, |Show(x)|)
    case Some(w) =>
      Number(x.sign == "-", radix, ds, |whole|, w.sign == "-", TextDigits(w.digits), w.mark in "pP", |Show(x)|)
  }

  // ----- texts inside texts -----

  ghost predicate Has(str: string, p: nat, t: string) {
    p + |t| <= |str| && str[p..p + |t|] == t
  }

  lemma HasAt(str: string, p: nat, t: string, k: nat)
    requires Has(str, p, t) && k < |t|
    ensures At(str, p + k) == At(t, k) == t[k] == str[p + k]
  {
    assert str[p..p + |t|][k] == t[k];
  }

  lemma Behind(str: string, n: nat, k: nat)
    requires n <= |str|
    ensures At(str, n + k) == At(str[n..], k)
  {
  }

  lemma {:induction false} SameDigits(str: string, p: nat, t: string, n: nat)
    requires Has(str, p, t) && n <= |t|
    ensures DigitsIn(str, p, p + n) == DigitsIn(t, 0, n)
    decreases n
  {
    hide ToDigit, Has;
    if n > 0 {
      HasAt(str, p, t, n - 1);
      HasInside(str, p, t);
      SameDigits(str, p, t, n - 1);
    }
  }

  lemma HasPrefix(str: string, p: nat, t: string)
    requires Has(str, p, t)
    ensures t <= str[p..]
  {
    assert str[p..][..|t|] == str[p..p + |t|];
  }

  lemma HasInside(str: string, p: nat, t: string)
    requires Has(str, p, t)
    ensures p + |t| <= |str|
  {
  }

  /** A run ends where nothing continues it. */
  lemma {:induction false} RunOver(str: string, p: nat, q: nat, start: nat, radix: nat, sep: bool)
    requires radix <= 36 && Grouped(str, p, q, start, radix, sep)
    requires !IsDigit(str, q, radix) && !IsSeparator(str, q, start, radix, sep)
    ensures RunEnd(str, p, start, radix, sep) == q
    decreases q - p
  {
    hide ToDigit;
    if p < q {
      if IsDigit(str, p, radix) {
        RunOver(str, p + 1, q, start, radix, sep);
      } else {
        assert IsSeparator(str, p, start, radix, sep) && p + 1 < q;
        RunOver(str, p + 2, q, start, radix, sep);
      }
    }
  }

  lemma {:induction false} RunStops(str: string, p: nat, start: nat, radix: nat, sep: bool)
    requires p <= |str| && radix <= 36
    ensures var q := RunEnd(str, p, start, radix, sep);
            !IsDigit(str, q, radix) && !IsSeparator(str, q, start, radix, sep)
    decreases |str| - p
  {
    if IsDigit(str, p, radix) {
      RunStops(str, p + 1, start, radix, sep);
    } else if IsSeparator(str, p, start, radix, sep) {
      RunStops(str, p + 2, start, radix, sep);
    }
  }

  /** Digits inside a text, of which the first is one if they start it. */
  lemma RunInside(str: string, p: nat, t: string, start: nat, radix: nat, sep: bool)
    requires Has(str, p, t) && Run(t, radix, sep) && radix <= 36 && start <= p
    requires p == start && t != "" ==> IsDigit(t, 0, radix)
    ensures Grouped(str, p, p + |t|, start, radix, sep)
  {
    hide Has;
    HasInside(str, p, t);
    NoDigit(radix);
    forall k: nat | p <= k < p + |t|
      ensures IsDigit(str, k, radix) || (IsSeparator(str, k, start, radix, sep) && k + 1 < p + |t|)
    {
      var i: nat := k - p;
      HasAt(str, p, t, i);
      if !IsDigit(t, i, radix) {
        assert InRun(t, i, radix, sep);
        assert i + 1 < |t|;
        HasAt(str, p, t, i + 1);
      }
    }
  }

  /** The digits of a text, where nothing continues them. */
  lemma RunRead(str: string, p: nat, t: string, start: nat, radix: nat, sep: bool)
    requires Has(str, p, t) && Run(t, radix, sep) && radix <= 36 && start <= p
    requires p == start && t != "" ==> IsDigit(t, 0, radix)
    requires p + |t| <= |str| && ((p == start && t == "") || !Continues(str[p + |t|..], radix, sep))
    requires p == start && t == "" ==> !IsDigit(str, p, radix)
    ensures RunEnd(str, p, start, radix, sep) == p + |t| && DigitsIn(str, p, p + |t|) == TextDigits(t)
  {
    hide ToDigit, Has, Run, RunEnd, DigitsIn;
    RunInside(str, p, t, start, radix, sep);
    Behind(str, p + |t|, 0);
    Behind(str, p + |t|, 1);
    RunOver(str, p, p + |t|, start, radix, sep);
    SameDigits(str, p, t, |t|);
  }

  // ----- prefixes -----

  lemma {:induction false} OctalRun(str: string, p: nat, k: nat)
    ensures !IsOctal(At(str, OctalEnd(str, p)))
    ensures p <= k < OctalEnd(str, p) ==> IsOctal(At(str, k))
    decreases |str| - p
  {
    if IsOctal(At(str, p)) {
      OctalRun(str, p + 1, k);
    }
  }

  lemma OldOctalIs(str: string, a: nat)
    requires a <= |str|
    ensures OldOctal(str[a..]) <==> At(str, OctalEnd(str, a + 1)) !in {'8', '9'}
  {
    var t, e := str[a..], OctalEnd(str, a + 1);
    var k: nat := e - a;
    OctalRun(str, a + 1, 0);
    Behind(str, a, k);
    forall j: nat | 1 <= j < k ensures IsOctal(At(t, j)) {
      OctalRun(str, a + 1, a + j);
      Behind(str, a, j);
    }
    if At(t, k) !in {'8', '9'} {
      forall i: nat | i >= 1 && At(t, i) in {'8', '9'} ensures exists j: nat :: 1 <= j < i && !IsOctal(At(t, j)) {
        assert i > k && !IsOctal(At(t, k));
      }
    }
  }

  lemma TwoChars(t: string, c: char, d: char)
    ensures [c, d] <= t <==> |t| >= 2 && At(t, 0) == c && At(t, 1) == d
  {
  }

  /** Which allowed prefixes stand at the start of a text. */
  lemma PrefixesAt(t: string)
    ensures "0x" <= t || "0X" <= t <==> At(t, 0) == '0' && IsLetter(At(t, 1), 'x', 'X')
    ensures "0o" <= t || "0O" <= t <==> At(t, 0) == '0' && IsLetter(At(t, 1), 'o', 'O')
    ensures "0b" <= t || "0B" <= t <==> At(t, 0) == '0' && IsLetter(At(t, 1), 'b', 'B')
  {
    TwoChars(t, '0', 'x');
    TwoChars(t, '0', 'X');
    TwoChars(t, '0', 'o');
    TwoChars(t, '0', 'O');
    TwoChars(t, '0', 'b');
    TwoChars(t, '0', 'B');
  }

  /** The reader takes the prefix of the grammar. */
  lemma PrefixIs(str: string, a: nat, prefix: string, radix: nat, sep: bool, o: Options)
    requires WfOptions(o) && a <= |str| && Prefixed(str[a..], prefix, radix, sep, o)
    ensures PrefixAt(str, a, o) == Prefix(|prefix|, radix, sep)
  {
    hide OctalEnd, OldOctal;
    var t := str[a..];
    Behind(str, a, 0);
    Behind(str, a, 1);
    OldOctalIs(str, a);
    PrefixesAt(t);
    if !StartsWithZero(t, o) && prefix == "" {
      assert o.radix in {0, 16} ==> IsPrefix("0x", 16, o) && IsPrefix("0X", 16, o);
      assert o.radix == 0 && o.binOct ==> IsPrefix("0o", 8, o) && IsPrefix("0O", 8, o);
      assert o.radix == 0 && o.binOct ==> IsPrefix("0b", 2, o) && IsPrefix("0B", 2, o);
    }
  }

  // ----- numerals are scanned as what they say -----

  /** Where the parts of a numeral stand. */
  lemma Parts(str: string, x: Literal)
    requires Show(x) <= str
    ensures var b, f := |Front(x)|, |FractionText(x.fraction)|;
            && Has(str, 0, x.sign) && Has(str, |x.sign|, x.prefix) && Has(str, b, x.whole)
            && Has(str, b + |x.whole|, FractionText(x.fraction)) && Has(str, b + |x.whole| + f, PowerText(x.power))
            && |Show(x)| == b + |x.whole| + f + |PowerText(x.power)| <= |str|
  {
    hide FractionText, PowerText, Has;
    var p, q := x.sign + x.prefix, x.sign + x.prefix + x.whole;
    var t := q + FractionText(x.fraction);
    HasLast(str, t, PowerText(x.power));
    HasLast(str, q, FractionText(x.fraction));
    HasLast(str, p, x.whole);
    HasLast(str, x.sign, x.prefix);
    HasLast(str, "", x.sign);
    assert "" + x.sign == x.sign;
  }

  lemma HasLast(str: string, a: string, b: string)
    requires a + b <= str
    ensures Has(str, |a|, b) && a <= str
  {
    var t := a + b;
    assert str[|a|..|t|] == str[..|t|][|a|..] == b;
    assert str[..|a|] == str[..|t|][..|a|] == a;
  }

  lemma HasPart(str: string, a: string, b: string, c: string, t: string)
    requires t == a + b + c && t <= str
    ensures Has(str, |a|, b)
  {
    assert str[|a|..|a| + |b|] == t[|a|..|a| + |b|] == b;
  }

  /** The parts of a fraction and of an exponent. */
  lemma FractionParts(str: string, p: nat, f: string)
    requires Has(str, p, "." + f)
    ensures At(str, p) == '.' && Has(str, p + 1, f)
  {
    HasAt(str, p, "." + f, 0);
    assert str[p + 1..p + 1 + |f|] == str[p..p + 1 + |f|][1..] == ("." + f)[1..];
  }

  lemma HasSplit(str: string, p: nat, a: string, b: string)
    requires Has(str, p, a + b)
    ensures Has(str, p, a) && Has(str, p + |a|, b)
  {
    var t := a + b;
    forall k | 0 <= k < |a| ensures str[p + k] == a[k] {
      HasAt(str, p, t, k);
    }
    forall k | 0 <= k < |b| ensures str[p + |a| + k] == b[k] {
      HasAt(str, p, t, |a| + k);
    }
  }

  lemma PowerParts(str: string, p: nat, w: Power)
    requires Has(str, p, PowerText(Some(w)))
    ensures At(str, p) == w.mark && Has(str, p + 1, w.sign) && Has(str, p + 1 + |w.sign|, w.digits)
    ensures p + 1 + |w.sign| + |w.digits| <= |str|
  {
    var t := PowerText(Some(w));
    HasAt(str, p, t, 0);
    assert t == [w.mark] + (w.sign + w.digits);
    HasSplit(str, p, [w.mark], w.sign + w.digits);
    HasSplit(str, p + 1, w.sign, w.digits);
  }

  /** A sign is read before anything that is not one. */
  lemma SignRead(str: string, p: nat, sign: string)
    requires IsSign(sign) && Has(str, p, sign) && At(str, p + |sign|) !in {'+', '-'}
    ensures SignEnd(str, p) == p + |sign| && (At(str, p) == '-' <==> sign == "-")
  {
    if sign != "" {
      HasAt(str, p, sign, 0);
    }
  }

  lemma NoSign(c: char, radix: nat)
    requires ToDigit(c) < radix <= 36
    ensures c !in {'+', '-', '.', '_', '\0'}
  {
  }

  /** What stands behind the sign. */
  lemma FirstChar(str: string, o: Options, x: Literal, radix: nat, sep: bool)
    requires Reads(str, o, x, radix, sep)
    ensures At(str, |x.sign|) !in {'+', '-'}
  {
    hide ToDigit, Has, Show, Run, OldOctal;
    Parts(str, x);
    if x.prefix != "" {
      HasAt(str, |x.sign|, x.prefix, 0);
    } else if x.whole != "" {
      HasAt(str, |x.sign|, x.whole, 0);
      NoSign(x.whole[0], radix);
    } else {
      FractionParts(str, |x.sign|, x.fraction.value);
    }
  }

  /** Behind the fraction no digit follows. */
  lemma FractionEnds(str: string, p: nat, x: Literal, radix: nat, sep: bool, intOnly: bool)
    requires IsRadix(radix) && WfLiteral(x, radix, sep, intOnly) && Has(str, p, PowerText(x.power)) && p <= |str|
    requires p + |PowerText(x.power)| <= |str| && Ends(x, radix, sep, intOnly, str[p + |PowerText(x.power)|..])
    ensures !Continues(str[p..], radix, sep) && (!intOnly && x.fraction.None? ==> At(str, p) != '.')
    ensures IsMark(radix, At(str, p)) && !intOnly ==> x.power.Some?
  {
    hide ToDigit, Has, Run, Marks, IsMark;
    Behind(str, p, 0);
    MarksAre(radix, At(str, p));
    if x.power.Some? {
      HasAt(str, p, PowerText(x.power), 0);
    } else {
      assert p + |PowerText(x.power)| == p;
    }
  }

  lemma FractionFound(str: string, c: nat, f: string, start: nat, radix: nat, sep: bool)
    requires IsRadix(radix) && Has(str, c, "." + f) && Run(f, radix, sep) && start <= c
    requires c + 1 + |f| <= |str| && !Continues(str[c + 1 + |f|..], radix, sep)
    requires c > start || IsDigit(f, 0, radix)
    ensures At(str, c) == '.' && (c > start || IsDigit(str, c + 1, radix))
    ensures RunEnd(str, c + 1, start, radix, sep) == c + 1 + |f| && DigitsIn(str, c + 1, c + 1 + |f|) == TextDigits(f)
    ensures !Continues(str[c..], radix, sep)
  {
    hide ToDigit, Has, Run, DigitsIn, RunEnd;
    FractionParts(str, c, f);
    Behind(str, c, 0);
    NoDigit(radix);
    RunRead(str, c + 1, f, start, radix, sep);
    if c == start {
      NonEmpty(f, radix);
      HasAt(str, c + 1, f, 0);
    }
  }

  lemma WholeFound(str: string, b: nat, whole: string, start: nat, radix: nat, sep: bool)
    requires IsRadix(radix) && Has(str, b, whole) && Run(whole, radix, sep) && start <= b
    requires if whole == "" then b == start else IsDigit(whole, 0, radix)
    requires b + |whole| <= |str| && !Continues(str[b + |whole|..], radix, sep)
    ensures RunEnd(str, b, start, radix, sep) == b + |whole| && DigitsIn(str, b, b + |whole|) == TextDigits(whole)
  {
    hide ToDigit, Has, Run, DigitsIn, RunEnd;
    Behind(str, b + |whole|, 0);
    RunRead(str, b, whole, start, radix, sep);
  }

  /** The digits and the point of a numeral. */
  lemma MantissaFound(str: string, start: nat, b: nat, whole: string, f: Option<string>, radix: nat, sep: bool,
                      intOnly: bool)
    requires IsRadix(radix) && Has(str, b, whole) && Run(whole, radix, sep) && start <= b
    requires if whole != "" then IsDigit(whole, 0, radix) else b == start && f.Some? && IsDigit(f.value, 0, radix)
    requires f.Some? ==> !intOnly && Run(f.value, radix, sep)
    requires var c, d := b + |whole|, b + |whole| + |FractionText(f)|;
             && Has(str, c, FractionText(f)) && d <= |str| && !Continues(str[d..], radix, sep)
             && (!intOnly && f.None? ==> At(str, d) != '.')
    ensures ScanMantissa(str, b, start, radix, sep, intOnly) ==
            (TextDigits(whole) + (if f.None? then [] else TextDigits(f.value)), |TextDigits(whole)|,
             b + |whole| + |FractionText(f)|)
  {
    hide ToDigit, Has, Run, DigitsIn, RunEnd, Continues;
    var c := b + |whole|;
    if f.Some? {
      FractionFound(str, c, f.value, start, radix, sep);
    }
    WholeFound(str, b, whole, start, radix, sep);
    assert IsPoint(str, c, start, radix, intOnly) <==> f.Some?;
    assert f.None? ==> TextDigits(whole) + [] == TextDigits(whole);
  }

  lemma MantissaRead(str: string, o: Options, x: Literal, radix: nat, sep: bool)
    requires Reads(str, o, x, radix, sep)
    ensures var b, d := |Front(x)|, |Show(x)| - |PowerText(x.power)|;
            var whole := TextDigits(x.whole);
            var ds := whole + (if x.fraction.None? then [] else TextDigits(x.fraction.value));
            0 <= d && b <= |str| && ScanMantissa(str, b, |x.sign|, radix, sep, o.intOnly) == (ds, |whole|, d)
  {
    hide ToDigit, Has, Run, Marks, DigitsIn, RunEnd, Prefixed, Show, Ends, ScanMantissa, FractionText, PowerText,
         TextDigits, Continues, WfPower;
    Parts(str, x);
    var d := |Front(x)| + |x.whole| + |FractionText(x.fraction)|;
    FractionEnds(str, d, x, radix, sep, o.intOnly);
    MantissaFound(str, |x.sign|, |Front(x)|, x.whole, x.fraction, radix, sep, o.intOnly);
  }

  lemma PowerRead(str: string, o: Options, x: Literal, radix: nat, sep: bool, ds: seq<nat>, dot: nat)
    requires Reads(str, o, x, radix, sep)
    ensures var d := |Show(x)| - |PowerText(x.power)|;
            0 <= d <= |str| && Exponent(str, x.sign == "-", ds, dot, d, |x.sign|, radix, sep, o.intOnly) ==
            match x.power
            case None => Number(x.sign == "-", radix, ds, dot, false, [], false, d)
            case Some(w) => Number(x.sign == "-", radix, ds, dot, w.sign == "-", TextDigits(w.digits), w.mark in "pP",
                                   |Show(x)|)
  {
    hide ToDigit, Has, Run, Marks, DigitsIn, RunEnd, Prefixed, Show, IsMark, PowerText, WfPower;
    Parts(str, x);
    var d := |Show(x)| - |PowerText(x.power)|;
    FractionEnds(str, d, x, radix, sep, o.intOnly);
    if x.power.Some? {
      PowerLength(x.power.value);
      PowerFound(str, x.sign == "-", d, |x.sign|, x.power.value, radix, sep, ds, dot);
    } else {
      assert PowerText(x.power) == "" by { NoPower(x.power); }
    }
  }

  lemma NoPower(w: Option<Power>)
    ensures w.None? ==> PowerText(w) == ""
  {
  }

  lemma PowerLength(w: Power)
    ensures |PowerText(Some(w))| == 1 + |w.sign| + |w.digits|
  {
  }

  lemma PowerFound(str: string, neg: bool, d: nat, start: nat, w: Power, radix: nat, sep: bool, ds: seq<nat>, dot: nat)
    requires IsRadix(radix) && Has(str, d, PowerText(Some(w))) && WfPower(w, radix, sep) && start < d
    requires d + |PowerText(Some(w))| <= |str| && !Continues(str[d + |PowerText(Some(w))|..], 10, sep)
    ensures Exponent(str, neg, ds, dot, d, start, radix, sep, false) ==
            Number(neg, radix, ds, dot, w.sign == "-", TextDigits(w.digits), w.mark in "pP", d + |PowerText(Some(w))|)
  {
    hide ToDigit, Has, Run, Marks, DigitsIn, RunEnd, IsMark;
    PowerParts(str, d, w);
    MarksAre(radix, w.mark);
    var s := d + 1 + |w.sign|;
    PowerLength(w);
    NonEmpty(w.digits, 10);
    HasAt(str, s, w.digits, 0);
    NoSign(w.digits[0], 10);
    SignRead(str, d + 1, w.sign);
    RunRead(str, s, w.digits, start, 10, sep);
  }

  lemma NonEmpty(s: string, radix: nat)
    requires IsDigit(s, 0, radix) && radix <= 36
    ensures s != ""
  {
  }

  lemma NoInfinity(str: string, o: Options, x: Literal, radix: nat, sep: bool)
    requires Reads(str, o, x, radix, sep)
    ensures |x.sign| <= |str| && (!o.intOnly ==> !IsInfinity(str, |x.sign|))
  {
    hide Show, Has, Ends, Prefixed, WfLiteral;
    Parts(str, x);
    HasInside(str, 0, x.sign);
  }

  /** A numeral that nothing continues is scanned as what it says. */
  lemma ReadsScans(str: string, o: Options, x: Literal, radix: nat, sep: bool)
    requires WfOptions(o) && Reads(str, o, x, radix, sep)
    ensures Scan(str, o) == Said(x, radix)
  {
    hide ToDigit, Has, Run, Prefixed, Show, ScanNumber, PrefixAt, Ends, FractionText, PowerText, WfPower, IsInfinity,
         Said;
    Parts(str, x);
    FirstChar(str, o, x, radix, sep);
    SignRead(str, 0, x.sign);
    PrefixIs(str, |x.sign|, x.prefix, radix, sep, o);
    if x.whole != "" {
      HasAt(str, |Front(x)|, x.whole, 0);
    }
    NoInfinity(str, o, x, radix, sep);
    NumberRead(str, o, x, radix, sep);
  }

  lemma NumberRead(str: string, o: Options, x: Literal, radix: nat, sep: bool)
    requires Reads(str, o, x, radix, sep)
    ensures |Front(x)| <= |str|
    ensures ScanNumber(str, x.sign == "-", |Front(x)|, |x.sign|, radix, sep, o.intOnly) == Said(x, radix)
  {
    hide Reads, Show, ScanMantissa, Exponent, PowerText, TextDigits;
    IsReadRadix(str, o, x, radix, sep);
    MantissaRead(str, o, x, radix, sep);
    NoPower(x.power);
    var r := ScanMantissa(str, |Front(x)|, |x.sign|, radix, sep, o.intOnly);
    PowerRead(str, o, x, radix, sep, r.0, r.1);
  }

  lemma IsReadRadix(str: string, o: Options, x: Literal, radix: nat, sep: bool)
    requires Reads(str, o, x, radix, sep)
    ensures IsRadix(radix)
  {
  }

  // ----- what is scanned is a numeral -----

  lemma PrefixFound(str: string, a: nat, o: Options)
    requires WfOptions(o) && a <= |str|
    ensures var x := PrefixAt(str, a, o);
            a + x.len <= |str| && Prefixed(str[a..], str[a..a + x.len], x.radix, x.sep, o)
  {
    hide OctalEnd, OldOctal;
    var t, x := str[a..], PrefixAt(str, a, o);
    Behind(str, a, 0);
    Behind(str, a, 1);
    OldOctalIs(str, a);
    PrefixesAt(t);
    if x.len == 2 {
      assert str[a..a + 2] == [str[a], str[a + 1]] == t[..2];
    } else if x.len == 1 {
      assert str[a..a + 1] == [str[a]];
    }
  }

  lemma RunSliced(str: string, i: nat, j: nat, start: nat, radix: nat, sep: bool)
    requires Grouped(str, i, j, start, radix, sep) && radix <= 36
    ensures Run(str[i..j], radix, sep)
    ensures i < j && (i == start || IsDigit(str, i, radix)) ==> IsDigit(str[i..j], 0, radix)
  {
    hide ToDigit;
    var t := str[i..j];
    forall k: nat | k < |t| ensures InRun(t, k, radix, sep) {
      assert IsDigit(str, i + k, radix) || IsSeparator(str, i + k, start, radix, sep);
    }
    if i < j {
      assert At(t, 0) == At(str, i);
      assert IsDigit(str, i, radix) || IsSeparator(str, i, start, radix, sep);
    }
  }

  /** The text from `i` to the end of a run, and that nothing continues it. */
  lemma RunTaken(str: string, i: nat, start: nat, radix: nat, sep: bool)
    requires i <= |str| && radix <= 36 && start <= i
    ensures var j := RunEnd(str, i, start, radix, sep);
            && Run(str[i..j], radix, sep) && (j > start ==> !Continues(str[j..], radix, sep))
            && (i < j && (i == start || IsDigit(str, i, radix)) ==> IsDigit(str[i..j], 0, radix))
            && (IsDigit(str, i, radix) ==> i < j)
  {
    hide ToDigit, Run, Grouped;
    var j := RunEnd(str, i, start, radix, sep);
    RunGrouped(str, i, start, radix, sep);
    RunStops(str, i, start, radix, sep);
    RunSliced(str, i, j, start, radix, sep);
    Behind(str, j, 0);
    Behind(str, j, 1);
  }

  lemma SignTaken(str: string, p: nat)
    requires p <= |str|
    ensures var q := SignEnd(str, p); p <= q <= |str| && IsSign(str[p..q]) && (str[p..q] == "-" <==> At(str, p) == '-')
  {
    var q := SignEnd(str, p);
    if q > p {
      assert str[p..q] == [str[p]];
    }
  }

  /** The exponent of a scanned number. */
  lemma PowerTaken(str: string, d: nat, start: nat, radix: nat, sep: bool) returns (w: Power, r: nat)
    requires IsRadix(radix) && start < d <= |str| && IsMark(radix, At(str, d)) && IsDigit(str, SignEnd(str, d + 1), 10)
    ensures WfPower(w, radix, sep) && d < r <= |str| && str[d..r] == PowerText(Some(w))
    ensures !Continues(str[r..], 10, sep)
  {
    hide ToDigit, Run, RunEnd, Marks, IsMark;
    MarksAre(radix, At(str, d));
    SignTaken(str, d + 1);
    var s := SignEnd(str, d + 1);
    r := RunEnd(str, s, start, 10, sep);
    RunTaken(str, s, start, 10, sep);
    w := Power(str[d], str[d + 1..s], str[s..r]);
    assert str[d..r] == [str[d]] + str[d + 1..s] + str[s..r];
  }

  /** The digits of a scanned number. */
  lemma MantissaTaken(str: string, p: nat, start: nat, radix: nat, sep: bool, intOnly: bool)
    returns (whole: string, f: Option<string>)
    requires IsRadix(radix) && start <= p <= |str| && (p > start ==> IsDigit(str, p, radix))
    requires ScanMantissa(str, p, start, radix, sep, intOnly).2 > start
    ensures var d := ScanMantissa(str, p, start, radix, sep, intOnly).2;
            && str[p..d] == whole + FractionText(f) && !Continues(str[d..], radix, sep)
            && (!intOnly && f.None? ==> At(str, d) != '.')
    ensures Run(whole, radix, sep) && (f.Some? ==> !intOnly && Run(f.value, radix, sep))
    ensures if whole != "" then IsDigit(whole, 0, radix) else p == start && f.Some? && IsDigit(f.value, 0, radix)
  {
    hide ToDigit, Run, RunEnd, DigitsIn, Continues, IsDigit;
    var q := RunEnd(str, p, start, radix, sep);
    RunTaken(str, p, start, radix, sep);
    whole, f := str[p..q], None;
    if IsPoint(str, q, start, radix, intOnly) {
      var q2 := RunEnd(str, q + 1, start, radix, sep);
      RunTaken(str, q + 1, start, radix, sep);
      f := Some(str[q + 1..q2]);
      PointBetween(str, p, q, q2);
    }
  }

  lemma PointBetween(str: string, p: nat, q: nat, r: nat)
    requires p <= q < r <= |str| && str[q] == '.'
    ensures str[p..r] == str[p..q] + ("." + str[q + 1..r])
  {
  }

  /** What a number that was scanned has passed. */
  lemma ScanPassed(str: string, o: Options)
    requires WfOptions(o) && Scan(str, o).Number? && SignEnd(str, 0) <= |str|
    ensures var a := SignEnd(str, 0);
            var px := PrefixAt(str, a, o);
            var p := a + px.len;
            && p <= |str| && (px.len > 0 ==> IsDigit(str, p, px.radix))
            && (o.intOnly || !(INFINITY_TEXT <= str[a..]))
            && var d := ScanMantissa(str, p, a, px.radix, px.sep, o.intOnly).2;
               && d > a && p <= d <= |str|
               && (IsMark(px.radix, At(str, d)) && !o.intOnly ==> IsDigit(str, SignEnd(str, d + 1), 10))
  {
    hide ToDigit, RunEnd, DigitsIn, ScanMantissa, PrefixAt, IsMark, IsDigit;
    var a := SignEnd(str, 0);
    if INFINITY_TEXT <= str[a..] {
      assert At(str, a) == INFINITY_TEXT[0];
    }
  }

  /** A text that is scanned as a number starts with a numeral. */
  lemma ScansReads(str: string, o: Options) returns (x: Literal, radix: nat, sep: bool)
    requires WfOptions(o) && Scan(str, o).Number?
    ensures Reads(str, o, x, radix, sep)
  {
    hide ToDigit, Run, RunEnd, DigitsIn, Continues, Prefixed, PrefixAt, WfPower, Marks, IsMark, FractionText, PowerText,
         Scan, ScanMantissa, IsDigit, SignEnd, Show, Reads;
    SignTaken(str, 0);
    ScanPassed(str, o);
    var a := SignEnd(str, 0);
    PrefixFound(str, a, o);
    var px := PrefixAt(str, a, o);
    var p := a + px.len;
    radix, sep := px.radix, px.sep;
    var d := ScanMantissa(str, p, a, radix, sep, o.intOnly).2;
    var whole, f := MantissaTaken(str, p, a, radix, sep, o.intOnly);
    var power, n := None, d;
    if IsMark(radix, At(str, d)) && !o.intOnly {
      var w, r := PowerTaken(str, d, a, radix, sep);
      power, n := Some(w), r;
    }
    NoPower(power);
    x := Literal(str[..a], str[a..p], whole, f, power);
    Assembled(str, o, x, radix, sep, a, p, d, n);
  }

  lemma Assembled(str: string, o: Options, x: Literal, radix: nat, sep: bool, a: nat, p: nat, d: nat, n: nat)
    requires a <= p <= d <= n <= |str| && a < d && x.sign == str[..a] && x.prefix == str[a..p] && IsRadix(radix)
    requires str[p..d] == x.whole + FractionText(x.fraction) && str[d..n] == PowerText(x.power)
    requires IsSign(x.sign) && Prefixed(str[a..], x.prefix, radix, sep, o)
    requires o.intOnly || !(INFINITY_TEXT <= str[a..])
    requires Run(x.whole, radix, sep) && (x.fraction.Some? ==> !o.intOnly && Run(x.fraction.value, radix, sep))
    requires if x.whole != "" then IsDigit(x.whole, 0, radix)
             else p == a && x.fraction.Some? && IsDigit(x.fraction.value, 0, radix)
    requires !Continues(str[d..], radix, sep) && (!o.intOnly && x.fraction.None? ==> At(str, d) != '.')
    requires if x.power.Some? then !o.intOnly && WfPower(x.power.value, radix, sep) && !Continues(str[n..], 10, sep)
             else n == d && (o.intOnly || !IsMark(radix, At(str, d)))
    ensures Reads(str, o, x, radix, sep)
  {
    hide ToDigit, Run, Continues, Prefixed, WfPower, Marks, IsMark, FractionText, PowerText, IsDigit, Show;
    Shown(str, a, p, d, n, x);
    Behind(str, d, 0);
    MarksAre(radix, At(str, d));
  }

  lemma Shown(str: string, a: nat, p: nat, d: nat, n: nat, x: Literal)
    requires a <= p <= d <= n <= |str| && x.sign == str[..a] && x.prefix == str[a..p]
    requires str[p..d] == x.whole + FractionText(x.fraction) && str[d..n] == PowerText(x.power)
    ensures Show(x) == str[..n]
  {
    hide FractionText, PowerText;
    Slices(str, a, p, d, n);
    assert Front(x) + x.whole + FractionText(x.fraction) == Front(x) + (x.whole + FractionText(x.fraction));
  }

  lemma Slices(str: string, a: nat, p: nat, d: nat, n: nat)
    requires a <= p <= d <= n <= |str|
    ensures str[..n] == str[..a] + str[a..p] + str[p..d] + str[d..n]
  {
  }

  // ----- the language of the reader -----

  lemma InfinityScans(str: string, o: Options, sign: string)
    requires WfOptions(o) && ReadsInfinity(str, o, sign)
    ensures Scan(str, o) == Infinite(sign == "-")
  {
    hide ScanNumber, ToDigit;
    var n := |sign|;
    assert "" + sign + INFINITY_TEXT == sign + INFINITY_TEXT == sign + INFINITY_TEXT + "";
    HasPart(str, "", sign, INFINITY_TEXT, sign + INFINITY_TEXT);
    HasPart(str, sign, INFINITY_TEXT, "", sign + INFINITY_TEXT);
    HasAt(str, n, INFINITY_TEXT, 0);
    SignRead(str, 0, sign);
    HasPrefix(str, n, INFINITY_TEXT);
  }

  lemma ScansInfinity(str: string, o: Options)
    requires WfOptions(o) && Scan(str, o).Infinite?
    ensures ReadsInfinity(str, o, str[..SignEnd(str, 0)])
  {
    hide ScanMantissa, ToDigit, PrefixAt, RunEnd, DigitsIn;
    SignTaken(str, 0);
    var a := SignEnd(str, 0);
    assert str[..a] == str[0..a];
    assert str == str[..a] + str[a..];
  }

  ghost predicate HasNumeral(str: string, o: Options) {
    exists x, radix, sep :: Reads(str, o, x, radix, sep)
  }

  ghost predicate HasInfinity(str: string, o: Options) {
    exists sign :: ReadsInfinity(str, o, sign)
  }

  /** A text is a number if and only if it starts with a numeral, infinite if and only if it says so, else a failure. */
  lemma ScanExact(str: string, o: Options)
    requires WfOptions(o)
    ensures Scan(str, o).Number? <==> HasNumeral(str, o)
    ensures Scan(str, o).Infinite? <==> HasInfinity(str, o)
    ensures Scan(str, o).Failure? <==> !HasNumeral(str, o) && !HasInfinity(str, o)
  {
    hide Scan, Reads, ReadsInfinity;
    if Scan(str, o).Number? {
      var x, radix, sep := ScansReads(str, o);
    } else if Scan(str, o).Infinite? {
      ScansInfinity(str, o);
    }
    if HasNumeral(str, o) {
      var x, radix, sep :| Reads(str, o, x, radix, sep);
      ReadsScans(str, o, x, radix, sep);
    }
    if HasInfinity(str, o) {
      var sign :| ReadsInfinity(str, o, sign);
      InfinityScans(str, o, sign);
    }
  }

  /** What the reader returns: nothing, infinity, or the number that the numeral says and the place behind it. */
  lemma AtodExact(str: string, o: Options, r: Option<(bool, nat)>, p: nat)
    requires WfOptions(o) && Agrees(Scan(str, o), r, p)
    ensures r.None? <==> !HasNumeral(str, o) && !HasInfinity(str, o)
    ensures forall sign :: ReadsInfinity(str, o, sign) ==> r == Some((sign == "-", INFINITE))
    ensures forall x, radix, sep :: Reads(str, o, x, radix, sep) ==> Agrees(Said(x, radix), r, p) && p == |Show(x)|
  {
    hide Scan, Reads, ReadsInfinity, ReadAs, Show, TextDigits;
    ScanExact(str, o);
    forall sign | ReadsInfinity(str, o, sign) ensures r == Some((sign == "-", INFINITE)) {
      InfinityScans(str, o, sign);
    }
    forall x, radix, sep | Reads(str, o, x, radix, sep) ensures Agrees(Said(x, radix), r, p) && p == |Show(x)| {
      ReadsScans(str, o, x, radix, sep);
    }
  }
}
