/**
 Numerals as text: what a digit string, its point and its exponent look like, and that the scanner takes them
 apart.
 */
module WrittenNumbers {
  import opened Basics
  import opened FloorLog
  import opened Reading
  import opened NumberText
  import opened NumberGrammar

  datatype Suffix = NoExponent | WithExponent(neg: bool, ds: seq<nat>, isBin: bool)

  /** Digits with a point after the first `dot` of them, and an exponent. */
  datatype Written = Written(ds: seq<nat>, dot: nat, suffix: Suffix)

  predicate WfSuffix(radix: nat, x: Suffix)
    requires IsRadix(radix)
  {
    x.WithExponent? ==> x.ds != [] && DigitsOf(10, x.ds) && (x.isBin ==> IsPow2(radix) && radix <= 16)
  }

  predicate WfWritten(radix: nat, w: Written) {
    IsRadix(radix) && DigitsOf(radix, w.ds) && 0 < w.dot <= |w.ds| && WfSuffix(radix, w.suffix)
  }

  // ----- text -----

  function DigitText(ds: seq<nat>): (t: string)
    requires DigitsOf(36, ds)
    ensures |t| == |ds|
  {
    if ds == [] then "" else DigitText(ds[..|ds| - 1]) + [DigitChar(ds[|ds| - 1])]
  }

  lemma {:induction false} CharAt(ds: seq<nat>, k: nat)
    requires DigitsOf(36, ds) && k < |ds|
    ensures DigitText(ds)[k] == DigitChar(ds[k])
    decreases |ds|
  {
    hide DigitChar;
    if k < |ds| - 1 {
      CharAt(ds[..|ds| - 1], k);
    }
  }

  function Mark(radix: nat, isBin: bool): char {
    if radix == 10 then 'e' else if isBin then 'p' else '@'
  }

  function SuffixText(radix: nat, x: Suffix): string
    requires IsRadix(radix) && WfSuffix(radix, x)
  {
    if x.NoExponent? then "" else [Mark(radix, x.isBin), if x.neg then '-' else '+'] + DigitText(x.ds)
  }

  /** Digits with a point inside, or none behind the last digit. */
  function PointText(ds: seq<nat>, dot: nat): string
    requires DigitsOf(36, ds) && dot <= |ds|
  {
    if dot == |ds| then DigitText(ds) else DigitText(ds[..dot]) + ("." + DigitText(ds[dot..]))
  }

  function Text(radix: nat, w: Written): string
    requires WfWritten(radix, w)
  {
    PointText(w.ds, w.dot) + SuffixText(radix, w.suffix)
  }

  function SignText(neg: bool): string { if neg then "-" else "" }

  /** The digits that a text shows are those of the lower-case alphabet. */
  lemma ShowsDigits(ds: seq<nat>, k: nat)
    requires DigitsOf(36, ds) && k < |ds|
    ensures DigitText(ds)[k] == LOWER[ds[k]] && IsPrinted(DigitText(ds)[k])
  {
    hide DigitText;
    CharAt(ds, k);
    ToDigitOfChar(ds[k]);
    ToDigitIs(DigitChar(ds[k]), ds[k]);
  }

  predicate IsPrinted(c: char) { '0' <= c <= '9' || 'a' <= c <= 'z' || c in {'.', '+', '-', '@'} }

  ghost predicate AllPrinted(t: string) {
    forall i :: 0 <= i < |t| ==> IsPrinted(t[i])
  }

  lemma DigitsPrinted(ds: seq<nat>)
    requires DigitsOf(36, ds)
    ensures AllPrinted(DigitText(ds))
  {
    hide DigitText, IsPrinted;
    forall k | 0 <= k < |ds| ensures IsPrinted(DigitText(ds)[k]) {
      ShowsDigits(ds, k);
    }
  }

  /** Printed numerals have no upper-case letter. */
  lemma TextPrinted(radix: nat, w: Written)
    requires WfWritten(radix, w)
    ensures AllPrinted(Text(radix, w))
  {
    hide DigitText;
    DigitsPrinted(w.ds);
    DigitsPrinted(w.ds[..w.dot]);
    DigitsPrinted(w.ds[w.dot..]);
    if w.suffix.WithExponent? {
      DigitsPrinted(w.suffix.ds);
    }
  }

  // ----- scanning a text -----

  lemma DigitsRun(ds: seq<nat>, radix: nat)
    requires DigitsOf(radix, ds) && radix <= 36
    ensures Run(DigitText(ds), radix, false) && (ds != [] ==> IsDigit(DigitText(ds), 0, radix))
  {
    hide ToDigit, DigitChar, DigitText;
    forall k: nat | k < |ds| ensures IsDigit(DigitText(ds), k, radix) {
      CharAt(ds, k);
      ToDigitOfChar(ds[k]);
    }
  }

  lemma {:induction false} DigitsBack(ds: seq<nat>)
    requires DigitsOf(36, ds)
    ensures TextDigits(DigitText(ds)) == ds
    decreases |ds|
  {
    hide ToDigit, DigitChar;
    if ds != [] {
      var n := |ds| - 1;
      var t := DigitText(ds);
      DigitsBack(ds[..n]);
      ToDigitOfChar(ds[n]);
      assert t[..n] == DigitText(ds[..n]);
      assert Has(t, 0, t[..n]) by { assert t[0..n] == t[..n]; }
      SameDigits(t, 0, t[..n], n);
    }
  }

  /** A printed numeral is one of the grammar. */
  function ToPower(radix: nat, x: Suffix): Option<Power>
    requires IsRadix(radix) && WfSuffix(radix, x)
  {
    if x.NoExponent? then None
    else Some(Power(Mark(radix, x.isBin), if x.neg then "-" else "+", DigitText(x.ds)))
  }

  function ToLiteral(radix: nat, neg: bool, w: Written): Literal
    requires WfWritten(radix, w)
  {
    Literal(SignText(neg), "", DigitText(w.ds[..w.dot]),
            if w.dot == |w.ds| then None else Some(DigitText(w.ds[w.dot..])), ToPower(radix, w.suffix))
  }

  lemma ShowsText(radix: nat, neg: bool, w: Written)
    requires WfWritten(radix, w)
    ensures Show(ToLiteral(radix, neg, w)) == SignText(neg) + Text(radix, w)
  {
    hide DigitText;
    assert w.dot == |w.ds| ==> w.ds[..w.dot] == w.ds;
    assert PowerText(ToPower(radix, w.suffix)) == SuffixText(radix, w.suffix);
    var x := ToLiteral(radix, neg, w);
    assert Front(x) == SignText(neg);
  }

  lemma PowerIs(radix: nat, x: Suffix)
    requires IsRadix(radix) && WfSuffix(radix, x) && x.WithExponent?
    ensures var p := ToPower(radix, x).value; WfPower(p, radix, false) && (p.mark in "pP" <==> x.isBin)
    ensures Mark(radix, x.isBin) !in {'x', 'X'}
  {
    hide ToDigit, DigitText;
    DigitsRun(x.ds, 10);
  }

  lemma LiteralIs(radix: nat, neg: bool, w: Written)
    requires WfWritten(radix, w)
    ensures WfLiteral(ToLiteral(radix, neg, w), radix, false, false)
  {
    hide ToDigit, DigitText, Run, WfPower;
    DigitsRun(w.ds[..w.dot], radix);
    DigitsRun(w.ds[w.dot..], radix);
    if w.suffix.WithExponent? {
      PowerIs(radix, w.suffix);
    }
  }

  /** The first characters of a printed numeral: a digit, and no letter of a prefix. */
  lemma FirstTwo(radix: nat, w: Written)
    requires WfWritten(radix, w)
    ensures var t := Text(radix, w); t != "" && t[0] != 'I' && (radix == 16 ==> At(t, 1) !in {'x', 'X'})
  {
    hide ToDigit, SuffixText;
    var t, whole := Text(radix, w), w.ds[..w.dot];
    CharAt(whole, 0);
    ToDigitOfChar(whole[0]);
    assert t[0] == DigitText(whole)[0] by { assert w.dot == |w.ds| ==> whole == w.ds; }
    if w.dot > 1 {
      CharAt(whole, 1);
      ToDigitOfChar(whole[1]);
      assert t[1] == DigitText(whole)[1] by { assert w.dot == |w.ds| ==> whole == w.ds; }
    } else if w.dot == |w.ds| {
      SuffixStarts(radix, w.suffix);
      assert At(t, 1) == At(SuffixText(radix, w.suffix), 0);
    }
  }

  lemma SuffixStarts(radix: nat, x: Suffix)
    requires IsRadix(radix) && WfSuffix(radix, x)
    ensures At(SuffixText(radix, x), 0) !in {'x', 'X'}
  {
  }

  /** What the scanner finds in the text of a numeral. */
  function Found(radix: nat, neg: bool, w: Written, next: nat): Scanned {
    match w.suffix
    case NoExponent => Number(neg, radix, w.ds, w.dot, false, [], false, next)
    case WithExponent(expNeg, ds, isBin) => Number(neg, radix, w.ds, w.dot, expNeg, ds, isBin, next)
  }

  lemma SaysFound(radix: nat, neg: bool, w: Written)
    requires WfWritten(radix, w)
    ensures Said(ToLiteral(radix, neg, w), radix) == Found(radix, neg, w, |SignText(neg) + Text(radix, w)|)
  {
    hide ToDigit, DigitText, TextDigits, Show, Text;
    ShowsText(radix, neg, w);
    DigitsBack(w.ds[..w.dot]);
    DigitsBack(w.ds[w.dot..]);
    assert w.ds == w.ds[..w.dot] + w.ds[w.dot..] && (w.dot == |w.ds| ==> w.ds[..w.dot] + [] == w.ds);
    if w.suffix.WithExponent? {
      PowerIs(radix, w.suffix);
      DigitsBack(w.suffix.ds);
    }
  }

  lemma ReadsWritten(radix: nat, neg: bool, w: Written)
    requires WfWritten(radix, w)
    ensures Reads(SignText(neg) + Text(radix, w), Plainly(radix), ToLiteral(radix, neg, w), radix, false)
  {
    hide ToDigit, DigitText, Show, Text, WfLiteral, ToPower;
    var str, t, x := SignText(neg) + Text(radix, w), Text(radix, w), ToLiteral(radix, neg, w);
    ShowsText(radix, neg, w);
    LiteralIs(radix, neg, w);
    FirstTwo(radix, w);
    assert str[|x.sign|..] == t && str[|Show(x)|..] == "";
    PrefixesAt(t);
    NoDigit(radix);
    NoDigit(10);
    assert '\0' !in Marks(radix);
  }

  /** The text of a numeral is taken apart into the numeral. */
  lemma ScanText(radix: nat, neg: bool, w: Written)
    requires WfWritten(radix, w)
    ensures var str := SignText(neg) + Text(radix, w);
            Scan(str, Plainly(radix)) == Found(radix, neg, w, |str|)
  {
    hide Scan, Text, Reads, Said, Found;
    ReadsWritten(radix, neg, w);
    ReadsScans(SignText(neg) + Text(radix, w), Plainly(radix), ToLiteral(radix, neg, w), radix, false);
    SaysFound(radix, neg, w);
  }
}
