/** Signed 32-bit arithmetic that wraps around. */
module Int32 {
  import opened Basics

  const WORD := 0x1_0000_0000

  /** The 32-bit integer that agrees with `x` modulo 2^32. */
  function Wrap32(x: int): (w: int)
    ensures IsI32(w) && (w - x) % WORD == 0 && (IsI32(x) <==> w == x)
  {
    (x + 0x8000_0000) % WORD - 0x8000_0000
  }

  /** Numbers that differ by a multiple of 2^32 wrap to the same integer. */
  lemma WrapSame(x: int, y: int, j: int)
    requires x == y + j * WORD
    ensures Wrap32(x) == Wrap32(y)
  {
  }

  /** How far wrapping moves a number. */
  function Turns(x: int): (j: int)
    ensures Wrap32(x) == x + j * WORD
  {
    (Wrap32(x) - x) / WORD
  }

  lemma WrapSum(a: int, b: int)
    ensures Wrap32(Wrap32(a) + b) == Wrap32(a + b)
    ensures Wrap32(b - Wrap32(a)) == Wrap32(b - a)
  {
    hide Wrap32;
    WrapSame(Wrap32(a) + b, a + b, Turns(a));
    WrapSame(b - Wrap32(a), b - a, -Turns(a));
  }

  lemma WrapProduct(a: int, k: int)
    ensures Wrap32(Wrap32(a) * k) == Wrap32(a * k)
  {
    hide Wrap32;
    var j := Turns(a);
    assert (a + j * WORD) * k == a * k + (j * k) * WORD;
    WrapSame(Wrap32(a) * k, a * k, j * k);
  }

  /** Wrapping the terms first does not change the wrapped sum. */
  lemma WrapTerms(s: int, p: int, c: int, scaled: int, prod: int)
    requires Wrap32(scaled) == Wrap32(s) && Wrap32(prod) == Wrap32(p)
    ensures Wrap32(Wrap32(scaled - Wrap32(prod)) + c) == Wrap32(s - p + c)
  {
    hide Wrap32;
    WrapSum(prod, scaled);
    WrapSum(scaled - prod, c);
    var i, j := Turns(s) - Turns(scaled), Turns(p) - Turns(prod);
    WrapSame(scaled - prod + c, s - p + c, i - j);
  }

  /** A sum that is small after wrapping did not wrap. */
  lemma WrapBack(a: int, b: int)
    requires IsI32(a) && 0 <= b <= 400 && -1075 <= Wrap32(a + b) <= 2048
    ensures Wrap32(a + b) == a + b
  {
  }
}
