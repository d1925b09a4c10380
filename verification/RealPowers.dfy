/** Integer powers as real numbers: the exact values that the conversions approximate. */
module RealPowers {
  import opened Powers

  function Exp(b: nat, n: int): (r: real)
    requires b > 0
    decreases if n >= 0 then n else -n
  {
    if n == 0 then 1.0
    else if n > 0 then b as real * Exp(b, n - 1)
    else Exp(b, n + 1) / b as real
  }

  lemma {:induction false} ExpPos(b: nat, n: int)
    requires b > 0
    ensures Exp(b, n) > 0.0
    decreases if n >= 0 then n else -n
  {
    if n > 0 {
      ExpPos(b, n - 1);
    } else if n < 0 {
      ExpPos(b, n + 1);
      DivPos(Exp(b, n + 1), b as real);
    }
  }

  lemma DivPos(x: real, y: real)
    requires x > 0.0 && y > 0.0
    ensures x / y > 0.0
  {
  }

  lemma ExpSucc(b: nat, n: int)
    requires b > 0
    ensures Exp(b, n + 1) == b as real * Exp(b, n)
  {
    if n < 0 {
      assert Exp(b, n) == Exp(b, n + 1) / b as real;
    }
  }

  lemma {:induction false} ExpAdd(b: nat, m: int, n: int)
    requires b > 0
    ensures Exp(b, m + n) == Exp(b, m) * Exp(b, n)
    decreases if m >= 0 then m else -m
  {
    hide Exp;
    if m == 0 {
      ExpZero(b);
    } else if m > 0 {
      ExpAdd(b, m - 1, n);
      ExpSucc(b, m - 1 + n);
      ExpSucc(b, m - 1);
      RMulAssoc(b as real, Exp(b, m - 1), Exp(b, n));
    } else {
      ExpAdd(b, m + 1, n);
      ExpSucc(b, m + n);
      ExpSucc(b, m);
      RMulAssoc(b as real, Exp(b, m), Exp(b, n));
      RCancel(Exp(b, m + n), Exp(b, m) * Exp(b, n), b as real);
    }
  }

  lemma ExpZero(b: nat)
    requires b > 0
    ensures Exp(b, 0) == 1.0 && Exp(b, 1) == b as real
  {
    assert Exp(b, 1) == b as real * Exp(b, 0);
  }

  lemma RMulAssoc(a: real, b: real, c: real)
    ensures (a * b) * c == a * (b * c)
  {
  }

  lemma RCancel(x: real, y: real, b: real)
    requires b > 0.0 && b * x == b * y
    ensures x == y
  {
  }

  lemma ExpInverse(b: nat, n: int)
    requires b > 0
    ensures Exp(b, n) * Exp(b, -n) == 1.0
  {
    ExpAdd(b, n, -n);
  }

  lemma {:induction false} ExpIsPow(b: nat, n: nat)
    requires b > 0
    ensures Exp(b, n) == Pow(b, n) as real
    decreases n
  {
    if n > 0 {
      ExpIsPow(b, n - 1);
    }
  }

  lemma {:induction false} ExpUp(b: nat, m: int, n: int)
    requires b > 0 && m <= n
    ensures Exp(b, m) <= Exp(b, n)
    decreases n - m
  {
    hide Exp;
    if m < n {
      ExpUp(b, m, n - 1);
      ExpPos(b, n - 1);
      ExpSucc(b, n - 1);
      RMulUp(1.0, b as real, Exp(b, n - 1));
    }
  }

  lemma ExpUpStrict(b: nat, m: int, n: int)
    requires b > 1 && m < n
    ensures Exp(b, m) < Exp(b, n)
  {
    hide Exp;
    ExpUp(b, m, n - 1);
    ExpPos(b, n - 1);
    ExpSucc(b, n - 1);
    RMulStrict(1.0, b as real, Exp(b, n - 1));
  }

  lemma RMulUp(a: real, b: real, c: real)
    requires a <= b && c >= 0.0
    ensures a * c <= b * c
  {
  }

  lemma RMulStrict(a: real, b: real, c: real)
    requires a < b && c > 0.0
    ensures a * c < b * c
  {
  }

  lemma {:induction false} ExpOfProduct(a: nat, b: nat, n: int)
    requires a > 0 && b > 0
    ensures a * b > 0 && Exp(a * b, n) == Exp(a, n) * Exp(b, n)
    decreases if n >= 0 then n else -n
  {
    hide Exp;
    MulUp(1, a, 1, b);
    var r, s, c := a as real, b as real, a * b;
    assert c as real == r * s;
    if n == 0 {
      ExpZero(a);
      ExpZero(b);
      ExpZero(c);
    } else if n > 0 {
      ExpOfProduct(a, b, n - 1);
      ProductStep(a, b, c, n - 1);
    } else {
      ExpOfProduct(a, b, n + 1);
      ProductStep(a, b, c, n);
      RCancel(Exp(c, n), Exp(a, n) * Exp(b, n), c as real);
    }
  }

  lemma ProductStep(a: nat, b: nat, c: nat, n: int)
    requires a > 0 && b > 0 && c > 0 && c as real == a as real * b as real
    ensures Exp(a, n + 1) * Exp(b, n + 1) == c as real * (Exp(a, n) * Exp(b, n))
    ensures Exp(c, n + 1) == c as real * Exp(c, n)
  {
    hide Exp;
    ExpSucc(a, n);
    ExpSucc(b, n);
    ExpSucc(c, n);
    RRearrange(a as real, b as real, Exp(a, n), Exp(b, n));
  }

  lemma RRearrange(a: real, b: real, x: real, y: real)
    ensures (a * b) * (x * y) == (a * x) * (b * y)
  {
    RMulAssoc(a, b, x * y);
    RMulAssoc(b, x, y);
    RMulAssoc(x, b, y);
    RMulAssoc(a, x, b * y);
    assert b * (x * y) == x * (b * y);
  }

  /** A power of a power of two. */
  lemma {:induction false} ExpOfPow2(s: nat, n: int)
    ensures Pow(2, s) > 0 && Exp(Pow(2, s), n) == Exp(2, s * n)
    decreases s
  {
    hide Exp;
    PowPos(2, s);
    if s == 0 {
      ExpOfOne(n);
      ExpZero(2);
      assert s * n == 0;
    } else {
      PowPos(2, s - 1);
      ExpOfPow2(s - 1, n);
      ExpOfProduct(2, Pow(2, s - 1), n);
      ExpAdd(2, n, (s - 1) * n);
      assert s * n == n + (s - 1) * n;
    }
  }

  lemma {:induction false} ExpOfOne(n: int)
    ensures Exp(1, n) == 1.0
    decreases if n >= 0 then n else -n
  {
    if n > 0 {
      ExpOfOne(n - 1);
    } else if n < 0 {
      ExpOfOne(n + 1);
    }
  }
}
