/** Powers with natural and with integer exponents, and the division facts used by the number conversions. */
module Powers {

  function Pow(b: nat, n: nat): (r: nat)
    decreases n
  {
    if n == 0 then 1 else b * Pow(b, n - 1)
  }

  lemma {:induction false} PowAdd(b: nat, m: nat, n: nat)
    ensures Pow(b, m + n) == Pow(b, m) * Pow(b, n)
    decreases m
  {
    if m > 0 {
      PowAdd(b, m - 1, n);
      MulAssoc(b, Pow(b, m - 1), Pow(b, n));
    }
  }

  lemma MulAssoc(a: int, b: int, c: int)
    ensures (a * b) * c == a * (b * c)
  {
  }

  lemma PowSmall(a: nat)
    ensures Pow(a, 0) == 1 && Pow(a, 1) == a
  {
    assert Pow(a, 1) == a * Pow(a, 0);
  }

  lemma PowTwice(n: nat)
    ensures Pow(2, n + 1) == 2 * Pow(2, n)
  {
  }

  lemma {:induction false} PowPos(b: nat, n: nat)
    requires b > 0
    ensures Pow(b, n) >= 1
    decreases n
  {
    if n > 0 {
      PowPos(b, n - 1);
      MulUp(1, b, 1, Pow(b, n - 1));
    }
  }

  /** Products grow with their factors. */
  lemma MulUp(a: int, b: int, c: int, d: int)
    requires 0 <= a <= b && 0 <= c <= d
    ensures a * c <= b * d
  {
    assert a * c <= b * c;
    assert b * c <= b * d;
  }

  lemma MulStrict(a: int, b: int, c: int)
    requires a < b && c > 0
    ensures a * c < b * c
  {
  }

  lemma CancelLe(a: int, b: int, c: int)
    requires a * c <= b * c && c > 0
    ensures a <= b
  {
    if a > b {
      MulStrict(b, a, c);
    }
  }

  lemma CancelLt(a: int, b: int, c: int)
    requires a * c < b * c && c > 0
    ensures a < b
  {
    if a >= b {
      MulUpAny(b, a, c);
    }
  }

  lemma MulUpAny(a: int, b: int, c: int)
    requires a <= b && c >= 0
    ensures a * c <= b * c
  {
  }

  lemma {:induction false} PowUp(b: nat, m: nat, n: nat)
    requires b > 0 && m <= n
    ensures Pow(b, m) <= Pow(b, n)
    decreases n - m
  {
    if m < n {
      PowUp(b, m, n - 1);
      PowPos(b, n - 1);
      MulUp(1, b, Pow(b, n - 1), Pow(b, n - 1));
    }
  }

  lemma PowUpStrict(b: nat, m: nat, n: nat)
    requires b > 1 && m < n
    ensures Pow(b, m) < Pow(b, n)
  {
    PowUp(b, m, n - 1);
    PowPos(b, n - 1);
    MulStrict(1, b, Pow(b, n - 1));
  }

  lemma {:induction false} PowBase(a: nat, b: nat, n: nat)
    requires a <= b
    ensures Pow(a, n) <= Pow(b, n)
    decreases n
  {
    if n > 0 {
      PowBase(a, b, n - 1);
      MulUp(a, b, Pow(a, n - 1), Pow(b, n - 1));
    }
  }

  lemma {:induction false} PowOfProduct(a: nat, b: nat, n: nat)
    ensures Pow(a * b, n) == Pow(a, n) * Pow(b, n)
    decreases n
  {
    if n > 0 {
      PowOfProduct(a, b, n - 1);
      var x, y := Pow(a, n - 1), Pow(b, n - 1);
      assert (a * b) * (x * y) == (a * x) * (b * y) by { Rearrange(a, b, x, y); }
    }
  }

  lemma Rearrange(a: int, b: int, x: int, y: int)
    ensures (a * b) * (x * y) == (a * x) * (b * y)
  {
    MulAssoc(a, b, x * y);
    MulAssoc(b, x, y);
    MulAssoc(x, b, y);
    MulAssoc(a, x, b * y);
    assert b * (x * y) == x * (b * y);
  }

  lemma {:induction false} PowOfPow(b: nat, m: nat, n: nat)
    ensures Pow(Pow(b, m), n) == Pow(b, m * n)
    decreases n
  {
    if n > 0 {
      PowOfPow(b, m, n - 1);
      PowAdd(b, m, m * (n - 1));
      assert m * n == m + m * (n - 1);
    }
  }

  // ----- division -----

  /** The quotient and the remainder are determined by the division identity. */
  lemma DivUnique(n: int, d: int, q: int, r: int)
    requires d > 0 && n == q * d + r && 0 <= r < d
    ensures n / d == q && n % d == r
  {
    var q', r' := n / d, n % d;
    assert n == q' * d + r';
    if q < q' {
      MulUpAny(q + 1, q', d);
    } else if q' < q {
      MulUpAny(q' + 1, q, d);
    }
  }

  /** Dividing twice is dividing by the product. */
  lemma DivDiv(n: nat, a: nat, b: nat)
    requires a > 0 && b > 0
    ensures a * b > 0 && n / a / b == n / (a * b)
    ensures n % (a * b) == 0 <==> n % a == 0 && (n / a) % b == 0
  {
    var q, r := n / a, n % a;
    var q2, r2 := q / b, q % b;
    MulUp(1, a, 1, b);
    assert n == q2 * (a * b) + (r2 * a + r) by {
      assert n == q * a + r && q == q2 * b + r2;
      assert q * a == (q2 * b) * a + r2 * a;
      MulAssoc(q2, b, a);
    }
    assert r2 * a + r < a * b by {
      MulUpAny(r2 + 1, b, a);
    }
    assert 0 <= r2 * a by { MulUp(0, r2, 0, a); }
    DivUnique(n, a * b, q2, r2 * a + r);
    assert r2 * a + r == 0 ==> r2 == 0 by { if r2 > 0 { MulUp(1, r2, 1, a); } }
  }

  /** A quotient compares with an integer as the fraction does. */
  lemma DivCompare(n: nat, d: nat, k: nat)
    requires d > 0
    ensures k <= n / d <==> k * d <= n
  {
    var q, r := n / d, n % d;
    assert n == q * d + r;
    if k <= q {
      MulUpAny(k, q, d);
    } else {
      MulUpAny(q + 1, k, d);
    }
  }

  lemma DivPositive(n: nat, d: nat)
    requires d > 0
    ensures n / d >= 0 && n == n / d * d + n % d
  {
  }

  lemma DivExact(q: nat, d: nat)
    requires d > 0
    ensures q * d / d == q && q * d % d == 0
  {
    DivUnique(q * d, d, q, 0);
  }

  // ----- fast evaluation -----

  /** Powers by repeated squaring. */
  function FastPow(b: nat, n: nat): (r: nat)
    decreases n
  {
    if n == 0 then 1
    else
      var h := FastPow(b, n / 2);
      if n % 2 == 0 then h * h else b * (h * h)
  }

  lemma {:induction false} FastPowIs(b: nat, n: nat)
    ensures FastPow(b, n) == Pow(b, n)
    decreases n
  {
    if n > 0 {
      FastPowIs(b, n / 2);
      PowAdd(b, n / 2, n / 2);
      if n % 2 == 1 {
        assert n - 1 == n / 2 + n / 2;
      } else {
        assert n == n / 2 + n / 2;
      }
    }
  }
}
