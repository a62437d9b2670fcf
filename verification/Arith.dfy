/** Facts about multiplication and division that the solver does not find alone. */
module Arith {

  lemma MulMono(a: int, b: int, d: int)
    requires a <= b && 0 <= d
    ensures a * d <= b * d
  {
  }

  lemma DivUnique(n: int, d: int, q: int, r: int)
    requires 0 < d && n == q * d + r && 0 <= r < d
    ensures n / d == q && n % d == r
  {
    var q', r' := n / d, n % d;
    assert n == q' * d + r';
    if q < q' {
      MulMono(q + 1, q', d);
      assert false;
    }
    if q' < q {
      MulMono(q' + 1, q, d);
      assert false;
    }
  }

  lemma ModAddMultiple(n: int, k: int, d: int)
    requires 0 < d
    ensures (n + k * d) % d == n % d
  {
    var q, r := n / d, n % d;
    assert (q + k) * d == q * d + k * d;
    DivUnique(n + k * d, d, q + k, r);
  }

  lemma ModSmall(n: nat, d: int)
    requires 0 < d
    ensures n % d == n <==> n < d
  {
    if n < d {
      DivUnique(n, d, 0, n);
    }
  }

  lemma MulAssoc(a: int, b: int, c: int)
    ensures a * (b * c) == (a * b) * c
  {
  }

  function Pow(base: nat, n: nat): (p: nat)
    ensures base > 0 ==> p > 0
  {
    if n == 0 then 1 else base * Pow(base, n - 1)
  }

  lemma {:induction false} PowMono(b: nat, c: nat, n: nat)
    requires b <= c
    ensures Pow(b, n) <= Pow(c, n)
  {
    if n > 0 {
      PowMono(b, c, n - 1);
      MulMono(b, c, Pow(c, n - 1));
      MulMono(Pow(b, n - 1), Pow(c, n - 1), b);
    }
  }

  lemma {:induction false} PowAdd(b: nat, m: nat, n: nat)
    ensures Pow(b, m + n) == Pow(b, m) * Pow(b, n)
  {
    if m > 0 {
      PowAdd(b, m - 1, n);
      MulAssoc(b, Pow(b, m - 1), Pow(b, n));
    }
  }

  lemma PowUnfold(base: nat, n: nat)
    ensures Pow(base, n) == if n == 0 then 1 else base * Pow(base, n - 1)
  {
  }

  lemma ModZero(d: nat)
    requires 0 < d
    ensures 0 % d == 0
  {
  }

  lemma ModOne(n: nat)
    ensures n % 1 == 0
  {
  }
}
