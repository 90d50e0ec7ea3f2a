/** Small facts about products and quotients that keep nonlinear reasoning out of
    larger proofs. */
module Arith {
  /** A product of naturals, known to be natural. */
  function Times(a: nat, b: nat): (p: nat)
    ensures p == a * b
  {
    a * b
  }

  /** Quotient and remainder of naturals by a positive divisor. */
  function Quot(a: nat, p: nat): (q: nat)
    requires p > 0
    ensures q == a / p
  {
    a / p
  }

  function Rem(a: nat, p: nat): (r: nat)
    requires p > 0
    ensures r == a % p && r < p
  {
    a % p
  }

  lemma Distribute(a: int, b: int, c: int)
    ensures (a + b) * c == a * c + b * c
  {
  }

  lemma Associate(a: int, b: int, c: int)
    ensures a * b * c == a * (b * c)
  {
  }

  lemma Commute(a: int, b: int)
    ensures a * b == b * a
  {
  }

  lemma Mono(a: nat, b: nat, x: nat, y: nat)
    requires a <= x && b <= y
    ensures 0 <= a * b <= x * y
  {
    assert a * b <= x * b;
    assert x * b <= x * y;
  }

  lemma ProductBound(a: int, b: int, x: int, y: int)
    requires x >= 0 && y >= 0 && -x <= a <= x && -y <= b <= y
    ensures -(x * y) <= a * b <= x * y
  {
    var m, n := if a < 0 then -a else a, if b < 0 then -b else b;
    Mono(m, n, x, y);
    SignedProduct(a, b);
  }

  lemma SignedProduct(a: int, b: int)
    ensures var p := (if a < 0 then -a else a) * (if b < 0 then -b else b);
            a * b == p || a * b == -p
  {
  }

  lemma MulAtLeast(k: int, p: int)
    requires k >= 1 && p >= 0
    ensures k * p >= p
  {
  }

  lemma DivMod(a: nat, p: nat)
    requires p > 0
    ensures a == (a / p) * p + a % p
  {
  }

  lemma DivModUnique(a: nat, p: nat, q: int, r: nat)
    requires p > 0 && a == q * p + r && r < p
    ensures a / p == q && a % p == r
  {
    var d := q - a / p;
    assert d * p == a % p - r by {
      DivMod(a, p);
      Distribute(q, -(a / p), p);
      Negate(a / p, p);
    }
    if d >= 1 {
      MulAtLeast(d, p);
    } else if d <= -1 {
      Negate(d, p);
      MulAtLeast(-d, p);
    }
  }

  lemma Negate(a: int, b: int)
    ensures (-a) * b == -(a * b)
  {
  }

  /** Successor of a quotient and remainder. */
  lemma DivStep(n: nat, d: nat)
    requires d > 0
    ensures if n % d + 1 < d then (n + 1) / d == n / d && (n + 1) % d == n % d + 1
            else (n + 1) / d == n / d + 1 && (n + 1) % d == 0
  {
    DivMod(n, d);
    if n % d + 1 < d {
      DivModUnique(n + 1, d, n / d, n % d + 1);
    } else {
      Distribute(n / d, 1, d);
      DivModUnique(n + 1, d, n / d + 1, 0);
    }
  }

  lemma EvenProduct(i: int)
    ensures (i * (i - 1)) % 2 == 0
  {
    var h := i / 2;
    if i % 2 == 0 {
      assert i == 2 * h;
      Associate(2, h, i - 1);
    } else {
      assert i - 1 == 2 * h;
      Commute(i, 2 * h);
      Associate(2, h, i);
    }
  }
}
