/** Bitwise operations on unbounded naturals, each characterised bit by bit.
    A machine word of `n` bits is a natural below `Pow2(n)`. */
module Bits {
  import opened Arith
  import opened Base

  function Pow2(n: nat): (p: nat)
    ensures p > 0
  {
    if n == 0 then 1 else 2 * Pow2(n - 1)
  }

  /** Bit `i` of `x`. */
  predicate Bit(x: nat, i: nat) {
    if i == 0 then x % 2 == 1 else Bit(x / 2, i - 1)
  }

  function And(a: nat, b: nat): nat {
    if a == 0 then 0
    else (if a % 2 == 1 && b % 2 == 1 then 1 else 0) + 2 * And(a / 2, b / 2)
  }

  function Or(a: nat, b: nat): nat
    decreases a + b
  {
    if a == 0 && b == 0 then 0
    else (if a % 2 == 1 || b % 2 == 1 then 1 else 0) + 2 * Or(a / 2, b / 2)
  }

  function Xor(a: nat, b: nat): nat
    decreases a + b
  {
    if a == 0 && b == 0 then 0
    else (if a % 2 != b % 2 then 1 else 0) + 2 * Xor(a / 2, b / 2)
  }

  /** Complement of the low `n` bits. */
  function Not(n: nat, a: nat): nat {
    if n == 0 then 0 else (1 - a % 2) + 2 * Not(n - 1, a / 2)
  }

  function Shl(a: nat, n: nat): nat {
    if n == 0 then a else 2 * Shl(a, n - 1)
  }

  function Shr(a: nat, n: nat): nat {
    if n == 0 then a else Shr(a / 2, n - 1)
  }

  /** The low `n` bits: truncation to an `n`-bit word. */
  function Low(a: nat, n: nat): nat {
    if n == 0 then 0 else a % 2 + 2 * Low(a / 2, n - 1)
  }

  // ----- bit characterisations -----

  lemma ZeroBit(i: nat)
    ensures !Bit(0, i)
  {
    if i > 0 {
      ZeroBit(i - 1);
    }
  }

  lemma {:induction false} AndBit(a: nat, b: nat, i: nat)
    ensures Bit(And(a, b), i) <==> Bit(a, i) && Bit(b, i)
  {
    if a == 0 {
      ZeroBit(i);
    } else if i > 0 {
      AndBit(a / 2, b / 2, i - 1);
    }
  }

  lemma {:induction false} OrBit(a: nat, b: nat, i: nat)
    ensures Bit(Or(a, b), i) <==> Bit(a, i) || Bit(b, i)
  {
    if a == 0 && b == 0 {
      ZeroBit(i);
    } else if i > 0 {
      OrBit(a / 2, b / 2, i - 1);
    }
  }

  lemma {:induction false} XorBit(a: nat, b: nat, i: nat)
    ensures Bit(Xor(a, b), i) <==> Bit(a, i) != Bit(b, i)
  {
    if a == 0 && b == 0 {
      ZeroBit(i);
    } else if i > 0 {
      XorBit(a / 2, b / 2, i - 1);
    }
  }

  lemma {:induction false} NotBit(n: nat, a: nat, i: nat)
    ensures Bit(Not(n, a), i) <==> i < n && !Bit(a, i)
  {
    if n == 0 {
      ZeroBit(i);
    } else if i > 0 {
      NotBit(n - 1, a / 2, i - 1);
    }
  }

  lemma {:induction false} ShlBit(a: nat, n: nat, i: nat)
    ensures Bit(Shl(a, n), i) <==> i >= n && Bit(a, i - n)
  {
    if n > 0 && i > 0 {
      ShlBit(a, n - 1, i - 1);
    }
  }

  lemma {:induction false} ShrBit(a: nat, n: nat, i: nat)
    ensures Bit(Shr(a, n), i) <==> Bit(a, i + n)
  {
    if n > 0 {
      ShrBit(a / 2, n - 1, i);
    }
  }

  lemma {:induction false} LowBit(a: nat, n: nat, i: nat)
    ensures Bit(Low(a, n), i) <==> i < n && Bit(a, i)
  {
    if n == 0 {
      ZeroBit(i);
    } else if i > 0 {
      LowBit(a / 2, n - 1, i - 1);
    }
  }

  /** Two naturals with the same bits are equal. */
  lemma {:induction false} Extensional(a: nat, b: nat)
    requires forall i: nat :: Bit(a, i) == Bit(b, i)
    ensures a == b
    decreases a + b
  {
    if a != 0 || b != 0 {
      assert Bit(a, 0) == Bit(b, 0);
      forall i: nat ensures Bit(a / 2, i) == Bit(b / 2, i) {
        assert Bit(a, i + 1) == Bit(b, i + 1);
      }
      Extensional(a / 2, b / 2);
    }
  }

  // ----- arithmetic meaning -----

  lemma {:induction false} LowIsMod(a: nat, n: nat)
    ensures Low(a, n) == a % Pow2(n)
  {
    if n > 0 {
      LowIsMod(a / 2, n - 1);
      HalfQuotient(a, Pow2(n - 1));
    }
  }

  /** Quotient and remainder by twice a number, from those of the half. */
  lemma HalfQuotient(a: nat, p: nat)
    requires p > 0
    ensures a / (2 * p) == (a / 2) / p && a % (2 * p) == a % 2 + 2 * ((a / 2) % p)
  {
    var h := a / 2;
    var q, r := Quot(h, p), Rem(h, p);
    DivMod(h, p);
    Associate(q, 2, p);
    Commute(q, 2);
    Associate(2, q, p);
    DivModUnique(a, 2 * p, q, a % 2 + 2 * r);
  }

  lemma {:induction false} ShrIsDiv(a: nat, n: nat)
    ensures Shr(a, n) == a / Pow2(n)
  {
    if n > 0 {
      ShrIsDiv(a / 2, n - 1);
      HalfQuotient(a, Pow2(n - 1));
    }
  }

  lemma {:induction false} ShlIsMul(a: nat, n: nat)
    ensures Shl(a, n) == a * Pow2(n)
  {
    if n > 0 {
      ShlIsMul(a, n - 1);
    }
  }

  /** A value fits `n` bits exactly when truncation keeps it. */
  lemma FitsLow(a: nat, n: nat)
    ensures a < Pow2(n) <==> Low(a, n) == a
  {
    LowIsMod(a, n);
    if a < Pow2(n) {
      DivModUnique(a, Pow2(n), 0, a);
    }
  }

  /** The bits of an `n`-bit word stop at `n`. */
  lemma FitsBits(a: nat, n: nat, i: nat)
    requires a < Pow2(n) && i >= n
    ensures !Bit(a, i)
  {
    FitsLow(a, n);
    LowBit(a, n, i);
  }

  /** A natural whose bits stop at `n` is an `n`-bit word. */
  lemma BitsFit(a: nat, n: nat)
    requires forall i: nat :: i >= n ==> !Bit(a, i)
    ensures a < Pow2(n)
  {
    forall i: nat ensures Bit(Low(a, n), i) == Bit(a, i) {
      LowBit(a, n, i);
    }
    Extensional(Low(a, n), a);
    FitsLow(a, n);
  }

  /** Masking with `2^n - 1` is truncation. */
  lemma MaskIsLow(a: nat, n: nat)
    ensures And(a, Pow2(n) - 1) == Low(a, n)
  {
    forall i: nat ensures Bit(And(a, Pow2(n) - 1), i) == Bit(Low(a, n), i) {
      AndBit(a, Pow2(n) - 1, i);
      OnesBit(n, i);
      LowBit(a, n, i);
    }
    Extensional(And(a, Pow2(n) - 1), Low(a, n));
  }

  lemma {:induction false} OnesBit(n: nat, i: nat)
    ensures Bit(Pow2(n) - 1, i) <==> i < n
  {
    if n == 0 {
      ZeroBit(i);
    } else {
      assert Pow2(n) - 1 == 2 * (Pow2(n - 1) - 1) + 1;
      if i > 0 {
        OnesBit(n - 1, i - 1);
      }
    }
  }

  /** Joining a value below `2^n` with a multiple of `2^n` is addition. */
  lemma {:induction false} OrIsAdd(low: nat, high: nat, n: nat)
    requires low < Pow2(n)
    ensures Or(low, Shl(high, n)) == low + high * Pow2(n)
  {
    ShlIsMul(high, n);
    OrDisjoint(low, high, n);
  }

  lemma {:induction false} OrDisjoint(low: nat, high: nat, n: nat)
    requires low < Pow2(n)
    ensures Or(low, high * Pow2(n)) == low + high * Pow2(n)
    decreases n
  {
    if n == 0 {
      OrZero(high);
    } else {
      var h := high * Pow2(n - 1);
      assert high * Pow2(n) == 2 * h;
      OrDisjoint(low / 2, high, n - 1);
      assert (2 * h) / 2 == h && (2 * h) % 2 == 0;
    }
  }

  lemma {:induction false} OrZero(a: nat)
    ensures Or(0, a) == a
  {
    if a != 0 {
      OrZero(a / 2);
    }
  }

  lemma {:induction false} XorZero(a: nat)
    ensures Xor(a, 0) == a
  {
    if a != 0 {
      XorZero(a / 2);
    }
  }

  /** Exclusive or with all ones is subtraction from all ones. */
  lemma {:induction false} XorOnes(a: nat, n: nat)
    requires a < Pow2(n)
    ensures Xor(a, Pow2(n) - 1) == Pow2(n) - 1 - a
  {
    if n > 0 {
      assert Pow2(n) - 1 == 2 * (Pow2(n - 1) - 1) + 1;
      XorOnes(a / 2, n - 1);
    }
  }

  lemma {:induction false} Pow2Add(m: nat, n: nat)
    ensures Pow2(m + n) == Pow2(m) * Pow2(n)
  {
    if m > 0 {
      Pow2Add(m - 1, n);
      assert 2 * Pow2(m - 1) * Pow2(n) == Pow2(m) * Pow2(n);
    }
  }

  lemma {:induction false} Pow2Monotone(m: nat, n: nat)
    requires m <= n
    ensures Pow2(m) <= Pow2(n)
  {
    if m < n {
      Pow2Monotone(m, n - 1);
    }
  }

  /** A word of whole bytes. */
  lemma {:induction false} WholeBytes(n: nat)
    ensures Pow256(n) == Pow2(8 * n)
  {
    if n > 0 {
      WholeBytes(n - 1);
      Pow2Add(8, 8 * (n - 1));
      assert Pow2(8) == 256;
    }
  }
}
