/** Powers of two, their logarithm, and the division facts the index formulas rely on. */
module Powers {

  function Pow2(n: nat): (r: nat)
    ensures r >= 1
  {
    if n == 0 then 1 else 2 * Pow2(n - 1)
  }

  /** x is 1, 2, 4, 8, ... */
  predicate IsPow2(x: int)
    decreases if x < 0 then 0 else x
  {
    x >= 1 && (x == 1 || (x % 2 == 0 && IsPow2(x / 2)))
  }

  /** The exponent of a power of two. */
  function Log2(x: int): (r: nat)
    requires IsPow2(x)
    ensures Pow2(r) == x
    decreases x
  {
    if x == 1 then 0 else 1 + Log2(x / 2)
  }

  lemma {:induction false} Pow2IsPow2(n: nat)
    ensures IsPow2(Pow2(n)) && Log2(Pow2(n)) == n
  {
    if n > 0 {
      Pow2IsPow2(n - 1);
      assert Pow2(n) / 2 == Pow2(n - 1);
    }
  }

  lemma {:induction false} Pow2Monotone(a: nat, b: nat)
    requires a <= b
    ensures Pow2(a) <= Pow2(b)
  {
    if a < b {
      Pow2Monotone(a, b - 1);
    }
  }

  lemma {:induction false} Pow2Split(a: nat, b: nat)
    ensures Pow2(a + b) == Pow2(a) * Pow2(b)
  {
    if a > 0 {
      Pow2Split(a - 1, b);
      assert Pow2(a + b) == 2 * Pow2(a - 1 + b);
    }
  }

  /** Euclidean division is determined by quotient and remainder. */
  lemma DivModUnique(x: int, d: int, q: int, r: int)
    requires d > 0 && 0 <= r < d && x == d * q + r
    ensures x / d == q && x % d == r
  {
    var q', r' := x / d, x % d;
    assert x == d * q' + r';
    if q' > q {
      assert d * q' >= d * (q + 1) by { MulMonotone(q + 1, q', d); }
    } else if q' < q {
      assert d * q >= d * (q' + 1) by { MulMonotone(q' + 1, q, d); }
    }
  }

  lemma MulMonotone(a: int, b: int, d: int)
    requires a <= b && d >= 0
    ensures d * a <= d * b
  {
    assert d * b - d * a == d * (b - a);
  }

  /**
   * a * b by repeated addition. The index formulas of the loop nests are written with it,
   * so that a product stays an opaque term until TimesIsMul relates it to `*`.
   */
  function Times(a: nat, b: nat): nat
  {
    if a == 0 then 0 else Times(a - 1, b) + b
  }

  lemma {:induction false} TimesIsMul(a: nat, b: nat)
    ensures Times(a, b) == a * b
  {
    if a > 0 {
      TimesIsMul(a - 1, b);
      assert (a - 1) * b + b == a * b;
    }
  }

  lemma TimesSucc(a: nat, b: nat)
    ensures Times(a + 1, b) == Times(a, b) + b
  {
  }

  lemma {:induction false} TimesDouble(a: nat, b: nat)
    ensures Times(a, 2 * b) == 2 * Times(a, b)
  {
    if a > 0 {
      TimesDouble(a - 1, b);
    }
  }

  lemma {:induction false} TimesMonotone(a: nat, b: nat, x: nat)
    requires a <= b
    ensures Times(a, x) <= Times(b, x)
  {
    if a < b {
      TimesMonotone(a, b - 1, x);
    }
  }

  /** For x > 0, comparing a and b and comparing a * x and b * x agree. */
  lemma TimesLess(a: nat, b: nat, x: nat)
    requires x > 0
    ensures Times(a, x) < Times(b, x) <==> a < b
  {
    if a < b {
      TimesMonotone(a + 1, b, x);
    } else {
      TimesMonotone(b, a, x);
    }
  }

  /** Digits in base x are unique: q * x + r with r < x determines q and r. */
  lemma DigitUnique(x: nat, q1: nat, r1: nat, q2: nat, r2: nat)
    requires r1 < x && r2 < x && Times(q1, x) + r1 == Times(q2, x) + r2
    ensures q1 == q2 && r1 == r2
  {
    if q1 < q2 {
      TimesGap(q1, q2, x);
    } else if q2 < q1 {
      TimesGap(q2, q1, x);
    }
  }

  lemma {:induction false} TimesGap(a: nat, b: nat, x: nat)
    requires a < b
    ensures Times(a, x) + x <= Times(b, x)
  {
    if a + 1 < b {
      TimesGap(a, b - 1, x);
    }
  }

  lemma TimesPow2(a: nat, b: nat)
    ensures Times(Pow2(a), Pow2(b)) == Pow2(a + b)
  {
    TimesIsMul(Pow2(a), Pow2(b));
    Pow2Split(a, b);
  }
}
