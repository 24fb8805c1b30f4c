/** Powers of two, and division as the binary representations need it. */
module Powers {
  function Pow2(n: nat): (p: nat)
    ensures p > 0
  {
    if n == 0 then 1 else 2 * Pow2(n - 1)
  }

  lemma {:induction false} Pow2Less(a: nat, b: nat)
    requires a < b
    ensures 2 * Pow2(a) <= Pow2(b)
  {
    if a + 1 < b {
      Pow2Less(a, b - 1);
    }
  }

  lemma {:induction false} Pow2Sum(a: nat, b: nat)
    ensures Pow2(a + b) == Pow2(a) * Pow2(b)
  {
    if a > 0 {
      Pow2Sum(a - 1, b);
      assert Pow2(a) * Pow2(b) == 2 * (Pow2(a - 1) * Pow2(b));
    }
  }

  lemma Distribute(a: int, b: int, p: int)
    ensures (a + b) * p == a * p + b * p
  {
  }

  lemma {:induction false} Multiples(a: nat, b: nat, p: nat)
    ensures a < b ==> a * p + p <= b * p
  {
    if a + 1 < b {
      Multiples(a, b - 1, p);
    }
  }

  /** Division with its remainder is unique. */
  lemma QuotientIs(x: nat, p: nat, q: nat, r: nat)
    requires p > 0 && r < p && x == q * p + r
    ensures x / p == q && x % p == r
  {
    Multiples(x / p, q, p);
    Multiples(q, x / p, p);
  }

  lemma AddMultiples(x: nat, k: nat, p: nat)
    requires p > 0
    ensures x + k * p >= 0 && (x + k * p) / p == x / p + k && (x + k * p) % p == x % p
  {
    Distribute(x / p, k, p);
    assert x == (x / p) * p + x % p;
    Multiples(0, k, p);
    QuotientIs(x + k * p, p, x / p + k, x % p);
  }

  lemma DivMod(x: nat, p: nat)
    requires p > 0
    ensures x == (x / p) * p + x % p && 0 <= x / p <= x
  {
    Multiples(0, p, x / p);
  }

  lemma Reassociate(a: nat, b: nat, c: nat)
    ensures a * (b * c) == (a * b) * c
  {
  }

  /** Dividing twice. */
  lemma DivDiv(x: nat, a: nat, b: nat)
    requires a > 0 && b > 0
    ensures a * b > 0 && x / a / b == x / (a * b)
  {
    var q, r := x / a, x % a;
    DivMod(x, a);
    DivMod(q, b);
    Reassociate(q / b, b, a);
    Distribute(q / b * b, q % b, a);
    Remainder(q % b, r, a, b);
    QuotientIs(x, a * b, q / b, q % b * a + r);
  }

  lemma Remainder(q: nat, r: nat, a: nat, b: nat)
    requires q < b && r < a
    ensures q * a + r < a * b
  {
    Multiples(q, b, a);
  }
}
