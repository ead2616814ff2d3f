/** Sizes in bytes are products of a count and a unit; they are spelt as repeated sums, which keeps proofs linear. */
module Products {
  function Times(n: nat, unit: nat): nat {
    if n == 0 then 0 else Times(n - 1, unit) + unit
  }

  lemma {:induction false} TimesIsProduct(n: nat, unit: nat)
    ensures Times(n, unit) == n * unit
  {
    if n > 0 {
      TimesIsProduct(n - 1, unit);
    }
  }

  lemma {:induction false} Distribute(a: nat, b: nat, unit: nat)
    ensures Times(a + b, unit) == Times(a, unit) + Times(b, unit)
  {
    TimesIsProduct(a + b, unit);
    TimesIsProduct(a, unit);
    TimesIsProduct(b, unit);
  }

  lemma {:induction false} LessEqual(a: nat, b: nat, unit: nat)
    ensures a <= b ==> Times(a, unit) <= Times(b, unit)
  {
    if a <= b {
      Distribute(a, b - a, unit);
    }
  }

  lemma {:induction false} LessCancel(a: nat, b: nat, unit: nat)
    requires Times(a, unit) < Times(b, unit)
    ensures a < b
  {
    LessEqual(b, a, unit);
  }

  lemma {:induction false} Multiples(d: nat, e: int)
    ensures 1 <= e ==> d <= d * e
    ensures e <= -1 ==> d * e <= 0 - d
  {
  }

  /** How many units fit into x. */
  function Wholes(x: nat, unit: nat): nat
    requires 0 < unit
  {
    x / unit
  }

  /** What remains of x then. */
  function Left(x: nat, unit: nat): nat
    requires 0 < unit
  {
    x % unit
  }

  /** Quotient and remainder are unique. */
  lemma {:induction false} DivMod(q: nat, r: nat, d: nat)
    requires r < d
    ensures (Times(q, d) + r) / d == q && (Times(q, d) + r) % d == r
  {
    TimesIsProduct(q, d);
    var x := q * d + r;
    assert d * (x / d) + x % d == x;
    assert d * (x / d - q) == r - x % d;
    Multiples(d, x / d - q);
  }

  lemma {:induction false} DivModBack(x: nat, d: nat)
    requires 0 < d
    ensures x == Times(x / d, d) + x % d
  {
    TimesIsProduct(x / d, d);
  }

  lemma {:induction false} Quotient(x: nat, d: nat, q: nat, r: nat)
    requires 0 < d && q == x / d && r == x % d
    ensures x == Times(q, d) + r && r < d
  {
    DivModBack(x, d);
  }
}
