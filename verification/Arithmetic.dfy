/** Multiplication and division of natural numbers by repeated addition and subtraction, with the
  laws that sizes and offsets are reasoned with. */
module Arithmetic {

  function CeilDiv(a: nat, b: nat): nat
    requires b > 0
  {
    Quot(a + b - 1, b)
  }

  function RoundDiv(a: nat, b: nat): nat
    requires b > 0
  {
    Quot(a + b / 2, b)
  }

  function Min(a: nat, b: nat): nat { if a <= b then a else b }

  /** a * b, as repeated addition. */
  function Prod(a: nat, b: nat): nat
    decreases a
  {
    if a == 0 then 0 else Prod(a - 1, b) + b
  }

  lemma {:induction false} ProdIs(a: nat, b: nat)
    ensures Prod(a, b) == a * b
  {
    if a > 0 {
      ProdIs(a - 1, b);
      assert (a - 1) * b + b == a * b;
    }
  }

  lemma {:induction false} ProdAdd(a: nat, b: nat, n: nat)
    ensures Prod(a + b, n) == Prod(a, n) + Prod(b, n)
  {
    if b > 0 { ProdAdd(a, b - 1, n); }
  }

  lemma ProdLess(a: nat, b: nat, n: nat)
    requires a < b
    ensures Prod(a, n) + n <= Prod(b, n)
  {
    ProdAdd(a + 1, b - a - 1, n);
  }

  /** The order of two products, without a case split. */
  lemma ProdOrder(a: nat, b: nat, n: nat)
    ensures a < b ==> Prod(a, n) + n <= Prod(b, n)
    ensures b < a ==> Prod(b, n) + n <= Prod(a, n)
  {
    if a < b { ProdLess(a, b, n); }
    if b < a { ProdLess(b, a, n); }
  }

  lemma {:induction false} ProdSucc(a: nat, b: nat)
    ensures Prod(a, b + 1) == Prod(a, b) + a
  {
    if a > 0 { ProdSucc(a - 1, b); }
  }

  lemma {:induction false} ProdCommutes(a: nat, b: nat)
    ensures Prod(a, b) == Prod(b, a)
  {
    if b == 0 {
      if a > 0 { ProdCommutes(a - 1, b); }
    } else {
      ProdCommutes(a, b - 1);
      ProdSucc(a, b - 1);
    }
  }

  lemma {:induction false} ProdSwap(a: nat, b: nat, n: nat)
    ensures Prod(Prod(a, b), n) == Prod(Prod(a, n), b)
  {
    if a > 0 {
      ProdSwap(a - 1, b, n);
      ProdAdd(Prod(a - 1, b), b, n);
      ProdAdd(Prod(a - 1, n), n, b);
      ProdCommutes(b, n);
    }
  }

  /** a / b, as repeated subtraction. */
  function Quot(a: nat, b: nat): nat
    requires b > 0
    decreases a
  {
    if a < b then 0 else Quot(a - b, b) + 1
  }

  function Rem(a: nat, b: nat): (r: nat)
    requires b > 0
    ensures r < b
    decreases a
  {
    if a < b then a else Rem(a - b, b)
  }

  lemma {:induction false} QuotRem(a: nat, b: nat)
    requires b > 0
    ensures a == Prod(Quot(a, b), b) + Rem(a, b)
    decreases a
  {
    if a >= b { QuotRem(a - b, b); }
  }

  /** Quotient and remainder are unique. */
  lemma QuotUnique(a: nat, b: nat, q: nat, r: nat)
    requires b > 0 && a == Prod(q, b) + r && r < b
    ensures Quot(a, b) == q && Rem(a, b) == r
  {
    QuotRem(a, b);
    ProdOrder(Quot(a, b), q, b);
  }

  /** They are the quotient and remainder of the machine. */
  lemma QuotIs(a: nat, b: nat)
    requires b > 0
    ensures Quot(a, b) == a / b && Rem(a, b) == a % b
  {
    ProdIs(a / b, b);
    QuotUnique(a, b, a / b, a % b);
  }

  lemma CeilDivIs(a: nat, b: nat)
    requires b > 0
    ensures CeilDiv(a, b) == (a + b - 1) / b
  {
    QuotIs(a + b - 1, b);
  }

  lemma CeilDivBounds(a: nat, b: nat)
    requires a > 0 && b > 0
    ensures var q := CeilDiv(a, b); q > 0 && Prod(q - 1, b) < a <= Prod(q, b)
  {
    QuotRem(a + b - 1, b);
  }

  lemma ProdMonotone(a: nat, b: nat, n: nat)
    requires a <= b
    ensures Prod(a, n) <= Prod(b, n)
  {
    if a < b { ProdLess(a, b, n); }
  }

  lemma ProdAssoc(a: nat, b: nat, n: nat)
    ensures Prod(Prod(a, b), n) == Prod(a, Prod(b, n))
  {
    ProdCommutes(Prod(a, b), n);
    ProdCommutes(a, b);
    ProdSwap(b, a, n);
    ProdCommutes(Prod(b, n), a);
  }

  /** A quotient rounded up is at most k exactly when k times the divisor is enough. */
  lemma CeilDivAtMost(a: nat, b: nat, k: nat)
    requires b > 0
    ensures CeilDiv(a, b) <= k <==> a <= Prod(k, b)
  {
    QuotRem(a + b - 1, b);
    ProdOrder(CeilDiv(a, b), k, b);
  }

  lemma {:induction false} ProdScales(k: nat, s: nat, t: nat)
    requires s <= t
    ensures Prod(k, s) <= Prod(k, t)
  {
    if k > 0 { ProdScales(k - 1, s, t); }
  }

  // ---------------------------------------------------------------------- powers of two

  function Pow2(n: nat): (r: nat)
    ensures r >= 1
  {
    if n == 0 then 1 else 2 * Pow2(n - 1)
  }

  lemma {:induction false} Pow2Add(m: nat, n: nat)
    ensures Pow2(m + n) == Pow2(m) * Pow2(n)
  {
    if n > 0 {
      Pow2Add(m, n - 1);
    }
  }

  lemma {:induction false} Pow2Monotone(m: nat, n: nat)
    ensures m <= n ==> Pow2(m) <= Pow2(n)
  {
    if m < n {
      Pow2Monotone(m, n - 1);
    }
  }
}
