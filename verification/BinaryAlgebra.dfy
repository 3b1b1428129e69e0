/** Arithmetic of polynomials with coefficients in {0, 1}, reduced modulo a fixed polynomial.

  CRC-32 states, the elements of GF(2^8) and the elements of GF(2^16) are all words that are
  added by exclusive or and multiplied by the indeterminate x through one linear "shift" step.
  Everything the program does with them is a sum of shifted copies of a word, `Combine`.
  The ring laws follow from linearity of the shift and from one word standing for 1, so they
  are proved here once, for any word format. */
module BinaryAlgebra {

  /** A word format: `shift` multiplies by x, `bits` lists the coefficients of a word, lowest
      power of x first. */
  datatype Words<!T> = Words(zero: T, one: T, xor: (T, T) -> T, shift: T -> T, bits: T -> seq<bool>)

  ghost predicate Additive<T(!new)>(s: Words<T>) {
    && (forall a, b {:trigger s.xor(a, b), s.xor(b, a)} :: s.xor(a, b) == s.xor(b, a))
    && (forall a, b, c {:trigger s.xor(s.xor(a, b), c), s.xor(a, s.xor(b, c))} ::
          s.xor(s.xor(a, b), c) == s.xor(a, s.xor(b, c)))
    && (forall a :: s.xor(a, s.zero) == a)
    && (forall a :: s.xor(a, a) == s.zero)
  }

  ghost predicate Linear<T(!new)>(s: Words<T>) {
    forall a, b {:trigger s.shift(s.xor(a, b))} :: s.shift(s.xor(a, b)) == s.xor(s.shift(a), s.shift(b))
  }

  /** Every word is the sum of the powers of x that its coefficients select. */
  ghost predicate Unital<T(!new)>(s: Words<T>) {
    forall a :: Combine(s, s.one, s.bits(a)) == a
  }

  ghost predicate Lawful<T(!new)>(s: Words<T>) {
    Additive(s) && Linear(s)
  }

  ghost predicate IsRing<T(!new)>(s: Words<T>) {
    Lawful(s) && Unital(s)
  }

  /** The word `a` if the coefficient is one, zero otherwise. */
  function Scale<T>(s: Words<T>, bit: bool, a: T): T {
    if bit then a else s.zero
  }

  /** `shift` applied n times: multiplication by x^n. */
  function Iterate<T>(s: Words<T>, a: T, n: nat): T
    decreases n, s
  {
    if n == 0 then a else s.shift(Iterate(s, a, n - 1))
  }

  /** The sum of the words shift^i(a) for which bits[i] is set: the product of `a` with the
      polynomial whose coefficients are `bits`. */
  function Combine<T>(s: Words<T>, a: T, bits: seq<bool>): T {
    if bits == [] then s.zero
    else s.xor(Scale(s, bits[0], a), Combine(s, s.shift(a), bits[1..]))
  }

  function Mul<T>(s: Words<T>, a: T, b: T): T {
    Combine(s, a, s.bits(b))
  }

  /** x^n */
  function Power<T>(s: Words<T>, n: nat): T {
    Iterate(s, s.one, n)
  }

  // ------------------------------------------------------------------ sums of shifted copies

  lemma ShiftZero<T(!new)>(s: Words<T>)
    requires Lawful(s)
    ensures s.shift(s.zero) == s.zero
  {
    assert s.xor(s.zero, s.zero) == s.zero;
    assert s.shift(s.xor(s.zero, s.zero)) == s.xor(s.shift(s.zero), s.shift(s.zero));
  }

  /** (a + b) + (c + d) == (a + c) + (b + d) */
  lemma Interchange<T(!new)>(s: Words<T>, a: T, b: T, c: T, d: T)
    requires Additive(s)
    ensures s.xor(s.xor(a, b), s.xor(c, d)) == s.xor(s.xor(a, c), s.xor(b, d))
  {
    calc {
      s.xor(s.xor(a, b), s.xor(c, d));
      s.xor(a, s.xor(b, s.xor(c, d)));
      s.xor(a, s.xor(s.xor(b, c), d));
      s.xor(a, s.xor(s.xor(c, b), d));
      s.xor(a, s.xor(c, s.xor(b, d)));
      s.xor(s.xor(a, c), s.xor(b, d));
    }
  }

  lemma {:induction false} CombineShift<T(!new)>(s: Words<T>, a: T, bits: seq<bool>)
    requires Lawful(s)
    ensures Combine(s, s.shift(a), bits) == s.shift(Combine(s, a, bits))
  {
    ShiftZero(s);
    if bits != [] {
      CombineShift(s, s.shift(a), bits[1..]);
      assert s.shift(Combine(s, a, bits))
          == s.xor(s.shift(Scale(s, bits[0], a)), s.shift(Combine(s, s.shift(a), bits[1..])));
    }
  }

  lemma {:induction false} CombineIterate<T(!new)>(s: Words<T>, a: T, bits: seq<bool>, n: nat)
    requires Lawful(s)
    ensures Combine(s, Iterate(s, a, n), bits) == Iterate(s, Combine(s, a, bits), n)
  {
    if n > 0 {
      CombineIterate(s, a, bits, n - 1);
      CombineShift(s, Iterate(s, a, n - 1), bits);
    }
  }

  lemma {:induction false} CombineZero<T(!new)>(s: Words<T>, bits: seq<bool>)
    requires Lawful(s)
    ensures Combine(s, s.zero, bits) == s.zero
  {
    ShiftZero(s);
    if bits != [] {
      CombineZero(s, bits[1..]);
    }
  }

  lemma {:induction false} CombineXor<T(!new)>(s: Words<T>, a: T, b: T, bits: seq<bool>)
    requires Lawful(s)
    ensures Combine(s, s.xor(a, b), bits) == s.xor(Combine(s, a, bits), Combine(s, b, bits))
  {
    if bits != [] {
      var rest := bits[1..];
      CombineXor(s, s.shift(a), s.shift(b), rest);
      Interchange(s, Scale(s, bits[0], a), Scale(s, bits[0], b),
                  Combine(s, s.shift(a), rest), Combine(s, s.shift(b), rest));
    }
  }

  lemma CombineScale<T(!new)>(s: Words<T>, bit: bool, a: T, bits: seq<bool>)
    requires Lawful(s)
    ensures Combine(s, Scale(s, bit, a), bits) == Scale(s, bit, Combine(s, a, bits))
  {
    CombineZero(s, bits);
  }

  /** One more coefficient adds one more shifted copy. */
  lemma {:induction false} CombineAppend<T(!new)>(s: Words<T>, a: T, bits: seq<bool>, bit: bool)
    requires Lawful(s)
    ensures Combine(s, a, bits + [bit])
         == s.xor(Combine(s, a, bits), Scale(s, bit, Iterate(s, a, |bits|)))
  {
    if bits == [] {
      assert (bits + [bit])[1..] == [];
      assert s.xor(s.zero, Scale(s, bit, a)) == s.xor(Scale(s, bit, a), s.zero);
    } else {
      assert (bits + [bit])[1..] == bits[1..] + [bit];
      CombineAppend(s, s.shift(a), bits[1..], bit);
      IterateShift(s, a, |bits| - 1);
    }
  }

  /** A sum of shifted copies can be accumulated from the lowest coefficient up. */
  lemma {:induction false} CombineAccumulates<T(!new)>(s: Words<T>, a: T, bits: seq<bool>, acc: nat -> T, n: nat)
    requires Lawful(s) && n <= |bits| && acc(0) == s.zero
    requires forall i: nat :: i < n ==> acc(i + 1) == s.xor(acc(i), Scale(s, bits[i], Iterate(s, a, i)))
    ensures Combine(s, a, bits[..n]) == acc(n)
  {
    if n > 0 {
      CombineAccumulates(s, a, bits, acc, n - 1);
      assert bits[..n] == bits[..n - 1] + [bits[n - 1]];
      CombineAppend(s, a, bits[..n - 1], bits[n - 1]);
    }
  }

  lemma {:induction false} IterateShift<T>(s: Words<T>, a: T, n: nat)
    ensures Iterate(s, s.shift(a), n) == Iterate(s, a, n + 1)
  {
    if n > 0 {
      IterateShift(s, a, n - 1);
    }
  }

  lemma {:induction false} IterateAdd<T>(s: Words<T>, a: T, m: nat, n: nat)
    ensures Iterate(s, Iterate(s, a, m), n) == Iterate(s, a, m + n)
  {
    if n > 0 {
      IterateAdd(s, a, m, n - 1);
    }
  }

  lemma {:induction false} IterateXor<T(!new)>(s: Words<T>, a: T, b: T, n: nat)
    requires Lawful(s)
    ensures Iterate(s, s.xor(a, b), n) == s.xor(Iterate(s, a, n), Iterate(s, b, n))
  {
    if n > 0 {
      IterateXor(s, a, b, n - 1);
    }
  }

  /** (a * p) * q == (a * q) * p, whatever word a is and whatever polynomials p and q are.
      Commutativity and associativity of the word multiplication are instances of this. */
  lemma {:induction false} CombineExchange<T(!new)>(s: Words<T>, a: T, p: seq<bool>, q: seq<bool>)
    requires Lawful(s)
    ensures Combine(s, Combine(s, a, p), q) == Combine(s, Combine(s, a, q), p)
  {
    if p == [] {
      CombineZero(s, q);
    } else {
      var rest := p[1..];
      CombineXor(s, Scale(s, p[0], a), Combine(s, s.shift(a), rest), q);
      CombineScale(s, p[0], a, q);
      CombineExchange(s, s.shift(a), rest, q);
      CombineShift(s, a, q);
    }
  }

  // ------------------------------------------------------------------ the ring laws

  lemma MulCommutes<T(!new)>(s: Words<T>, a: T, b: T)
    requires IsRing(s)
    ensures Mul(s, a, b) == Mul(s, b, a)
  {
    CombineExchange(s, s.one, s.bits(a), s.bits(b));
  }

  lemma MulAssociates<T(!new)>(s: Words<T>, a: T, b: T, c: T)
    requires IsRing(s)
    ensures Mul(s, Mul(s, a, b), c) == Mul(s, a, Mul(s, b, c))
  {
    MulCommutes(s, a, b);
    CombineExchange(s, b, s.bits(a), s.bits(c));
    MulCommutes(s, a, Mul(s, b, c));
  }

  lemma MulDistributes<T(!new)>(s: Words<T>, a: T, b: T, c: T)
    requires IsRing(s)
    ensures Mul(s, s.xor(a, b), c) == s.xor(Mul(s, a, c), Mul(s, b, c))
    ensures Mul(s, c, s.xor(a, b)) == s.xor(Mul(s, c, a), Mul(s, c, b))
  {
    CombineXor(s, a, b, s.bits(c));
    MulCommutes(s, s.xor(a, b), c);
    MulCommutes(s, a, c);
    MulCommutes(s, b, c);
  }

  lemma MulOne<T(!new)>(s: Words<T>, a: T)
    requires IsRing(s)
    ensures Mul(s, a, s.one) == a == Mul(s, s.one, a)
  {
    MulCommutes(s, a, s.one);
  }

  /** Multiplying by x^n is n shifts. */
  lemma MulPower<T(!new)>(s: Words<T>, a: T, n: nat)
    requires IsRing(s)
    ensures Mul(s, a, Power(s, n)) == Iterate(s, a, n)
    ensures Mul(s, Power(s, n), a) == Iterate(s, a, n)
  {
    MulCommutes(s, a, Power(s, n));
    CombineIterate(s, s.one, s.bits(a), n);
  }

  lemma PowerAdd<T(!new)>(s: Words<T>, m: nat, n: nat)
    requires IsRing(s)
    ensures Mul(s, Power(s, m), Power(s, n)) == Power(s, m + n)
  {
    MulPower(s, Power(s, m), n);
    IterateAdd(s, s.one, m, n);
  }
}
