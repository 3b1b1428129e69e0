/** Cyclic redundancy checks over any binary ring: a register is XORed with a symbol and
  multiplied by x^8. The register after a run of symbols is linear in the starting register,
  which is all that zero runs and sliding windows rely on. */
module CrcAlgebra {
  import opened Arithmetic
  import opened BinaryAlgebra

  /** The register after absorbing the symbols one at a time. */
  function Feed<T>(s: Words<T>, state: T, symbols: seq<T>): T {
    if symbols == [] then state
    else Feed(s, Iterate(s, s.xor(state, symbols[0]), 8), symbols[1..])
  }

  lemma FeedOne<T>(s: Words<T>, state: T, symbol: T)
    ensures Feed(s, state, [symbol]) == Iterate(s, s.xor(state, symbol), 8)
  {
    assert [symbol][1..] == [];
  }

  lemma {:induction false} FeedAppend<T>(s: Words<T>, state: T, p: seq<T>, q: seq<T>)
    ensures Feed(s, state, p + q) == Feed(s, Feed(s, state, p), q)
  {
    if p == [] {
      assert p + q == q;
    } else {
      assert (p + q)[1..] == p[1..] + q;
      FeedAppend(s, Iterate(s, s.xor(state, p[0]), 8), p[1..], q);
    }
  }

  lemma {:induction false} FeedXor<T(!new)>(s: Words<T>, state: T, delta: T, symbols: seq<T>)
    requires Lawful(s)
    ensures Feed(s, s.xor(state, delta), symbols)
         == s.xor(Feed(s, state, symbols), Iterate(s, delta, 8 * |symbols|))
  {
    if symbols != [] {
      var c, n := symbols[0], 8 * (|symbols| - 1);
      assert s.xor(s.xor(state, delta), c) == s.xor(s.xor(state, c), delta) by {
        assert s.xor(s.xor(state, delta), c) == s.xor(state, s.xor(delta, c));
        assert s.xor(delta, c) == s.xor(c, delta);
      }
      IterateXor(s, s.xor(state, c), delta, 8);
      FeedXor(s, Iterate(s, s.xor(state, c), 8), Iterate(s, delta, 8), symbols[1..]);
      IterateAdd(s, delta, 8, n);
    }
  }

  function Zeros<T>(s: Words<T>, n: nat): (r: seq<T>) {
    seq(n, _ => s.zero)
  }

  lemma {:induction false} FeedZerosIterate<T(!new)>(s: Words<T>, state: T, n: nat)
    requires Lawful(s)
    ensures Feed(s, state, Zeros(s, n)) == Iterate(s, state, 8 * n)
    decreases n
  {
    if n > 0 {
      assert s.xor(state, s.zero) == state;
      assert Zeros(s, n)[1..] == Zeros(s, n - 1);
      FeedZerosIterate(s, Iterate(s, state, 8), n - 1);
      IterateAdd(s, state, 8, 8 * (n - 1));
    }
  }

  /** Absorbing n zero symbols multiplies the register by x^(8n). */
  lemma FeedZeros<T(!new)>(s: Words<T>, state: T, n: nat)
    requires IsRing(s)
    ensures Feed(s, state, Zeros(s, n)) == Mul(s, state, Power(s, 8 * n))
  {
    FeedZerosIterate(s, state, n);
    MulPower(s, state, 8 * n);
  }

  /** What removing the oldest symbol of an n-symbol window has to add to the register: the
      symbol's own contribution, and the change in the contribution of the starting register. */
  function Removal<T>(s: Words<T>, start: T, coeff: T, oldest: T): T {
    s.xor(Mul(s, Iterate(s, oldest, 8), coeff),
          Mul(s, Mul(s, start, coeff), s.xor(s.one, Power(s, 8))))
  }

  /** Sliding a window by one symbol: absorb the symbol after it, then add `Removal` of the first. */
  lemma FeedSlide<T(!new)>(s: Words<T>, start: T, buffer: seq<T>)
    requires IsRing(s) && buffer != []
    ensures Feed(s, start, buffer[1..])
         == s.xor(Iterate(s, s.xor(Feed(s, start, buffer[..|buffer| - 1]), buffer[|buffer| - 1]), 8),
                  Removal(s, start, Power(s, 8 * (|buffer| - 1)), buffer[0]))
  {
    FeedOver(s, start, buffer);
    FeedFrom(s, Iterate(s, s.xor(start, buffer[0]), 8), start, buffer[1..]);
    RemovalIsDelta(s, start, |buffer| - 1, buffer[0]);
  }

  /** Two runs over the same symbols differ by the shifted difference of their starts. */
  lemma FeedFrom<T(!new)>(s: Words<T>, a: T, b: T, symbols: seq<T>)
    requires Lawful(s)
    ensures Feed(s, b, symbols) == s.xor(Feed(s, a, symbols), Iterate(s, s.xor(a, b), 8 * |symbols|))
  {
    assert s.xor(a, s.xor(a, b)) == b by {
      assert s.xor(a, s.xor(a, b)) == s.xor(s.xor(a, a), b);
      assert s.xor(s.zero, b) == s.xor(b, s.zero);
    }
    FeedXor(s, a, s.xor(a, b), symbols);
  }

  /** A window and the symbol after it, split after the first and before the last symbol. */
  lemma FeedOver<T>(s: Words<T>, start: T, buffer: seq<T>)
    requires buffer != []
    ensures Feed(s, Iterate(s, s.xor(start, buffer[0]), 8), buffer[1..])
         == Iterate(s, s.xor(Feed(s, start, buffer[..|buffer| - 1]), buffer[|buffer| - 1]), 8)
  {
    var n := |buffer| - 1;
    assert buffer == buffer[..n] + [buffer[n]];
    FeedAppend(s, start, buffer[..n], [buffer[n]]);
    FeedOne(s, Feed(s, start, buffer[..n]), buffer[n]);
  }

  lemma RemovalIsDelta<T(!new)>(s: Words<T>, start: T, n: nat, oldest: T)
    requires IsRing(s)
    ensures Iterate(s, s.xor(Iterate(s, s.xor(start, oldest), 8), start), 8 * n)
         == Removal(s, start, Power(s, 8 * n), oldest)
  {
    var coeff, x8 := Power(s, 8 * n), Power(s, 8);
    var a, b := Iterate(s, oldest, 8), Iterate(s, start, 8);
    IterateXor(s, start, oldest, 8);
    assert s.xor(s.xor(b, a), start) == s.xor(a, s.xor(start, b)) by {
      assert s.xor(b, a) == s.xor(a, b);
      assert s.xor(b, start) == s.xor(start, b);
    }
    // start + start * x^8 == start * (1 + x^8)
    MulPower(s, start, 8);
    MulOne(s, start);
    MulDistributes(s, s.one, x8, start);
    var factor := s.xor(s.one, x8);
    assert s.xor(start, b) == Mul(s, start, factor);
    MulPower(s, s.xor(a, Mul(s, start, factor)), 8 * n);
    MulDistributes(s, a, Mul(s, start, factor), coeff);
    // start * (1 + x^8) * coeff == start * coeff * (1 + x^8)
    MulAssociates(s, start, factor, coeff);
    MulCommutes(s, factor, coeff);
    MulAssociates(s, start, coeff, factor);
  }

  // ------------------------------------------------------------------ exponents

  lemma Pow2Of32()
    ensures Pow2(32) == 0x1_0000_0000
  {
    assert Pow2(8) == 0x100;
    Pow2Add(8, 8);
    Pow2Add(16, 16);
  }

  /** x^(2^32 - 1) is 1. */
  ghost predicate Periodic<T(!new)>(s: Words<T>) {
    Power(s, 0xffff_ffff) == s.one
  }

  lemma {:induction false} PowerPeriod<T(!new)>(s: Words<T>, n: nat, k: nat)
    requires Periodic(s)
    ensures Power(s, n + k * 0xffff_ffff) == Power(s, n)
    decreases k
  {
    if k > 0 {
      PowerPeriod(s, n, k - 1);
      var m := n + (k - 1) * 0xffff_ffff;
      IterateAdd(s, s.one, 0xffff_ffff, m);
      assert 0xffff_ffff + m == n + k * 0xffff_ffff;
    }
  }

  lemma PowerReduced<T(!new)>(s: Words<T>, n: nat)
    requires Periodic(s)
    ensures Power(s, 8 * (n % 0xffff_ffff)) == Power(s, 8 * n)
  {
    var k := n / 0xffff_ffff;
    PowerPeriod(s, 8 * (n % 0xffff_ffff), 8 * k);
    assert 8 * n == 8 * (n % 0xffff_ffff) + (8 * k) * 0xffff_ffff;
  }

  /** (i - 3) & 31 */
  function Slot(i: nat): (r: nat)
    ensures r < 32
  {
    (i + 29) % 32
  }

  /** Entry Slot(i) holds x^(2^i), for i below n. */
  ghost predicate IsPowers<T(!new)>(s: Words<T>, power: seq<T>, n: nat) {
    && n <= 32 == |power|
    && forall i {:trigger Slot(i)} :: 0 <= i < n ==> power[Slot(i)] == Power(s, Pow2(i))
  }

  lemma PowersStep<T(!new)>(s: Words<T>, power: seq<T>, i: nat, k: T)
    requires IsPowers(s, power, i) && i < 32 && k == Power(s, Pow2(i))
    ensures IsPowers(s, power[Slot(i) := k], i + 1)
  {
    forall j | 0 <= j < i ensures Slot(j) != Slot(i) {
      SlotsDiffer(j, i);
    }
  }

  lemma SlotsDiffer(i: nat, j: nat)
    requires i < j < 32
    ensures Slot(i) != Slot(j)
  {}

  lemma SquarePower<T(!new)>(s: Words<T>, i: nat)
    requires IsRing(s)
    ensures Mul(s, Power(s, Pow2(i)), Power(s, Pow2(i))) == Power(s, Pow2(i + 1))
  {
    PowerAdd(s, Pow2(i), Pow2(i));
  }

  /** Entry j of the rotated table is x^(8 * 2^j), also where the rotation wrapped. */
  lemma PowerEntry<T(!new)>(s: Words<T>, power: seq<T>, j: nat)
    requires IsPowers(s, power, 32) && Periodic(s) && j < 32
    ensures power[j] == Power(s, 8 * Pow2(j))
  {
    if j <= 28 {
      assert Slot(j + 3) == j;
      EightTimes(j);
    } else {
      WrappedEntry(s, power, j - 29);
    }
  }

  lemma EightTimes(j: nat)
    ensures Pow2(j + 3) == 8 * Pow2(j)
  {
    Pow2Add(j, 3);
    assert Pow2(3) == 8;
  }

  lemma WrappedEntry<T(!new)>(s: Words<T>, power: seq<T>, i: nat)
    requires IsPowers(s, power, 32) && Periodic(s) && i < 3
    ensures power[i + 29] == Power(s, 8 * Pow2(i + 29))
  {
    var w := Pow2(i);
    assert Slot(i) == i + 29;
    assert 8 * Pow2(i + 29) == w + w * 0xffff_ffff by {
      EightTimes(i + 29);
      Pow2Add(i, 32);
      Pow2Of32();
    }
    PowerPeriod(s, w, w);
  }

  // ------------------------------------------------------------------ square and multiply

  /** n * 2^rounds */
  function Doublings(n: nat, rounds: nat): nat {
    if rounds == 0 then n else 2 * Doublings(n, rounds - 1)
  }

  /** After some rounds the low bits of the exponent are done and the rest is still in n. */
  ghost predicate Exponentiated<T(!new)>(s: Words<T>, total: nat, n: nat, rounds: nat, done: nat, result: T) {
    total == Doublings(n, rounds) + done && result == Power(s, 8 * done)
  }

  lemma {:induction false} DoublingsSplit(n: nat, rounds: nat)
    ensures Doublings(n, rounds) == Doublings(n / 2, rounds + 1) + (if n % 2 == 1 then Pow2(rounds) else 0)
  {
    if rounds > 0 {
      DoublingsSplit(n, rounds - 1);
    }
  }

  lemma {:induction false} DoublingsZero(rounds: nat)
    ensures Doublings(0, rounds) == 0
  {
    if rounds > 0 {
      DoublingsZero(rounds - 1);
    }
  }

  lemma {:induction false} DoublingsBound(n: nat, rounds: nat, k: nat)
    requires n > 0 && Doublings(n, rounds) < Pow2(k)
    ensures rounds < k
  {
    if rounds > 0 && k > 0 {
      DoublingsBound(n, rounds - 1, k - 1);
    } else if k == 0 {
      DoublingsPositive(n, rounds);
    }
  }

  lemma {:induction false} DoublingsPositive(n: nat, rounds: nat)
    requires n > 0
    ensures Doublings(n, rounds) > 0
  {
    if rounds > 0 {
      DoublingsPositive(n, rounds - 1);
    }
  }

  lemma ExponentStep<T(!new)>(s: Words<T>, power: seq<T>, total: nat, n: nat, rounds: nat, done: nat, result: T)
    requires IsRing(s) && Periodic(s) && IsPowers(s, power, 32)
    requires Exponentiated(s, total, n, rounds, done, result) && n > 0 && total < 0xffff_ffff
    ensures rounds < 32
    ensures n % 2 == 0 ==> Exponentiated(s, total, n / 2, rounds + 1, done, result)
    ensures n % 2 == 1 ==>
            Exponentiated(s, total, n / 2, rounds + 1, done + Pow2(rounds), Mul(s, result, power[rounds]))
  {
    assert rounds < 32 by {
      Pow2Of32();
      DoublingsBound(n, rounds, 32);
    }
    DoublingsSplit(n, rounds);
    PowerEntry(s, power, rounds);
    PowerAdd(s, 8 * done, 8 * Pow2(rounds));
    assert 8 * (done + Pow2(rounds)) == 8 * done + 8 * Pow2(rounds);
  }

  /** The square-and-multiply loop over the rotated table. */
  function ExpLoop<T>(s: Words<T>, power: seq<T>, n: nat, j: nat, result: T): T
    requires |power| == 32 && j < 32
    decreases n
  {
    if n == 0 then result
    else ExpLoop(s, power, n / 2, (j + 1) % 32, if n % 2 == 1 then Mul(s, result, power[j]) else result)
  }

  lemma {:induction false} ExpLoopPower<T(!new)>(s: Words<T>, power: seq<T>, total: nat, n: nat, rounds: nat, done: nat,
                                                 j: nat, result: T)
    requires IsRing(s) && Periodic(s) && IsPowers(s, power, 32)
    requires Exponentiated(s, total, n, rounds, done, result) && total < 0xffff_ffff
    requires j < 32 && (rounds < 32 ==> j == rounds)
    ensures ExpLoop(s, power, n, j, result) == Power(s, 8 * total)
    decreases n
  {
    if n == 0 {
      DoublingsZero(rounds);
    } else {
      ExponentStep(s, power, total, n, rounds, done, result);
      if n % 2 == 1 {
        ExpLoopPower(s, power, total, n / 2, rounds + 1, done + Pow2(rounds), (j + 1) % 32, Mul(s, result, power[j]));
      } else {
        ExpLoopPower(s, power, total, n / 2, rounds + 1, done, (j + 1) % 32, result);
      }
    }
  }

  lemma ExpLoopCorrect<T(!new)>(s: Words<T>, power: seq<T>, n: nat)
    requires IsRing(s) && Periodic(s) && IsPowers(s, power, 32)
    ensures ExpLoop(s, power, n % 0xffff_ffff, 0, s.one) == Power(s, 8 * n)
  {
    var m := n % 0xffff_ffff;
    ExpLoopPower(s, power, m, m, 0, 0, 0, s.one);
    PowerReduced(s, n);
  }
}
