/** Multiplication by shifting one factor and consuming the bits of the other, as a loop over any
  kind of state. */
module ShiftAndAdd {
  import opened BinaryAlgebra

  datatype Machine<!S, !T> = Machine(step: S -> S, factor: S -> T, total: S -> T, bits: S -> seq<bool>)

  /** A step shifts the factor, adds it to the total if the first bit says so, and drops that bit. */
  ghost predicate Works<S(!new), T(!new)>(s: Words<T>, m: Machine<S, T>, width: nat) {
    && width > 0 && (forall x {:trigger m.bits(x)} :: |m.bits(x)| == width)
    && (forall x {:trigger m.factor(m.step(x))} :: m.factor(m.step(x)) == s.shift(m.factor(x)))
    && (forall x {:trigger m.total(m.step(x))} ::
        m.total(m.step(x)) == s.xor(m.total(x), Scale(s, m.bits(x)[0], m.factor(x))))
    && (forall x, i: nat {:trigger m.bits(m.step(x))[i]} :: i < width - 1 ==> m.bits(m.step(x))[i] == m.bits(x)[i + 1])
  }

  function Steps<S, T>(m: Machine<S, T>, x: S, n: nat): S
    decreases n
  {
    if n == 0 then x else Steps(m, m.step(x), n - 1)
  }

  /** n steps add the product of the factor with the n leading bits. */
  lemma {:induction false} StepsAdd<S(!new), T(!new)>(s: Words<T>, m: Machine<S, T>, x: S, n: nat, width: nat)
    requires Lawful(s) && Works(s, m, width) && n <= width
    ensures m.total(Steps(m, x, n)) == s.xor(m.total(x), Combine(s, m.factor(x), m.bits(x)[..n]))
    decreases n
  {
    if n == 0 {
      assert s.xor(m.total(x), s.zero) == m.total(x);
    } else {
      var y := m.step(x);
      StepsAdd(s, m, y, n - 1, width);
      assert m.bits(y)[..n - 1] == m.bits(x)[..n][1..];
      assert s.xor(s.xor(m.total(x), Scale(s, m.bits(x)[0], m.factor(x))), Combine(s, m.factor(y), m.bits(y)[..n - 1]))
          == s.xor(m.total(x), s.xor(Scale(s, m.bits(x)[0], m.factor(x)), Combine(s, m.factor(y), m.bits(y)[..n - 1])));
    }
  }

  lemma StepsMultiply<S(!new), T(!new)>(s: Words<T>, m: Machine<S, T>, x: S, width: nat)
    requires Lawful(s) && Works(s, m, width) && m.total(x) == s.zero
    ensures m.total(Steps(m, x, width)) == Combine(s, m.factor(x), m.bits(x))
  {
    StepsAdd(s, m, x, width, width);
    assert m.bits(x)[..width] == m.bits(x);
    assert s.xor(s.zero, Combine(s, m.factor(x), m.bits(x))) == s.xor(Combine(s, m.factor(x), m.bits(x)), s.zero);
  }
}

/** The polynomial of src/crc.cpp:39 has period 2^32 - 1: x^(2^32) = x.

  The 27 squarings that lead from x^32 to x^(2^32) are evaluated on machine words; the words
  are then read as lists of bits. */
module Crc32Period {
  import opened BinaryAlgebra
  import opened BitWords
  import opened CrcAlgebra
  import opened ShiftAndAdd

  const POLYNOMIAL: bv32 := 0xEDB88320

  // ---------------------------------------------------------------------- bits of a machine word

  /** The mask of position i, counted from the most significant bit. */
  function Unit(i: nat): bv32 {
    if i == 0 then 0x8000_0000 else Unit(i - 1) >> 1
  }

  predicate Single(u: bv32) { u != 0 && u & (u - 1) == 0 }

  lemma UnitSingle(i: nat)
    requires i < 32
    ensures Single(Unit(i)) && (Unit(i) == 1 <==> i == 31) && (Unit(i) == 0x8000_0000 <==> i == 0)
  {
    assert Unit(0) == 0x80000000; assert Unit(1) == 0x40000000; assert Unit(2) == 0x20000000;
    assert Unit(3) == 0x10000000;
    assert Unit(4) == 0x08000000; assert Unit(5) == 0x04000000; assert Unit(6) == 0x02000000;
    assert Unit(7) == 0x01000000;
    assert Unit(8) == 0x00800000; assert Unit(9) == 0x00400000; assert Unit(10) == 0x00200000;
    assert Unit(11) == 0x00100000;
    assert Unit(12) == 0x00080000; assert Unit(13) == 0x00040000; assert Unit(14) == 0x00020000;
    assert Unit(15) == 0x00010000;
    assert Unit(16) == 0x00008000; assert Unit(17) == 0x00004000; assert Unit(18) == 0x00002000;
    assert Unit(19) == 0x00001000;
    assert Unit(20) == 0x00000800; assert Unit(21) == 0x00000400; assert Unit(22) == 0x00000200;
    assert Unit(23) == 0x00000100;
    assert Unit(24) == 0x00000080; assert Unit(25) == 0x00000040; assert Unit(26) == 0x00000020;
    assert Unit(27) == 0x00000010;
    assert Unit(28) == 0x00000008; assert Unit(29) == 0x00000004; assert Unit(30) == 0x00000002;
    assert Unit(31) == 0x00000001;
  }

  /** The bit of a word that a mask selects. */
  predicate On(w: bv32, u: bv32) { w & u != 0 }

  predicate Bit(w: bv32, i: nat) { On(w, Unit(i)) }

  function List(w: bv32): (r: Bits32)
    ensures forall i :: 0 <= i < 32 ==> r[i] == Bit(w, i)
  {
    seq(32, i requires 0 <= i < 32 => Bit(w, i))
  }

  lemma XorAt(a: bv32, b: bv32, u: bv32)
    requires Single(u)
    ensures (a ^ b) & u != 0 <==> (a & u != 0) != (b & u != 0)
  {}

  lemma ListXor(a: bv32, b: bv32)
    ensures List(a ^ b) == XorBits(List(a), List(b))
  {
    forall i | 0 <= i < 32 ensures List(a ^ b)[i] == XorBits(List(a), List(b))[i] {
      UnitSingle(i);
      XorAt(a, b, Unit(i));
    }
  }

  /** Multiply by x, as the table constructor does. */
  function TimesX(a: bv32): bv32 {
    (a >> 1) ^ (if a & 1 != 0 then POLYNOMIAL else 0)
  }

  predicate Halved(a: bv32, half: bv32) { half == a >> 1 }

  predicate Doubled(b: bv32, twice: bv32) { twice == b << 1 }

  /** A mask that is not the last one. */
  predicate Inner(u: bv32) { Single(u) && u != 1 }

  lemma HalfAt(a: bv32, half: bv32, u: bv32, v: bv32)
    requires Halved(a, half) && Inner(u) && Halved(u, v)
    ensures On(half, v) <==> On(a, u)
  {}

  lemma DoubledAt(b: bv32, twice: bv32, u: bv32, v: bv32)
    requires Doubled(b, twice) && Inner(u) && Halved(u, v)
    ensures On(twice, u) <==> On(b, v)
  {}

  lemma UnitStep(i: nat)
    requires i < 31
    ensures Inner(Unit(i)) && Halved(Unit(i), Unit(i + 1))
  {
    UnitSingle(i);
  }

  lemma TopAt(a: bv32, half: bv32)
    requires Halved(a, half)
    ensures !On(half, Unit(0))
  {}

  lemma ListHalf(a: bv32, half: bv32, i: nat)
    requires i < 32 && Halved(a, half)
    ensures List(half)[i] == (i > 0 && List(a)[i - 1])
  {
    hide On, Halved, Inner, Unit;
    if i == 0 {
      TopAt(a, half);
    } else {
      UnitStep(i - 1);
      HalfAt(a, half, Unit(i - 1), Unit(i));
    }
  }

  lemma NothingAt(u: bv32)
    ensures (0 as bv32) & u == 0
  {}

  lemma ListZero()
    ensures List(0) == ZeroBits(32)
  {
    forall i | 0 <= i < 32 ensures !List(0)[i] { NothingAt(Unit(i)); }
  }

  lemma LastBit(a: bv32)
    ensures List(a)[31] == (a & 1 != 0)
  {
    UnitSingle(31);
  }

  lemma TimesXIsShift(a: bv32)
    ensures List(TimesX(a)) == ShiftBits(List(POLYNOMIAL), List(a))
  {
    ListXor(a >> 1, if a & 1 != 0 then POLYNOMIAL else 0);
    ListZero();
    LastBit(a);
    var whole, half := List(a), List(a >> 1);
    forall i: nat | i < 32 ensures half[i] == (i > 0 && whole[i - 1]) { ListHalf(a, a >> 1, i); }
    SameShift(List(POLYNOMIAL), whole, half, List(TimesX(a)));
  }

  lemma SameShift(p: Bits32, a: Bits32, half: Bits32, r: Bits32)
    requires forall i: nat :: i < 32 ==> half[i] == (i > 0 && a[i - 1])
    requires r == XorBits(half, if a[31] then p else ZeroBits(32))
    ensures r == ShiftBits(p, a)
  {}

  lemma ListDoubled(b: bv32, twice: bv32, i: nat)
    requires i < 31 && Doubled(b, twice)
    ensures List(twice)[i] == List(b)[i + 1]
  {
    hide On, Halved, Doubled, Inner, Unit;
    UnitStep(i);
    DoubledAt(b, twice, Unit(i), Unit(i + 1));
  }

  // ---------------------------------------------------------------------- multiplication of machine words

  function Selected(b: bv32, a: bv32): bv32 {
    if b & 0x8000_0000 != 0 then a else 0
  }

  /** The variables of the loop of src/crc.cpp:44-55. */
  datatype State = State(a: bv32, b: bv32, product: bv32)

  function Round(s: State): State {
    State(TimesX(s.a), s.b << 1, s.product ^ Selected(s.b, s.a))
  }

  function Rounds(s: State, n: nat): State
    decreases n
  {
    if n == 0 then s else Rounds(Round(s), n - 1)
  }

  function Rounds4(s: State, n: nat): State
    decreases n
  {
    if n == 0 then s else Rounds4(Rounds(s, 4), n - 1)
  }

  lemma {:induction false} RoundsAdd(s: State, m: nat, n: nat)
    ensures Rounds(s, m + n) == Rounds(Rounds(s, m), n)
    decreases m
  {
    if m > 0 { RoundsAdd(Round(s), m - 1, n); }
  }

  lemma {:induction false} Rounds4Is(s: State, n: nat)
    ensures Rounds4(s, n) == Rounds(s, 4 * n)
    decreases n
  {
    if n > 0 {
      RoundsAdd(s, 4, 4 * n - 4);
      Rounds4Is(Rounds(s, 4), n - 1);
    }
  }

  function Ring(): Words<Bits32> { Ring32(List(POLYNOMIAL)) }

  lemma ListSelected(b: bv32, a: bv32)
    ensures List(Selected(b, a)) == Scale(Ring(), List(b)[0], List(a))
  {
    ListZero();
  }

  lemma RoundShifts(s: State)
    ensures List(Round(s).a) == Ring().shift(List(s.a))
  {
    TimesXIsShift(s.a);
  }

  lemma RoundSelects(s: State)
    ensures List(Round(s).product) == Ring().xor(List(s.product), Scale(Ring(), List(s.b)[0], List(s.a)))
  {
    ListXor(s.product, Selected(s.b, s.a));
    ListSelected(s.b, s.a);
  }

  lemma RoundConsumes(s: State, i: nat)
    requires i < 31
    ensures List(Round(s).b)[i] == List(s.b)[i + 1]
  {
    ListDoubled(s.b, Round(s).b, i);
  }

  function Multiplier(): Machine<State, Bits32> {
    Machine((s: State) => Round(s), (s: State) => List(s.a), (s: State) => List(s.product), (s: State) => List(s.b))
  }

  lemma MultiplierWorks()
    ensures Works(Ring(), Multiplier(), 32)
  {
    var m := Multiplier();
    forall s: State ensures m.factor(m.step(s)) == Ring().shift(m.factor(s)) { RoundShifts(s); }
    forall s: State ensures m.total(m.step(s)) == Ring().xor(m.total(s), Scale(Ring(), m.bits(s)[0], m.factor(s))) {
      RoundSelects(s); }
    forall s: State, i: nat | i < 31 ensures m.bits(m.step(s))[i] == m.bits(s)[i + 1] { RoundConsumes(s, i); }
  }

  lemma {:induction false} RoundsAreSteps(s: State, n: nat)
    ensures Rounds(s, n) == Steps(Multiplier(), s, n)
    decreases n
  {
    if n > 0 { RoundsAreSteps(Round(s), n - 1); }
  }

  lemma ProductIs(s: State, n: nat)
    requires s.product == 0 && n == 8
    ensures List(Rounds4(s, n).product) == Mul(Ring(), List(s.a), List(s.b))
  {
    Rounds4Is(s, n);
    RoundsAreSteps(s, 4 * n);
    ListZero();
    Ring32Lawful(List(POLYNOMIAL));
    MultiplierWorks();
    StepsMultiply(Ring(), Multiplier(), s, 32);
  }

  // ---------------------------------------------------------------------- the powers x^(2^k)

  ghost predicate IsPower(n: nat, w: bv32) {
    Power(Ring(), n) == List(w)
  }

  lemma Square(n: nat, w: bv32, r: bv32, k: nat)
    requires IsPower(n, w) && Rounds4(State(w, w, 0), k).product == r && k == 8
    ensures IsPower(2 * n, r)
  {
    ProductIs(State(w, w, 0), k);
    Ring32IsRing(List(POLYNOMIAL));
    PowerAdd(Ring(), n, n);
  }

  lemma First()
    ensures IsPower(32, POLYNOMIAL)
  {
    Power32(List(POLYNOMIAL), 31);
    assert ShiftBits(List(POLYNOMIAL), UnitBits(32, 31)) == List(POLYNOMIAL);
  }

  lemma To2Pow9()
    requires IsPower(0x20, 0xedb88320)
    ensures IsPower(0x200, 0x88d14467)
  {
    assert Rounds4(State(0xedb88320, 0xedb88320, 0), 8).product == 0xb1e6b092;  Square(0x20, 0xedb88320, 0xb1e6b092, 8);
    assert Rounds4(State(0xb1e6b092, 0xb1e6b092, 0), 8).product == 0xa06a2517;  Square(0x40, 0xb1e6b092, 0xa06a2517, 8);
    assert Rounds4(State(0xa06a2517, 0xa06a2517, 0), 8).product == 0xed627dae;  Square(0x80, 0xa06a2517, 0xed627dae, 8);
    assert Rounds4(State(0xed627dae, 0xed627dae, 0), 8).product == 0x88d14467;
    Square(0x100, 0xed627dae, 0x88d14467, 8);
  }

  lemma To2Pow13()
    requires IsPower(0x200, 0x88d14467)
    ensures IsPower(0x2000, 0x6427800e)
  {
    assert Rounds4(State(0x88d14467, 0x88d14467, 0), 8).product == 0xd7bbfe6a;
    Square(0x200, 0x88d14467, 0xd7bbfe6a, 8);
    assert Rounds4(State(0xd7bbfe6a, 0xd7bbfe6a, 0), 8).product == 0xec447f11;
    Square(0x400, 0xd7bbfe6a, 0xec447f11, 8);
    assert Rounds4(State(0xec447f11, 0xec447f11, 0), 8).product == 0x8e7ea170;
    Square(0x800, 0xec447f11, 0x8e7ea170, 8);
    assert Rounds4(State(0x8e7ea170, 0x8e7ea170, 0), 8).product == 0x6427800e;
    Square(0x1000, 0x8e7ea170, 0x6427800e, 8);
  }

  lemma To2Pow17()
    requires IsPower(0x2000, 0x6427800e)
    ensures IsPower(0x20000, 0x30362f1a)
  {
    assert Rounds4(State(0x6427800e, 0x6427800e, 0), 8).product == 0x4d47bae0;
    Square(0x2000, 0x6427800e, 0x4d47bae0, 8);
    assert Rounds4(State(0x4d47bae0, 0x4d47bae0, 0), 8).product == 0x09fe548f;
    Square(0x4000, 0x4d47bae0, 0x09fe548f, 8);
    assert Rounds4(State(0x09fe548f, 0x09fe548f, 0), 8).product == 0x83852d0f;
    Square(0x8000, 0x09fe548f, 0x83852d0f, 8);
    assert Rounds4(State(0x83852d0f, 0x83852d0f, 0), 8).product == 0x30362f1a;
    Square(0x10000, 0x83852d0f, 0x30362f1a, 8);
  }

  lemma To2Pow21()
    requires IsPower(0x20000, 0x30362f1a)
    ensures IsPower(0x200000, 0x6c8dedc4)
  {
    assert Rounds4(State(0x30362f1a, 0x30362f1a, 0), 8).product == 0x7b5a9cc3;
    Square(0x20000, 0x30362f1a, 0x7b5a9cc3, 8);
    assert Rounds4(State(0x7b5a9cc3, 0x7b5a9cc3, 0), 8).product == 0x31fec169;
    Square(0x40000, 0x7b5a9cc3, 0x31fec169, 8);
    assert Rounds4(State(0x31fec169, 0x31fec169, 0), 8).product == 0x9fec022a;
    Square(0x80000, 0x31fec169, 0x9fec022a, 8);
    assert Rounds4(State(0x9fec022a, 0x9fec022a, 0), 8).product == 0x6c8dedc4;
    Square(0x100000, 0x9fec022a, 0x6c8dedc4, 8);
  }

  lemma To2Pow25()
    requires IsPower(0x200000, 0x6c8dedc4)
    ensures IsPower(0x2000000, 0x2e4e5eef)
  {
    assert Rounds4(State(0x6c8dedc4, 0x6c8dedc4, 0), 8).product == 0x15d6874d;
    Square(0x200000, 0x6c8dedc4, 0x15d6874d, 8);
    assert Rounds4(State(0x15d6874d, 0x15d6874d, 0), 8).product == 0x5fde7a4e;
    Square(0x400000, 0x15d6874d, 0x5fde7a4e, 8);
    assert Rounds4(State(0x5fde7a4e, 0x5fde7a4e, 0), 8).product == 0xbad90e37;
    Square(0x800000, 0x5fde7a4e, 0xbad90e37, 8);
    assert Rounds4(State(0xbad90e37, 0xbad90e37, 0), 8).product == 0x2e4e5eef;
    Square(0x1000000, 0xbad90e37, 0x2e4e5eef, 8);
  }

  lemma To2Pow29()
    requires IsPower(0x2000000, 0x2e4e5eef)
    ensures IsPower(0x20000000, 0x148d302a)
  {
    assert Rounds4(State(0x2e4e5eef, 0x2e4e5eef, 0), 8).product == 0x4eaba214;
    Square(0x2000000, 0x2e4e5eef, 0x4eaba214, 8);
    assert Rounds4(State(0x4eaba214, 0x4eaba214, 0), 8).product == 0xa8a472c0;
    Square(0x4000000, 0x4eaba214, 0xa8a472c0, 8);
    assert Rounds4(State(0xa8a472c0, 0xa8a472c0, 0), 8).product == 0x429a969e;
    Square(0x8000000, 0xa8a472c0, 0x429a969e, 8);
    assert Rounds4(State(0x429a969e, 0x429a969e, 0), 8).product == 0x148d302a;
    Square(0x10000000, 0x429a969e, 0x148d302a, 8);
  }

  lemma To2Pow32()
    requires IsPower(0x20000000, 0x148d302a)
    ensures IsPower(0x100000000, 0x40000000)
  {
    assert Rounds4(State(0x148d302a, 0x148d302a, 0), 8).product == 0xc40ba6d0;
    Square(0x20000000, 0x148d302a, 0xc40ba6d0, 8);
    assert Rounds4(State(0xc40ba6d0, 0xc40ba6d0, 0), 8).product == 0xc4e22c3c;
    Square(0x40000000, 0xc40ba6d0, 0xc4e22c3c, 8);
    assert Rounds4(State(0xc4e22c3c, 0xc4e22c3c, 0), 8).product == 0x40000000;
    Square(0x80000000, 0xc4e22c3c, 0x40000000, 8);
  }

  lemma Last()
    ensures List(0x4000_0000) == Power(Ring(), 1)
  {
    Power32(List(POLYNOMIAL), 1);
    forall i: nat | i < 32 ensures List(0x4000_0000)[i] == (i == 1) { OnlySecond(i); }
  }

  lemma OnlySecond(i: nat)
    requires i < 32
    ensures Unit(i) & 0x4000_0000 != 0 <==> i == 1
  {
    UnitSingle(i);
  }

  /** x^(2^32 - 1) is 1. */
  lemma PeriodHolds()
    ensures Periodic(Ring())
  {
    First();
    To2Pow9();
    To2Pow13();
    To2Pow17();
    To2Pow21();
    To2Pow25();
    To2Pow29();
    To2Pow32();
    Last();
    assert List(POLYNOMIAL)[0];
    ShiftBitsInjective(List(POLYNOMIAL), Power(Ring(), 0xffff_ffff), Power(Ring(), 0));
  }
}
