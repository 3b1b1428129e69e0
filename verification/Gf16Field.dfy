/** The field of 65536 elements that PAR 2.0 computes in, modulo 0x1100B: parpar/gf16/gf16_lookup.c:6-29.

  x has order 65535. The powers that decide it are computed on machine words by the multiplication loop below, and the
  words are then read as lists of bits. */
module Gf16Field {
  import opened Arithmetic
  import opened BinaryAlgebra
  import opened BitWords
  import opened GaloisTables
  import opened ShiftAndAdd
  import opened WordCount
  import opened Gf16Lookup

  // ---------------------------------------------------------------------- bits of a machine word

  /** The mask of position i, counted from the least significant bit. */
  function Unit(i: nat): bv16 {
    if i == 0 then 1 else Unit(i - 1) << 1
  }

  predicate Single(u: bv16) { u != 0 && u & (u - 1) == 0 }

  lemma UnitSingle(i: nat)
    requires i < 16
    ensures Single(Unit(i)) && (Unit(i) == 1 <==> i == 0) && (Unit(i) == 0x8000 <==> i == 15)
    ensures Unit(i) & 0x100B != 0 <==> i == 0 || i == 1 || i == 3 || i == 12
  {
    assert Unit(0) == 0x0001; assert Unit(1) == 0x0002; assert Unit(2) == 0x0004; assert Unit(3) == 0x0008;
    assert Unit(4) == 0x0010; assert Unit(5) == 0x0020; assert Unit(6) == 0x0040; assert Unit(7) == 0x0080;
    assert Unit(8) == 0x0100; assert Unit(9) == 0x0200; assert Unit(10) == 0x0400; assert Unit(11) == 0x0800;
    assert Unit(12) == 0x1000; assert Unit(13) == 0x2000; assert Unit(14) == 0x4000; assert Unit(15) == 0x8000;
  }

  /** The bit of a word that a mask selects. */
  predicate On(w: bv16, u: bv16) { w & u != 0 }

  predicate Bit(w: bv16, i: nat) { On(w, Unit(i)) }

  function List(w: bv16): (r: Bits16)
    ensures forall i :: 0 <= i < 16 ==> r[i] == Bit(w, i)
  {
    seq(16, i requires 0 <= i < 16 => Bit(w, i))
  }

  lemma XorAt(a: bv16, b: bv16, u: bv16)
    requires Single(u)
    ensures On(a ^ b, u) <==> On(a, u) != On(b, u)
  {}

  lemma ListXor(a: bv16, b: bv16)
    ensures List(a ^ b) == XorBits(List(a), List(b))
  {
    hide On, Unit, Single;
    forall i | 0 <= i < 16 ensures List(a ^ b)[i] == XorBits(List(a), List(b))[i] {
      UnitSingle(i);
      XorAt(a, b, Unit(i));
    }
  }

  predicate Halved(a: bv16, half: bv16) { half == a >> 1 }

  predicate Doubled(b: bv16, twice: bv16) { twice == b << 1 }

  /** A mask that is not the last one. */
  predicate Inner(u: bv16) { Single(u) && u != 0x8000 }

  lemma HalfAt(a: bv16, half: bv16, u: bv16, v: bv16)
    requires Halved(a, half) && Inner(u) && Doubled(u, v)
    ensures On(half, u) <==> On(a, v)
  {}

  lemma DoubledAt(b: bv16, twice: bv16, u: bv16, v: bv16)
    requires Doubled(b, twice) && Inner(u) && Doubled(u, v)
    ensures On(twice, v) <==> On(b, u)
  {}

  lemma UnitStep(i: nat)
    requires i < 15
    ensures Inner(Unit(i)) && Doubled(Unit(i), Unit(i + 1))
  {
    UnitSingle(i);
  }

  lemma FirstAt(b: bv16, twice: bv16)
    requires Doubled(b, twice)
    ensures !On(twice, Unit(0))
  {}

  lemma ListHalf(a: bv16, half: bv16, i: nat)
    requires i < 15 && Halved(a, half)
    ensures List(half)[i] == List(a)[i + 1]
  {
    hide On, Halved, Doubled, Inner, Unit;
    UnitStep(i);
    HalfAt(a, half, Unit(i), Unit(i + 1));
  }

  lemma ListDoubled(b: bv16, twice: bv16, i: nat)
    requires i < 16 && Doubled(b, twice)
    ensures List(twice)[i] == (i > 0 && List(b)[i - 1])
  {
    hide On, Doubled, Inner, Unit;
    if i == 0 {
      FirstAt(b, twice);
    } else {
      UnitStep(i - 1);
      DoubledAt(b, twice, Unit(i - 1), Unit(i));
    }
  }

  lemma NothingAt(u: bv16)
    ensures !On(0, u)
  {}

  lemma ListZero()
    ensures List(0) == ZeroBits(16)
  {
    hide On, Unit;
    forall i | 0 <= i < 16 ensures !List(0)[i] { NothingAt(Unit(i)); }
  }

  lemma GeneratorAt(i: nat)
    requires i < 16
    ensures Bit(0x100B, i) == (i == 0 || i == 1 || i == 3 || i == 12)
  {
    UnitSingle(i);
  }

  lemma ListGenerator()
    ensures List(0x100B) == Polynomial()
  {
    hide Bit;
    forall i | 0 <= i < 16 ensures List(0x100B)[i] == Polynomial()[i] { GeneratorAt(i); }
  }

  lemma OneAt(i: nat)
    requires i < 16
    ensures Bit(1, i) == (i == 0)
  {
    UnitSingle(i);
  }

  lemma ListOne()
    ensures List(1) == UnitBits(16, 0)
  {
    hide Bit;
    forall i | 0 <= i < 16 ensures List(1)[i] == UnitBits(16, 0)[i] { OneAt(i); }
  }

  lemma Ends(a: bv16)
    ensures List(a)[15] == (a & 0x8000 != 0) && List(a)[0] == (a & 1 != 0)
  {
    UnitSingle(15);
  }

  // ---------------------------------------------------------------------- multiplication of machine words

  /** Multiply by x. */
  function Double(a: bv16): bv16 {
    (a << 1) ^ (if a & 0x8000 != 0 then 0x100B else 0)
  }

  lemma DoubleIsShift(a: bv16)
    ensures List(Double(a)) == ShiftBits(Polynomial(), List(a))
  {
    ListXor(a << 1, if a & 0x8000 != 0 then 0x100B else 0);
    ListZero();
    ListGenerator();
    Ends(a);
    var whole, twice := List(a), List(a << 1);
    forall i: nat | i < 16 ensures twice[i] == (i > 0 && whole[i - 1]) { ListDoubled(a, a << 1, i); }
    SameShift(Polynomial(), whole, twice, List(Double(a)));
  }

  lemma SameShift(p: Bits16, a: Bits16, twice: Bits16, r: Bits16)
    requires forall i: nat :: i < 16 ==> twice[i] == (i > 0 && a[i - 1])
    requires r == XorBits(twice, if a[15] then p else ZeroBits(16))
    ensures r == ShiftBits(p, a)
  {}

  datatype State = State(a: bv16, b: bv16, product: bv16)

  function Selected(b: bv16, a: bv16): bv16 { if b & 1 != 0 then a else 0 }

  function Round(s: State): State {
    State(Double(s.a), s.b >> 1, s.product ^ Selected(s.b, s.a))
  }

  function Rounds(s: State, n: nat): State
    decreases n
  {
    if n == 0 then s else Rounds(Round(s), n - 1)
  }

  function Rounds4(s: State, n: nat): State
    decreases n
  {
    if n == 0 then s else Rounds4(Rounds(s, 4), n - 1)
  }

  lemma {:induction false} RoundsAdd(s: State, m: nat, n: nat)
    ensures Rounds(s, m + n) == Rounds(Rounds(s, m), n)
    decreases m
  {
    if m > 0 { RoundsAdd(Round(s), m - 1, n); }
  }

  lemma {:induction false} Rounds4Is(s: State, n: nat)
    ensures Rounds4(s, n) == Rounds(s, 4 * n)
    decreases n
  {
    if n > 0 {
      RoundsAdd(s, 4, 4 * n - 4);
      Rounds4Is(Rounds(s, 4), n - 1);
    }
  }

  function Multiplier(): Machine<State, Bits16> {
    Machine((s: State) => Round(s), (s: State) => List(s.a), (s: State) => List(s.product), (s: State) => List(s.b))
  }

  lemma ListSelected(b: bv16, a: bv16)
    ensures List(Selected(b, a)) == Scale(Ring(), List(b)[0], List(a))
  {
    Ends(b);
    ListZero();
  }

  lemma RoundDoubles(s: State)
    ensures List(Round(s).a) == Ring().shift(List(s.a))
  {
    DoubleIsShift(s.a);
  }

  lemma RoundSelects(s: State)
    ensures List(Round(s).product) == Ring().xor(List(s.product), Scale(Ring(), List(s.b)[0], List(s.a)))
  {
    hide Selected, Double;
    ListXor(s.product, Selected(s.b, s.a));
    ListSelected(s.b, s.a);
  }

  lemma RoundConsumes(s: State, i: nat)
    requires i < 15
    ensures List(Round(s).b)[i] == List(s.b)[i + 1]
  {
    ListHalf(s.b, Round(s).b, i);
  }

  lemma StepDoubles(m: Machine<State, Bits16>, r: Words<Bits16>, s: State)
    requires m == Multiplier() && r == Ring()
    ensures m.factor(m.step(s)) == r.shift(m.factor(s)) && |m.bits(s)| == 16
  {
    hide Round, List;
    RoundDoubles(s);
  }

  lemma StepSelects(m: Machine<State, Bits16>, r: Words<Bits16>, s: State)
    requires m == Multiplier() && r == Ring()
    ensures m.total(m.step(s)) == r.xor(m.total(s), Scale(r, m.bits(s)[0], m.factor(s)))
  {
    hide Round, List;
    RoundSelects(s);
  }

  lemma StepConsumes(m: Machine<State, Bits16>, s: State, i: nat)
    requires m == Multiplier() && i < 15
    ensures m.bits(m.step(s))[i] == m.bits(s)[i + 1]
  {
    hide Round, List;
    RoundConsumes(s, i);
  }

  lemma MultiplierWorks()
    ensures Works(Ring(), Multiplier(), 16)
  {
    hide Ring, Multiplier, Scale;
    var m, r := Multiplier(), Ring();
    forall s: State ensures m.factor(m.step(s)) == r.shift(m.factor(s)) && |m.bits(s)| == 16 { StepDoubles(m, r, s); }
    forall s: State ensures m.total(m.step(s)) == r.xor(m.total(s), Scale(r, m.bits(s)[0], m.factor(s))) {
      StepSelects(m, r, s);
    }
    forall s: State, i: nat | i < 15 ensures m.bits(m.step(s))[i] == m.bits(s)[i + 1] { StepConsumes(m, s, i); }
  }

  lemma {:induction false} RoundsAreSteps(s: State, n: nat)
    ensures Rounds(s, n) == Steps(Multiplier(), s, n)
    decreases n
  {
    if n > 0 { RoundsAreSteps(Round(s), n - 1); }
  }

  lemma ProductIs(s: State, n: nat)
    requires s.product == 0 && n == 4
    ensures List(Rounds4(s, n).product) == Mul(Ring(), List(s.a), List(s.b))
  {
    Rounds4Is(s, n);
    RoundsAreSteps(s, 4 * n);
    ListZero();
    Ring16Lawful(Polynomial());
    MultiplierWorks();
    StepsMultiply(Ring(), Multiplier(), s, 16);
  }

  // ---------------------------------------------------------------------- powers of x

  ghost predicate IsPower(n: nat, w: bv16) { Power(Ring(), n) == List(w) }

  lemma Times(m: nat, a: bv16, n: nat, b: bv16, c: bv16, k: nat)
    requires IsPower(m, a) && IsPower(n, b) && Rounds4(State(a, b, 0), k).product == c && k == 4
    ensures IsPower(m + n, c)
  {
    ProductIs(State(a, b, 0), k);
    Ring16IsRing(Polynomial());
    PowerAdd(Ring(), m, n);
  }

  lemma Once(n: nat, a: bv16, b: bv16)
    requires IsPower(n, a) && Double(a) == b
    ensures IsPower(n + 1, b)
  {
    DoubleIsShift(a);
  }

  lemma FirstPowers()
    ensures IsPower(0, 1) && IsPower(1, 2) && IsPower(3, 8) && IsPower(5, 0x20) && IsPower(8, 0x100)
            && IsPower(15, 0x8000)
  {
    ListOne();
    assert IsPower(0, 1);
    hide IsPower;
    Once(0, 0x1, 0x2);  Once(1, 0x2, 0x4);  Once(2, 0x4, 0x8);  Once(3, 0x8, 0x10);  Once(4, 0x10, 0x20);
    Once(5, 0x20, 0x40);  Once(6, 0x40, 0x80);  Once(7, 0x80, 0x100);  Once(8, 0x100, 0x200);  Once(9, 0x200, 0x400);
    Once(10, 0x400, 0x800);  Once(11, 0x800, 0x1000);  Once(12, 0x1000, 0x2000);  Once(13, 0x2000, 0x4000);
    Once(14, 0x4000, 0x8000);
  }

  lemma Doublings1()
    requires IsPower(8, 0x100)
    ensures IsPower(128, 0xe647)
  {
    hide IsPower;
    assert Rounds4(State(0x100, 0x100, 0), 4).product == 0x100b;  Times(8, 0x100, 8, 0x100, 0x100b, 4);
    assert Rounds4(State(0x100b, 0x100b, 0), 4).product == 0x1bfe;  Times(16, 0x100b, 16, 0x100b, 0x1bfe, 4);
    assert Rounds4(State(0x1bfe, 0x1bfe, 0), 4).product == 0x5c24;  Times(32, 0x1bfe, 32, 0x1bfe, 0x5c24, 4);
    assert Rounds4(State(0x5c24, 0x5c24, 0), 4).product == 0xe647;  Times(64, 0x5c24, 64, 0x5c24, 0xe647, 4);
  }

  lemma Doublings2()
    requires IsPower(128, 0xe647)
    ensures IsPower(256, 0xb2f) && IsPower(2048, 0x1780)
  {
    hide IsPower;
    assert Rounds4(State(0xe647, 0xe647, 0), 4).product == 0xb2f;  Times(128, 0xe647, 128, 0xe647, 0xb2f, 4);
    assert Rounds4(State(0xb2f, 0xb2f, 0), 4).product == 0x169e;  Times(256, 0xb2f, 256, 0xb2f, 0x169e, 4);
    assert Rounds4(State(0x169e, 0x169e, 0), 4).product == 0xa78;  Times(512, 0x169e, 512, 0x169e, 0xa78, 4);
    assert Rounds4(State(0xa78, 0xa78, 0), 4).product == 0x1780;  Times(1024, 0xa78, 1024, 0xa78, 0x1780, 4);
  }

  lemma Doublings3()
    requires IsPower(2048, 0x1780)
    ensures IsPower(32768, 0xf0c6)
  {
    hide IsPower;
    assert Rounds4(State(0x1780, 0x1780, 0), 4).product == 0x1b27;  Times(2048, 0x1780, 2048, 0x1780, 0x1b27, 4);
    assert Rounds4(State(0x1b27, 0x1b27, 0), 4).product == 0xd65;  Times(4096, 0x1b27, 4096, 0x1b27, 0xd65, 4);
    assert Rounds4(State(0xd65, 0xd65, 0), 4).product == 0x564d;  Times(8192, 0xd65, 8192, 0xd65, 0x564d, 4);
    assert Rounds4(State(0x564d, 0x564d, 0), 4).product == 0xf0c6;  Times(16384, 0x564d, 16384, 0x564d, 0xf0c6, 4);
  }

  lemma Doublings4()
    requires IsPower(32768, 0xf0c6)
    ensures IsPower(65536, 0x2)
  {
    hide IsPower;
    assert Rounds4(State(0xf0c6, 0xf0c6, 0), 4).product == 0x2;  Times(32768, 0xf0c6, 32768, 0xf0c6, 0x2, 4);
  }

  lemma Third1()
    requires IsPower(5, 0x20)
    ensures IsPower(80, 0xf72f)
  {
    hide IsPower;
    assert Rounds4(State(0x20, 0x20, 0), 4).product == 0x400;  Times(5, 0x20, 5, 0x20, 0x400, 4);
    assert Rounds4(State(0x400, 0x400, 0), 4).product == 0x10bb;  Times(10, 0x400, 10, 0x400, 0x10bb, 4);
    assert Rounds4(State(0x10bb, 0x10bb, 0), 4).product == 0x5efe;  Times(20, 0x10bb, 20, 0x10bb, 0x5efe, 4);
    assert Rounds4(State(0x5efe, 0x5efe, 0), 4).product == 0xf72f;  Times(40, 0x5efe, 40, 0x5efe, 0xf72f, 4);
  }

  lemma Third2()
    requires IsPower(5, 0x20) && IsPower(80, 0xf72f)
    ensures IsPower(85, 0x1539) && IsPower(680, 0x94c)
  {
    hide IsPower;
    assert Rounds4(State(0xf72f, 0x20, 0), 4).product == 0x1539;  Times(80, 0xf72f, 5, 0x20, 0x1539, 4);
    assert Rounds4(State(0x1539, 0x1539, 0), 4).product == 0x1e4a;  Times(85, 0x1539, 85, 0x1539, 0x1e4a, 4);
    assert Rounds4(State(0x1e4a, 0x1e4a, 0), 4).product == 0x1984;  Times(170, 0x1e4a, 170, 0x1e4a, 0x1984, 4);
    assert Rounds4(State(0x1984, 0x1984, 0), 4).product == 0x94c;  Times(340, 0x1984, 340, 0x1984, 0x94c, 4);
  }

  lemma Third3()
    requires IsPower(680, 0x94c)
    ensures IsPower(10880, 0xafc0)
  {
    hide IsPower;
    assert Rounds4(State(0x94c, 0x94c, 0), 4).product == 0x42b7;  Times(680, 0x94c, 680, 0x94c, 0x42b7, 4);
    assert Rounds4(State(0x42b7, 0x42b7, 0), 4).product == 0xae82;  Times(1360, 0x42b7, 1360, 0x42b7, 0xae82, 4);
    assert Rounds4(State(0xae82, 0xae82, 0), 4).product == 0xb269;  Times(2720, 0xae82, 2720, 0xae82, 0xb269, 4);
    assert Rounds4(State(0xb269, 0xb269, 0), 4).product == 0xafc0;  Times(5440, 0xb269, 5440, 0xb269, 0xafc0, 4);
  }

  lemma Third4()
    requires IsPower(85, 0x1539) && IsPower(10880, 0xafc0)
    ensures IsPower(21845, 0x15e)
  {
    hide IsPower;
    assert Rounds4(State(0xafc0, 0xafc0, 0), 4).product == 0xb266;  Times(10880, 0xafc0, 10880, 0xafc0, 0xb266, 4);
    assert Rounds4(State(0xb266, 0x1539, 0), 4).product == 0x15e;  Times(21760, 0xb266, 85, 0x1539, 0x15e, 4);
  }

  lemma Fifth1()
    requires IsPower(3, 0x8)
    ensures IsPower(48, 0x4c35)
  {
    hide IsPower;
    assert Rounds4(State(0x8, 0x8, 0), 4).product == 0x40;  Times(3, 0x8, 3, 0x8, 0x40, 4);
    assert Rounds4(State(0x40, 0x40, 0), 4).product == 0x1000;  Times(6, 0x40, 6, 0x40, 0x1000, 4);
    assert Rounds4(State(0x1000, 0x1000, 0), 4).product == 0x1bbb;  Times(12, 0x1000, 12, 0x1000, 0x1bbb, 4);
    assert Rounds4(State(0x1bbb, 0x1bbb, 0), 4).product == 0x4c35;  Times(24, 0x1bbb, 24, 0x1bbb, 0x4c35, 4);
  }

  lemma Fifth2()
    requires IsPower(3, 0x8) && IsPower(48, 0x4c35)
    ensures IsPower(51, 0x41be) && IsPower(408, 0x5e7d)
  {
    hide IsPower;
    assert Rounds4(State(0x4c35, 0x8, 0), 4).product == 0x41be;  Times(48, 0x4c35, 3, 0x8, 0x41be, 4);
    assert Rounds4(State(0x41be, 0x41be, 0), 4).product == 0xfee4;  Times(51, 0x41be, 51, 0x41be, 0xfee4, 4);
    assert Rounds4(State(0xfee4, 0xfee4, 0), 4).product == 0x167d;  Times(102, 0xfee4, 102, 0xfee4, 0x167d, 4);
    assert Rounds4(State(0x167d, 0x167d, 0), 4).product == 0x5e7d;  Times(204, 0x167d, 204, 0x167d, 0x5e7d, 4);
  }

  lemma Fifth3()
    requires IsPower(408, 0x5e7d)
    ensures IsPower(6528, 0x49aa)
  {
    hide IsPower;
    assert Rounds4(State(0x5e7d, 0x5e7d, 0), 4).product == 0xb72a;  Times(408, 0x5e7d, 408, 0x5e7d, 0xb72a, 4);
    assert Rounds4(State(0xb72a, 0xb72a, 0), 4).product == 0xbf75;  Times(816, 0xb72a, 816, 0xb72a, 0xbf75, 4);
    assert Rounds4(State(0xbf75, 0xbf75, 0), 4).product == 0xeccc;  Times(1632, 0xbf75, 1632, 0xbf75, 0xeccc, 4);
    assert Rounds4(State(0xeccc, 0xeccc, 0), 4).product == 0x49aa;  Times(3264, 0xeccc, 3264, 0xeccc, 0x49aa, 4);
  }

  lemma Fifth4()
    requires IsPower(51, 0x41be) && IsPower(6528, 0x49aa)
    ensures IsPower(13107, 0x1ce8)
  {
    hide IsPower;
    assert Rounds4(State(0x49aa, 0x49aa, 0), 4).product == 0xbd18;  Times(6528, 0x49aa, 6528, 0x49aa, 0xbd18, 4);
    assert Rounds4(State(0xbd18, 0x41be, 0), 4).product == 0x1ce8;  Times(13056, 0xbd18, 51, 0x41be, 0x1ce8, 4);
  }

  lemma Seventeenth1()
    requires IsPower(15, 0x8000)
    ensures IsPower(240, 0x6b65)
  {
    hide IsPower;
    assert Rounds4(State(0x8000, 0x8000, 0), 4).product == 0x8efa;  Times(15, 0x8000, 15, 0x8000, 0x8efa, 4);
    assert Rounds4(State(0x8efa, 0x8efa, 0), 4).product == 0xc9c5;  Times(30, 0x8efa, 30, 0x8efa, 0xc9c5, 4);
    assert Rounds4(State(0xc9c5, 0xc9c5, 0), 4).product == 0x27b7;  Times(60, 0xc9c5, 60, 0xc9c5, 0x27b7, 4);
    assert Rounds4(State(0x27b7, 0x27b7, 0), 4).product == 0x6b65;  Times(120, 0x27b7, 120, 0x27b7, 0x6b65, 4);
  }

  lemma Seventeenth2()
    requires IsPower(240, 0x6b65)
    ensures IsPower(3840, 0x8be8)
  {
    hide IsPower;
    assert Rounds4(State(0x6b65, 0x6b65, 0), 4).product == 0xc38d;  Times(240, 0x6b65, 240, 0x6b65, 0xc38d, 4);
    assert Rounds4(State(0xc38d, 0xc38d, 0), 4).product == 0x3537;  Times(480, 0xc38d, 480, 0xc38d, 0x3537, 4);
    assert Rounds4(State(0x3537, 0x3537, 0), 4).product == 0x70f2;  Times(960, 0x3537, 960, 0x3537, 0x70f2, 4);
    assert Rounds4(State(0x70f2, 0x70f2, 0), 4).product == 0x8be8;  Times(1920, 0x70f2, 1920, 0x70f2, 0x8be8, 4);
  }

  lemma Seventeenth3()
    requires IsPower(15, 0x8000) && IsPower(3840, 0x8be8)
    ensures IsPower(3855, 0x4d78)
  {
    hide IsPower;
    assert Rounds4(State(0x8be8, 0x8000, 0), 4).product == 0x4d78;  Times(3840, 0x8be8, 15, 0x8000, 0x4d78, 4);
  }

  /** x^65536 is x; and the powers for 256 and for a third, a fifth and a seventeenth of 65535. */
  lemma Decisive()
    ensures IsPower(65536, 2) && IsPower(256, 0xb2f) && IsPower(21845, 0x15e) && IsPower(13107, 0x1ce8)
            && IsPower(3855, 0x4d78)
  {
    hide IsPower;
    FirstPowers();
    Doublings1(); Doublings2(); Doublings3(); Doublings4();
    Third1(); Third2(); Third3(); Third4();
    Fifth1(); Fifth2(); Fifth3(); Fifth4();
    Seventeenth1(); Seventeenth2(); Seventeenth3();
  }

  lemma RingInjective()
    ensures Lawful(Ring()) && Injective(Ring()) && Ring().one != Ring().zero
  {
    var s := Ring();
    Ring16Lawful(Polynomial());
    assert s.one[0] && !s.zero[0];
    forall a: Bits16 | s.shift(a) == s.zero ensures a == s.zero {
      ShiftBitsInjective(Polynomial(), a, s.zero);
      ShiftZero(s);
    }
  }

  /** A power whose word is even is not one; x^256, whose word is odd, is not x. */
  lemma Even(n: nat, w: bv16)
    requires IsPower(n, w) && w & 1 == 0
    ensures Power(Ring(), n) != Ring().one
  {
    Ends(w);
  }

  lemma Not256(w: bv16)
    requires IsPower(256, w) && w & 1 != 0 && IsPower(1, 2)
    ensures Power(Ring(), 256) != Power(Ring(), 1)
  {
    Ends(w);
    Ends(2);
  }

  lemma StepOne<T(!new)>(s: Words<T>, n: nat)
    requires Lawful(s) && Injective(s)
    ensures Power(s, n + 1) == Power(s, 1) <==> Power(s, n) == s.one
  {
    assert Power(s, 1) == s.shift(Power(s, 0)) && Power(s, n + 1) == s.shift(Power(s, n));
    if Power(s, n + 1) == Power(s, 1) { ShiftCancels(s, Power(s, n), s.one); }
  }

  /** x^65535 is one, and x^255, x^3855, x^13107 and x^21845 are not. */
  lemma Powers()
    ensures Power(Ring(), 65535) == Ring().one
    ensures Power(Ring(), 255) != Ring().one && Power(Ring(), 3855) != Ring().one
    ensures Power(Ring(), 13107) != Ring().one && Power(Ring(), 21845) != Ring().one
  {
    RingInjective();
    Decisive();
    FirstPowers();
    StepOne(Ring(), 65535);
    hide Power, List, Ring;
    Not256(0x0b2f);
    StepOne(Ring(), 255);
    Even(3855, 0x4d78);
    Even(13107, 0x1ce8);
    Even(21845, 0x15e);
  }

  // ---------------------------------------------------------------------- the order of x

  /** The same words, multiplied by x^k where they were multiplied by x. */
  function Leap<T>(s: Words<T>, k: nat): Words<T> {
    s.(shift := a => Iterate(s, a, k))
  }

  lemma {:induction false} LeapPower<T>(s: Words<T>, k: nat, n: nat)
    ensures Power(Leap(s, k), n) == Power(s, k * n)
  {
    if n == 0 {
      assert k * n == 0;
    } else {
      LeapPower(s, k, n - 1);
      IterateAdd(s, s.one, k * (n - 1), k);
      assert k * (n - 1) + k == k * n;
    }
  }

  /** If x^d is one then 255 divides d, because x^257 has order 255. */
  lemma Multiple255<T(!new)>(s: Words<T>, d: nat)
    requires Power(s, 65535) == s.one && d > 0 && Power(s, d) == s.one
    requires Power(s, 3855) != s.one && Power(s, 13107) != s.one && Power(s, 21845) != s.one
    ensures d % 255 == 0
  {
    var y := Leap(s, 257);
    LeapPower(s, 257, 255);
    LeapPower(s, 257, 15);
    LeapPower(s, 257, 51);
    LeapPower(s, 257, 85);
    Order255(y);
    LeapPower(s, 257, d);
    OneAtMultiple(s, d, 257, 257 * d);
    var q, r := d / 255, d % 255;
    PowerWraps(y, 255, r, q);
    assert r + q * 255 == d;
  }

  lemma SmallCofactor(c: nat, k: nat)
    requires c * k == 257 && c > 16
    ensures k <= 16
  {
    if k > 16 {
      AtMostProduct(17, 17, c, k);
      assert false;
    }
  }

  lemma Prime257(c: nat, k: nat)
    requires c * k == 257
    ensures c == 1 || c == 257
  {
    if c > 16 { SmallCofactor(c, k); }
  }

  /** 65535 is 255 * 257 and 257 is a prime number, so nothing below 65535 leads back to one. */
  lemma Order65535<T(!new)>(s: Words<T>)
    requires Power(s, 65535) == s.one && Power(s, 255) != s.one
    requires Power(s, 3855) != s.one && Power(s, 13107) != s.one && Power(s, 21845) != s.one
    ensures forall d :: 0 < d < 65535 ==> Power(s, d) != s.one
  {
    var d := LeastOrder(s, 65535);
    OrderDivides(s, 65535, d);
    Multiple255(s, d);
    var c, k := d / 255, 65535 / d;
    assert d == 255 * c;
    Cofactor(c, k);
    Prime257(c, k);
  }

  lemma Cofactor(c: nat, k: nat)
    requires 255 * c * k == 65535
    ensures c * k == 257
  {
    assert 255 * c * k == 255 * (c * k);
  }

  /** x is one again after 65535 rounds and not before. */
  lemma OrderOfX()
    ensures Power(Ring(), 65535) == Ring().one
    ensures forall d :: 0 < d < 65535 ==> Power(Ring(), d) != Ring().one
  {
    hide Ring;
    Powers();
    Order65535(Ring());
  }

  /** There are at most 65535 words other than zero. */
  lemma NonzeroWords() returns (nonzero: set<Bits16>)
    ensures |nonzero| <= 65535
    ensures forall a: Bits16 :: a != Ring().zero ==> a in nonzero
  {
    var zero := Ring().zero;
    AllWordsSize(16);
    assert Pow2(8) == 256;
    Pow2Add(8, 8);
    InAllWords(zero);
    hide AllWords, Pow2;
    nonzero := set w: Bits16 | w in AllWords(16) - {zero};
    Subset(nonzero, AllWords(16) - {zero});
    forall a: Bits16 | a != zero ensures a in nonzero { InAllWords(a); }
  }

  /** The doubling loop meets every nonzero word. */
  lemma RingVisits()
    ensures Visits(Ring(), 65535)
  {
    hide Power, Ring, Visits;
    RingInjective();
    OrderOfX();
    var nonzero := NonzeroWords();
    FullOrder(Ring(), 65535, nonzero);
  }

  /** The products that the kernels add up are those of a field: there is exactly one quotient for every divisor but
      zero. */
  lemma Quotient(a: Bits16, b: Bits16) returns (q: Bits16)
    requires b != Ring().zero
    ensures forall r: Bits16 :: Mul(Ring(), r, b) == a <==> r == q
  {
    hide Mul, Power, Visits;
    Ring16IsRing(Polynomial());
    RingVisits();
    OrderOfX();
    assert IsRing(Ring());
    hide Ring;
    var inverse := Inverse(Ring(), 65535, b);
    q := Mul(Ring(), a, inverse);
    forall r: Bits16 ensures Mul(Ring(), r, b) == a <==> r == q {
      OneQuotient(Ring(), a, b, inverse, r);
    }
  }
}
