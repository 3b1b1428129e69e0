/** The field of 256 elements that PAR 1.0 computes in: include/par2/galois.h:338.
  The doubling loop of the generator 0x11D is shown to meet all 255 nonzero bytes. */
module Galois8 {
  import opened Arithmetic
  import opened BinaryAlgebra
  import opened BitWords
  import opened LinearAlgebra
  import opened GaloisTables
  import opened WordCount

  /** One round of the loop, on a machine byte: the bit shifted out selects the generator. */
  function Double(a: bv8): bv8 {
    if a & 0x80 != 0 then (a << 1) ^ 0x1D else a << 1
  }

  /** The value after n rounds. */
  function Run(a: bv8, n: nat): bv8
    decreases n
  {
    if n == 0 then a else Run(Double(a), n - 1)
  }

  lemma {:induction false} RunAdd(a: bv8, m: nat, n: nat)
    ensures Run(a, m + n) == Run(Run(a, m), n)
    decreases m
  {
    if m > 0 { RunAdd(Double(a), m - 1, n); }
  }

  lemma Next(one: bv8, k: nat, a: bv8, b: bv8)
    requires Run(one, k) == a && Run(a, 8) == b
    ensures Run(one, k + 8) == b
  {
    RunAdd(one, k, 8);
  }

  lemma To32(one: bv8)
    requires Run(one, 0) == 1
    ensures Run(one, 16) == 76 && Run(one, 32) == 157
  {
    assert Run(1, 8) == 29;  Next(one, 0, 1, 29);
    assert Run(29, 8) == 76;  Next(one, 8, 29, 76);
    assert Run(76, 8) == 143;  Next(one, 16, 76, 143);
    assert Run(143, 8) == 157;  Next(one, 24, 143, 157);
  }

  lemma To64(one: bv8)
    requires Run(one, 32) == 157
    ensures Run(one, 48) == 70 && Run(one, 64) == 95
  {
    assert Run(157, 8) == 106;  Next(one, 32, 157, 106);
    assert Run(106, 8) == 70;  Next(one, 40, 106, 70);
    assert Run(70, 8) == 93;  Next(one, 48, 70, 93);
    assert Run(93, 8) == 95;  Next(one, 56, 93, 95);
  }

  lemma To96(one: bv8)
    requires Run(one, 64) == 95
    ensures Run(one, 80) == 253 && Run(one, 96) == 217
  {
    assert Run(95, 8) == 101;  Next(one, 64, 95, 101);
    assert Run(101, 8) == 253;  Next(one, 72, 101, 253);
    assert Run(253, 8) == 254;  Next(one, 80, 253, 254);
    assert Run(254, 8) == 217;  Next(one, 88, 254, 217);
  }

  lemma To128(one: bv8)
    requires Run(one, 96) == 217
    ensures Run(one, 128) == 133
  {
    assert Run(217, 8) == 13;  Next(one, 96, 217, 13);
    assert Run(13, 8) == 129;  Next(one, 104, 13, 129);
    assert Run(129, 8) == 59;  Next(one, 112, 129, 59);
    assert Run(59, 8) == 133;  Next(one, 120, 59, 133);
  }

  lemma To160(one: bv8)
    requires Run(one, 128) == 133
    ensures Run(one, 160) == 230
  {
    assert Run(133, 8) == 79;  Next(one, 128, 133, 79);
    assert Run(79, 8) == 168;  Next(one, 136, 79, 168);
    assert Run(168, 8) == 73;  Next(one, 144, 168, 73);
    assert Run(73, 8) == 230;  Next(one, 152, 73, 230);
  }

  lemma To192(one: bv8)
    requires Run(one, 160) == 230
    ensures Run(one, 192) == 130
  {
    assert Run(230, 8) == 252;  Next(one, 160, 230, 252);
    assert Run(252, 8) == 227;  Next(one, 168, 252, 227);
    assert Run(227, 8) == 149;  Next(one, 176, 227, 149);
    assert Run(149, 8) == 130;  Next(one, 184, 149, 130);
  }

  lemma To224(one: bv8)
    requires Run(one, 192) == 130
    ensures Run(one, 224) == 18
  {
    assert Run(130, 8) == 28;  Next(one, 192, 130, 28);
    assert Run(28, 8) == 81;  Next(one, 200, 28, 81);
    assert Run(81, 8) == 195;  Next(one, 208, 81, 195);
    assert Run(195, 8) == 18;  Next(one, 216, 195, 18);
  }

  lemma To248(one: bv8)
    requires Run(one, 224) == 18
    ensures Run(one, 248) == 27
  {
    assert Run(18, 8) == 247;  Next(one, 224, 18, 247);
    assert Run(247, 8) == 44;  Next(one, 232, 247, 44);
    assert Run(44, 8) == 27;  Next(one, 240, 44, 27);
  }

  /** The loop is back at one after 255 rounds, but not after 15, 51 or 85. */
  lemma FullRound(one: bv8)
    requires one == 1
    ensures Run(one, 255) == 1 && Run(one, 15) != 1 && Run(one, 51) != 1 && Run(one, 85) != 1
  {
    To32(one);
    To64(one);
    To96(one);
    To128(one);
    To160(one);
    To192(one);
    To224(one);
    To248(one);
    RunAdd(one, 248, 7);
    RunAdd(one, 48, 3);
    RunAdd(one, 80, 5);
    assert Run(27, 7) == 1 && Run(70, 3) == 10 && Run(253, 5) == 214;
    RunAdd(one, 15, 1);
    assert Run(1, 1) == 2;
  }

  // ---------------------------------------------------------------------- bytes as lists of bits

  function Bits(a: bv8): Bits8 {
    [a & 1 != 0, a & 2 != 0, a & 4 != 0, a & 8 != 0, a & 16 != 0, a & 32 != 0, a & 64 != 0, a & 128 != 0]
  }

  function Generator(): Bits8 { [true, false, true, true, true, false, false, false] }

  function Ring(): Words<Bits8> { Ring8(Generator()) }

  lemma DoubleBits(a: bv8)
    ensures var d, top := Double(a), a & 128 != 0;
            && (d & 1 != 0) == top && (d & 2 != 0) == (a & 1 != 0) && (d & 4 != 0) == ((a & 2 != 0) != top)
            && (d & 8 != 0) == ((a & 4 != 0) != top) && (d & 16 != 0) == ((a & 8 != 0) != top)
            && (d & 32 != 0) == (a & 16 != 0) && (d & 64 != 0) == (a & 32 != 0) && (d & 128 != 0) == (a & 64 != 0)
  {}

  lemma ShiftList(b0: bool, b1: bool, b2: bool, b3: bool, b4: bool, b5: bool, b6: bool, b7: bool)
    ensures ShiftBits(Generator(), [b0, b1, b2, b3, b4, b5, b6, b7])
            == [b7, b0, b1 != b7, b2 != b7, b3 != b7, b4, b5, b6]
  {}

  lemma DoubleIsShift(a: bv8)
    ensures ShiftBits(Generator(), Bits(a)) == Bits(Double(a))
  {
    DoubleBits(a);
    ShiftList(a & 1 != 0, a & 2 != 0, a & 4 != 0, a & 8 != 0, a & 16 != 0, a & 32 != 0, a & 64 != 0, a & 128 != 0);
  }

  lemma BitsOne(a: bv8)
    ensures Bits(a) == UnitBits(8, 0) <==> a == 1
  {
    assert Bits(1) == UnitBits(8, 0);
    if Bits(a) == UnitBits(8, 0) {
      assert Bits(a)[0] && !Bits(a)[1] && !Bits(a)[2] && !Bits(a)[3] && !Bits(a)[4] && !Bits(a)[5] && !Bits(a)[6]
          && !Bits(a)[7];
    }
  }

  lemma {:induction false} RunPower(a: bv8, k: nat, n: nat)
    requires Power(Ring(), k) == Bits(a)
    ensures Power(Ring(), k + n) == Bits(Run(a, n))
    decreases n
  {
    if n > 0 {
      DoubleIsShift(a);
      RunPower(Double(a), k + 1, n - 1);
    }
  }

  /** Power n of x is one exactly when n rounds lead from one to one. */
  lemma PowerIsRun(n: nat, one: bv8)
    requires one == 1
    ensures Power(Ring(), n) == Ring().one <==> Run(one, n) == 1
  {
    BitsOne(1);
    RunPower(1, 0, n);
    BitsOne(Run(1, n));
  }

  // ---------------------------------------------------------------------- the order of x

  /** x is one again after 255 rounds and not before. */
  lemma OrderOfX()
    ensures Power(Ring(), 255) == Ring().one
    ensures forall d :: 0 < d < 255 ==> Power(Ring(), d) != Ring().one
  {
    FullRound(1);
    PowerIsRun(255, 1);
    PowerIsRun(15, 1);
    PowerIsRun(51, 1);
    PowerIsRun(85, 1);
    Order255(Ring());
  }

  // ---------------------------------------------------------------------- all bytes

  /** There are at most 255 bytes other than zero. */
  lemma NonzeroBytes() returns (nonzero: set<Bits8>)
    ensures |nonzero| <= 255
    ensures forall a: Bits8 :: a != Ring().zero ==> a in nonzero
  {
    var zero := Ring().zero;
    AllWordsSize(8);
    assert Pow2(8) == 256;
    InAllWords(zero);
    nonzero := set w: Bits8 | w in AllWords(8) - {zero};
    Subset(nonzero, AllWords(8) - {zero});
    forall a: Bits8 | a != zero ensures a in nonzero { InAllWords(a); }
  }

  lemma RingInjective()
    ensures Lawful(Ring()) && Injective(Ring()) && Ring().one != Ring().zero
  {
    var s := Ring();
    Ring8Lawful(Generator());
    assert s.one[0] && !s.zero[0];
    forall a: Bits8 | s.shift(a) == s.zero ensures a == s.zero {
      ShiftBitsInjective(Generator(), a, s.zero);
      ShiftZero(s);
    }
  }

  /** The doubling loop meets every nonzero byte. */
  lemma RingVisits()
    ensures Visits(Ring(), 255)
  {
    RingInjective();
    OrderOfX();
    var nonzero := NonzeroBytes();
    FullOrder(Ring(), 255, nonzero);
  }

  lemma RingDistinct()
    ensures Distinct(Ring(), 255)
  {
    OrderOfX();
    RingInjective();
    forall l | 0 <= l < 255 ensures Power(Ring(), l) != Ring().zero { PowerNonzero(Ring(), l); }
    forall i, j | 0 <= i < j < 255 ensures Power(Ring(), i) != Power(Ring(), j) {
      if Power(Ring(), i) == Power(Ring(), j) { StepBackAll(Ring(), i, j); }
    }
  }

  /** The tables of the program, and the field they carry. */
  method Galois8Table() returns (t: Table<Bits8>)
    ensures t.limit == 255 && Complete(Ring(), t) && t.antilog[255] == Ring().zero
    ensures IsField(TableField(Ring(), t))
    ensures forall l :: 0 <= l < 255 ==> t.antilog[l] in t.log && t.log[t.antilog[l]] == l
  {
    t := BuildTable(Ring(), 255);
    RingDistinct();
    RingVisits();
    OrderOfX();
    RingInjective();
    Ring8IsRing(Generator());
    TableIsField(Ring(), t);
  }
}
