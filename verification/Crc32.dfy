/** CRC-32 in the reflected form: src/crc.cpp and include/par2/crc.h.

  A u32 is a list of 32 bits, most significant first, so that position i is the coefficient
  of x^i; a u8 is a list of 8 bits, most significant first. */
module Crc32 {
  import opened Arithmetic
  import opened BinaryAlgebra
  import opened BitWords
  import opened CrcAlgebra

  type Word = Bits32
  type Byte = Bits8

  // ------------------------------------------------------- machine operations

  function Shr(a: Word, k: nat): Word
    requires k <= 32
  {
    ZeroBits(k) + a[..32 - k]
  }

  function Shl(a: Word): Word {
    a[1..] + [false]
  }

  /** NEGATE32(bit) & a */
  function Mask(bit: bool, a: Word): Word {
    if bit then a else ZeroBits(32)
  }

  /** ~0 */
  function Ones(): Word {
    seq(32, _ => true)
  }

  /** The value of a list of bits, most significant first. */
  function Value(bits: seq<bool>): nat {
    if bits == [] then 0
    else 2 * Value(bits[..|bits| - 1]) + (if bits[|bits| - 1] then 1 else 0)
  }

  /** The n lowest bits of v, most significant first. */
  function ToBits(v: nat, n: nat): (r: seq<bool>)
    ensures |r| == n
  {
    if n == 0 then [] else ToBits(v / 2, n - 1) + [v % 2 == 1]
  }

  lemma {:induction false} ToBitsValue(bits: seq<bool>)
    ensures ToBits(Value(bits), |bits|) == bits
  {
    if bits != [] {
      ToBitsValue(bits[..|bits| - 1]);
    }
  }

  lemma {:induction false} ValueBound(bits: seq<bool>)
    ensures Value(bits) < Pow2(|bits|)
  {
    if bits != [] {
      ValueBound(bits[..|bits| - 1]);
    }
  }

  // ------------------------------------------------------- multiplication

  lemma TimesX(p: Word, a: Word)
    ensures XorBits(Shr(a, 1), Mask(a[31], p)) == ShiftBits(p, a)
  {}

  lemma MulStep(p: Word, a: Word, b: Word, i: nat)
    requires i < 32
    ensures Combine(Ring32(p), a, b[..i + 1])
         == XorBits(Combine(Ring32(p), a, b[..i]), Mask(b[i], Iterate(Ring32(p), a, i)))
  {
    Ring32Lawful(p);
    assert b[..i + 1] == b[..i] + [b[i]];
    CombineAppend(Ring32(p), a, b[..i], b[i]);
  }

  method GF32Multiply(a0: Word, b0: Word, polynomial: Word) returns (product: Word)
    ensures product == Mul(Ring32(polynomial), a0, b0)
  {
    product := ZeroBits(32);
    var a, b := a0, b0;
    var i := 0;
    while i < 31
      invariant 0 <= i <= 31
      invariant a == Iterate(Ring32(polynomial), a0, i)
      invariant forall j :: 0 <= j < 32 - i ==> b[j] == b0[i + j]
      invariant product == Combine(Ring32(polynomial), a0, b0[..i])
    {
      MulStep(polynomial, a0, b0, i);
      TimesX(polynomial, a);
      product := XorBits(product, Mask(b[0], a));
      a := XorBits(Shr(a, 1), Mask(a[31], polynomial));
      b := Shl(b);
      i := i + 1;
    }
    MulStep(polynomial, a0, b0, 31);
    assert b0[..32] == b0;
    product := XorBits(product, Mask(b[0], a));
  }

  // ------------------------------------------------------- crc32table

  datatype Tables = Tables(polynom: Word, table: seq<Word>, power: seq<Word>)

  ghost predicate IsTable(p: Word, table: seq<Word>, n: nat) {
    && n <= |table| == 256
    && forall i :: 0 <= i < n ==> table[i] == Iterate(Ring32(p), ToBits(i, 32), 8)
  }

  ghost predicate Valid(t: Tables) {
    IsTable(t.polynom, t.table, 256) && IsPowers(Ring32(t.polynom), t.power, 32)
  }

  method TableEntry(polynomial: Word, i: Word) returns (crc: Word)
    ensures crc == Iterate(Ring32(polynomial), i, 8)
  {
    crc := i;
    var j := 0;
    while j < 8
      invariant 0 <= j <= 8
      invariant crc == Iterate(Ring32(polynomial), i, j)
    {
      TimesX(polynomial, crc);
      crc := XorBits(Shr(crc, 1), Mask(crc[31], polynomial));
      j := j + 1;
    }
  }

  lemma Squared(p: Word, i: nat)
    ensures Mul(Ring32(p), Power(Ring32(p), Pow2(i)), Power(Ring32(p), Pow2(i))) == Power(Ring32(p), Pow2(i + 1))
  {
    Ring32IsRing(p);
    SquarePower(Ring32(p), i);
  }

  method BuildPowers(polynomial: Word) returns (power: seq<Word>)
    ensures IsPowers(Ring32(polynomial), power, 32)
  {
    power := seq(32, _ => ZeroBits(32));
    Power32(polynomial, 1);
    var k: Word := UnitBits(32, 1); // 0x80000000 >> 1
    var i := 0;
    while i < 32
      invariant 0 <= i <= 32
      invariant k == Power(Ring32(polynomial), Pow2(i))
      invariant IsPowers(Ring32(polynomial), power, i)
    {
      PowersStep(Ring32(polynomial), power, i, k);
      power := power[(i + 29) % 32 := k];
      Squared(polynomial, i);
      k := GF32Multiply(k, k, polynomial);
      i := i + 1;
    }
  }

  method BuildTables(polynomial: Word) returns (t: Tables)
    ensures Valid(t) && t.polynom == polynomial
  {
    hide Iterate, ToBits, IsPowers, Ring32;
    var table: seq<Word> := seq(256, _ => ZeroBits(32));
    var i := 0;
    while i <= 255
      invariant 0 <= i <= 256
      invariant IsTable(polynomial, table, i)
    {
      var crc := TableEntry(polynomial, ToBits(i, 32));
      table := table[i := crc];
      i := i + 1;
    }
    var power := BuildPowers(polynomial);
    t := Tables(polynomial, table, power);
  }

  // ------------------------------------------------------- one byte

  /** A byte as a 32-bit word. */
  function Extend(b: Byte): Word {
    ZeroBits(24) + b
  }

  lemma {:induction false} ToBitsExtend(v: nat, n: nat, m: nat)
    requires v < Pow2(n)
    ensures ToBits(v, n + m) == ZeroBits(m) + ToBits(v, n)
    decreases n, m
  {
    if n > 0 {
      ToBitsExtend(v / 2, n - 1, m);
    } else if m > 0 {
      ToBitsExtend(v, 0, m - 1);
      assert ZeroBits(m) == ZeroBits(m - 1) + [false];
    }
  }

  lemma ByteValue(b: Byte)
    ensures Value(b) < 256 && ToBits(Value(b), 32) == Extend(b)
  {
    ValueBound(b);
    assert Pow2(8) == 256;
    ToBitsExtend(Value(b), 8, 24);
    ToBitsValue(b);
  }

  /** The register after one byte, by table lookup. */
  function UpdateByte(t: Tables, crc: Word, ch: Byte): Word
    requires |t.table| == 256
  {
    ByteValue(XorBits(crc[24..], ch));
    XorBits(Shr(crc, 8), t.table[Value(XorBits(crc[24..], ch))])
  }

  lemma {:induction false} ShiftHigh(p: Word, h: Word, k: nat)
    requires k <= 8 && forall i :: 24 <= i < 32 ==> !h[i]
    ensures Iterate(Ring32(p), h, k) == Shr(h, k)
  {
    if k > 0 {
      ShiftHigh(p, h, k - 1);
      assert !Shr(h, k - 1)[31];
      assert ShiftBits(p, Shr(h, k - 1)) == Shr(h, k);
    } else {
      assert Shr(h, 0) == h;
    }
  }

  /** A table step is one step of the bitwise definition of the check. */
  lemma UpdateByteIsFeed(t: Tables, crc: Word, ch: Byte)
    requires Valid(t)
    ensures UpdateByte(t, crc, ch) == Iterate(Ring32(t.polynom), XorBits(crc, Extend(ch)), 8)
  {
    var v, l: Byte := XorBits(crc, Extend(ch)), XorBits(crc[24..], ch);
    var h: Word := crc[..24] + ZeroBits(8);
    assert v == XorBits(h, Extend(l));
    ByteValue(l);
    assert Shr(h, 8) == Shr(crc, 8);
    ShiftHigh(t.polynom, h, 8);
    Ring32Lawful(t.polynom);
    IterateXor(Ring32(t.polynom), h, Extend(l), 8);
  }
}
