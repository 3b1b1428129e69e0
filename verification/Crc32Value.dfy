/** What the check value is, apart from how the program computes it: its start and end conditions as section 8.1.1.6.2
  of ITU-T V.42 states them, and the value of the string "123456789". */
module Crc32Value {
  import opened Arithmetic
  import opened BinaryAlgebra
  import opened BitWords
  import opened CrcAlgebra
  import opened Crc32
  import opened Crc32Window
  import opened Crc32Period
  import opened Ccitt

  // ------------------------------------------------------- start and end

  function NotBits(a: seq<bool>): (r: seq<bool>)
    ensures |r| == |a| && forall i :: 0 <= i < |a| ==> r[i] == !a[i]
  {
    seq(|a|, i requires 0 <= i < |a| => !a[i])
  }

  /** The string with its first 32 bits negated. */
  function Negated(bytes: seq<Byte>): (r: seq<Byte>)
    ensures |r| == |bytes| && forall i :: 0 <= i < |bytes| ==> r[i] == if i < 4 then NotBits(bytes[i]) else bytes[i]
  {
    seq(|bytes|, i requires 0 <= i < |bytes| => if i < 4 then NotBits(bytes[i]) else bytes[i])
  }

  /** The lowest byte of each word is added to a byte, and the word moves down. */
  function Mixed(c: Word, bytes: seq<Byte>): (r: seq<Byte>)
    ensures |r| == |bytes|
    decreases |bytes|
  {
    if bytes == [] then [] else [XorBits(bytes[0], c[24..])] + Mixed(Shr(c, 8), bytes[1..])
  }

  lemma RegisterOne(p: Word, crc: Word, ch: Byte)
    ensures Register(p, crc, [ch]) == Iterate(Ring32(p), XorBits(crc, Extend(ch)), 8)
  {
    assert Symbols([ch]) == [Extend(ch)];
    FeedOne(Ring32(p), crc, Extend(ch));
  }

  lemma RegisterFirst(p: Word, crc: Word, bytes: seq<Byte>)
    requires bytes != []
    ensures Register(p, crc, bytes)
         == Register(p, Iterate(Ring32(p), XorBits(crc, Extend(bytes[0])), 8), bytes[1..])
  {
    assert bytes == [bytes[0]] + bytes[1..];
    RegisterAppend(p, crc, [bytes[0]], bytes[1..]);
    RegisterOne(p, crc, bytes[0]);
  }

  /** Adding a word to the register and its lowest byte to the next byte leaves the rest of the word in the register. */
  lemma OneByteIn(p: Word, s: Word, c: Word, ch: Byte)
    ensures Iterate(Ring32(p), XorBits(XorBits(s, c), Extend(ch)), 8)
         == XorBits(Iterate(Ring32(p), XorBits(s, Extend(XorBits(ch, c[24..]))), 8), Shr(c, 8))
  {
    var high: Word := c[..24] + ZeroBits(8);
    var mixed := XorBits(s, Extend(XorBits(ch, c[24..])));
    assert XorBits(XorBits(s, c), Extend(ch)) == XorBits(mixed, high);
    Ring32Lawful(p);
    IterateXor(Ring32(p), mixed, high, 8);
    ShiftHigh(p, high, 8);
    assert Shr(high, 8) == Shr(c, 8);
  }

  /** A word in the register is the same as the word added to the bytes that follow, if there are enough of them. */
  lemma {:induction false} StartIsMixed(p: Word, s: Word, c: Word, bytes: seq<Byte>)
    requires forall i :: 0 <= i < 32 - 8 * |bytes| ==> !c[i]
    ensures Register(p, XorBits(s, c), bytes) == Register(p, s, Mixed(c, bytes))
    decreases |bytes|
  {
    if bytes == [] {
      assert XorBits(s, c) == s;
    } else {
      var ch := XorBits(bytes[0], c[24..]);
      var next := Iterate(Ring32(p), XorBits(s, Extend(ch)), 8);
      RegisterFirst(p, XorBits(s, c), bytes);
      OneByteIn(p, s, c, bytes[0]);
      StartIsMixed(p, next, Shr(c, 8), bytes[1..]);
      var mixed := Mixed(c, bytes);
      assert mixed[0] == ch && mixed[1..] == Mixed(Shr(c, 8), bytes[1..]);
      RegisterFirst(p, s, mixed);
    }
  }

  /** k bytes of ones at the low end of a word. */
  function LowOnes(k: nat): Word
    requires k <= 4
  {
    ZeroBits(32 - 8 * k) + seq(8 * k, _ => true)
  }

  lemma {:induction false} MixedOnes(k: nat, bytes: seq<Byte>, i: nat)
    requires k <= 4 && i < |bytes|
    ensures Mixed(LowOnes(k), bytes)[i] == if i < k then NotBits(bytes[i]) else bytes[i]
    decreases |bytes|
  {
    if i == 0 {
      assert XorBits(bytes[0], LowOnes(k)[24..]) == if 0 < k then NotBits(bytes[0]) else bytes[0];
    } else {
      var less := if k == 0 then 0 else k - 1;
      assert Shr(LowOnes(k), 8) == LowOnes(less);
      MixedOnes(less, bytes[1..], i - 1);
    }
  }

  /** For at least four bytes the check value is the negation of the register that starts at zero and runs over the
      string whose first 32 bits are negated. */
  lemma NegatedEnds(p: Word, bytes: seq<Byte>)
    requires |bytes| >= 4
    ensures forall i :: 0 <= i < 32 ==> Check(p, bytes)[i] == !Register(p, ZeroBits(32), Negated(bytes))[i]
  {
    var ones := LowOnes(4);
    assert XorBits(ZeroBits(32), ones) == Ones();
    StartIsMixed(p, ZeroBits(32), ones, bytes);
    forall i | 0 <= i < |bytes| ensures Mixed(ones, bytes)[i] == Negated(bytes)[i] { MixedOnes(4, bytes, i); }
    assert Mixed(ones, bytes) == Negated(bytes);
  }

  // ------------------------------------------------------- words and numbers

  /** The number that the n last bits of a machine word stand for. */
  function Low(w: bv32, n: nat): nat
    decreases n
  {
    if n == 0 then 0 else 2 * Low(w >> 1, n - 1) + if w & 1 != 0 then 1 else 0
  }

  function Half(w: bv32): bv32 { w >> 1 }

  predicate Odd(w: bv32) { w & 1 != 0 }

  lemma LowStep(w: bv32, n: nat)
    ensures Low(w, n + 1) == 2 * Low(Half(w), n) + if Odd(w) then 1 else 0
  {}

  /** The word without its last k bits. */
  function Without(w: bv32, k: nat): bv32
    decreases k
  {
    if k == 0 then w else Without(Half(w), k - 1)
  }

  lemma {:induction false} LowAdd(w: bv32, k: nat, n: nat)
    ensures Low(w, k + n) == Low(w, k) + Pow2(k) * Low(Without(w, k), n)
    decreases k
  {
    hide Low, Half, Odd;
    if k == 0 {
      LowNone(w);
    } else {
      LowStep(w, k - 1);
      LowStep(w, k - 1 + n);
      LowAdd(Half(w), k - 1, n);
      TwiceProduct(Pow2(k - 1), Low(Without(w, k), n));
    }
  }

  lemma TwiceProduct(p: nat, x: nat)
    ensures 2 * (p * x) == (2 * p) * x
  {}

  lemma WithoutByte(w: bv32, v: bv32)
    requires v == w >> 8
    ensures Half(Half(Half(Half(Half(Half(Half(Half(w)))))))) == v
  {}

  lemma WithoutIs(w: bv32, v: bv32)
    requires v == w >> 8
    ensures Without(w, 8) == v
  {
    WithoutByte(w, v);
    hide Half;
    var a := Half(Half(Half(Half(w))));
    assert Without(w, 8) == Without(Half(Half(w)), 6) == Without(a, 4) == Without(Half(Half(a)), 2);
  }

  lemma LowByte(w: bv32, v: bv32, n: nat)
    requires v == w >> 8
    ensures Low(w, 8 + n) == Low(w, 8) + 256 * Low(v, n)
  {
    hide Low;
    WithoutIs(w, v);
    LowAdd(w, 8, n);
    assert Pow2(8) == 256;
  }

  lemma LowNone(w: bv32)
    ensures Low(w, 0) == 0
  {}

  lemma LastOfList(w: bv32)
    ensures List(w)[31] == Odd(w)
  {
    LastBit(w);
  }

  lemma HalfOfList(w: bv32, i: nat)
    requires i < 31
    ensures List(Half(w))[i + 1] == List(w)[i]
  {
    ListHalf(w, Half(w), i + 1);
  }

  lemma {:induction false} LowIsValue(w: bv32, n: nat)
    requires n <= 32
    ensures Low(w, n) == Value(List(w)[32 - n..])
    decreases n
  {
    hide Low, Half, Odd, Bit;
    if n == 0 {
      LowNone(w);
    } else {
      LowStep(w, n - 1);
      LowIsValue(Half(w), n - 1);
      LastOfList(w);
      var bits, half := List(w)[32 - n..], List(Half(w))[33 - n..];
      forall i: nat | i < n - 1 ensures half[i] == bits[i] { HalfOfList(w, 32 - n + i); }
      assert bits[..n - 1] == half;
    }
  }

  /** A word from its four bytes, the lowest one first. */
  lemma ValueOfList(w: bv32, w1: bv32, w2: bv32, w3: bv32)
    requires w1 == w >> 8 && w2 == w1 >> 8 && w3 == w2 >> 8
    ensures Value(List(w)) == Low(w, 8) + 256 * (Low(w1, 8) + 256 * (Low(w2, 8) + 256 * Low(w3, 8)))
  {
    hide Bit, Low;
    LowByte(w, w1, 24);
    LowByte(w1, w2, 16);
    LowByte(w2, w3, 8);
    LowIsValue(w, 32);
    assert List(w)[0..] == List(w);
  }

  /** The polynomial is 0xEDB88320. */
  lemma PolynomialValue()
    ensures Value(Polynomial()) == 0xEDB88320
  {
    ValueOfList(0xEDB88320, 0xEDB883, 0xEDB8, 0xED);
    assert Low(0xEDB88320, 8) == 0x20;
    assert Low(0xEDB883, 8) == 0x83;
    assert Low(0xEDB8, 8) == 0xB8;
    assert Low(0xED, 8) == 0xED;
  }

  lemma SmallValue(w: bv32)
    requires w >> 8 == 0
    ensures Value(List(w)) == Low(w, 8)
  {
    ValueOfList(w, 0, 0, 0);
    assert Low(0, 8) == 0;
  }

  /** A byte as a machine word. */
  lemma ByteWord(w: bv32, ch: Byte)
    requires Value(ch) == Low(w, 8) && w >> 8 == 0
    ensures Extend(ch) == List(w)
  {
    SmallValue(w);
    SameValue(List(w), ch);
  }

  lemma SameValue(a: Word, ch: Byte)
    requires Value(a) == Value(ch)
    ensures Extend(ch) == a
  {
    hide Value, ToBits, Extend;
    ByteValue(ch);
    ToBitsValue(a);
  }

  // ------------------------------------------------------- the value of "123456789"

  /** The register is moved on by eight bits. */
  function Turns(w: bv32, n: nat): bv32
    decreases n
  {
    if n == 0 then w else Turns(Crc32Period.TimesX(w), n - 1)
  }

  lemma TimesXShifts(r: Words<Word>, w: bv32)
    requires r == Ring32(Polynomial())
    ensures List(Crc32Period.TimesX(w)) == r.shift(List(w))
  {
    TimesXIsShift(w);
  }

  lemma {:induction false} TurnsIterate(r: Words<Word>, w: bv32, n: nat)
    requires r == Ring32(Polynomial())
    ensures List(Turns(w, n)) == Iterate(r, List(w), n)
    decreases n
  {
    hide Crc32Period.TimesX, List, Ring32, Polynomial;
    if n > 0 {
      var next := Crc32Period.TimesX(w);
      TurnsIterate(r, next, n - 1);
      TimesXShifts(r, w);
      IterateShift(r, List(w), n - 1);
    }
  }

  lemma OneMoreByte(bytes: seq<Byte>, k: nat, crc: bv32, w: bv32, sum: bv32, next: bv32, n: nat)
    requires n == 8 && k < |bytes| && Register(Polynomial(), Ones(), bytes[..k]) == List(crc)
    requires Value(bytes[k]) == Low(w, n) && w >> 8 == 0 && sum == crc ^ w && Turns(sum, n) == next
    ensures Register(Polynomial(), Ones(), bytes[..k + 1]) == List(next)
  {
    hide Register, Low, Turns, Bit, Polynomial;
    assert bytes[..k + 1] == bytes[..k] + [bytes[k]];
    RegisterAppend(Polynomial(), Ones(), bytes[..k], [bytes[k]]);
    RegisterOne(Polynomial(), List(crc), bytes[k]);
    ByteWord(w, bytes[k]);
    ListXor(crc, w);
    TurnsIterate(Ring32(Polynomial()), sum, 8);
  }

  lemma AllOn(u: bv32)
    requires Single(u)
    ensures On(0xFFFF_FFFF, u)
  {}

  lemma ListOnes()
    ensures List(0xFFFF_FFFF) == Ones()
  {
    hide On, Unit, Single;
    forall i | 0 <= i < 32 ensures List(0xFFFF_FFFF)[i] == Ones()[i] {
      UnitSingle(i);
      AllOn(Unit(i));
    }
  }

  ghost predicate Digits(bytes: seq<Byte>) {
    |bytes| == 9 && forall i :: 0 <= i < 9 ==> Value(bytes[i]) == 0x31 + i
  }

  lemma FirstDigits(bytes: seq<Byte>)
    requires Digits(bytes)
    ensures Register(Polynomial(), Ones(), bytes[..3]) == List(0x77b79c2d)
  {
    hide Register, List;
    StartWord(bytes);
    assert Low(0x31, 8) == 0x31;  assert Turns(0xffffffce, 8) == 0x7c231048;
    OneMoreByte(bytes, 0, 0xffffffff, 0x31, 0xffffffce, 0x7c231048, 8);
    assert Low(0x32, 8) == 0x32;  assert Turns(0x7c23107a, 8) == 0xb0acbb32;
    OneMoreByte(bytes, 1, 0x7c231048, 0x32, 0x7c23107a, 0xb0acbb32, 8);
    assert Low(0x33, 8) == 0x33;  assert Turns(0xb0acbb01, 8) == 0x77b79c2d;
    OneMoreByte(bytes, 2, 0xb0acbb32, 0x33, 0xb0acbb01, 0x77b79c2d, 8);
  }

  lemma StartWord(bytes: seq<Byte>)
    ensures Register(Polynomial(), Ones(), bytes[..0]) == List(0xffffffff)
  {
    ListOnes();
    assert Symbols(bytes[..0]) == [];
  }

  lemma NextDigits(bytes: seq<Byte>)
    requires Digits(bytes) && Register(Polynomial(), Ones(), bytes[..3]) == List(0x77b79c2d)
    ensures Register(Polynomial(), Ones(), bytes[..6]) == List(0xf68d2c9e)
  {
    hide Register, List;
    assert Low(0x34, 8) == 0x34;  assert Turns(0x77b79c19, 8) == 0x641c1f5c;
    OneMoreByte(bytes, 3, 0x77b79c2d, 0x34, 0x77b79c19, 0x641c1f5c, 8);
    assert Low(0x35, 8) == 0x35;  assert Turns(0x641c1f69, 8) == 0x340ac5e3;
    OneMoreByte(bytes, 4, 0x641c1f5c, 0x35, 0x641c1f69, 0x340ac5e3, 8);
    assert Low(0x36, 8) == 0x36;  assert Turns(0x340ac5d5, 8) == 0xf68d2c9e;
    OneMoreByte(bytes, 5, 0x340ac5e3, 0x36, 0x340ac5d5, 0xf68d2c9e, 8);
  }

  lemma LastDigits(bytes: seq<Byte>)
    requires Digits(bytes) && Register(Polynomial(), Ones(), bytes[..6]) == List(0xf68d2c9e)
    ensures Register(Polynomial(), Ones(), bytes[..9]) == List(0x340bc6d9)
  {
    hide Register, List;
    assert Low(0x37, 8) == 0x37;  assert Turns(0xf68d2ca9, 8) == 0xaffc9660;
    OneMoreByte(bytes, 6, 0xf68d2c9e, 0x37, 0xf68d2ca9, 0xaffc9660, 8);
    assert Low(0x38, 8) == 0x38;  assert Turns(0xaffc9658, 8) == 0x651f2550;
    OneMoreByte(bytes, 7, 0xaffc9660, 0x38, 0xaffc9658, 0x651f2550, 8);
    assert Low(0x39, 8) == 0x39;  assert Turns(0x651f2569, 8) == 0x340bc6d9;
    OneMoreByte(bytes, 8, 0x651f2550, 0x39, 0x651f2569, 0x340bc6d9, 8);
  }

  lemma ResultValue()
    ensures Value(List(0xCBF43926)) == 0xCBF43926
  {
    ValueOfList(0xCBF43926, 0xCBF439, 0xCBF4, 0xCB);
    assert Low(0xCBF43926, 8) == 0x26;
    assert Low(0xCBF439, 8) == 0x39;
    assert Low(0xCBF4, 8) == 0xF4;
    assert Low(0xCB, 8) == 0xCB;
  }

  /** The check value of the nine bytes "123456789" is 0xCBF43926. */
  lemma KnownValue(bytes: seq<Byte>)
    requires |bytes| == 9 && forall i :: 0 <= i < 9 ==> Value(bytes[i]) == '1' as int + i
    ensures Value(Check(Polynomial(), bytes)) == 0xCBF43926
  {
    FirstDigits(bytes);
    NextDigits(bytes);
    LastDigits(bytes);
    assert bytes[..9] == bytes;
    ListOnes();
    ListXor(0x340bc6d9, 0xFFFF_FFFF);
    ResultValue();
  }
}
