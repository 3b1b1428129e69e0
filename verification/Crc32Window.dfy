/** Zero runs and sliding windows: src/crc.cpp:57-71 and 103-125, include/par2/crc.h:58-84. */
module Crc32Window {
  import opened BinaryAlgebra
  import opened BitWords
  import opened CrcAlgebra
  import opened Crc32

  /** What the rotated power table relies on: the powers of x repeat after 2^32 - 1 steps. */
  ghost predicate Wraps(p: Word) {
    Periodic(Ring32(p))
  }

  /** x^(8n), by squaring over the power table. */
  method CRCExp8(t: Tables, n0: nat) returns (result: Word)
    requires Valid(t) && Wraps(t.polynom)
    ensures result == Power(Ring32(t.polynom), 8 * n0)
  {
    result := UnitBits(32, 0); // 0x80000000
    var power: nat := 0;
    var n: nat := n0 % 0xffff_ffff;
    ExpCorrect(t, n0);
    while n > 0
      invariant power < 32
      invariant ExpLoop(Ring32(t.polynom), t.power, n, power, result) == Power(Ring32(t.polynom), 8 * n0)
      decreases n
    {
      if n % 2 == 1 {
        result := GF32Multiply(result, t.power[power], t.polynom);
      }
      n := n / 2;
      power := (power + 1) % 32;
    }
  }

  lemma ExpCorrect(t: Tables, n: nat)
    requires Valid(t) && Wraps(t.polynom)
    ensures ExpLoop(Ring32(t.polynom), t.power, n % 0xffff_ffff, 0, UnitBits(32, 0)) == Power(Ring32(t.polynom), 8 * n)
  {
    Ring32IsRing(t.polynom);
    ExpLoopCorrect(Ring32(t.polynom), t.power, n);
  }

  // ------------------------------------------------------- the check value of a byte string

  function Symbols(bytes: seq<Byte>): (r: seq<Word>)
    ensures |r| == |bytes|
    ensures forall i :: 0 <= i < |bytes| ==> r[i] == Extend(bytes[i])
  {
    seq(|bytes|, i requires 0 <= i < |bytes| => Extend(bytes[i]))
  }

  function Complement(a: Word): (r: Word)
    ensures forall i :: 0 <= i < 32 ==> r[i] == !a[i]
  {
    XorBits(a, Ones())
  }

  /** The register after a byte string, by the definition: bit by bit. */
  function Register(p: Word, crc: Word, bytes: seq<Byte>): Word {
    Feed(Ring32(p), crc, Symbols(bytes))
  }

  /** CRC-32 of a byte string (section 8 of RFC 1952). */
  function Check(p: Word, bytes: seq<Byte>): Word {
    Complement(Register(p, Ones(), bytes))
  }

  lemma RegisterAppend(p: Word, crc: Word, a: seq<Byte>, b: seq<Byte>)
    ensures Register(p, crc, a + b) == Register(p, Register(p, crc, a), b)
  {
    assert Symbols(a + b) == Symbols(a) + Symbols(b);
    FeedAppend(Ring32(p), crc, Symbols(a), Symbols(b));
  }

  lemma RegisterByte(t: Tables, crc: Word, ch: Byte)
    requires Valid(t)
    ensures UpdateByte(t, crc, ch) == Register(t.polynom, crc, [ch])
  {
    UpdateByteIsFeed(t, crc, ch);
    FeedOne(Ring32(t.polynom), crc, Extend(ch));
    assert Symbols([ch]) == [Extend(ch)];
  }

  lemma RegisterStep(t: Tables, crc0: Word, crc: Word, bytes: seq<Byte>, i: nat)
    requires Valid(t) && i < |bytes| && crc == Register(t.polynom, crc0, bytes[..i])
    ensures UpdateByte(t, crc, bytes[i]) == Register(t.polynom, crc0, bytes[..i + 1])
  {
    RegisterByte(t, crc, bytes[i]);
    RegisterAppend(t.polynom, crc0, bytes[..i], [bytes[i]]);
    assert bytes[..i] + [bytes[i]] == bytes[..i + 1];
  }

  /** CRCUpdateBlock over a buffer. */
  method UpdateBlock(t: Tables, crc0: Word, bytes: seq<Byte>) returns (crc: Word)
    requires Valid(t)
    ensures crc == Register(t.polynom, crc0, bytes)
  {
    crc := crc0;
    var i := 0;
    while i < |bytes|
      invariant 0 <= i <= |bytes|
      invariant crc == Register(t.polynom, crc0, bytes[..i])
    {
      RegisterStep(t, crc0, crc, bytes, i);
      crc := UpdateByte(t, crc, bytes[i]);
      i := i + 1;
    }
    assert bytes[..|bytes|] == bytes;
  }

  function ZeroBytes(n: nat): (r: seq<Byte>)
    ensures |r| == n
    ensures forall i :: 0 <= i < n ==> r[i] == ZeroBits(8)
  {
    seq(n, _ => ZeroBits(8))
  }

  lemma RegisterZeros(p: Word, crc: Word, n: nat)
    ensures Register(p, crc, ZeroBytes(n)) == Mul(Ring32(p), crc, Power(Ring32(p), 8 * n))
  {
    assert Extend(ZeroBits(8)) == ZeroBits(32);
    assert Symbols(ZeroBytes(n)) == Zeros(Ring32(p), n);
    Ring32IsRing(p);
    FeedZeros(Ring32(p), crc, n);
  }

  /** CRCUpdateBlock over a run of zeros. */
  method UpdateZeros(t: Tables, crc: Word, length: nat) returns (r: Word)
    requires Valid(t) && Wraps(t.polynom)
    ensures r == Register(t.polynom, crc, ZeroBytes(length))
  {
    var x8n := CRCExp8(t, length);
    r := GF32Multiply(crc, x8n, t.polynom);
    RegisterZeros(t.polynom, crc, length);
  }

  // ------------------------------------------------------- sliding windows

  /** What a window table holds for an outgoing byte: its removal, with all bits inverted. */
  ghost predicate IsWindowTable(p: Word, window: nat, table: seq<Word>, n: nat) {
    && n <= |table| == 256
    && forall i :: 0 <= i < n ==>
         table[i] == Complement(Removal(Ring32(p), Ones(), Power(Ring32(p), 8 * window), ToBits(i, 32)))
  }

  /** 0x80800000: 1 + x^8. */
  function OnePlusByte(): Word {
    seq(32, i => i == 0 || i == 8)
  }

  lemma OnePlusByteIs(p: Word)
    ensures OnePlusByte() == XorBits(UnitBits(32, 0), Power(Ring32(p), 8))
  {
    Power32(p, 8);
  }

  lemma WindowEntry(t: Tables, window: nat, i: nat, coeff: Word, entry: Word, mask: Word)
    requires Valid(t) && i < 256 && coeff == Power(Ring32(t.polynom), 8 * window)
    requires mask == Mul(Ring32(t.polynom), Mul(Ring32(t.polynom), Ones(), coeff), OnePlusByte())
    requires entry == Mul(Ring32(t.polynom), t.table[i], coeff)
    ensures XorBits(entry, XorBits(mask, Ones()))
         == Complement(Removal(Ring32(t.polynom), Ones(), coeff, ToBits(i, 32)))
  {
    OnePlusByteIs(t.polynom);
    XorBitsLaws(entry, mask, Ones());
  }

  method GenerateWindowTable(t: Tables, window: nat) returns (target: seq<Word>)
    requires Valid(t) && Wraps(t.polynom)
    ensures IsWindowTable(t.polynom, window, target, 256)
  {
    var coeff := CRCExp8(t, window);
    var mask := GF32Multiply(Ones(), coeff, t.polynom);
    mask := GF32Multiply(mask, OnePlusByte(), t.polynom);
    ghost var inner := mask;
    mask := XorBits(mask, Ones());
    target := seq(256, _ => ZeroBits(32));
    var i := 0;
    while i <= 255
      invariant 0 <= i <= 256
      invariant IsWindowTable(t.polynom, window, target, i)
    {
      var entry := GF32Multiply(t.table[i], coeff, t.polynom);
      WindowEntry(t, window, i, coeff, entry, inner);
      target := target[i := XorBits(entry, mask)];
      i := i + 1;
    }
  }

  /** Slide the check value of a window by one byte. */
  function CRCSlideChar(t: Tables, windowtable: seq<Word>, crc: Word, chNew: Byte, chOld: Byte): Word
    requires |t.table| == 256 && |windowtable| == 256
  {
    ByteValue(chOld);
    XorBits(UpdateByte(t, Complement(crc), chNew), windowtable[Value(chOld)])
  }

  lemma RegisterSlide(p: Word, buffer: seq<Byte>)
    requires buffer != []
    ensures Register(p, Ones(), buffer[1..])
         == XorBits(Iterate(Ring32(p),
                            XorBits(Register(p, Ones(), buffer[..|buffer| - 1]), Extend(buffer[|buffer| - 1])), 8),
                    Removal(Ring32(p), Ones(), Power(Ring32(p), 8 * (|buffer| - 1)), Extend(buffer[0])))
  {
    var symbols := Symbols(buffer);
    assert Symbols(buffer[1..]) == symbols[1..];
    assert Symbols(buffer[..|buffer| - 1]) == symbols[..|buffer| - 1];
    Ring32IsRing(p);
    FeedSlide(Ring32(p), Ones(), symbols);
  }

  /** For every window length n and every buffer of n + 1 bytes, sliding the check value of the
      first n bytes gives the check value of the last n. */
  lemma SlideCorrect(t: Tables, windowtable: seq<Word>, buffer: seq<Byte>)
    requires Valid(t) && buffer != [] && IsWindowTable(t.polynom, |buffer| - 1, windowtable, 256)
    ensures CRCSlideChar(t, windowtable, Check(t.polynom, buffer[..|buffer| - 1]), buffer[|buffer| - 1], buffer[0])
         == Check(t.polynom, buffer[1..])
  {
    var n := |buffer| - 1;
    var register := Register(t.polynom, Ones(), buffer[..n]);
    assert Complement(Complement(register)) == register;
    UpdateByteIsFeed(t, register, buffer[n]);
    ByteValue(buffer[0]);
    RegisterSlide(t.polynom, buffer);
    XorBitsLaws(UpdateByte(t, register, buffer[n]),
                Removal(Ring32(t.polynom), Ones(), Power(Ring32(t.polynom), 8 * n), Extend(buffer[0])), Ones());
  }
}
