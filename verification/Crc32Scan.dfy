/** CRC-32 with its window table is a check value the scanner can slide and extend. */
module Crc32Scan {
  import opened BinaryAlgebra
  import opened BitWords
  import opened Crc32
  import opened Crc32Window
  import FileScan

  /** ~CRCUpdateBlock(~crc, n) */
  function ExtendByZeros(p: Word, crc: Word, n: nat): Word {
    Complement(Mul(Ring32(p), Complement(crc), Power(Ring32(p), 8 * n)))
  }

  function Sums(t: Tables, windowtable: seq<Word>): FileScan.Checksum<Byte, Word>
    requires |t.table| == 256 && |windowtable| == 256
  {
    var zero: Byte := ZeroBits(8);
    var none: Word := ZeroBits(32);
    var crc: seq<Byte> -> Word := (bytes: seq<Byte>) => Check(t.polynom, bytes);
    var slide: (Word, Byte, Byte) -> Word := (crc: Word, a: Byte, b: Byte) => CRCSlideChar(t, windowtable, crc, a, b);
    var extend: (Word, nat) -> Word := (crc: Word, n: nat) => ExtendByZeros(t.polynom, crc, n);
    FileScan.Checksum(zero, none, crc, slide, extend)
  }

  lemma ExtendCorrect(p: Word, bytes: seq<Byte>, n: nat)
    ensures ExtendByZeros(p, Check(p, bytes), n) == Check(p, bytes + ZeroBytes(n))
  {
    var register := Register(p, Ones(), bytes);
    assert Complement(Complement(register)) == register;
    RegisterZeros(p, register, n);
    RegisterAppend(p, Ones(), bytes, ZeroBytes(n));
  }

  lemma CrcSlides(t: Tables, windowtable: seq<Word>, n: nat)
    requires Valid(t) && IsWindowTable(t.polynom, n, windowtable, 256)
    ensures FileScan.Slides(Sums(t, windowtable), n)
  {
    forall w: seq<Byte> {:trigger w[1..]} | |w| == n + 1
      ensures CRCSlideChar(t, windowtable, Check(t.polynom, w[..n]), w[n], w[0]) == Check(t.polynom, w[1..])
    {
      SlideCorrect(t, windowtable, w);
    }
  }

  lemma SameZeros(n: nat)
    ensures FileScan.Zeros<Byte>(ZeroBits(8), n) == ZeroBytes(n)
  {}

  lemma CrcExtendsAt(t: Tables, windowtable: seq<Word>, w: seq<Byte>, k: nat)
    requires |t.table| == 256 && |windowtable| == 256
    ensures ExtendByZeros(t.polynom, Check(t.polynom, w), k)
            == Check(t.polynom, w + FileScan.Zeros<Byte>(ZeroBits(8), k))
  {
    SameZeros(k);
    ExtendCorrect(t.polynom, w, k);
  }

  lemma CrcExtends(t: Tables, windowtable: seq<Word>)
    requires |t.table| == 256 && |windowtable| == 256
    ensures FileScan.Extends(Sums(t, windowtable))
  {
    var sums := Sums(t, windowtable);
    forall w: seq<Byte>, k: nat
      ensures sums.extend(sums.crc(w), k) == sums.crc(w + FileScan.Zeros(sums.zero, k))
    {
      CrcExtendsAt(t, windowtable, w, k);
    }
  }

  /** For every window length the sliding and the zero-extended check values are those of the
      bytes themselves. */
  lemma CrcAgrees(t: Tables, windowtable: seq<Word>, n: nat)
    requires Valid(t) && IsWindowTable(t.polynom, n, windowtable, 256)
    ensures FileScan.Agrees(Sums(t, windowtable), n)
  {
    CrcSlides(t, windowtable, n);
    CrcExtends(t, windowtable);
  }

  // ---------------------------------------------------------------------- check values as numbers

  /** The same check value, read as a number: so it is compared and looked up. */
  function Numbered(sums: FileScan.Checksum<Byte, Word>): FileScan.Checksum<Byte, nat> {
    var crc: seq<Byte> -> nat := (bytes: seq<Byte>) => Value(sums.crc(bytes));
    var slide: (nat, Byte, Byte) -> nat := (crc: nat, a: Byte, b: Byte) => Value(sums.slide(ToBits(crc, 32), a, b));
    var extend: (nat, nat) -> nat := (crc: nat, n: nat) => Value(sums.extend(ToBits(crc, 32), n));
    FileScan.Checksum(sums.zero, Value(sums.none), crc, slide, extend)
  }

  lemma NumberedAgrees(sums: FileScan.Checksum<Byte, Word>, n: nat)
    requires FileScan.Agrees(sums, n)
    ensures FileScan.Agrees(Numbered(sums), n)
  {
    var numbered := Numbered(sums);
    hide Value, ToBits;
    forall w: seq<Byte> {:trigger numbered.crc(w[1..])} | |w| == n + 1
      ensures numbered.slide(numbered.crc(w[..n]), w[n], w[0]) == numbered.crc(w[1..])
    {
      ToBitsValue(sums.crc(w[..n]));
      assert sums.slide(sums.crc(w[..n]), w[n], w[0]) == sums.crc(w[1..]);
    }
    forall w: seq<Byte>, k: nat
      ensures numbered.extend(numbered.crc(w), k) == numbered.crc(w + FileScan.Zeros(numbered.zero, k))
    {
      ToBitsValue(sums.crc(w));
      assert sums.extend(sums.crc(w), k) == sums.crc(w + FileScan.Zeros(sums.zero, k));
    }
  }
}
