/** Multiplying a buffer of bytes by a factor, four bytes at a time: include/par2/galois.h:316-336
  and src/reedsolomon.cpp:110-181. */
module LongMultiply {
  import opened Arithmetic
  import opened BitWords
  import opened LinearAlgebra

  type Byte = Bits8

  // ---------------------------------------------------------------------- bytes as table indices

  function Index(b: Byte): (v: nat)
    ensures v < 256
  {
    NumberBound(b);
    assert Pow2(8) == 256;
    Number(b)
  }

  function ByteOf(v: nat): Byte { FromNumber(v, 8) }

  lemma ByteOfIndex(b: Byte)
    ensures ByteOf(Index(b)) == b
  {
    FromNumberInverse(b);
  }

  // ---------------------------------------------------------------------- the multiplication table

  /** All products of two bytes, the first factor selecting a row. */
  ghost predicate IsLongTable(f: Field<Byte>, tables: seq<seq<Byte>>) {
    |tables| == 256 && forall i :: 0 <= i < 256 ==> IsProductRow(f, ByteOf(i), tables[i])
  }

  ghost predicate IsProductRow(f: Field<Byte>, factor: Byte, row: seq<Byte>) {
    |row| == 256 && forall j :: 0 <= j < 256 ==> row[j] == f.mul(factor, ByteOf(j))
  }

  method LongMultiplyTable(f: Field<Byte>) returns (tables: seq<seq<Byte>>)
    ensures IsLongTable(f, tables)
  {
    tables := [];
    var ii := 0;
    while ii < 256
      invariant 0 <= ii <= 256 && |tables| == ii
      invariant forall i :: 0 <= i < ii ==> IsProductRow(f, ByteOf(i), tables[i])
    {
      var row: seq<Byte> := [];
      var jj := 0;
      while jj < 256
        invariant 0 <= jj <= 256 && |row| == jj
        invariant forall j :: 0 <= j < jj ==> row[j] == f.mul(ByteOf(ii), ByteOf(j))
      {
        row := row + [f.mul(ByteOf(ii), ByteOf(jj))];
        jj := jj + 1;
      }
      tables := tables + [row];
      ii := ii + 1;
    }
  }

  // ---------------------------------------------------------------------- four bytes in a word

  type Word = Bits32

  /** A word loaded from four bytes, the first byte lowest. */
  function Load(b0: Byte, b1: Byte, b2: Byte, b3: Byte): Word { b0 + b1 + b2 + b3 }

  /** (w >> 8k) & 0xff */
  function ByteAt(w: Word, k: nat): Byte
    requires k < 4
  {
    w[8 * k..8 * k + 8]
  }

  /** b << 8k */
  function Placed(b: Byte, k: nat): Word
    requires k < 4
  {
    ZeroBits(8 * k) + b + ZeroBits(24 - 8 * k)
  }

  lemma LoadBytes(b0: Byte, b1: Byte, b2: Byte, b3: Byte)
    ensures var w := Load(b0, b1, b2, b3);
    ByteAt(w, 0) == b0 && ByteAt(w, 1) == b1 && ByteAt(w, 2) == b2 && ByteAt(w, 3) == b3
  {}

  lemma PlacedAt(b: Byte, k: nat, i: nat)
    requires k < 4 && i < 32
    ensures Placed(b, k)[i] == (8 * k <= i < 8 * k + 8 && b[i - 8 * k])
  {}

  /** The four shifted products do not overlap, so adding them sets them side by side. */
  lemma PlacedSum(p0: Byte, p1: Byte, p2: Byte, p3: Byte)
    ensures XorBits(XorBits(XorBits(Placed(p0, 0), Placed(p1, 1)), Placed(p2, 2)), Placed(p3, 3))
            == Load(p0, p1, p2, p3)
  {
    var sum := XorBits(XorBits(XorBits(Placed(p0, 0), Placed(p1, 1)), Placed(p2, 2)), Placed(p3, 3));
    forall i: nat | i < 32 ensures sum[i] == Load(p0, p1, p2, p3)[i] {
      PlacedAt(p0, 0, i);
      PlacedAt(p1, 1, i);
      PlacedAt(p2, 2, i);
      PlacedAt(p3, 3, i);
    }
  }

  lemma LoadXor(a0: Byte, a1: Byte, a2: Byte, a3: Byte, b0: Byte, b1: Byte, b2: Byte, b3: Byte)
    ensures XorBits(Load(a0, a1, a2, a3), Load(b0, b1, b2, b3))
         == Load(XorBits(a0, b0), XorBits(a1, b1), XorBits(a2, b2), XorBits(a3, b3))
  {}

  /** One round of the word loop: look up the four bytes of s and add the products to d. */
  function WordStep(row: seq<Byte>, s: Word, d: Word): Word
    requires |row| == 256
  {
    XorBits(d, XorBits(XorBits(XorBits(Placed(row[Index(ByteAt(s, 0))], 0), Placed(row[Index(ByteAt(s, 1))], 1)),
                               Placed(row[Index(ByteAt(s, 2))], 2)), Placed(row[Index(ByteAt(s, 3))], 3)))
  }

  lemma Lookup(f: Field<Byte>, factor: Byte, row: seq<Byte>, s: Byte)
    requires IsProductRow(f, factor, row)
    ensures row[Index(s)] == f.mul(factor, s)
  {
    ByteOfIndex(s);
  }

  /** It multiplies and adds each byte on its own. */
  lemma WordStepBytes(f: Field<Byte>, factor: Byte, row: seq<Byte>, s0: Byte, s1: Byte, s2: Byte, s3: Byte, d0: Byte,
                      d1: Byte, d2: Byte, d3: Byte)
    requires IsProductRow(f, factor, row)
    ensures WordStep(row, Load(s0, s1, s2, s3), Load(d0, d1, d2, d3))
         == Load(XorBits(d0, f.mul(factor, s0)), XorBits(d1, f.mul(factor, s1)), XorBits(d2, f.mul(factor, s2)),
                 XorBits(d3, f.mul(factor, s3)))
  {
    LoadBytes(s0, s1, s2, s3);
    Lookup(f, factor, row, s0);
    Lookup(f, factor, row, s1);
    Lookup(f, factor, row, s2);
    Lookup(f, factor, row, s3);
    PlacedSum(f.mul(factor, s0), f.mul(factor, s1), f.mul(factor, s2), f.mul(factor, s3));
    LoadXor(d0, d1, d2, d3, f.mul(factor, s0), f.mul(factor, s1), f.mul(factor, s2), f.mul(factor, s3));
  }

  /** Byte by byte: d + factor * s. */
  function MulAdd<T>(f: Field<T>, factor: T, d: T, s: T): T { f.add(d, f.mul(factor, s)) }

  ghost predicate Binary(f: Field<Byte>) {
    forall a: Byte, b: Byte {:trigger f.add(a, b)} :: f.add(a, b) == XorBits(a, b)
  }

  /** The part of the output buffer below `end` has been processed, the rest has not. */
  ghost predicate Processed<T>(f: Field<T>, factor: T, src: seq<T>, before: seq<T>, now: seq<T>, at: nat, end: nat) {
    && |now| == |before| && at + end <= |before| && end <= |src|
    && (forall i :: 0 <= i < |before| && !(at <= i < at + end) ==> now[i] == before[i])
    && (forall i {:trigger now[i]} :: at <= i < at + end ==> now[i] == MulAdd(f, factor, before[i], src[i - at]))
  }

  method InternalProcess(f: Field<Byte>, tables: seq<seq<Byte>>, factor: Byte, size: nat, src: seq<Byte>,
                         dst: array<Byte>, at: nat)
    requires IsLongTable(f, tables) && Binary(f) && size <= |src| && at + size <= dst.Length
    modifies dst
    ensures Processed(f, factor, src, old(dst[..]), dst[..], at, size)
  {
    var row := FactorRow(f, tables, factor);
    NothingProcessed(f, factor, src, dst[..], at);
    hide Processed, IsProductRow, IsLongTable, Binary;
    var words := size / 4;
    var word := 0;
    while word < words
      invariant 0 <= word <= words
      invariant Processed(f, factor, src, old(dst[..]), dst[..], at, 4 * word)
    {
      ProcessWord(f, factor, row, src, dst, at, 4 * word, old(dst[..]));
      word := word + 1;
    }
    var i := 4 * words;
    while i < size
      invariant 4 * words <= i <= size
      invariant Processed(f, factor, src, old(dst[..]), dst[..], at, i)
    {
      ProcessByte(f, factor, row, src, dst, at, i, old(dst[..]));
      i := i + 1;
    }
  }

  /** The row of the table that belongs to a factor. */
  function FactorRow(f: Field<Byte>, tables: seq<seq<Byte>>, factor: Byte): (row: seq<Byte>)
    requires IsLongTable(f, tables)
    ensures IsProductRow(f, factor, row)
  {
    ByteOfIndex(factor);
    tables[Index(factor)]
  }

  lemma NothingProcessed<T>(f: Field<T>, factor: T, src: seq<T>, buffer: seq<T>, at: nat)
    requires at <= |buffer|
    ensures Processed(f, factor, src, buffer, buffer, at, 0)
  {}

  method ProcessByte(f: Field<Byte>, ghost factor: Byte, row: seq<Byte>, src: seq<Byte>, dst: array<Byte>, at: nat,
                     i: nat, ghost before: seq<Byte>)
    requires IsProductRow(f, factor, row) && Binary(f) && i < |src| && at + i < dst.Length
    requires Processed(f, factor, src, before, dst[..], at, i)
    modifies dst
    ensures Processed(f, factor, src, before, dst[..], at, i + 1)
  {
    Lookup(f, factor, row, src[i]);
    dst[at + i] := XorBits(dst[at + i], row[Index(src[i])]);
  }

  method ProcessWord(f: Field<Byte>, ghost factor: Byte, row: seq<Byte>, src: seq<Byte>, dst: array<Byte>, at: nat,
                     i: nat, ghost before: seq<Byte>)
    requires IsProductRow(f, factor, row) && Binary(f) && i + 4 <= |src| && at + i + 4 <= dst.Length
    requires Processed(f, factor, src, before, dst[..], at, i)
    modifies dst
    ensures Processed(f, factor, src, before, dst[..], at, i + 4)
  {
    var k := at + i;
    var s := Load(src[i], src[i + 1], src[i + 2], src[i + 3]);
    var d := Load(dst[k], dst[k + 1], dst[k + 2], dst[k + 3]);
    var r := WordStep(row, s, d);
    WordStepBytes(f, factor, row, src[i], src[i + 1], src[i + 2], src[i + 3], dst[k], dst[k + 1], dst[k + 2],
                  dst[k + 3]);
    LoadBytes(XorBits(dst[k], f.mul(factor, src[i])), XorBits(dst[k + 1], f.mul(factor, src[i + 1])),
              XorBits(dst[k + 2], f.mul(factor, src[i + 2])), XorBits(dst[k + 3], f.mul(factor, src[i + 3])));
    dst[k], dst[k + 1], dst[k + 2], dst[k + 3] := ByteAt(r, 0), ByteAt(r, 1), ByteAt(r, 2), ByteAt(r, 3);
  }
}
