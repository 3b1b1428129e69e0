/** The coder of PAR 1.0 over its own field, and a set that it cannot repair.

  The comment at include/par2/reedsolomon.h:415-416 takes the matrix to be never singular. That is
  not so for all bases and exponents; `TwoMissing` says exactly when two files can be recreated. */
module Par1Galois {
  import opened BinaryAlgebra
  import opened BitWords
  import opened LinearAlgebra
  import opened GaloisTables
  import opened Galois8
  import opened ReedSolomonCode
  import opened LongMultiply
  import opened DataBlocks
  import opened Par1Repair
  import opened Options

  /** base^exponent by the tables; what lies beyond them is taken to be zero. */
  function TablePower<T(!new)>(s: Words<T>, t: Table<T>, a: T, exponent: nat): T
    requires Complete(s, t)
  {
    match Pow(s, t, a, exponent)
    case Some(power) => power
    case None => s.zero
  }

  function Coefficients(t: Table<Bits8>): Coefficient<Bits8>
    requires Complete(Ring(), t)
  {
    (base: nat, exponent: nat) => TablePower<Bits8>(Ring(), t, ByteOf(base), exponent)
  }

  /** The field of polynomials modulo 0x11D. */
  ghost predicate FieldOfBytes(f: Field<Bits8>) {
    && IsField(f) && Binary(f) && f.zero == Ring().zero && f.one == Ring().one
    && forall a: Bits8, b: Bits8 {:trigger f.mul(a, b)} :: f.mul(a, b) == Mul(Ring(), a, b)
  }

  /** The field, the coefficients and the multiplication table that the coder works with. */
  method Coder() returns (f: Field<Bits8>, pow: Coefficient<Bits8>, tables: seq<seq<Bits8>>)
    ensures FieldOfBytes(f) && IsLongTable(f, tables)
    ensures PowersOfBytes(pow)
  {
    var t := Galois8Table();
    f := TableField(Ring(), t);
    pow := Coefficients(t);
    tables := LongMultiplyTable(f);
    OrderOfX();
    Ring8IsRing(Generator());
    forall a: Bits8, b: Bits8 ensures f.mul(a, b) == Mul(Ring(), a, b) {
      MultiplyCorrect(Ring(), t, a, b);
    }
    forall base: nat, exponent: nat | exponent <= 255
      ensures pow(base, exponent) == Raise(Ring(), ByteOf(base), exponent) {
      RingInjective();
      PowUpToLimit(Ring(), t, ByteOf(base), exponent);
    }
  }

  // ---------------------------------------------------------------------- repair with the program's tables

  /** Byte j of the recovery data for an exponent, from file i on: the sum over the files of the power of their base
      times their byte. */
  ghost function RecoveryByte(files: seq<seq<Bits8>>, exponent: nat, j: nat, i: nat): Bits8
    requires i <= |files|
    decreases |files| - i
  {
    if i == |files| then ZeroBits(8)
    else
      var byte := if j < |files[i]| then files[i][j] else ZeroBits(8);
      XorBits(Mul(Ring(), Raise(Ring(), ByteOf(Base(i)), exponent), byte), RecoveryByte(files, exponent, j, i + 1))
  }

  /** A volume holds the recovery data of its exponent, which is one less than its number. */
  ghost predicate HoldsVolume(files: seq<seq<Bits8>>, volume: Volume<Bits8>, blocksize: nat) {
    && volume.exponent < 255 && Readable(volume.block)
    && forall j :: 0 <= j < blocksize ==> volume.block.At(ZeroBits(8), j) == RecoveryByte(files, volume.exponent, j, 0)
  }

  lemma {:induction false} RecoveryIs(f: Field<Bits8>, pow: Coefficient<Bits8>, bases: seq<nat>, files: seq<seq<Bits8>>,
                                      exponent: nat, j: nat, i: nat)
    requires FieldOfBytes(f) && PowersOfBytes(pow) && Numbered(bases) && |bases| == |files| && i <= |files|
             && exponent < 255
    ensures Dot(f, PowerRow(pow, bases, exponent)[i..], Column(f.zero, files, j)[i..])
            == RecoveryByte(files, exponent, j, i)
    decreases |files| - i
  {
    hide Mul, Raise, IsField, Base, ByteOf;
    var row, column := PowerRow(pow, bases, exponent), Column(f.zero, files, j);
    if i < |files| {
      RecoveryIs(f, pow, bases, files, exponent, j, i + 1);
      assert row[i..][1..] == row[i + 1..] && column[i..][1..] == column[i + 1..];
      assert bases[i] == Base(i);
    }
  }

  lemma VolumeSound(f: Field<Bits8>, pow: Coefficient<Bits8>, bases: seq<nat>, files: seq<seq<Bits8>>,
                    volume: Volume<Bits8>, blocksize: nat)
    requires FieldOfBytes(f) && PowersOfBytes(pow) && Numbered(bases) && |bases| == |files|
             && HoldsVolume(files, volume, blocksize)
    ensures HoldsRecovery(f, pow, bases, files, volume, blocksize)
  {
    hide Dot, RecoveryByte, FieldOfBytes, PowersOfBytes;
    ZeroIs(f);
    forall j | 0 <= j < blocksize
      ensures volume.block.At(f.zero, j) == Recovery(f, pow, bases, volume.exponent, Column(f.zero, files, j))
    {
      RecoveryIs(f, pow, bases, files, volume.exponent, j, 0);
      var row, column := PowerRow(pow, bases, volume.exponent), Column(f.zero, files, j);
      assert row[0..] == row && column[0..] == column;
    }
  }

  lemma ZeroIs(f: Field<Bits8>)
    requires FieldOfBytes(f)
    ensures f.zero == ZeroBits(8)
  {}

  /** The repair of a PAR 1.0 set with the tables of the program. What the volumes hold is stated by polynomial
      arithmetic alone. */
  method RepairSet(found: seq<bool>, sourceblocks: seq<DataBlock<Bits8>>, volumes: seq<Volume<Bits8>>,
                   disk: array<seq<Bits8>>,
                   blocksize: nat, chunksize: nat, ghost files: seq<seq<Bits8>>)
    returns (ok: bool, ghost f: Field<Bits8>, ghost pow: Coefficient<Bits8>)
    requires chunksize > 0 && |files| == |found| == |sourceblocks| && |Indices(found, |found|, false)| <= |volumes|
    requires forall i :: 0 <= i < |files| && found[i] ==> HoldsFile(ZeroBits(8), sourceblocks[i], files[i])
    requires forall i :: 0 <= i < |volumes| ==> HoldsVolume(files, volumes[i], blocksize)
    requires disk.Length == CountOf(found, |found|, false)
    requires forall k :: 0 <= k < |found| && !found[k] ==>
             HasSize(disk[..], CountOf(found, k, false), |files[k]|, blocksize)
    modifies disk
    ensures FieldOfBytes(f) && PowersOfBytes(pow)
    ensures ok <==> disk.Length == 0 || Solvable(f, pow, LayoutOf(found, volumes))
    ensures ok ==> forall k :: 0 <= k < |found| && !found[k] ==>
              CountOf(found, k, false) < disk.Length && disk[CountOf(found, k, false)] == files[k]
  {
    hide HoldsFile, HoldsVolume, HoldsRecovery, Solvable, RecoveryByte, PowersOfBytes, Indices, CountOf, HasSize;
    var field, powers, tables := Coder();
    f, pow := field, powers;
    ZeroIs(f);
    ghost var l := LayoutOf(found, volumes);
    forall i | 0 <= i < |volumes|
      ensures volumes[i].exponent < 65536 && HoldsRecovery(f, pow, l.bases, files, volumes[i], blocksize)
    {
      ExponentIs(files, volumes[i], blocksize);
      VolumeSound(f, pow, l.bases, files, volumes[i], blocksize);
    }
    ok := Repair(field, powers, tables, found, sourceblocks, volumes, disk, blocksize, chunksize, files);
  }

  lemma ExponentIs(files: seq<seq<Bits8>>, volume: Volume<Bits8>, blocksize: nat)
    requires HoldsVolume(files, volume, blocksize)
    ensures volume.exponent < 255
  {}

  // ---------------------------------------------------------------------- two missing files

  /** a w0 + b w1, for a row of two coefficients. */
  lemma DotTwo<T(!new)>(f: Field<T>, a: T, b: T, w0: T, w1: T)
    requires IsField(f)
    ensures Dot(f, [a, b], [w0, w1]) == f.add(f.mul(a, w0), f.mul(b, w1))
  {
    assert Dot(f, [b], [w1]) == f.add(f.mul(b, w1), f.zero) by { assert Dot(f, [], []) == f.zero; }
    assert [a, b][1..] == [b] && [w0, w1][1..] == [w1];
    assert f.add(f.mul(b, w1), f.zero) == f.mul(b, w1);
  }

  lemma ProductZero<T(!new)>(f: Field<T>, x: T, p: T)
    requires IsField(f) && p != f.zero && f.mul(p, x) == f.zero
    ensures x == f.zero
  {
    MulZero(f, p);
    assert f.mul(p, x) == f.mul(x, p);
    LinearAlgebra.Cancel(f, x, f.zero, p);
  }

  lemma SumZero<T(!new)>(f: Field<T>, x: T, y: T)
    requires IsField(f)
    ensures f.add(x, y) == f.zero <==> x == y
  {
    if f.add(x, y) == f.zero {
      assert f.add(f.add(x, y), y) == f.add(x, f.add(y, y)) == f.add(x, f.zero) == x;
      AddZeroLeft(f, y);
    }
  }

  /** If a w0 = b w1 and c w0 = d w1 but a d differs from b c, then w0 is zero. */
  lemma Cramer<T(!new)>(f: Field<T>, a: T, b: T, c: T, d: T, w0: T, w1: T)
    requires IsField(f) && f.mul(a, w0) == f.mul(b, w1) && f.mul(c, w0) == f.mul(d, w1) && f.mul(a, d) != f.mul(b, c)
    ensures w0 == f.zero
  {
    var det := f.add(f.mul(a, d), f.mul(b, c));
    SumZero(f, f.mul(a, d), f.mul(b, c));
    calc {
      f.mul(f.mul(a, d), w0);
      { MulSwap(f, a, d, w0); }
      f.mul(f.mul(a, w0), d);
      f.mul(f.mul(b, w1), d);
      { MulSwap(f, b, w1, d); }
      f.mul(f.mul(b, d), w1);
      f.mul(b, f.mul(d, w1));
      f.mul(b, f.mul(c, w0));
      f.mul(f.mul(b, c), w0);
    }
    SumZero(f, f.mul(f.mul(a, d), w0), f.mul(f.mul(b, c), w0));
    assert f.mul(det, w0) == f.zero;
    ProductZero(f, w0, det);
  }

  lemma FirstBlock<T(!new)>(f: Field<T>, a: T, b: T, c: T, d: T)
    requires IsField(f)
    ensures Nonsingular(f, [[a, b], [c, d]], 1) <==> a != f.zero
  {
    var m := [[a, b], [c, d]];
    if a == f.zero {
      var w := [f.one, f.zero];
      DotTwo(f, a, b, f.one, f.zero);
      MulZero(f, f.one);
      MulZero(f, b);
      AddZeroLeft(f, f.zero);
      assert Kernel(f, m, 1, w);
      assert w[0] != f.zero;
    } else {
      forall w | |w| == 2 && Kernel(f, m, 1, w) && Supported(f, w, 1) ensures IsZero(f, w) {
        assert w == [w[0], w[1]] && w[1] == f.zero;
        DotTwo(f, a, b, w[0], w[1]);
        MulZero(f, b);
        assert m[0] == [a, b];
        assert f.add(f.mul(a, w[0]), f.zero) == f.mul(a, w[0]);
        ProductZero(f, w[0], a);
      }
    }
  }

  lemma WholeBlock<T(!new)>(f: Field<T>, a: T, b: T, c: T, d: T)
    requires IsField(f) && a != f.zero
    ensures Nonsingular(f, [[a, b], [c, d]], 2) <==> f.mul(a, d) != f.mul(b, c)
  {
    var m := [[a, b], [c, d]];
    if f.mul(a, d) == f.mul(b, c) {
      var w := [b, a];
      DotTwo(f, a, b, b, a);
      DotTwo(f, c, d, b, a);
      assert f.mul(a, b) == f.mul(b, a) && f.mul(c, b) == f.mul(b, c) && f.mul(d, a) == f.mul(a, d);
      SumZero(f, f.mul(a, b), f.mul(b, a));
      SumZero(f, f.mul(c, b), f.mul(d, a));
      assert Kernel(f, m, 2, w);
      assert w[1] != f.zero;
    } else {
      forall w | |w| == 2 && Kernel(f, m, 2, w) && Supported(f, w, 2) ensures IsZero(f, w) {
        TrivialKernel(f, a, b, c, d, w);
      }
    }
  }

  lemma TrivialKernel<T(!new)>(f: Field<T>, a: T, b: T, c: T, d: T, w: seq<T>)
    requires IsField(f) && |w| == 2 && Kernel(f, [[a, b], [c, d]], 2, w) && f.mul(a, d) != f.mul(b, c)
    ensures IsZero(f, w)
  {
    var m := [[a, b], [c, d]];
    assert w == [w[0], w[1]] && m[0] == [a, b] && m[1] == [c, d];
    DotTwo(f, a, b, w[0], w[1]);
    DotTwo(f, c, d, w[0], w[1]);
    SumZero(f, f.mul(a, w[0]), f.mul(b, w[1]));
    SumZero(f, f.mul(c, w[0]), f.mul(d, w[1]));
    Cramer(f, a, b, c, d, w[0], w[1]);
    assert f.mul(b, c) == f.mul(c, b) && f.mul(a, d) == f.mul(d, a);
    Cramer(f, b, a, d, c, w[1], w[0]);
  }

  lemma TwoBlocks<T(!new)>(f: Field<T>, a: T, b: T, c: T, d: T)
    requires IsField(f)
    ensures (forall n :: 0 <= n <= 2 ==> Nonsingular(f, [[a, b], [c, d]], n))
            <==> a != f.zero && f.mul(a, d) != f.mul(b, c)
  {
    var m := [[a, b], [c, d]];
    NoRows(f, m);
    FirstBlock(f, a, b, c, d);
    if a != f.zero {
      WholeBlock(f, a, b, c, d);
    }
    if a != f.zero && f.mul(a, d) != f.mul(b, c) {
      forall n | 0 <= n <= 2 ensures Nonsingular(f, m, n) {
        if n == 0 {} else if n == 1 {} else { assert n == 2; }
      }
    } else {
      assert !Nonsingular(f, m, 1) || !Nonsingular(f, m, 2);
    }
  }

  lemma TwoRows<T>(f: Field<T>, pow: Coefficient<T>, l: Layout, r: nat)
    requires l.Valid() && |l.Missing()| == 2 && l.Enough() && l.Wanted() == [] && r < 2
    ensures RightRow(f, pow, l, r)
            == [pow(l.bases[l.Missing()[0]], l.Used()[r]), pow(l.bases[l.Missing()[1]], l.Used()[r])]
  {}

  /** Two missing files can be recreated exactly when the first coefficient is not zero and the
      determinant of their coefficients is not. */
  lemma TwoMissing<T(!new)>(f: Field<T>, pow: Coefficient<T>, l: Layout, p: nat, q: nat, d: nat, e: nat)
    requires IsField(f) && l.Valid() && |l.Missing()| == 2 && l.Enough() && l.Wanted() == []
    requires p == l.bases[l.Missing()[0]] && q == l.bases[l.Missing()[1]] && d == l.Used()[0] && e == l.Used()[1]
    ensures Solvable(f, pow, l) <==> pow(p, d) != f.zero && f.mul(pow(p, d), pow(q, e)) != f.mul(pow(q, d), pow(p, e))
  {
    TwoRows(f, pow, l, 0);
    TwoRows(f, pow, l, 1);
    assert RightMatrix(f, pow, l) == [[pow(p, d), pow(q, d)], [pow(p, e), pow(q, e)]];
    TwoBlocks(f, pow(p, d), pow(q, d), pow(p, e), pow(q, e));
  }

  // ---------------------------------------------------------------------- a set that cannot be repaired

  lemma Rounds85(one: bv8)
    requires one == 1
    ensures Run(one, 85) == 214
  {
    To32(one);
    To64(one);
    To96(one);
    RunAdd(one, 80, 5);
    assert Run(253, 5) == 214;
  }

  lemma ByteOf214()
    ensures ByteOf(214) == [false, true, true, false, true, false, true, true]
  {
    assert FromNumber(13, 4) == [true, false, true, true];
  }

  lemma ByteOf1()
    ensures ByteOf(1) == UnitBits(8, 0)
  {
    assert FromNumber(0, 4) == [false, false, false, false];
  }

  /** 214 is x^85, a third root of one. */
  lemma ThirdRoot(one: bv8)
    requires one == 1
    ensures ByteOf(1) == Power(Ring(), 0) && ByteOf(214) == Power(Ring(), 85)
  {
    Rounds85(one);
    BitsOne(one);
    RunPower(one, 0, 85);
    ByteOf1();
    ByteOf214();
  }

  lemma RaiseThirdRoot(n: nat)
    requires n == 1 || n == 4
    ensures Raise(Ring(), ByteOf(214), n) == Power(Ring(), 85)
    ensures Raise(Ring(), ByteOf(1), n) == Power(Ring(), 0)
  {
    ThirdRoot(1);
    Ring8IsRing(Generator());
    RaisePower(Ring(), 85, n);
    RaisePower(Ring(), 0, n);
    OrderOfX();
    if n == 4 { PowerWrap(Ring(), 255, 85); }
  }

  /** A base on which the table power fails: 214 to the 771 is one, and the tables give zero. */
  lemma PowFails214(t: Table<Bits8>)
    requires Complete(Ring(), t) && t.limit == 255 && t.antilog[255] == Ring().zero
    ensures Pow(Ring(), t, ByteOf(214), 771) == Some(Ring().zero)
            && Raise(Ring(), ByteOf(214), 771) == Ring().one != Ring().zero
  {
    OrderOfX();
    RingInjective();
    RingDistinct();
    Ring8IsRing(Generator());
    ThirdRoot(1);
    LogInverts(Ring(), t, 85);
    PowFails(Ring(), t, ByteOf(214));
  }

  lemma TwoVolumes(rows: seq<OutputRow>, d: nat, e: nat)
    requires rows == [OutputRow(true, d), OutputRow(true, e)]
    ensures Exponents(rows, |rows|, true) == [d, e] && Exponents(rows, |rows|, false) == []
  {
    assert Exponents(rows, 0, true) == [] && Exponents(rows, 0, false) == [];
    assert Exponents(rows, 1, true) == [d] && Exponents(rows, 1, false) == [];
  }

  ghost predicate PowersOfBytes(pow: Coefficient<Bits8>) {
    forall base: nat, exponent: nat :: exponent <= 255 ==> pow(base, exponent) == Raise(Ring(), ByteOf(base), exponent)
  }

  ghost predicate Alike<T>(pow: Coefficient<T>, p: nat, q: nat, d: nat, e: nat) {
    pow(p, d) == pow(p, e) && pow(q, d) == pow(q, e)
  }

  lemma EqualPowers(pow: Coefficient<Bits8>)
    requires PowersOfBytes(pow)
    ensures Alike(pow, 1, 214, 1, 4)
  {
    RaiseThirdRoot(1);
    RaiseThirdRoot(4);
  }

  lemma BasesOf(l: Layout)
    requires l.Valid() && Numbered(l.bases) && |l.Missing()| == 2 && l.Missing()[0] == 0 && l.Missing()[1] == 213
    ensures l.bases[l.Missing()[0]] == 1 && l.bases[l.Missing()[1]] == 214
  {
    BaseValue(l.Missing()[0]);
    BaseValue(l.Missing()[1]);
  }

  lemma EqualColumns<T(!new)>(f: Field<T>, pow: Coefficient<T>, l: Layout, p: nat, q: nat, d: nat, e: nat)
    requires IsField(f) && l.Valid() && |l.Missing()| == 2 && l.rows == [OutputRow(true, d), OutputRow(true, e)]
    requires p == l.bases[l.Missing()[0]] && q == l.bases[l.Missing()[1]]
    requires Alike(pow, p, q, d, e)
    ensures l.Enough() && !Solvable(f, pow, l)
  {
    TwoVolumes(l.rows, d, e);
    assert f.mul(pow(p, d), pow(q, e)) == f.mul(pow(q, d), pow(p, e));
    TwoMissing(f, pow, l, p, q, d, e);
  }

  /** With the first and the 214th file missing and the recovery blocks of exponents 1 and 4 at hand,
      there are as many recovery blocks as missing files, but the matrix is singular. */
  lemma Unsolvable(f: Field<Bits8>, pow: Coefficient<Bits8>, l: Layout)
    requires IsField(f) && PowersOfBytes(pow)
    requires l.Valid() && Numbered(l.bases) && |l.Missing()| == 2 && l.Missing()[0] == 0 && l.Missing()[1] == 213
    requires l.rows == [OutputRow(true, 1), OutputRow(true, 4)]
    ensures l.Enough() && !Solvable(f, pow, l)
  {
    BasesOf(l);
    EqualPowers(pow);
    EqualColumns(f, pow, l, 1, 214, 1, 4);
  }
}
