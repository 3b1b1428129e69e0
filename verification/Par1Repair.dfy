/** Recreating the missing files of a PAR 1.0 set, one chunk at a time: src/par1repairer.cpp:205-222
  and 1161-1350. */
module Par1Repair {
  import opened Arithmetic
  import opened BitWords
  import opened LinearAlgebra
  import opened Gauss
  import opened ReedSolomonCode
  import opened DataBlocks
  import opened LongMultiply

  // ---------------------------------------------------------------------- sums over input blocks

  /** What the input blocks hold at one position. */
  function Values<T>(zero: T, blocks: seq<DataBlock<T>>, position: nat): (r: seq<T>)
    ensures |r| == |blocks|
    ensures forall i :: 0 <= i < |r| ==> r[i] == blocks[i].At(zero, position)
  {
    seq(|blocks|, i requires 0 <= i < |blocks| => blocks[i].At(zero, position))
  }

  /** The contribution of the first n input blocks to one byte of an output block. */
  function Sum<T>(f: Field<T>, row: seq<T>, blocks: seq<DataBlock<T>>, position: nat, n: nat): T
    requires n <= |row| == |blocks|
  {
    Dot(f, row[..n], Values(f.zero, blocks, position)[..n])
  }

  lemma SumStep<T(!new)>(f: Field<T>, row: seq<T>, blocks: seq<DataBlock<T>>, position: nat, n: nat)
    requires IsField(f) && n < |row| == |blocks|
    ensures Sum(f, row, blocks, position, n + 1)
            == MulAdd(f, row[n], Sum(f, row, blocks, position, n), blocks[n].At(f.zero, position))
  {
    var v := Values(f.zero, blocks, position);
    assert row[..n + 1] == row[..n] + [row[n]] && v[..n + 1] == v[..n] + [v[n]];
    DotSnoc(f, row[..n], row[n], v[..n], v[n]);
  }

  /** The bytes of a chunk hold the contributions of the first n input blocks. */
  ghost predicate Summed<T>(f: Field<T>, row: seq<T>, blocks: seq<DataBlock<T>>, offset: nat, n: nat, part: seq<T>)
    requires n <= |row| == |blocks|
  {
    forall k :: 0 <= k < |part| ==> part[k] == Sum(f, row, blocks, offset + k, n)
  }

  lemma SummedStep<T(!new)>(f: Field<T>, row: seq<T>, blocks: seq<DataBlock<T>>, offset: nat, n: nat,
                            src: seq<T>, before: seq<T>, now: seq<T>)
    requires IsField(f) && n < |row| == |blocks| && |src| == |before| == |now|
    requires forall k :: 0 <= k < |src| ==> src[k] == blocks[n].At(f.zero, offset + k)
    requires forall k :: 0 <= k < |src| ==> now[k] == MulAdd(f, row[n], before[k], src[k])
    requires Summed(f, row, blocks, offset, n, before)
    ensures Summed(f, row, blocks, offset, n + 1, now)
  {
    forall k | 0 <= k < |now| ensures now[k] == Sum(f, row, blocks, offset + k, n + 1) {
      SumStep(f, row, blocks, offset + k, n);
    }
  }

  // ---------------------------------------------------------------------- the output buffer

  /** Each output block has its own part of the buffer, which starts at its number times the alignment. */
  function PartAt<T>(buffer: seq<T>, alignment: nat, o: nat, length: nat): (r: seq<T>)
    requires Prod(o, alignment) + length <= |buffer|
    ensures |r| == length
    ensures forall k :: 0 <= k < length ==> r[k] == buffer[Prod(o, alignment) + k]
  {
    buffer[Prod(o, alignment)..Prod(o, alignment) + length]
  }

  /** Processing one part leaves the others alone. */
  lemma OtherPart<T>(f: Field<T>, factor: T, src: seq<T>, before: seq<T>, now: seq<T>, alignment: nat, o: nat, p: nat,
                     length: nat)
    requires length <= alignment && o != p && Prod(p, alignment) + length <= |before|
    requires Processed(f, factor, src, before, now, Prod(o, alignment), length)
    ensures PartAt(now, alignment, p, length) == PartAt(before, alignment, p, length)
  {
    if o < p { ProdLess(o, p, alignment); } else { ProdLess(p, o, alignment); }
  }

  lemma OwnPart<T>(f: Field<T>, factor: T, src: seq<T>, before: seq<T>, now: seq<T>, alignment: nat, o: nat,
                   length: nat)
    requires Prod(o, alignment) + length <= |before| && |src| == length
    requires Processed(f, factor, src, before, now, Prod(o, alignment), length)
    ensures forall k :: 0 <= k < length ==>
              PartAt(now, alignment, o, length)[k] == MulAdd(f, factor, PartAt(before, alignment, o, length)[k], src[k])
  {
    forall k | 0 <= k < length
      ensures PartAt(now, alignment, o, length)[k] == MulAdd(f, factor, PartAt(before, alignment, o, length)[k], src[k])
    {
      assert now[Prod(o, alignment) + k] == MulAdd(f, factor, before[Prod(o, alignment) + k], src[k]);
    }
  }

  /** ReedSolomon::Process: nothing to do for a zero factor. */
  method Process(f: Field<Byte>, tables: seq<seq<Byte>>, left: array2<Byte>, inputindex: nat, src: seq<Byte>,
                 outputindex: nat, dst: array<Byte>, at: nat)
    requires IsField(f) && Binary(f) && IsLongTable(f, tables)
    requires outputindex < left.Length0 && inputindex < left.Length1 && at + |src| <= dst.Length
    modifies dst
    ensures Processed(f, left[outputindex, inputindex], src, old(dst[..]), dst[..], at, |src|)
  {
    var factor := left[outputindex, inputindex];
    if factor == f.zero {
      forall d, s ensures MulAdd(f, f.zero, d, s) == d { MulZero(f, s); assert f.add(d, f.zero) == d; }
      return;
    }
    InternalProcess(f, tables, factor, |src|, src, dst, at);
  }

  /** The part of output block o has taken in the first n input blocks. */
  ghost predicate PartDone<T>(f: Field<T>, row: seq<T>, blocks: seq<DataBlock<T>>, offset: nat, length: nat,
                              buffer: seq<T>, alignment: nat, o: nat, n: nat)
    requires n <= |row| == |blocks|
  {
    && length <= alignment && Prod(o, alignment) + length <= |buffer|
    && Summed(f, row, blocks, offset, n, PartAt(buffer, alignment, o, length))
  }

  lemma PartKept<T>(f: Field<T>, row: seq<T>, blocks: seq<DataBlock<T>>, offset: nat, factor: T, src: seq<T>,
                    before: seq<T>, now: seq<T>, alignment: nat, o: nat, p: nat, n: nat)
    requires n <= |row| == |blocks| && o != p
    requires PartDone(f, row, blocks, offset, |src|, before, alignment, p, n)
    requires Processed(f, factor, src, before, now, Prod(o, alignment), |src|)
    ensures PartDone(f, row, blocks, offset, |src|, now, alignment, p, n)
  {
    OtherPart(f, factor, src, before, now, alignment, o, p, |src|);
  }

  lemma PartAdvanced<T(!new)>(f: Field<T>, row: seq<T>, blocks: seq<DataBlock<T>>, offset: nat, src: seq<T>,
                              before: seq<T>, now: seq<T>, alignment: nat, o: nat, n: nat)
    requires IsField(f) && n < |row| == |blocks|
    requires PartDone(f, row, blocks, offset, |src|, before, alignment, o, n)
    requires forall k :: 0 <= k < |src| ==> src[k] == blocks[n].At(f.zero, offset + k)
    requires Processed(f, row[n], src, before, now, Prod(o, alignment), |src|)
    ensures PartDone(f, row, blocks, offset, |src|, now, alignment, o, n + 1)
  {
    OwnPart(f, row[n], src, before, now, alignment, o, |src|);
    SummedStep(f, row, blocks, offset, n, src, PartAt(before, alignment, o, |src|), PartAt(now, alignment, o, |src|));
  }

  /** The output buffer, part by part: those before `done` have taken in n + 1 blocks, the others n. */
  ghost predicate Buffered<T>(f: Field<T>, left: seq<seq<T>>, blocks: seq<DataBlock<T>>, offset: nat, length: nat,
                              buffer: seq<T>, alignment: nat, n: nat, done: nat)
    requires Shape(left, |left|, |blocks|) && n <= |blocks| && (done > 0 ==> n < |blocks|)
  {
    && length <= alignment && Prod(|left|, alignment) <= |buffer|
    && forall o :: 0 <= o < |left| ==>
         PartDone(f, left[o], blocks, offset, length, buffer, alignment, o, if o < done then n + 1 else n)
  }

  lemma BufferedStep<T(!new)>(f: Field<T>, left: seq<seq<T>>, blocks: seq<DataBlock<T>>, offset: nat, src: seq<T>,
                              before: seq<T>, now: seq<T>, alignment: nat, n: nat, o: nat)
    requires IsField(f) && Shape(left, |left|, |blocks|) && n < |blocks| && o < |left|
    requires Buffered(f, left, blocks, offset, |src|, before, alignment, n, o)
    requires forall k :: 0 <= k < |src| ==> src[k] == blocks[n].At(f.zero, offset + k)
    requires Processed(f, left[o][n], src, before, now, Prod(o, alignment), |src|)
    ensures Buffered(f, left, blocks, offset, |src|, now, alignment, n, o + 1)
  {
    forall p | 0 <= p < |left|
      ensures PartDone(f, left[p], blocks, offset, |src|, now, alignment, p, if p < o + 1 then n + 1 else n)
    {
      if p != o {
        PartKept(f, left[p], blocks, offset, left[o][n], src, before, now, alignment, o, p, if p < o then n + 1 else n);
      } else {
        PartAdvanced(f, left[o], blocks, offset, src, before, now, alignment, o, n);
      }
    }
  }

  lemma BufferedNext<T>(f: Field<T>, left: seq<seq<T>>, blocks: seq<DataBlock<T>>, offset: nat, length: nat,
                        buffer: seq<T>, alignment: nat, n: nat)
    requires Shape(left, |left|, |blocks|) && n < |blocks|
    requires Buffered(f, left, blocks, offset, length, buffer, alignment, n, |left|)
    ensures Buffered(f, left, blocks, offset, length, buffer, alignment, n + 1, 0)
  {}

  lemma BufferedClear<T>(f: Field<T>, left: seq<seq<T>>, blocks: seq<DataBlock<T>>, offset: nat, length: nat,
                         buffer: seq<T>, alignment: nat)
    requires Shape(left, |left|, |blocks|) && length <= alignment && Prod(|left|, alignment) <= |buffer|
    requires forall i :: 0 <= i < |buffer| ==> buffer[i] == f.zero
    ensures Buffered(f, left, blocks, offset, length, buffer, alignment, 0, 0)
  {
    forall o | 0 <= o < |left| ensures PartDone(f, left[o], blocks, offset, length, buffer, alignment, o, 0) {
      ProdLess(o, |left|, alignment);
    }
  }

  /** Feed one input block into every output block. */
  method FeedBlock(f: Field<Byte>, tables: seq<seq<Byte>>, left: array2<Byte>, ghost blocks: seq<DataBlock<Byte>>,
                   ghost offset: nat,
                   src: seq<Byte>, buffer: array<Byte>, alignment: nat, inputindex: nat)
    requires IsField(f) && Binary(f) && IsLongTable(f, tables)
    requires inputindex < left.Length1 == |blocks|
    requires Buffered(f, Contents(left), blocks, offset, |src|, buffer[..], alignment, inputindex, 0)
    requires forall k :: 0 <= k < |src| ==> src[k] == blocks[inputindex].At(f.zero, offset + k)
    modifies buffer
    ensures Buffered(f, Contents(left), blocks, offset, |src|, buffer[..], alignment, inputindex + 1, 0)
  {
    ghost var m := Contents(left);
    var outputindex := 0;
    while outputindex < left.Length0
      invariant 0 <= outputindex <= left.Length0
      invariant Buffered(f, m, blocks, offset, |src|, buffer[..], alignment, inputindex, outputindex)
    {
      ghost var before := buffer[..];
      assert Prod(outputindex, alignment) + |src| <= |before| by {
        ProdLess(outputindex, left.Length0, alignment);
      }
      Process(f, tables, left, inputindex, src, outputindex, buffer, Prod(outputindex, alignment));
      BufferedStep(f, m, blocks, offset, src, before, buffer[..], alignment, inputindex, outputindex);
      outputindex := outputindex + 1;
    }
    BufferedNext(f, m, blocks, offset, |src|, buffer[..], alignment, inputindex);
  }

  // ---------------------------------------------------------------------- one chunk

  /** Byte j of what output block o should be. */
  function Restored<T>(f: Field<T>, row: seq<T>, blocks: seq<DataBlock<T>>, j: nat): T
    requires |row| == |blocks|
  {
    Dot(f, row, Values(f.zero, blocks, j))
  }

  lemma SumOfAll<T>(f: Field<T>, row: seq<T>, blocks: seq<DataBlock<T>>, position: nat)
    requires |row| == |blocks|
    ensures Sum(f, row, blocks, position, |row|) == Restored(f, row, blocks, position)
  {
    assert row[..|row|] == row && Values(f.zero, blocks, position)[..|row|] == Values(f.zero, blocks, position);
  }

  /** The bytes of a file below `end` have been restored. */
  ghost predicate RestoredTo<T>(f: Field<T>, row: seq<T>, blocks: seq<DataBlock<T>>, file: seq<T>, end: nat)
    requires |row| == |blocks|
  {
    forall j :: 0 <= j < |file| && j < end ==> file[j] == Restored(f, row, blocks, j)
  }

  lemma ChunkRestored<T>(f: Field<T>, row: seq<T>, blocks: seq<DataBlock<T>>, before: seq<T>, now: seq<T>, offset: nat,
                         part: seq<T>, wrote: nat)
    requires |row| == |blocks| && Summed(f, row, blocks, offset, |row|, part)
             && RestoredTo(f, row, blocks, before, offset)
    requires wrote == if |before| > offset then Min(|part|, |before| - offset) else 0
    requires Overwritten(f.zero, before, now, offset, wrote, part)
    ensures RestoredTo(f, row, blocks, now, offset + |part|)
  {
    forall j | 0 <= j < |now| && j < offset + |part| ensures now[j] == Restored(f, row, blocks, j) {
      if offset <= j {
        SumOfAll(f, row, blocks, j);
        assert part[j - offset] == Sum(f, row, blocks, offset + (j - offset), |row|);
      }
    }
  }

  ghost predicate Readable<T>(block: DataBlock<T>) {
    block.offset + block.length <= |block.file|
  }

  /** Every target file has been restored up to some position, and keeps its size. */
  ghost predicate DiskRestored<T>(f: Field<T>, left: seq<seq<T>>, blocks: seq<DataBlock<T>>, disk: seq<seq<T>>,
                                  sizes: seq<nat>, from: nat, before: nat, end: nat)
    requires Shape(left, |left|, |blocks|)
  {
    && |disk| == |left| == |sizes|
    && forall o :: 0 <= o < |left| ==>
       |disk[o]| == sizes[o] && RestoredTo(f, left[o], blocks, disk[o], if o < from then end else before)
  }

  /** Read every input block, run it through the matrix, and write the outcome. */
  method ProcessData(f: Field<Byte>, tables: seq<seq<Byte>>, left: array2<Byte>, blocks: seq<DataBlock<Byte>>,
                     disk: array<seq<Byte>>,
                     ghost sizes: seq<nat>, buffer: array<Byte>, alignment: nat, blockoffset: nat, blocklength: nat)
    returns (ok: bool)
    requires IsField(f) && Binary(f) && IsLongTable(f, tables)
    requires left.Length1 == |blocks| && blocklength <= alignment && Prod(left.Length0, alignment) <= buffer.Length
    requires DiskRestored(f, Contents(left), blocks, disk[..], sizes, 0, blockoffset, blockoffset)
    modifies disk, buffer
    ensures (forall i :: 0 <= i < |blocks| ==> Readable(blocks[i])) ==> ok
    ensures ok ==> DiskRestored(f, Contents(left), blocks, disk[..], sizes, 0, blockoffset + blocklength,
                                blockoffset + blocklength)
  {
    ghost var m := Contents(left);
    Clear(f.zero, buffer);
    BufferedClear(f, m, blocks, blockoffset, blocklength, buffer[..], alignment);
    var inputindex := 0;
    while inputindex < |blocks|
      invariant 0 <= inputindex <= |blocks|
      invariant Buffered(f, m, blocks, blockoffset, blocklength, buffer[..], alignment, inputindex, 0)
      invariant disk[..] == old(disk[..])
    {
      var read, src := ReadData(f.zero, blocks[inputindex], blockoffset, blocklength);
      if !read {
        return false;
      }
      FeedBlock(f, tables, left, blocks, blockoffset, src, buffer, alignment, inputindex);
      inputindex := inputindex + 1;
    }
    WriteOut(f, left, blocks, disk, sizes, buffer, alignment, blockoffset, blocklength);
    return true;
  }

  method Clear<T>(zero: T, buffer: array<T>)
    modifies buffer
    ensures forall i :: 0 <= i < buffer.Length ==> buffer[i] == zero
  {
    for i := 0 to buffer.Length
      invariant forall k :: 0 <= k < i ==> buffer[k] == zero
    {
      buffer[i] := zero;
    }
  }

  method WriteOut(f: Field<Byte>, left: array2<Byte>, ghost blocks: seq<DataBlock<Byte>>, disk: array<seq<Byte>>,
                  ghost sizes: seq<nat>,
                  buffer: array<Byte>, alignment: nat, blockoffset: nat, blocklength: nat)
    requires left.Length1 == |blocks|
    requires Buffered(f, Contents(left), blocks, blockoffset, blocklength, buffer[..], alignment, |blocks|, 0)
    requires DiskRestored(f, Contents(left), blocks, disk[..], sizes, 0, blockoffset, blockoffset)
    modifies disk
    ensures DiskRestored(f, Contents(left), blocks, disk[..], sizes, 0, blockoffset + blocklength,
                         blockoffset + blocklength)
  {
    hide Dot, Sum, Summed, RestoredTo;
    ghost var m := Contents(left);
    var outputindex := 0;
    while outputindex < left.Length0
      invariant 0 <= outputindex <= left.Length0
      invariant DiskRestored(f, m, blocks, disk[..], sizes, outputindex, blockoffset, blockoffset + blocklength)
    {
      ghost var before := disk[outputindex];
      assert PartDone(f, m[outputindex], blocks, blockoffset, blocklength, buffer[..], alignment, outputindex,
                      |blocks|);
      var at := Prod(outputindex, alignment);
      var part := buffer[..][at..at + blocklength];
      var wrote := WriteData(f.zero, disk, outputindex, 0, |disk[outputindex]|, blockoffset, part);
      ChunkRestored(f, m[outputindex], blocks, before, disk[outputindex], blockoffset, part, wrote);
      outputindex := outputindex + 1;
    }
  }

  // ---------------------------------------------------------------------- all chunks

  /** The chunk loop: whatever the chunk size, every target file ends up restored as a whole. */
  method ProcessChunks(f: Field<Byte>, tables: seq<seq<Byte>>, left: array2<Byte>, blocks: seq<DataBlock<Byte>>,
                       disk: array<seq<Byte>>,
                       ghost sizes: seq<nat>, buffer: array<Byte>, alignment: nat, blocksize: nat, chunksize: nat)
    returns (ok: bool)
    requires IsField(f) && Binary(f) && IsLongTable(f, tables)
    requires left.Length1 == |blocks| && 0 < chunksize <= alignment && Prod(left.Length0, alignment) <= buffer.Length
    requires disk.Length == left.Length0 == |sizes|
    requires forall o :: 0 <= o < disk.Length ==> |disk[o]| == sizes[o] <= blocksize
    modifies disk, buffer
    ensures (forall i :: 0 <= i < |blocks| ==> Readable(blocks[i])) ==> ok
    ensures ok ==> forall o :: 0 <= o < disk.Length ==>
            |disk[o]| == sizes[o] && RestoredTo(f, Contents(left)[o], blocks, disk[o], sizes[o])
  {
    ghost var m := Contents(left);
    var blockoffset := 0;
    while blockoffset < blocksize
      invariant 0 <= blockoffset <= blocksize
      invariant DiskRestored(f, m, blocks, disk[..], sizes, 0, blockoffset, blockoffset)
    {
      var blocklength := Min(chunksize, blocksize - blockoffset);
      ok := ProcessData(f, tables, left, blocks, disk, sizes, buffer, alignment, blockoffset, blocklength);
      if !ok {
        return false;
      }
      blockoffset := blockoffset + blocklength;
    }
    return true;
  }

  // ---------------------------------------------------------------------- which blocks the matrix is about

  /** A recovery volume: its exponent and where its data lies. */
  datatype Volume<T> = Volume(exponent: nat, block: DataBlock<T>)

  /** The bytes of all source files at one position; a short file is padded with zeros. */
  function Column<T>(zero: T, files: seq<seq<T>>, j: nat): (r: seq<T>)
    ensures |r| == |files|
    ensures forall i :: 0 <= i < |files| ==> r[i] == if j < |files[i]| then files[i][j] else zero
  {
    seq(|files|, i requires 0 <= i < |files| => if j < |files[i]| then files[i][j] else zero)
  }

  /** The block of a present file holds that file. */
  ghost predicate HoldsFile<T>(zero: T, block: DataBlock<T>, file: seq<T>) {
    Readable(block) && block.length == |file| && block.file[block.offset..block.offset + block.length] == file
  }

  /** The block of a recovery volume holds the recovery data of its exponent. */
  ghost predicate HoldsRecovery<T>(f: Field<T>, pow: Coefficient<T>, bases: seq<nat>, files: seq<seq<T>>,
                                   volume: Volume<T>, blocksize: nat)
    requires |bases| == |files|
  {
    && Readable(volume.block)
    && forall j :: 0 <= j < blocksize ==>
         volume.block.At(f.zero, j) == Recovery(f, pow, bases, volume.exponent, Column(f.zero, files, j))
  }

  function RowsOf<T>(volumes: seq<Volume<T>>, n: nat): (r: seq<OutputRow>)
    requires n <= |volumes|
    ensures |r| == n && forall i :: 0 <= i < n ==> r[i] == OutputRow(true, volumes[i].exponent % 65536)
  {
    seq(n, i requires 0 <= i < n => OutputRow(true, volumes[i].exponent % 65536))
  }

  function BlocksOf<T>(volumes: seq<Volume<T>>, n: nat): (r: seq<DataBlock<T>>)
    requires n <= |volumes|
    ensures |r| == n && forall i :: 0 <= i < n ==> r[i] == volumes[i].block
  {
    seq(n, i requires 0 <= i < n => volumes[i].block)
  }

  /** The blocks found become inputs, in order; the others are counted. */
  method SortBlocks<T>(found: seq<bool>, sourceblocks: seq<DataBlock<T>>)
    returns (inputblocks: seq<DataBlock<T>>, missing: nat)
    requires |found| == |sourceblocks|
    ensures inputblocks == Gather(sourceblocks, Indices(found, |found|, true))
            && missing == |Indices(found, |found|, false)|
    ensures |inputblocks| == CountOf(found, |found|, true) && missing == CountOf(found, |found|, false)
    ensures forall k :: 0 <= k < |found| && found[k] ==>
              CountOf(found, k, true) < |inputblocks| && inputblocks[CountOf(found, k, true)] == sourceblocks[k]
  {
    hide CountOf;
    inputblocks, missing := [], 0;
    var i := 0;
    while i < |found|
      invariant 0 <= i <= |found|
      invariant inputblocks == Gather(sourceblocks, Indices(found, i, true)) && missing == |Indices(found, i, false)|
    {
      if found[i] {
        inputblocks := inputblocks + [sourceblocks[i]];
      } else {
        missing := missing + 1;
      }
      i := i + 1;
    }
    InFileOrder(found, sourceblocks);
  }

  lemma InFileOrder<T>(found: seq<bool>, sourceblocks: seq<DataBlock<T>>)
    requires |found| == |sourceblocks|
    ensures var inputblocks := Gather(sourceblocks, Indices(found, |found|, true));
            && |inputblocks| == CountOf(found, |found|, true)
            && |Indices(found, |found|, false)| == CountOf(found, |found|, false)
            && forall k :: 0 <= k < |found| && found[k] ==>
                 CountOf(found, k, true) < |inputblocks| && inputblocks[CountOf(found, k, true)] == sourceblocks[k]
  {
    hide CountOf, Indices;
    IndicesListed(found, |found|, true);
    IndicesListed(found, |found|, false);
  }

  /** Fill up the inputs with recovery blocks in the order of their exponents. */
  method AddVolumes(rs: ReedSolomon<Byte>, volumes: seq<Volume<Byte>>, missing: nat)
    returns (blocks: seq<DataBlock<Byte>>)
    requires rs.Valid() && rs.outputrows == [] && missing <= |volumes|
    modifies rs
    ensures rs.Valid() && rs.flags == old(rs.flags) && rs.database == old(rs.database)
    ensures rs.outputrows == RowsOf(volumes, missing) && blocks == BlocksOf(volumes, missing)
  {
    blocks := [];
    var i := 0;
    while i < missing
      invariant 0 <= i <= missing
      invariant rs.Valid() && rs.flags == old(rs.flags) && rs.database == old(rs.database)
      invariant rs.outputrows == RowsOf(volumes, i) && blocks == BlocksOf(volumes, i)
    {
      blocks := blocks + [volumes[i].block];
      rs.SetOutput(true, volumes[i].exponent % 65536);
      i := i + 1;
    }
  }

  /** What the matrix will be about. */
  ghost predicate Prepared<T>(l: Layout, found: seq<bool>, volumes: seq<Volume<T>>) {
    && l.flags == found && |l.bases| == |found| && Numbered(l.bases)
    && |l.Missing()| <= |volumes| && l.rows == RowsOf(volumes, |l.Missing()|)
  }

  function InputBlocks<T>(found: seq<bool>, sourceblocks: seq<DataBlock<T>>, volumes: seq<Volume<T>>): seq<DataBlock<T>>
    requires |found| == |sourceblocks| && |Indices(found, |found|, false)| <= |volumes|
  {
    Gather(sourceblocks, Indices(found, |found|, true)) + BlocksOf(volumes, |Indices(found, |found|, false)|)
  }

  /** Decide which blocks are read and which are recreated, and solve the matrix. */
  method ComputeRSmatrix(rs: ReedSolomon<Byte>, found: seq<bool>, sourceblocks: seq<DataBlock<Byte>>,
                         volumes: seq<Volume<Byte>>)
    returns (ok: bool, inputblocks: seq<DataBlock<Byte>>)
    requires rs.Valid() && rs.inputcount == 0 && rs.outputrows == [] && IsField(rs.f)
    requires |found| == |sourceblocks| && |Indices(found, |found|, false)| <= |volumes|
    modifies rs
    ensures Prepared(rs.Told(), found, volumes) && inputblocks == InputBlocks(found, sourceblocks, volumes)
    ensures ok <==> |rs.Told().Missing()| == 0 || Solvable(rs.f, rs.pow, rs.Told())
    ensures ok && |rs.Told().Missing()| > 0 ==>
              rs.leftmatrix != null && fresh(rs.leftmatrix) && Decodes(rs.f, rs.pow, rs.Told(), Contents(rs.leftmatrix))
  {
    var missing;
    inputblocks, missing := SortBlocks(found, sourceblocks);
    rs.SetInput(found);
    var extra := AddVolumes(rs, volumes, missing);
    inputblocks := inputblocks + extra;
    if missing == 0 {
      return true, inputblocks;
    }
    ok := rs.Compute();
  }

  // ---------------------------------------------------------------------- the repair

  lemma {:induction false} AllPresent<T>(volumes: seq<Volume<T>>, rows: seq<OutputRow>, n: nat)
    requires n <= |rows| <= |volumes| && rows == RowsOf(volumes, |rows|)
    ensures |Exponents(rows, n, true)| == n && Exponents(rows, n, false) == []
    ensures forall i :: 0 <= i < n ==> Exponents(rows, n, true)[i] == volumes[i].exponent % 65536
  {
    if n > 0 { AllPresent(volumes, rows, n - 1); }
  }

  /** Everything the repair is given is what it should be: `files` are the original files. */
  ghost predicate Sound<T>(f: Field<T>, pow: Coefficient<T>, l: Layout, files: seq<seq<T>>, found: seq<bool>,
                           sourceblocks: seq<DataBlock<T>>, volumes: seq<Volume<T>>, blocksize: nat)
  {
    && |files| == |found| == |sourceblocks| && Prepared(l, found, volumes)
    && (forall i :: 0 <= i < |files| && found[i] ==> HoldsFile(f.zero, sourceblocks[i], files[i]))
    && (forall i :: 0 <= i < |volumes| ==>
        volumes[i].exponent < 65536 && HoldsRecovery(f, pow, l.bases, files, volumes[i], blocksize))
  }

  lemma FileValue<T>(zero: T, block: DataBlock<T>, file: seq<T>, j: nat)
    requires HoldsFile(zero, block, file)
    ensures block.At(zero, j) == if j < |file| then file[j] else zero
  {
    if j < |file| {
      assert block.file[block.offset..block.offset + block.length][j] == file[j];
    }
  }

  lemma PresentColumns<T>(f: Field<T>, pow: Coefficient<T>, l: Layout, files: seq<seq<T>>, found: seq<bool>,
                          sourceblocks: seq<DataBlock<T>>, volumes: seq<Volume<T>>, blocksize: nat, j: nat)
    requires Sound(f, pow, l, files, found, sourceblocks, volumes, blocksize)
    ensures Values(f.zero, Gather(sourceblocks, l.Present()), j) == Gather(Column(f.zero, files, j), l.Present())
  {
    var present := l.Present();
    forall i | 0 <= i < |present|
      ensures sourceblocks[present[i]].At(f.zero, j) == Column(f.zero, files, j)[present[i]] {
      PresentFlag(found, |found|, i);
      FileValue(f.zero, sourceblocks[present[i]], files[present[i]], j);
    }
  }

  lemma VolumeColumns<T>(f: Field<T>, pow: Coefficient<T>, l: Layout, files: seq<seq<T>>, found: seq<bool>,
                         sourceblocks: seq<DataBlock<T>>, volumes: seq<Volume<T>>, blocksize: nat, j: nat)
    requires Sound(f, pow, l, files, found, sourceblocks, volumes, blocksize) && j < blocksize
    ensures l.Enough()
    ensures Values(f.zero, BlocksOf(volumes, |l.Missing()|), j)
            == Recoveries(f, pow, l.bases, l.Used(), Column(f.zero, files, j))
  {
    AllPresent(volumes, l.rows, |l.rows|);
    var column := Column(f.zero, files, j);
    forall i | 0 <= i < |l.Missing()|
      ensures volumes[i].block.At(f.zero, j) == Recovery(f, pow, l.bases, l.Used()[i], column) {
      assert HoldsRecovery(f, pow, l.bases, files, volumes[i], blocksize);
      assert l.Used()[i] == volumes[i].exponent;
    }
  }

  lemma ValuesConcat<T>(zero: T, a: seq<DataBlock<T>>, b: seq<DataBlock<T>>, j: nat)
    ensures Values(zero, a + b, j) == Values(zero, a, j) + Values(zero, b, j)
  {}

  /** The blocks read are the columns of the matrix, in its order. */
  lemma ColumnsMatch<T>(f: Field<T>, pow: Coefficient<T>, l: Layout, files: seq<seq<T>>, found: seq<bool>,
                        sourceblocks: seq<DataBlock<T>>, volumes: seq<Volume<T>>, blocksize: nat, j: nat)
    requires Sound(f, pow, l, files, found, sourceblocks, volumes, blocksize) && l.Enough() && j < blocksize
    ensures Values(f.zero, InputBlocks(found, sourceblocks, volumes), j) == Inputs(f, pow, l, Column(f.zero, files, j))
  {
    PresentColumns(f, pow, l, files, found, sourceblocks, volumes, blocksize, j);
    VolumeColumns(f, pow, l, files, found, sourceblocks, volumes, blocksize, j);
    ValuesConcat(f.zero, Gather(sourceblocks, l.Present()), BlocksOf(volumes, |l.Missing()|), j);
  }

  lemma {:induction false} PresentFlag(found: seq<bool>, n: nat, i: nat)
    requires n <= |found| && i < |Indices(found, n, true)|
    ensures found[Indices(found, n, true)[i]]
  {
    if i < |Indices(found, n - 1, true)| { PresentFlag(found, n - 1, i); }
  }

  /** What the matrix computes is the missing file. */
  lemma RestoredIsFile<T(!new)>(f: Field<T>, pow: Coefficient<T>, l: Layout, m: seq<seq<T>>, files: seq<seq<T>>,
                                found: seq<bool>,
                                sourceblocks: seq<DataBlock<T>>, volumes: seq<Volume<T>>, blocksize: nat, o: nat,
                                file: seq<T>)
    requires Sound(f, pow, l, files, found, sourceblocks, volumes, blocksize) && Decodes(f, pow, l, m)
    requires o < |l.Missing()| && |files[l.Missing()[o]]| == |file| <= blocksize
    requires RestoredTo(f, m[o], InputBlocks(found, sourceblocks, volumes), file, |file|)
    ensures file == files[l.Missing()[o]]
  {
    var blocks := InputBlocks(found, sourceblocks, volumes);
    forall j | 0 <= j < |file| ensures file[j] == files[l.Missing()[o]][j] {
      ColumnsMatch(f, pow, l, files, found, sourceblocks, volumes, blocksize, j);
      var column := Column(f.zero, files, j);
      assert Dot(f, m[o], Inputs(f, pow, l, column)) == Outputs(f, pow, l, column)[o] == column[l.Missing()[o]];
    }
  }

  lemma AllReadable<T>(f: Field<T>, pow: Coefficient<T>, l: Layout, files: seq<seq<T>>, found: seq<bool>,
                       sourceblocks: seq<DataBlock<T>>, volumes: seq<Volume<T>>, blocksize: nat, i: nat)
    requires Sound(f, pow, l, files, found, sourceblocks, volumes, blocksize)
    requires i < |InputBlocks(found, sourceblocks, volumes)|
    ensures Readable(InputBlocks(found, sourceblocks, volumes)[i])
  {
    if i < |l.Present()| {
      PresentFlag(found, |found|, i);
    } else {
      assert HoldsRecovery(f, pow, l.bases, files, volumes[i - |l.Present()|], blocksize);
    }
  }

  /** The layout of the matrix for a set of found files and volumes. */
  function LayoutOf<T>(found: seq<bool>, volumes: seq<Volume<T>>): Layout
    requires |Indices(found, |found|, false)| <= |volumes|
  {
    Layout(found, seq(|found|, i requires 0 <= i < |found| => Base(i)),
           RowsOf(volumes, |Indices(found, |found|, false)|))
  }

  lemma LayoutUnique<T>(l: Layout, found: seq<bool>, volumes: seq<Volume<T>>)
    requires Prepared(l, found, volumes)
    ensures l == LayoutOf(found, volumes)
  {
    assert l.bases == LayoutOf(found, volumes).bases;
  }

  /** Allocate the output buffer and run all chunks through a matrix that decodes. */
  method RunMatrix(f: Field<Byte>, pow: Coefficient<Byte>, tables: seq<seq<Byte>>, ghost l: Layout, left: array2<Byte>,
                   blocks: seq<DataBlock<Byte>>,
                   disk: array<seq<Byte>>, blocksize: nat, chunksize: nat, ghost files: seq<seq<Byte>>,
                   ghost found: seq<bool>,
                   ghost sourceblocks: seq<DataBlock<Byte>>, ghost volumes: seq<Volume<Byte>>) returns (ok: bool)
    requires IsField(f) && Binary(f) && IsLongTable(f, tables) && chunksize > 0
    requires Sound(f, pow, l, files, found, sourceblocks, volumes, blocksize)
    requires blocks == InputBlocks(found, sourceblocks, volumes)
    requires Decodes(f, pow, l, Contents(left)) && left.Length1 == |blocks|
             && left.Length0 == disk.Length == |l.Missing()|
    requires forall o :: 0 <= o < disk.Length ==> |disk[o]| == |files[l.Missing()[o]]| <= blocksize
    modifies disk
    ensures ok && forall o :: 0 <= o < disk.Length ==> disk[o] == files[l.Missing()[o]]
  {
    forall i | 0 <= i < |blocks| ensures Readable(blocks[i]) {
      AllReadable(f, pow, l, files, found, sourceblocks, volumes, blocksize, i);
    }
    var alignment := Aligned(chunksize);
    var buffer := new Byte[Prod(left.Length0, alignment)](_ => f.zero);
    ghost var sizes := seq(disk.Length, o requires 0 <= o < disk.Length => |files[l.Missing()[o]]|);
    ok := ProcessChunks(f, tables, left, blocks, disk, sizes, buffer, alignment, blocksize, chunksize);
    forall o | 0 <= o < disk.Length ensures disk[o] == files[l.Missing()[o]] {
      RestoredIsFile(f, pow, l, Contents(left), files, found, sourceblocks, volumes, blocksize, o, disk[o]);
    }
  }

  /** A size rounded up to whole words. */
  function Aligned(size: nat): (r: nat)
    ensures size <= r < size + 4 && r % 4 == 0
  {
    (size + 3) / 4 * 4
  }

  /** Solve the matrix and run it over all blocks. */
  method RepairBlocks(f: Field<Byte>, pow: Coefficient<Byte>, tables: seq<seq<Byte>>, found: seq<bool>,
                      sourceblocks: seq<DataBlock<Byte>>, volumes: seq<Volume<Byte>>, disk: array<seq<Byte>>,
                      blocksize: nat, chunksize: nat, ghost files: seq<seq<Byte>>) returns (ok: bool)
    requires IsField(f) && Binary(f) && IsLongTable(f, tables) && chunksize > 0
    requires |found| == |sourceblocks| && |Indices(found, |found|, false)| <= |volumes|
    requires Sound(f, pow, LayoutOf(found, volumes), files, found, sourceblocks, volumes, blocksize)
    requires disk.Length == |Indices(found, |found|, false)|
    requires forall o :: 0 <= o < disk.Length ==> |disk[o]| == |files[Indices(found, |found|, false)[o]]| <= blocksize
    modifies disk
    ensures ok <==> disk.Length == 0 || Solvable(f, pow, LayoutOf(found, volumes))
    ensures ok ==> forall o :: 0 <= o < disk.Length ==> disk[o] == files[Indices(found, |found|, false)[o]]
  {
    var rs := new ReedSolomon(f, pow);
    var blocks;
    ok, blocks := ComputeRSmatrix(rs, found, sourceblocks, volumes);
    LayoutUnique(rs.Told(), found, volumes);
    if ok && disk.Length > 0 {
      AllPresent(volumes, rs.outputrows, |rs.outputrows|);
      assert |Contents(rs.leftmatrix)[0]| == rs.leftmatrix.Length1;
      ok := RunMatrix(f, pow, tables, rs.Told(), rs.leftmatrix, blocks, disk, blocksize, chunksize, files, found,
                      sourceblocks, volumes);
    }
  }

  /** An output block is as long as the file it is for. */
  ghost predicate HasSize<T>(disk: seq<seq<T>>, o: nat, size: nat, blocksize: nat) {
    o < |disk| && |disk[o]| == size <= blocksize
  }

  /** Recreate the missing files. With correct inputs the outcome depends on neither the chunk size
      nor what the target files held before: each of them becomes the original file, unless the
      matrix cannot be solved. */
  method Repair(f: Field<Byte>, pow: Coefficient<Byte>, tables: seq<seq<Byte>>, found: seq<bool>,
                sourceblocks: seq<DataBlock<Byte>>,
                volumes: seq<Volume<Byte>>, disk: array<seq<Byte>>, blocksize: nat, chunksize: nat,
                ghost files: seq<seq<Byte>>) returns (ok: bool)
    requires IsField(f) && Binary(f) && IsLongTable(f, tables) && chunksize > 0
    requires |found| == |sourceblocks| && |Indices(found, |found|, false)| <= |volumes|
    requires Sound(f, pow, LayoutOf(found, volumes), files, found, sourceblocks, volumes, blocksize)
    requires disk.Length == CountOf(found, |found|, false)
    requires forall k :: 0 <= k < |found| && !found[k] ==>
             HasSize(disk[..], CountOf(found, k, false), |files[k]|, blocksize)
    modifies disk
    ensures ok <==> disk.Length == 0 || Solvable(f, pow, LayoutOf(found, volumes))
    ensures ok ==> forall k :: 0 <= k < |found| && !found[k] ==>
              CountOf(found, k, false) < disk.Length && disk[CountOf(found, k, false)] == files[k]
  {
    assert |files| == |found|;
    hide Solvable, Sound, IsLongTable, IsField, Binary, Indices, CountOf;
    IndicesListed(found, |found|, false);
    ghost var missing := Indices(found, |found|, false);
    forall o | 0 <= o < disk.Length ensures |disk[o]| == |files[missing[o]]| <= blocksize {
      ListingIndex(missing, found, |found|, false, o);
      assert HasSize(disk[..], CountOf(found, missing[o], false), |files[missing[o]]|, blocksize);
    }
    ok := RepairBlocks(f, pow, tables, found, sourceblocks, volumes, disk, blocksize, chunksize, files);
  }
}
