/** The sliding window over a data file: src/filechecksummer.cpp and include/par2/filechecksummer.h. */
module FileScan {
  import opened Arithmetic
  import opened Options
  import opened Sequences

  const FIRST := 16384

  lemma CopiedBehind<T>(b: seq<T>, data: seq<T>, out: nat, at: nat)
    requires out <= at && at + |data| <= |b|
    ensures (b[..at] + data + b[at + |data|..])[out..at + |data|] == b[out..at] + data
  {}

  /** Any part of the buffered data is the corresponding part of the file. */
  lemma PartOf<T>(b: seq<T>, file: seq<T>, out: nat, tail: nat, from: nat, to: nat, i: nat, j: nat)
    requires out <= tail <= |b| && from <= to <= |file| && b[out..tail] == file[from..to] && i <= j <= to - from
    ensures b[out + i..out + j] == file[from + i..from + j]
  {
    SliceOfSlice(b, out, tail, i, j);
    SliceOfSlice(file, from, to, i, j);
  }

  lemma Joined<T>(s: seq<T>, a: nat, b: nat, c: nat)
    requires a <= b <= c <= |s|
    ensures s[a..b] + s[b..c] == s[a..c]
    ensures s[..b] + s[b..c] == s[..c]
  {}

  lemma KeptBefore<T>(b: seq<T>, data: seq<T>, out: nat, at: nat)
    requires out <= at && at + |data| <= |b|
    ensures (b[..at] + data + b[at + |data|..])[out..at] == b[out..at]
  {}

  /** The check value as the scanner uses it: of a block, of the block one byte further, and of a
      block followed by n zeros. */
  datatype Checksum<!B, !W> = Checksum(zero: B, none: W, crc: seq<B> -> W, slide: (W, B, B) -> W, extend: (W, nat) -> W)

  function Zeros<B>(zero: B, n: nat): (r: seq<B>)
    ensures |r| == n
  {
    seq(n, _ => zero)
  }

  /** The first n bytes at an offset of a file, followed by zeros up to the block size. */
  function Block<B>(file: seq<B>, zero: B, blocksize: nat, offset: nat, n: nat): (r: seq<B>)
    requires offset + n <= |file| && n <= blocksize
    ensures |r| == blocksize && (n == blocksize ==> r == file[offset..offset + blocksize])
  {
    file[offset..offset + n] + Zeros(zero, blocksize - n)
  }

  /** The window at an offset: as much as there is of the file. */
  function Padded<B>(file: seq<B>, zero: B, blocksize: nat, offset: nat): seq<B>
    requires offset <= |file|
  {
    Block(file, zero, blocksize, offset, Min(blocksize, |file| - offset))
  }

  lemma PaddedBytes<B>(file: seq<B>, zero: B, blocksize: nat, offset: nat, i: nat)
    requires offset <= |file| && i < blocksize
    ensures |Padded(file, zero, blocksize, offset)| == blocksize
    ensures Padded(file, zero, blocksize, offset)[i] == if offset + i < |file| then file[offset + i] else zero
  {}

  /** Sliding agrees with computing from scratch, for windows of n bytes. */
  ghost predicate Slides<B(!new), W>(sums: Checksum<B, W>, n: nat) {
    forall w: seq<B> {:trigger sums.crc(w[1..])} :: |w| == n + 1 ==>
      sums.slide(sums.crc(w[..n]), w[n], w[0]) == sums.crc(w[1..])
  }

  /** So does extending with zeros. */
  ghost predicate Extends<B(!new), W>(sums: Checksum<B, W>) {
    forall w: seq<B>, k: nat {:trigger sums.extend(sums.crc(w), k)} ::
      sums.extend(sums.crc(w), k) == sums.crc(w + Zeros(sums.zero, k))
  }

  ghost predicate Agrees<B(!new), W>(sums: Checksum<B, W>, n: nat) {
    Slides(sums, n) && Extends(sums)
  }

  /** One byte further along a file. */
  lemma SlideAlong<B(!new), W>(sums: Checksum<B, W>, file: seq<B>, at: nat, n: nat)
    requires Agrees(sums, n) && at + n < |file|
    ensures sums.slide(sums.crc(file[at..at + n]), file[at + n], file[at]) == sums.crc(file[at + 1..at + 1 + n])
  {
    var window := file[at..at + n + 1];
    assert window[..n] == file[at..at + n] && window[1..] == file[at + 1..at + 1 + n];
    assert sums.slide(sums.crc(window[..n]), window[n], window[0]) == sums.crc(window[1..]);
  }

  /** The same, with the bytes taken from the buffer. */
  lemma SlideBuffered<B(!new), W>(sums: Checksum<B, W>, b: seq<B>, file: seq<B>, out: nat, tail: nat, at: nat, to: nat,
                                  n: nat)
    requires Agrees(sums, n) && n > 0 && out <= tail <= |b| && at <= to <= |file|
    requires tail - out == to - at > n && b[out..tail] == file[at..to]
    ensures sums.slide(sums.crc(file[at..at + n]), b[out + n], b[out]) == sums.crc(file[at + 1..at + 1 + n])
  {
    assert b[out] == b[out..tail][0] == file[at];
    assert b[out + n] == b[out..tail][n] == file[at + n];
    SlideAlong(sums, file, at, n);
  }

  /** B is the type of bytes, W of check values. MD5 is a given function of byte strings: a hash
      context is the bytes it has absorbed, and a digest is `md5` of them. */
  class FileCheckSummer<B(0,!new), W(0), Hash(0)> {
    const file: seq<B>
    const blocksize: nat
    const sums: Checksum<B, W>
    const md5: seq<B> -> Hash

    var currentoffset: nat
    const buffer: array<B>
    var outpointer: nat
    var inpointer: nat
    var tailpointer: nat
    var readoffset: nat

    var checksum: W
    var blockhash: Hash
    var hasblockhash: bool

    var contextfull: seq<B>
    var context16k: seq<B>
    var hasher: Option<seq<B>>

    // ------------------------------------------------------------------ what holds between calls

    ghost predicate Fixed() {
      && blocksize > 0
      && buffer.Length == 2 * blocksize
      && Agrees(sums, blocksize)
    }

    /** The file's bytes at the window, followed by zeros up to the block size. */
    function Window(): seq<B>
      reads this
      requires currentoffset <= |file|
    {
      Padded(file, sums.zero, blocksize, currentoffset)
    }

    /** The 16k hash has absorbed what was read of the first 16k; the full hash, once it is
        separate from the block hash, has absorbed all that was read. */
    ghost predicate Hashes()
      reads this
    {
      && readoffset <= |file|
      && context16k == file[..Min(readoffset, FIRST)]
      && (hasher.None? && readoffset >= FIRST ==> contextfull == file[..readoffset])
    }

    /** The buffer holds exactly the bytes from the window, at file offset `at`, to the read position. */
    ghost predicate Buffered(at: nat)
      reads this, buffer
    {
      && buffer.Length == 2 * blocksize
      && at <= readoffset <= |file|
      && outpointer <= tailpointer <= 2 * blocksize
      && tailpointer - outpointer == readoffset - at
      && Holds(at)
    }

    ghost predicate Holds(at: nat)
      reads this, buffer
      requires outpointer <= tailpointer <= buffer.Length && at <= readoffset <= |file|
    {
      buffer[..][outpointer..tailpointer] == file[at..readoffset]
    }

    ghost predicate Inside()
      reads this
    {
      currentoffset + blocksize <= |file|
    }

    ghost predicate Checked()
      reads this
      requires currentoffset <= |file|
    {
      && (Defined() ==> checksum == sums.crc(Window()))
      && (hasblockhash && Defined() ==> blockhash == md5(Window()))
      && (hasher.Some? ==> hasblockhash)
    }

    /** The window has a defined content: it lies inside the file, or it was reached block by block from the start. */
    ghost predicate Defined()
      reads this
    {
      Inside() || hasher.Some?
    }

    /** The incoming byte is one block behind the outgoing one; the window is in the buffer, or
        the whole file has been read. */
    ghost predicate Ahead()
      reads this
    {
      inpointer == outpointer + blocksize && (inpointer <= tailpointer || readoffset == |file|)
    }

    /** While it is in use the combined hasher has absorbed exactly the file up to the window's end. */
    ghost predicate InStep()
      reads this
    {
      hasher.Some? ==> outpointer == 0 && hasher.value == file[..Min(currentoffset + blocksize, |file|)]
    }

    ghost predicate Valid()
      reads this, buffer
    {
      && Fixed() && Hashes()
      && currentoffset <= |file|
      && (currentoffset < |file| ==>
            && Buffered(currentoffset) && Checked()
            && outpointer < blocksize && Ahead() && InStep())
      && (currentoffset == |file| ==>
            && readoffset == |file| && outpointer == 0
            && (hasher.Some? ==> hasher.value == file))
    }

    // ------------------------------------------------------------------ construction

    constructor (file: seq<B>, blocksize: nat, sums: Checksum<B, W>, md5: seq<B> -> Hash)
      requires blocksize > 0
      ensures this.file == file && this.blocksize == blocksize && this.sums == sums && this.md5 == md5
      ensures fresh(buffer) && buffer.Length == 2 * blocksize
      ensures currentoffset == readoffset == 0 && !hasblockhash
      ensures hasher.None? && contextfull == context16k == []
    {
      this.file, this.blocksize, this.sums, this.md5 := file, blocksize, sums, md5;
      currentoffset, readoffset := 0, 0;
      outpointer, inpointer, tailpointer := 0, 0, 0;
      hasblockhash := false;
      contextfull, context16k, hasher := [], [], None;
      buffer := new B[2 * blocksize];
    }

    // ------------------------------------------------------------------ hashes

    /** Update the 16k hash, and the full hash once the hasher is gone, with newly read data. */
    method UpdateHashes(offset: nat, data: seq<B>)
      requires offset == readoffset && Hashes()
      requires offset + |data| <= |file| && data == file[offset..offset + |data|]
      modifies this`context16k, this`contextfull
      ensures context16k == file[..Min(offset + |data|, FIRST)]
      ensures hasher.None? && offset + |data| >= FIRST ==> contextfull == file[..offset + |data|]
      ensures hasher.Some? ==> contextfull == old(contextfull)
    {
      if offset >= FIRST {
        if hasher.None? {
          contextfull := contextfull + data;
        }
      } else if offset + |data| >= FIRST {
        var first := FIRST - offset;
        context16k := context16k + data[..first];
        if hasher.None? {
          contextfull := context16k;
          if offset + |data| > FIRST {
            contextfull := contextfull + data[first..];
          }
        }
      } else {
        context16k := context16k + data;
      }
    }

    /** Stop using the combined hasher and bring the file hash up to the read position. */
    method StopHasher()
      requires Buffered(currentoffset) && Hashes() && Ahead() && InStep()
      modifies this`contextfull, this`hasher
      ensures hasher.None? && Hashes()
    {
      if hasher.None? {
        return;
      }
      contextfull := hasher.value;
      hasher := None;
      if tailpointer > inpointer {
        ghost var end := currentoffset + blocksize;
        assert buffer[..][inpointer..tailpointer] == file[end..readoffset] by {
          PartOf(buffer[..], file, outpointer, tailpointer, currentoffset, readoffset, blocksize,
                 readoffset - currentoffset);
        }
        hide Holds;
        Joined(file, 0, end, readoffset);
        contextfull := contextfull + buffer[..][inpointer..tailpointer];
      }
    }

    /** Unless the jump is by a whole block or to the end, the hasher is no longer in step. */
    method Desync(distance: nat)
      requires Buffered(currentoffset) && Hashes() && Ahead() && InStep() && distance <= blocksize
      modifies this`contextfull, this`hasher
      ensures Hashes() && InStep() && (distance == blocksize ==> hasher == old(hasher))
      ensures hasher.Some? && currentoffset + distance < |file| ==> distance == blocksize
    {
      if distance != blocksize && currentoffset + distance < |file| {
        StopHasher();
      }
    }

    // ------------------------------------------------------------------ reading

    /** memcpy into the buffer */
    method CopyIn(at: nat, data: seq<B>)
      requires at + |data| <= buffer.Length
      modifies buffer
      ensures buffer[..] == old(buffer[..at]) + data + old(buffer[at + |data|..])
    {
      forall i | 0 <= i < |data| {
        buffer[at + i] := data[i];
      }
    }

    /** memset(&buffer[from], 0, to - from) */
    method Blank(from: nat, to: nat)
      requires from <= to <= buffer.Length
      modifies buffer
      ensures buffer[..] == old(buffer[..from]) + Zeros(sums.zero, to - from) + old(buffer[to..])
    {
      forall i | from <= i < to {
        buffer[i] := sums.zero;
      }
    }

    /** Read `want` bytes at the read position into the buffer's tail. */
    method ReadIn(want: nat, ghost at: nat)
      requires Buffered(at) && Hashes()
      requires readoffset + want <= |file| && tailpointer + want <= 2 * blocksize
      modifies this`readoffset, this`tailpointer, this`context16k, this`contextfull, buffer
      ensures Buffered(at) && Hashes()
      ensures readoffset == old(readoffset) + want && tailpointer == old(tailpointer) + want
    {
      var data := file[readoffset..readoffset + want];
      CopiedBehind(buffer[..], data, outpointer, tailpointer);
      CopyIn(tailpointer, data);
      Joined(file, at, readoffset, readoffset + want);
      UpdateHashes(readoffset, data);
      readoffset := readoffset + want;
      tailpointer := tailpointer + want;
    }

    /** Read more of the file behind the data already in the buffer and blank what remains.
        `readable` says whether the disk delivers. */
    method Fill(longfill: bool, readable: bool, ghost at: nat) returns (ok: bool)
      requires Buffered(at) && Hashes()
      requires tailpointer == 0 ==> outpointer == 0
      modifies this`readoffset, this`tailpointer, this`context16k, this`contextfull, buffer
      ensures readable ==> ok
      ensures ok ==> Buffered(at) && Hashes()
      ensures ok && readoffset < |file| ==> tailpointer >= blocksize
      ensures ok && readoffset < |file| && longfill && old(tailpointer) > 0 ==> tailpointer == 2 * blocksize
    {
      hide Zeros;
      if readoffset >= |file| {
        return true;
      }
      if tailpointer >= blocksize && !longfill {
        return true;
      }
      var target := if tailpointer == 0 then blocksize else 2 * blocksize;
      var want := Min(|file| - readoffset, target - tailpointer);
      if want > 0 {
        if !readable {
          return false;
        }
        ReadIn(want, at);
      }
      KeptBefore(buffer[..], Zeros(sums.zero, target - tailpointer), outpointer, tailpointer);
      Blank(tailpointer, target);
      return true;
    }

    // ------------------------------------------------------------------ the window

    /** Compute the check value, and if wanted the hash, of the block at the start of the buffer. */
    method ComputeCurrentChecksum(domd5: bool)
      requires Buffered(currentoffset) && Ahead() && outpointer == 0 && blocksize > 0 && Hashes()
      requires hasher.Some? ==> hasher.value == file[..currentoffset]
      requires !hasblockhash || hasher.Some?
      modifies this`checksum, this`blockhash, this`hasblockhash, this`hasher
      ensures Buffered(currentoffset) && Ahead() && Hashes() && Checked() && InStep()
              && hasher.Some? == old(hasher).Some?
    {
      if hasher.Some? {
        var n := Min(blocksize, |file| - currentoffset);
        PartOf(buffer[..], file, 0, tailpointer, currentoffset, readoffset, 0, n);
        Combined(buffer[..][0..n] + Zeros(sums.zero, blocksize - n), n);
      } else {
        Separate(domd5);
      }
    }

    /** Check value and hash of the block, each on its own. */
    method Separate(domd5: bool)
      requires Buffered(currentoffset) && Ahead() && outpointer == 0 && blocksize > 0 && Hashes() && hasher.None?
               && !hasblockhash
      modifies this`checksum, this`blockhash, this`hasblockhash
      ensures Buffered(currentoffset) && Ahead() && Hashes() && Checked() && InStep()
              && hasher.Some? == old(hasher).Some?
    {
      if Inside() {
        PartOf(buffer[..], file, 0, tailpointer, currentoffset, readoffset, 0, blocksize);
        assert buffer[..][0..blocksize] == Window();
      }
      checksum := sums.crc(buffer[..][0..blocksize]);
      if domd5 {
        blockhash := md5(buffer[..][0..blocksize]);
        hasblockhash := true;
      }
    }

    /** The combined hasher takes in the block and delivers its check value and hash. */
    method Combined(block: seq<B>, n: nat)
      requires Buffered(currentoffset) && Ahead() && outpointer == 0 && Hashes() && hasher.Some?
               && hasher.value == file[..currentoffset]
      requires n == Min(blocksize, |file| - currentoffset) <= tailpointer
               && buffer[..][0..n] == file[currentoffset..currentoffset + n]
      requires block == Window()
      modifies this`checksum, this`blockhash, this`hasblockhash, this`hasher
      ensures Buffered(currentoffset) && Ahead() && Hashes() && Checked() && InStep()
              && hasher.Some? == old(hasher).Some?
    {
      hide Padded, Block;
      Joined(file, 0, currentoffset, currentoffset + n);
      hasher := Some(hasher.value + buffer[..][0..n]);
      checksum := sums.crc(block);
      blockhash := md5(block);
      hasblockhash := true;
    }

    /** Start reading the file at the beginning. */
    method Start(readable: bool) returns (ok: bool)
      requires Fixed() && currentoffset == 0 && context16k == [] && !hasblockhash
      modifies this, buffer
      ensures readable ==> ok
      ensures ok ==> Valid() && currentoffset == 0 && hasher.Some?
    {
      hide Agrees, Slides, Extends, Padded, Block;
      currentoffset, readoffset := 0, 0;
      outpointer, tailpointer := 0, 0;
      inpointer := blocksize;
      hasher := Some([]);
      ok := Fill(false, readable, 0);
      if !ok {
        return false;
      }
      ComputeCurrentChecksum(true);
    }

    /** The window has moved past the last byte. */
    method Finish()
      requires Fixed() && Hashes() && readoffset == |file|
      requires hasher.Some? ==> hasher.value == file
      modifies this`currentoffset, this`tailpointer, this`outpointer, this`checksum, buffer
      ensures Valid() && currentoffset == |file|
    {
      currentoffset := |file|;
      outpointer, tailpointer := 0, 0;
      Blank(0, blocksize);
      checksum := sums.none;
    }

    /** What the buffer holds behind the byte that leaves, and the checksum without it. */
    lemma OneByteOn()
      requires Fixed() && 0 < currentoffset < |file| && Buffered(currentoffset - 1) && outpointer < blocksize
      requires inpointer == outpointer + blocksize && (inpointer < tailpointer || readoffset == |file|)
      requires currentoffset + blocksize <= |file| ==>
                 checksum == sums.crc(file[currentoffset - 1..currentoffset - 1 + blocksize])
      ensures tailpointer > outpointer
              && buffer[..][outpointer + 1..tailpointer] == file[currentoffset..readoffset]
      ensures currentoffset + blocksize <= |file| ==>
                sums.slide(checksum, buffer[inpointer], buffer[outpointer])
                == sums.crc(file[currentoffset..currentoffset + blocksize])
    {
      hide Agrees, Slides, Extends;
      var at := currentoffset - 1;
      PartOf(buffer[..], file, outpointer, tailpointer, at, readoffset, 1, readoffset - at);
      if currentoffset + blocksize <= |file| {
        SlideBuffered(sums, buffer[..], file, outpointer, tailpointer, at, readoffset, blocksize);
      }
    }

    /** Slide the window by one byte within the buffer. */
    method Slide()
      requires Fixed() && Hashes() && hasher.None? && !hasblockhash
      requires 0 < currentoffset < |file| && Buffered(currentoffset - 1) && outpointer < blocksize
      requires inpointer == outpointer + blocksize && (inpointer < tailpointer || readoffset == |file|)
      requires currentoffset + blocksize <= |file| ==>
                 checksum == sums.crc(file[currentoffset - 1..currentoffset - 1 + blocksize])
      modifies this`inpointer, this`outpointer, this`checksum
      ensures Buffered(currentoffset) && Checked() && Ahead()
      ensures outpointer == old(outpointer) + 1
    {
      hide Agrees, Slides, Extends, Zeros, Block, Hashes;
      OneByteOn();
      var inch, outch := buffer[inpointer], buffer[outpointer];
      inpointer := inpointer + 1;
      outpointer := outpointer + 1;
      checksum := sums.slide(checksum, inch, outch);
    }

    /** memmove(buffer, outpointer, n): the data from the window on moves to the start of the buffer. */
    method MoveBack(n: nat, ghost at: nat)
      requires Buffered(at) && outpointer + n <= 2 * blocksize && tailpointer <= outpointer + n
      modifies this`outpointer, this`inpointer, this`tailpointer, buffer
      ensures Buffered(at) && outpointer == 0 && inpointer == blocksize
      ensures tailpointer == old(tailpointer - outpointer)
    {
      ghost var held := buffer[..][outpointer..tailpointer];
      forall i | 0 <= i < n {
        buffer[i] := buffer[outpointer + i];
      }
      tailpointer := tailpointer - outpointer;
      assert buffer[..][0..tailpointer] == held;
      outpointer := 0;
      inpointer := blocksize;
    }

    /** The rest of a step that does not end the file. */
    method SlideOn(readable: bool) returns (ok: bool)
      requires Fixed() && Hashes() && hasher.None? && !hasblockhash
      requires 0 < currentoffset < |file| && Buffered(currentoffset - 1) && Ahead() && outpointer < blocksize
      requires currentoffset + blocksize <= |file| ==>
                 checksum == sums.crc(file[currentoffset - 1..currentoffset - 1 + blocksize])
      modifies this, buffer
      ensures readable ==> ok
      ensures ok ==> Valid() && currentoffset == old(currentoffset)
    {
      hide Agrees, Slides, Extends, Holds, Padded, Block;
      if tailpointer <= inpointer {
        ok := Fill(true, readable, currentoffset - 1);
        if !ok {
          return false;
        }
      }
      Slide();
      if outpointer >= blocksize {
        MoveBack(blocksize, currentoffset);
      }
      return true;
    }

    /** Step forward one byte. */
    method Step(readable: bool) returns (ok: bool)
      requires Valid()
      modifies this, buffer
      ensures old(currentoffset) == |file| ==> !ok && unchanged(this) && unchanged(buffer)
      ensures old(currentoffset) < |file| && readable ==> ok
      ensures ok ==> Valid() && currentoffset == old(currentoffset) + 1
    {
      if currentoffset >= |file| {
        return false;
      }
      StopHasher();
      hasblockhash := false;
      currentoffset := currentoffset + 1;
      if currentoffset >= |file| {
        Finish();
        return true;
      }
      ok := SlideOn(readable);
    }

    /** The rest of a jump that does not end the file: discard `distance` bytes and refill. */
    method Discard(distance: nat, readable: bool) returns (ok: bool)
      requires Fixed() && Hashes() && !hasblockhash && currentoffset < |file|
      requires 0 < distance <= blocksize && distance <= currentoffset
      requires Buffered(currentoffset - distance) && outpointer < blocksize && currentoffset <= readoffset
      requires hasher.Some? ==> hasher.value == file[..currentoffset]
      modifies this, buffer
      ensures readable ==> ok
      ensures ok ==> Valid() && currentoffset == old(currentoffset) && hasher.Some? == old(hasher).Some?
    {
      hide Agrees, Slides, Extends, Holds, Padded, Block;
      DropFront(distance);
      MoveBack(tailpointer - outpointer, currentoffset);
      ok := Fill(false, readable, currentoffset);
      if ok {
        ComputeCurrentChecksum(distance == blocksize);
      }
    }

    /** outpointer += distance */
    method DropFront(distance: nat)
      requires distance <= currentoffset <= readoffset && Buffered(currentoffset - distance)
      modifies this`outpointer
      ensures Buffered(currentoffset) && outpointer == old(outpointer) + distance
    {
      PartOf(buffer[..], file, outpointer, tailpointer, currentoffset - distance, readoffset,
             distance, readoffset - (currentoffset - distance));
      outpointer := outpointer + distance;
    }

    /** A jump by a distance within the block size. */
    method Advance(distance: nat, readable: bool) returns (ok: bool)
      requires Valid() && currentoffset < |file| && 0 < distance <= blocksize
      modifies this, buffer
      ensures readable ==> ok
      ensures ok ==> Valid() && currentoffset == Min(old(currentoffset) + distance, |file|)
      ensures ok && distance == blocksize ==> hasher.Some? == old(hasher).Some?
    {
      Desync(distance);
      hasblockhash := false;
      currentoffset := currentoffset + distance;
      if currentoffset >= |file| {
        Finish();
        return true;
      }
      ok := Discard(distance, readable);
    }

    /** Jump ahead by at most one block. */
    method Jump(distance: nat, readable: bool) returns (ok: bool)
      requires Valid()
      modifies this, buffer
      ensures old(currentoffset) == |file| || distance == 0 ==> !ok && unchanged(this) && unchanged(buffer)
      ensures old(currentoffset) < |file| && distance > 0 && readable ==> ok
      ensures ok ==> Valid() && currentoffset == Min(old(currentoffset) + Min(distance, blocksize), |file|)
      ensures ok && 1 < blocksize <= distance ==> hasher.Some? == old(hasher).Some?
    {
      if currentoffset >= |file| || distance == 0 {
        return false;
      }
      if distance == 1 {
        ok := Step(readable);
      } else {
        ok := Advance(Min(distance, blocksize), readable);
      }
    }

    // ------------------------------------------------------------------ results

    function BlockLength(): nat
      reads this
      requires currentoffset <= |file|
    {
      Min(blocksize, |file| - currentoffset)
    }

    predicate ShortBlock()
      reads this
      requires currentoffset <= |file|
    {
      BlockLength() < blocksize
    }

    /** The hashes of the whole file and of its first 16k, once the window has left the file. */
    method GetFileHashes() returns (hashfull: Hash, hash16k: Hash)
      requires Valid() && currentoffset == |file|
      ensures hashfull == md5(file)
      ensures hash16k == md5(file[..Min(|file|, 16384)])
    {
      hash16k := md5(context16k);
      if |file| < FIRST {
        assert context16k == file;
        hashfull := hash16k;
      } else if hasher.Some? {
        hashfull := md5(hasher.value);
      } else {
        assert contextfull == file;
        hashfull := md5(contextfull);
      }
    }

    /** The hash of the window. */
    method Hashed() returns (hash: Hash)
      requires Valid() && currentoffset < |file|
      ensures Defined() ==> hash == md5(Window())
    {
      if hasblockhash {
        return blockhash;
      }
      if Defined() {
        PartOf(buffer[..], file, outpointer, tailpointer, currentoffset, readoffset, 0, blocksize);
      }
      hash := md5(buffer[..][outpointer..outpointer + blocksize]);
    }

    /** The check value of the first `n` bytes of the window, extended with zeros to a block. */
    method ShortChecksum(n: nat) returns (crc: W)
      requires Valid() && n <= blocksize
      ensures currentoffset < |file| && n <= |file| - currentoffset ==>
                crc == sums.crc(Block(file, sums.zero, blocksize, currentoffset, n))
    {
      if currentoffset < |file| && n <= |file| - currentoffset {
        PartOf(buffer[..], file, outpointer, tailpointer, currentoffset, readoffset, 0, n);
      }
      var data := buffer[..][outpointer..outpointer + n];
      crc := sums.crc(data);
      assert sums.extend(sums.crc(data), blocksize - n) == sums.crc(data + Zeros(sums.zero, blocksize - n));
      if blocksize > n {
        crc := sums.extend(crc, blocksize - n);
      } else {
        assert data + Zeros(sums.zero, 0) == data;
      }
    }

    method ShortHash(n: nat) returns (hash: Hash)
      requires Valid() && n <= blocksize
      ensures currentoffset < |file| && n <= |file| - currentoffset ==>
                hash == md5(Block(file, sums.zero, blocksize, currentoffset, n))
    {
      if currentoffset < |file| && n <= |file| - currentoffset {
        PartOf(buffer[..], file, outpointer, tailpointer, currentoffset, readoffset, 0, n);
      }
      hash := md5(buffer[..][outpointer..outpointer + n] + Zeros(sums.zero, blocksize - n));
    }
  }
}
