/** Reading and writing part of a block of a file: src/datablock.cpp:44-113. */
module DataBlocks {
  import opened Arithmetic

  /** Where a block lies on disk: `file` holds the bytes of the disk file it belongs to. */
  datatype DataBlock<T> = DataBlock(file: seq<T>, offset: nat, length: nat) {

    /** Byte j of the block. What the block or the file does not reach is zero. */
    function At(zero: T, j: nat): T {
      if j < length && offset + j < |file| then file[offset + j] else zero
    }
  }

  /** Read `size` bytes from a position in the block, padded with zeros. The amount wanted is cut to
      the block and then to the file; starting beyond the end of the file makes the read fail. */
  method ReadData<T>(zero: T, block: DataBlock<T>, position: nat, size: nat) returns (ok: bool, buffer: seq<T>)
    ensures ok <==> block.length <= position || size == 0 || block.offset + position <= |block.file|
    ensures ok ==> |buffer| == size && forall k :: 0 <= k < size ==> buffer[k] == block.At(zero, position + k)
  {
    if block.length > position {
      var fileoffset := block.offset + position;
      var inblock := Min(size, block.length - position);
      if fileoffset > |block.file| {
        // The remaining size wraps around, so nothing is cut and the disk cannot deliver it.
        return inblock == 0, [];
      }
      var want := Min(inblock, |block.file| - fileoffset);
      buffer := block.file[fileoffset..fileoffset + want];
      if want < size {
        buffer := buffer + seq(size - want, _ => zero);
      }
    } else {
      buffer := seq(size, _ => zero);
    }
    ok := true;
  }

  /** The bytes of a file after part of it has been overwritten. Writing beyond the end makes the file longer, and what
      lies between the old end and the write is zero. */
  ghost predicate Overwritten<T>(zero: T, before: seq<T>, now: seq<T>, from: nat, count: nat, buffer: seq<T>) {
    && |now| == (if count > 0 && |before| < from + count then from + count else |before|) && count <= |buffer|
    && forall k :: 0 <= k < |now| ==>
         now[k] == if from <= k < from + count then buffer[k - from] else if k < |before| then before[k] else zero
  }

  /** Write a buffer at a position in a block of file `target`, cut to the block. */
  method WriteData<T>(zero: T, disk: array<seq<T>>, target: nat, offset: nat, length: nat, position: nat,
                      buffer: seq<T>)
    returns (wrote: nat)
    requires target < disk.Length
    modifies disk
    ensures wrote == if length > position then Min(|buffer|, length - position) else 0
    ensures Overwritten(zero, old(disk[target]), disk[target], offset + position, wrote, buffer)
    ensures forall t :: 0 <= t < disk.Length && t != target ==> disk[t] == old(disk[t])
  {
    wrote := 0;
    if length > position {
      var have := Min(|buffer|, length - position);
      disk[target] := Write(zero, disk[target], offset + position, buffer[..have]);
      wrote := have;
    }
  }

  /** Write to a disk file: src/diskfile.cpp. */
  function Write<T>(zero: T, file: seq<T>, offset: nat, data: seq<T>): (r: seq<T>)
    ensures Overwritten(zero, file, r, offset, |data|, data)
  {
    if data == [] then file
    else
      var start := if offset <= |file| then file[..offset] else file + seq(offset - |file|, _ => zero);
      start + data + if offset + |data| <= |file| then file[offset + |data|..] else []
  }
}
