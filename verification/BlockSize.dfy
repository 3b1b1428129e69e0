/** Choosing the block size for a requested number of source blocks:
  src/commandline.cpp:1241-1338 and src/par2creator.cpp:309-322. */
module BlockSize {
  import opened Arithmetic
  import opened Options

  /** A file size in units of four bytes, rounded up. */
  function Quads(size: nat): nat { CeilDiv(size, 4) }

  /** How many blocks of s quads the files need. */
  function Count(files: seq<nat>, s: nat): nat
    requires s > 0
  {
    if files == [] then 0 else Count(files[..|files| - 1], s) + CeilDiv(Quads(files[|files| - 1]), s)
  }

  function TotalQuads(files: seq<nat>): nat {
    if files == [] then 0 else TotalQuads(files[..|files| - 1]) + Quads(files[|files| - 1])
  }

  /** How many blocks the creator will make of the files. */
  function SourceBlocks(files: seq<nat>, blocksize: nat): nat
    requires blocksize > 0
  {
    if files == [] then 0
        else SourceBlocks(files[..|files| - 1], blocksize) + (files[|files| - 1] + blocksize - 1) / blocksize
  }

  // ---------------------------------------------------------------------- counting

  /** Rounding to quads first does not change the number of blocks. */
  lemma QuadBlocks(f: nat, s: nat)
    requires s > 0
    ensures CeilDiv(Quads(f), s) == CeilDiv(f, 4 * s)
  {
    var a, b := CeilDiv(Quads(f), s), CeilDiv(f, 4 * s);
    SameBound(f, s, a);
    SameBound(f, s, b);
  }

  lemma SameBound(f: nat, s: nat, k: nat)
    requires s > 0
    ensures CeilDiv(Quads(f), s) <= k <==> CeilDiv(f, 4 * s) <= k
  {
    CeilDivAtMost(Quads(f), s, k);
    CeilDivAtMost(f, 4, Prod(k, s));
    CeilDivAtMost(f, 4 * s, k);
    ProdFour(k, s);
  }

  lemma {:induction false} ProdFour(k: nat, s: nat)
    ensures Prod(Prod(k, s), 4) == Prod(k, 4 * s)
  {
    if k > 0 {
      ProdFour(k - 1, s);
      ProdAdd(Prod(k - 1, s), s, 4);
      ProdIs(s, 4);
    }
  }

  lemma {:induction false} CountIsSourceBlocks(files: seq<nat>, s: nat)
    requires s > 0
    ensures Count(files, s) == SourceBlocks(files, 4 * s)
  {
    if files != [] {
      CountIsSourceBlocks(files[..|files| - 1], s);
      QuadBlocks(files[|files| - 1], s);
      CeilDivIs(files[|files| - 1], 4 * s);
      hide CeilDiv;
    }
  }

  lemma CeilDivFalls(a: nat, s: nat, t: nat)
    requires 0 < s <= t
    ensures CeilDiv(a, t) <= CeilDiv(a, s)
  {
    var k := CeilDiv(a, s);
    CeilDivAtMost(a, s, k);
    ProdScales(k, s, t);
    CeilDivAtMost(a, t, k);
  }

  /** Larger blocks do not need more of them. */
  lemma {:induction false} CountFalls(files: seq<nat>, s: nat, t: nat)
    requires 0 < s <= t
    ensures Count(files, t) <= Count(files, s)
  {
    if files != [] {
      CountFalls(files[..|files| - 1], s, t);
      CeilDivFalls(Quads(files[|files| - 1]), s, t);
    }
  }

  /** The blocks hold all data: count * s >= total. */
  lemma {:induction false} CountHolds(files: seq<nat>, s: nat)
    requires s > 0
    ensures TotalQuads(files) <= Prod(Count(files, s), s)
  {
    if files != [] {
      var rest, q := files[..|files| - 1], Quads(files[|files| - 1]);
      CountHolds(rest, s);
      CeilDivAtMost(q, s, CeilDiv(q, s));
      ProdAdd(Count(rest, s), CeilDiv(q, s), s);
    }
  }

  /** Each file wastes less than a block: count * s <= total + files * (s - 1). */
  lemma {:induction false} CountWastes(files: seq<nat>, s: nat)
    requires s > 0
    ensures Prod(Count(files, s), s) <= TotalQuads(files) + Prod(|files|, s - 1)
  {
    if files != [] {
      var rest, q := files[..|files| - 1], Quads(files[|files| - 1]);
      CountWastes(rest, s);
      QuotRem(q + s - 1, s);
      ProdAdd(Count(rest, s), CeilDiv(q, s), s);
    }
  }

  // ---------------------------------------------------------------------- the bounds of the search

  /** Below total / blockcount the blocks are too small. */
  lemma TooSmall(files: seq<nat>, blockcount: nat, s: nat)
    requires blockcount > 0 && 0 < s < Quot(TotalQuads(files), blockcount)
    ensures Count(files, s) > blockcount
  {
    var total, lower := TotalQuads(files), Quot(TotalQuads(files), blockcount);
    QuotRem(total, blockcount);
    ProdLess(s, lower, blockcount);
    CountHolds(files, s);
    ProdCommutes(s, blockcount);
    ProdOrder(Count(files, s), blockcount, s);
  }

  /** At total / (blockcount - files), rounded up, they are large enough. */
  lemma LargeEnough(files: seq<nat>, blockcount: nat, u: nat)
    requires |files| < blockcount && u > 0 && u == CeilDiv(TotalQuads(files), blockcount - |files|)
    ensures Count(files, u) <= blockcount
  {
    var total, n := TotalQuads(files), |files|;
    CeilDivAtMost(total, blockcount - n, u);
    ProdCommutes(u, blockcount - n);
    CountWastes(files, u);
    ProdScales(n, u - 1, u);
    ProdAdd(blockcount - n, n, u);
    ProdOrder(blockcount, Count(files, u), u);
  }

  lemma BoundsOrdered(total: nat, blockcount: nat, n: nat)
    requires n < blockcount <= total
    ensures 1 <= Quot(total, blockcount) <= CeilDiv(total, blockcount - n)
  {
    QuotRem(total, blockcount);
    var lower, upper := Quot(total, blockcount), CeilDiv(total, blockcount - n);
    CeilDivAtMost(total, blockcount - n, upper);
    ProdScales(upper, blockcount - n, blockcount);
    ProdOrder(upper, lower, blockcount);
  }

  // ---------------------------------------------------------------------- the search

  /** The smallest block size, in quads, that needs at most blockcount blocks. */
  ghost predicate IsLeast(files: seq<nat>, blockcount: nat, s: nat) {
    s > 0 && Count(files, s) <= blockcount && forall t :: 0 < t < s ==> Count(files, t) > blockcount
  }

  method CountBlocks(files: seq<nat>, size: nat) returns (count: nat)
    requires size > 0
    ensures count == Count(files, size)
  {
    count := 0;
    var i := 0;
    while i < |files|
      invariant 0 <= i <= |files| && count == Count(files[..i], size)
    {
      assert files[..i + 1][..i] == files[..i];
      count := count + CeilDiv(CeilDiv(files[i], 4), size);
      i := i + 1;
    }
    assert files[..i] == files;
  }

  method Search(files: seq<nat>, blockcount: nat, totalsize: nat) returns (size: nat, count: nat)
    requires |files| < blockcount <= totalsize == TotalQuads(files)
    ensures IsLeast(files, blockcount, size) && count == Count(files, size)
  {
    hide Count;
    var lowerBound := Quot(totalsize, blockcount);
    var upperBound := Quot(totalsize + blockcount - |files| - 1, blockcount - |files|);
    BoundsOrdered(totalsize, blockcount, |files|);
    LargeEnough(files, blockcount, upperBound);
    forall t | 0 < t < lowerBound ensures Count(files, t) > blockcount { TooSmall(files, blockcount, t); }
    var again := true;
    size, count := lowerBound, 0;
    while again
      invariant 1 <= lowerBound <= upperBound && Count(files, upperBound) <= blockcount
      invariant forall t :: 0 < t < lowerBound ==> Count(files, t) > blockcount
      invariant !again ==> lowerBound == upperBound == size && count == Count(files, size)
      decreases upperBound - lowerBound, if again then 1 else 0
    {
      size := (lowerBound + upperBound) / 2;
      count := CountBlocks(files, size);
      if count > blockcount {
        forall t | 0 < t <= size ensures Count(files, t) > blockcount { CountFalls(files, t, size); }
        lowerBound := size + 1;
        if lowerBound >= upperBound {
          size := lowerBound;
          count := CountBlocks(files, size);
        }
      } else {
        upperBound := size;
      }
      again := lowerBound < upperBound;
    }
  }

  // ---------------------------------------------------------------------- the whole computation

  method Largest(files: seq<nat>) returns (largest: nat)
    ensures forall i :: 0 <= i < |files| ==> files[i] <= largest
    ensures largest == 0 || largest in files
  {
    largest := 0;
    for i := 0 to |files|
      invariant forall k :: 0 <= k < i ==> files[k] <= largest
      invariant largest == 0 || largest in files
    {
      if files[i] > largest { largest := files[i]; }
    }
  }

  method Total(files: seq<nat>) returns (total: nat)
    ensures total == TotalQuads(files)
  {
    total := 0;
    var i := 0;
    while i < |files|
      invariant 0 <= i <= |files| && total == TotalQuads(files[..i])
    {
      assert files[..i + 1][..i] == files[..i];
      total := total + CeilDiv(files[i], 4);
      i := i + 1;
    }
    assert files[..i] == files;
  }

  /** A block that holds any of the files: one block for each. */
  lemma {:induction false} OneEach(files: seq<nat>, blocksize: nat)
    requires blocksize > 0 && forall i :: 0 <= i < |files| ==> files[i] <= blocksize
    ensures SourceBlocks(files, blocksize) <= |files|
  {
    if files != [] {
      OneEach(files[..|files| - 1], blocksize);
      CeilDivIs(files[|files| - 1], blocksize);
      CeilDivAtMost(files[|files| - 1], blocksize, 1);
    }
  }

  lemma {:induction false} CountByQuads(files: seq<nat>)
    ensures Count(files, 1) == TotalQuads(files)
  {
    if files != [] {
      CountByQuads(files[..|files| - 1]);
      var q := Quads(files[|files| - 1]);
      CeilDivAtMost(q, 1, q);
      CeilDivAtMost(q, 1, CeilDiv(q, 1));
      ProdIs(q, 1);
      ProdIs(CeilDiv(q, 1), 1);
    }
  }

  /** The size of the largest file, rounded up to a multiple of four. */
  ghost predicate IsLargest(sizes: seq<nat>, size: nat) {
    && size % 4 == 0 && (forall i :: 0 <= i < |sizes| ==> sizes[i] <= size)
    && (size == 0 || exists i :: 0 <= i < |sizes| && size < sizes[i] + 4)
  }

  lemma RoundedUp(x: nat)
    ensures var r := (x + 3) / 4 * 4; r % 4 == 0 && x <= r < x + 4 && (x == 0 ==> r == 0)
  {}

  /** The block size for a requested number of blocks; `sizes` are the sizes of the source files. None is
      the error exit. */
  method ComputeBlockSize(sizes: seq<nat>, blockcount: nat) returns (blocksize: Option<nat>)
    ensures blockcount < |sizes| ==> blocksize == None
    ensures blocksize.Some? ==> blocksize.value % 4 == 0
    ensures blocksize.Some? && blocksize.value > 0 ==> SourceBlocks(sizes, blocksize.value) <= blockcount
    ensures blocksize.Some? && blocksize.value == 0 ==>
              blockcount == |sizes| && forall i :: 0 <= i < |sizes| ==> sizes[i] == 0
    ensures blockcount == |sizes| ==> blocksize.Some? && IsLargest(sizes, blocksize.value)
    ensures |sizes| < blockcount && blocksize.Some? ==> blocksize.value > 0
    ensures |sizes| < blockcount && blocksize.Some? ==>
              forall b :: 0 < b < blocksize.value && b % 4 == 0 ==> SourceBlocks(sizes, b) > blockcount
    ensures |sizes| < blockcount <= 32768 ==> blocksize.Some?
  {
    hide Count, SourceBlocks, TotalQuads;
    if blockcount < |sizes| {
      return None;
    } else if blockcount == |sizes| {
      var largest := Largest(sizes);
      var b := (largest + 3) / 4 * 4;
      if b > 0 { OneEach(sizes, b); }
      RoundedUp(largest);
      return Some(b);
    }
    var totalsize := Total(sizes);
    if blockcount > totalsize {
      CountByQuads(sizes);
      CountIsSourceBlocks(sizes, 1);
      return Some(4);
    }
    var size, count := Search(sizes, blockcount, totalsize);
    CountIsSourceBlocks(sizes, size);
    if count > 32768 {
      return None;
    } else if count == 0 {
      NotZero(sizes, size);
      return None;
    }
    forall b | 0 < b < 4 * size && b % 4 == 0 ensures SourceBlocks(sizes, b) > blockcount {
      CountIsSourceBlocks(sizes, b / 4);
    }
    return Some(4 * size);
  }

  lemma NotZero(files: seq<nat>, s: nat)
    requires s > 0 && TotalQuads(files) > 0
    ensures Count(files, s) > 0
  {
    CountHolds(files, s);
  }

  /** The number of source blocks that the creator works with. */
  method ComputeBlockCount(sizes: seq<nat>, blocksize: nat) returns (count: Option<nat>)
    ensures count.Some? <==> blocksize > 0 && blocksize % 4 == 0 && SourceBlocks(sizes, blocksize) <= 32768
    ensures count.Some? ==> count.value == SourceBlocks(sizes, blocksize)
  {
    if blocksize == 0 || blocksize % 4 != 0 {
      return None;
    }
    var n, i := 0, 0;
    while i < |sizes|
      invariant 0 <= i <= |sizes| && n == SourceBlocks(sizes[..i], blocksize)
    {
      assert sizes[..i + 1][..i] == sizes[..i];
      n := n + (sizes[i] + blocksize - 1) / blocksize;
      i := i + 1;
    }
    assert sizes[..i] == sizes;
    if n > 32768 {
      return None;
    }
    return Some(n);
  }
}
