/** How many recovery files there are and which recovery blocks each of them holds:
  src/libpar2.cpp:129-202 and src/par2creator.cpp:484-598. */
module RecoveryFiles {
  import opened Arithmetic

  /** How a computation ends: with a value, with an error message, or in a division by zero. */
  datatype Outcome<T> = Done(value: T) | Failed | DividedByZero

  datatype Scheme = Unknown | Variable | Limited | Uniform

  /** The recovery blocks of one file: `count` blocks from `exponent` on. */
  datatype Allocation = Allocation(exponent: nat, count: nat)

  /** How many times a number can be halved before it is zero. */
  function BitLength(n: nat): nat {
    if n == 0 then 0 else 1 + BitLength(n / 2)
  }

  /** A number lies between the powers of two that its length names. */
  lemma {:induction false} BitLengthBounds(n: nat)
    ensures n < Pow2(BitLength(n)) && (n > 0 ==> BitLength(n) > 0 && Pow2(BitLength(n) - 1) <= n)
  {
    if n > 0 {
      BitLengthBounds(n / 2);
    }
  }

  method CountBits(n: nat, start: nat) returns (count: nat)
    ensures count == start + BitLength(n)
  {
    count := start;
    var blocks := n;
    while blocks > 0
      invariant count + BitLength(blocks) == start + BitLength(n)
    {
      count := count + 1;
      blocks := blocks / 2;
    }
  }

  lemma {:induction false} BitLengthAtMost(n: nat)
    ensures BitLength(n) <= n
  {
    if n > 0 { BitLengthAtMost(n / 2); }
  }

  /** In the limited scheme: files filled with as many blocks as the largest source file needs. */
  function WholeFiles(blocks: nat, largest: nat): nat
    requires largest > 0
  {
    var whole := Quot(blocks, largest);
    if whole >= 1 then whole - 1 else 0
  }

  /** What is left for the files at the bottom is more than nothing and less than twice the largest. */
  lemma ExtraBounds(blocks: nat, largest: nat)
    requires largest > 0 && blocks > 0
    ensures Prod(WholeFiles(blocks, largest), largest) < blocks < Prod(WholeFiles(blocks, largest), largest)
            + 2 * largest
  {
    QuotRem(blocks, largest);
  }

  function Extra(blocks: nat, largest: nat): (extra: nat)
    requires largest > 0 && blocks > 0
    ensures 0 < extra < 2 * largest
  {
    ExtraBounds(blocks, largest);
    blocks - Prod(WholeFiles(blocks, largest), largest)
  }

  /** When no number of files is acceptable. */
  predicate Rejected(scheme: Scheme, requested: nat, blocks: nat) {
    blocks > 0 && (scheme == Unknown || (scheme != Limited && requested > blocks))
  }

  /** When the program divides by the number of blocks of the largest source file although that is zero. */
  predicate Undivided(scheme: Scheme, blocks: nat, largest: nat) {
    scheme == Limited && blocks > 0 && largest == 0
  }

  /** The number of recovery files; `requested` is zero if the user named none, `largest` is the number of
      blocks of the largest source file. */
  method ComputeRecoveryFileCount(scheme: Scheme, requested: nat, blocks: nat, largest: nat)
    returns (files: Outcome<nat>)
    ensures files == Failed <==> Rejected(scheme, requested, blocks)
    ensures files == DividedByZero <==> Undivided(scheme, blocks, largest)
    ensures blocks == 0 ==> files == Done(0)
    ensures files.Done? && blocks > 0 && scheme != Limited ==>
              files.value == (if requested == 0 then BitLength(blocks) else requested) && 0 < files.value <= blocks
    ensures files.Done? && blocks > 0 && scheme == Limited ==>
              files.value == WholeFiles(blocks, largest) + BitLength(Extra(blocks, largest)) && 0 < files.value
  {
    if blocks == 0 {
      return Done(0);
    }
    match scheme
    case Unknown =>
      return Failed;
    case Variable =>
      files := LogarithmicCount(requested, blocks);
    case Uniform =>
      files := LogarithmicCount(requested, blocks);
    case Limited =>
      if largest == 0 {
        return DividedByZero;
      }
      var whole := Quot(blocks, largest);
      whole := if whole >= 1 then whole - 1 else 0;
      ExtraBounds(blocks, largest);
      var extra := blocks - Prod(whole, largest);
      var count := CountBits(extra, whole);
      BitLengthBounds(extra);
      return Done(count);
  }

  /** Roughly log2 of the number of blocks, unless a number of files was asked for. */
  method LogarithmicCount(requested: nat, blocks: nat) returns (files: Outcome<nat>)
    requires blocks > 0
    ensures files == if requested > blocks then Failed
            else Done(if requested == 0 then BitLength(blocks) else requested)
    ensures files.Done? ==> 0 < files.value <= blocks
  {
    var count := requested;
    BitLengthAtMost(blocks);
    if count == 0 {
      count := CountBits(blocks, 0);
    }
    if count > blocks {
      return Failed;
    }
    return Done(count);
  }

  // ---------------------------------------------------------------------- allocation

  /** The files hold [first, first + count), one after the other in file order. */
  ghost predicate Contiguous(files: seq<Allocation>, first: nat, end: nat) {
    && (files == [] ==> first == end)
    && (files != [] ==> files[0].exponent == first && files[|files| - 1].exponent + files[|files| - 1].count == end)
    && forall i, j {:trigger files[i], files[j]} :: 0 <= i < |files| && j == i + 1 < |files| ==>
       files[j].exponent == files[i].exponent + files[i].count
  }

  lemma ContiguousAppend(files: seq<Allocation>, first: nat, end: nat, count: nat)
    requires Contiguous(files, first, end)
    ensures Contiguous(files + [Allocation(end, count)], first, end + count)
  {}

  lemma ContiguousJoin(a: seq<Allocation>, b: seq<Allocation>, first: nat, middle: nat, end: nat)
    requires Contiguous(a, first, middle) && Contiguous(b, middle, end)
    ensures Contiguous(a + b, first, end)
  {
    var c := a + b;
    forall i, j | 0 <= i < |c| && j == i + 1 < |c| ensures c[j].exponent == c[i].exponent + c[i].count {
      if j < |a| { assert c[i] == a[i] && c[j] == a[j]; }
      else if i >= |a| { assert c[i] == b[i - |a|] && c[j] == b[j - |a|]; }
    }
  }

  method AllocateUniform(first: nat, blocks: nat, files: nat) returns (allocations: seq<Allocation>)
    requires files > 0
    ensures |allocations| == files && Contiguous(allocations, first, first + blocks)
    ensures forall i, j :: 0 <= i < j < files ==>
            allocations[j].count <= allocations[i].count <= allocations[j].count + 1
  {
    var base, remainder := Quot(blocks, files), Rem(blocks, files);
    QuotRem(blocks, files);
    ProdCommutes(base, files);
    allocations := [];
    var exponent, filenumber := first, 0;
    while filenumber < files
      invariant 0 <= filenumber <= files == |allocations| + (files - filenumber)
      invariant exponent == first + Prod(filenumber, base) + Min(filenumber, remainder)
      invariant Contiguous(allocations, first, exponent)
      invariant forall i :: 0 <= i < filenumber ==> allocations[i].count == if i < remainder then base + 1 else base
    {
      var count := if filenumber < remainder then base + 1 else base;
      ContiguousAppend(allocations, first, exponent, count);
      allocations := allocations + [Allocation(exponent, count)];
      exponent := exponent + count;
      filenumber := filenumber + 1;
    }
  }

  /** The share of file n, and what the files before it hold together. */
  function Share(low: nat, n: nat): nat { if n == 0 then low else 2 * Share(low, n - 1) }

  function Shared(low: nat, n: nat): nat { if n == 0 then 0 else Shared(low, n - 1) + Share(low, n - 1) }

  lemma ShareStep(low: nat, n: nat)
    ensures Share(low, 0) == low && Shared(low, 0) == 0
    ensures Share(low, n + 1) == 2 * Share(low, n) && Shared(low, n + 1) == Shared(low, n) + Share(low, n)
  {}

  lemma {:induction false} SharedIs(low: nat, n: nat)
    ensures Shared(low, n) + low == Share(low, n)
  {
    if n > 0 { SharedIs(low, n - 1); }
  }

  lemma {:induction false} ShareOne(n: nat)
    ensures Share(1, n) == Pow2(n)
  {
    if n > 0 { ShareOne(n - 1); }
  }

  lemma {:induction false} ShareTwice(low: nat, n: nat)
    ensures Share(2 * low, n) == 2 * Share(low, n) && Shared(2 * low, n) == 2 * Shared(low, n)
  {
    if n > 0 { ShareTwice(low, n - 1); }
  }

  /** What file n gets: its share, or whatever is left. */
  function Given(blocks: nat, low: nat, n: nat): nat {
    Min(Share(low, n), blocks - Min(blocks, Shared(low, n)))
  }

  lemma {:induction false} ShareIs(low: nat, n: nat)
    ensures Share(low, n) == Doubling(low, n)
  {
    if n > 0 {
      ShareIs(low, n - 1);
      TwiceTimes(low, Pow2(n - 1));
    }
  }

  lemma TwiceTimes(a: nat, b: nat)
    ensures a * (2 * b) == 2 * (a * b)
  {}

  lemma SharedIsProduct(low: nat, n: nat)
    ensures Shared(low, n) == low * (Pow2(n) - 1)
  {
    SharedIs(low, n);
    ShareIs(low, n);
    assert low * (Pow2(n) - 1) == low * Pow2(n) - low;
  }

  /** low * 2^i */
  function Doubling(low: nat, i: nat): nat { low * Pow2(i) }

  /** File i holds low * 2^i blocks, or all that are left of the `blocks` from `first` on. */
  ghost predicate Doubles(files: seq<Allocation>, low: nat, first: nat, blocks: nat) {
    forall i :: 0 <= i < |files| ==>
      && files[i].exponent <= first + blocks
      && files[i].count == Min(Doubling(low, i), first + blocks - files[i].exponent)
  }

  /** Doubling shares, starting with `low` blocks, until nothing is left. */
  method AllocateDoubling(first: nat, blocks: nat, files: nat, low: nat) returns (allocations: seq<Allocation>)
    requires blocks <= Shared(low, files)
    ensures |allocations| == files && Contiguous(allocations, first, first + blocks)
    ensures Doubles(allocations, low, first, blocks)
    ensures forall i :: 0 <= i < files ==> allocations[i].count == Given(blocks, low, i)
  {
    hide Share, Shared, Contiguous, Doubles, Doubling;
    allocations := [];
    NothingYet(first);
    NoDoubles(low, first, blocks);
    var exponent := first;
    var left, share, filenumber := blocks, low, 0;
    ShareStep(low, 0);
    while filenumber < files
      invariant 0 <= filenumber <= files && |allocations| == filenumber && share == Share(low, filenumber)
      invariant left == blocks - Min(blocks, Shared(low, filenumber)) && exponent == first + blocks - left
      invariant Contiguous(allocations, first, exponent)
      invariant forall i :: 0 <= i < filenumber ==> allocations[i].count == Given(blocks, low, i)
      invariant Doubles(allocations, low, first, blocks)
    {
      var number := Min(share, left);
      ShareIs(low, filenumber);
      DoublesMore(allocations, low, first, blocks, exponent);
      ContiguousAppend(allocations, first, exponent, number);
      allocations := allocations + [Allocation(exponent, number)];
      exponent := exponent + number;
      left := left - number;
      ShareStep(low, filenumber);
      share := 2 * share;
      filenumber := filenumber + 1;
    }
  }

  lemma NoDoubles(low: nat, first: nat, blocks: nat)
    ensures Doubles([], low, first, blocks)
  {}

  lemma DoublesMore(files: seq<Allocation>, low: nat, first: nat, blocks: nat, exponent: nat)
    requires Doubles(files, low, first, blocks) && exponent <= first + blocks
    ensures Doubles(files + [Allocation(exponent, Min(Doubling(low, |files|), first + blocks - exponent))], low, first,
                    blocks)
  {
    hide Doubling;
    var more := files + [Allocation(exponent, Min(Doubling(low, |files|), first + blocks - exponent))];
    forall i | 0 <= i < |more|
      ensures more[i].exponent <= first + blocks
              && more[i].count == Min(Doubling(low, i), first + blocks - more[i].exponent)
    {
      if i < |files| { assert more[i] == files[i]; }
    }
  }

  lemma NothingYet(first: nat)
    ensures Contiguous([], first, first)
  {}

  /** With this share of the first of n files all blocks fit, and with half of it they would not. */
  predicate LeastShare(low: nat, n: nat, blocks: nat) {
    blocks <= low * (Pow2(n) - 1) && (low == 1 || low / 2 * (Pow2(n) - 1) < blocks)
  }

  /** The variable scheme: shares that double from file to file, starting with the smallest power of two
      with which everything fits. */
  method AllocateVariable(first: nat, blocks: nat, files: nat) returns (allocations: seq<Allocation>, low: nat)
    requires 0 < files
    ensures |allocations| == files && Contiguous(allocations, first, first + blocks)
    ensures exists k :: low == Pow2(k)
    ensures blocks <= Shared(low, files) && (low == 1 || (low % 2 == 0 && Shared(low / 2, files) < blocks))
    ensures forall i :: 0 <= i < files ==> allocations[i].count == Given(blocks, low, i)
    ensures LeastShare(low, files, blocks) && Doubles(allocations, low, first, blocks)
  {
    hide Share, Shared, Contiguous, Given, Doubles, LeastShare;
    low := 1;
    ghost var k := 0;
    assert low == Pow2(0);
    var maxrecoveryblocks := Pow2(files) - 1;
    SharedIs(1, files);
    ShareOne(files);
    Pow2Monotone(1, files);
    assert Pow2(1) == 2;
    while maxrecoveryblocks < blocks
      invariant low == Pow2(k) && maxrecoveryblocks == Shared(low, files) > 0
      invariant low == 1 || (low % 2 == 0 && Shared(low / 2, files) < blocks)
      decreases blocks - maxrecoveryblocks
    {
      ShareTwice(low, files);
      TwicePow2(k);
      k := k + 1;
      low, maxrecoveryblocks := 2 * low, 2 * maxrecoveryblocks;
    }
    allocations := AllocateDoubling(first, blocks, files, low);
    IsLeastShare(low, files, blocks);
  }

  lemma IsLeastShare(low: nat, n: nat, blocks: nat)
    requires blocks <= Shared(low, n) && (low == 1 || Shared(low / 2, n) < blocks)
    ensures LeastShare(low, n, blocks)
  {
    hide Shared, Pow2;
    SharedIsProduct(low, n);
    SharedIsProduct(low / 2, n);
  }

  // ---------------------------------------------------------------------- the limited scheme

  lemma ExtraLarge(blocks: nat, largest: nat)
    requires largest > 0 && blocks > 0 && WholeFiles(blocks, largest) > 0
    ensures Extra(blocks, largest) >= largest
  {
    QuotRem(blocks, largest);
  }

  /** With doubling shares for less than twice the largest, no file gets more than the largest. */
  lemma GivenCap(extra: nat, largest: nat, i: nat)
    requires 0 < extra < 2 * largest && i < BitLength(extra)
    ensures Given(extra, 1, i) <= largest
  {
    hide BitLength, Pow2;
    var n := BitLength(extra);
    BitLengthBounds(extra);
    ShareOne(i);
    SharedIs(1, i);
    TwicePow2(n - 1);
    if i < n - 1 {
      TwicePow2(i);
      Pow2Monotone(i + 1, n - 1);
    }
  }

  lemma TwicePow2(n: nat)
    ensures Pow2(n + 1) == 2 * Pow2(n)
  {}

  /** The limited scheme: whole files at the top, doubling shares at the bottom, and never more blocks in a
      file than the largest source file needs. */
  method AllocateLimited(first: nat, blocks: nat, files: nat, largest: nat) returns (allocations: seq<Allocation>)
    requires largest > 0 && blocks > 0 && files == WholeFiles(blocks, largest) + BitLength(Extra(blocks, largest))
    ensures |allocations| == files && Contiguous(allocations, first, first + blocks)
    ensures forall i :: 0 <= i < files ==> allocations[i].count <= largest
    ensures WholeAndRest(allocations, first, blocks, largest)
  {
    hide BitLength, Contiguous, Given, Share, Shared, Extra, WholeFiles, Doubles, WholeAndRest;
    var top, left, filenumber := AllocateTop(first, blocks, files, largest);
    ghost var extra := Extra(blocks, largest);
    EnoughFiles(extra);
    var bottom := AllocateDoubling(first, left, filenumber, 1);
    forall i | 0 <= i < |bottom| ensures bottom[i].count <= largest { GivenCap(extra, largest, i); }
    ContiguousJoin(bottom, top, first, first + left, first + blocks);
    allocations := bottom + top;
    IsWholeAndRest(bottom, top, first, blocks, largest);
  }

  lemma IsWholeAndRest(bottom: seq<Allocation>, top: seq<Allocation>, first: nat, blocks: nat, largest: nat)
    requires largest > 0 && blocks > 0 && |bottom| == BitLength(Extra(blocks, largest))
    requires |top| == WholeFiles(blocks, largest) && forall i :: 0 <= i < |top| ==> top[i].count == largest
    requires Doubles(bottom, 1, first, Extra(blocks, largest))
    ensures WholeAndRest(bottom + top, first, blocks, largest)
  {
    IsWhole(blocks, largest);
    hide Extra, WholeFiles, Doubles, BitLength;
    assert (bottom + top)[..|bottom|] == bottom;
  }

  /** Whole files of as many blocks as the largest source file needs at the end, one less than would fit, and doubling
      shares from one block on of the rest at the start. */
  ghost predicate WholeAndRest(files: seq<Allocation>, first: nat, blocks: nat, largest: nat)
    requires largest > 0
  {
    var whole := if blocks >= largest then blocks / largest - 1 else 0;
    var rest := blocks - whole * largest;
    && rest >= 0 && |files| == BitLength(rest) + whole && Doubles(files[..BitLength(rest)], 1, first, rest)
    && forall i :: BitLength(rest) <= i < |files| ==> files[i].count == largest
  }

  lemma IsWhole(blocks: nat, largest: nat)
    requires largest > 0 && blocks > 0
    ensures WholeFiles(blocks, largest) == if blocks >= largest then blocks / largest - 1 else 0
    ensures Extra(blocks, largest) == blocks - WholeFiles(blocks, largest) * largest
  {
    QuotIs(blocks, largest);
    QuotRem(blocks, largest);
    ProdIs(WholeFiles(blocks, largest), largest);
  }

  method AllocateTop(first: nat, blocks: nat, files: nat, largest: nat)
    returns (top: seq<Allocation>, left: nat, filenumber: nat)
    requires largest > 0 && blocks > 0 && files == WholeFiles(blocks, largest) + BitLength(Extra(blocks, largest))
    ensures left == Extra(blocks, largest) <= blocks && filenumber == BitLength(left) && |top| + filenumber == files
    ensures Contiguous(top, first + left, first + blocks) && forall i :: 0 <= i < |top| ==> top[i].count == largest
  {
    hide BitLength, Contiguous;
    ghost var extra, whole := Extra(blocks, largest), WholeFiles(blocks, largest);
    if whole > 0 { ExtraLarge(blocks, largest); }
    hide Extra, WholeFiles;
    top := [];
    NothingYet(first + blocks);
    ghost var k := whole;
    var exponent := first + blocks;
    left, filenumber := blocks, files;
    while left >= 2 * largest && filenumber > 0
      invariant 0 <= k <= whole && filenumber == k + BitLength(extra) && |top| == files - filenumber
      invariant left == extra + Prod(k, largest) && exponent == first + left
      invariant Contiguous(top, exponent, first + blocks)
      invariant forall i :: 0 <= i < |top| ==> top[i].count == largest
      decreases filenumber
    {
      filenumber := filenumber - 1;
      exponent := exponent - largest;
      left := left - largest;
      Prepended(top, exponent, first + blocks, largest);
      top := [Allocation(exponent, largest)] + top;
      k := k - 1;
    }
    Remaining(extra, k, largest, left, filenumber);
  }

  lemma Prepended(files: seq<Allocation>, first: nat, end: nat, count: nat)
    requires Contiguous(files, first + count, end)
    ensures Contiguous([Allocation(first, count)] + files, first, end)
  {
    var one := [Allocation(first, count)];
    ContiguousJoin(one, files, first, first + count, end);
  }

  lemma EnoughFiles(extra: nat)
    ensures extra <= Shared(1, BitLength(extra))
  {
    BitLengthBounds(extra);
    SharedIs(1, BitLength(extra));
    ShareOne(BitLength(extra));
  }

  /** The loop at the top stops exactly when the whole files are used up. */
  lemma Remaining(extra: nat, k: nat, largest: nat, left: nat, filenumber: nat)
    requires 0 < extra < 2 * largest && (k > 0 ==> extra >= largest) && left == extra + Prod(k, largest)
    requires left < 2 * largest || filenumber == 0
    requires filenumber == k + BitLength(extra)
    ensures k == 0 && left == extra && filenumber == BitLength(extra)
  {
    BitLengthBounds(extra);
    ProdOrder(0, k, largest);
  }

  /** How the blocks are shared out in each scheme. A number of files that was not asked for is the number of binary
      digits of the number of blocks. */
  ghost predicate SharedOut(scheme: Scheme, requested: nat, first: nat, blocks: nat, largest: nat,
                            files: seq<Allocation>) {
    if blocks == 0 then files == [] else
      var number := if requested == 0 then BitLength(blocks) else requested;
      match scheme
      case Unknown => false
      case Uniform =>
        && |files| == number
        && forall i, j :: 0 <= i < j < |files| ==> files[j].count <= files[i].count <= files[j].count + 1
      case Variable =>
        && |files| == number
        && exists k {:trigger Pow2(k)} :: LeastShare(Pow2(k), number, blocks) && Doubles(files, Pow2(k), first, blocks)
      case Limited => largest > 0 && WholeAndRest(files, first, blocks, largest)
  }

  /** The recovery blocks of all files, for the file count chosen above. Recovery block i of the set, which
      carries exponent first + i, is in exactly one file, and files follow one another. */
  method Allocate(scheme: Scheme, requested: nat, first: nat, blocks: nat, largest: nat)
    returns (allocations: Outcome<seq<Allocation>>)
    ensures allocations == Failed <==> Rejected(scheme, requested, blocks)
    ensures allocations == DividedByZero <==> Undivided(scheme, blocks, largest)
    ensures allocations.Done? ==> Contiguous(allocations.value, first, first + blocks)
    ensures allocations.Done? && scheme == Limited ==>
              forall i :: 0 <= i < |allocations.value| ==> allocations.value[i].count <= largest
    ensures allocations.Done? ==> SharedOut(scheme, requested, first, blocks, largest, allocations.value)
  {
    hide Doubles, BitLength, LeastShare, WholeAndRest, Contiguous, Extra, WholeFiles;
    NothingYet(first);
    var files := ComputeRecoveryFileCount(scheme, requested, blocks, largest);
    match files
    case Failed => return Failed;
    case DividedByZero => return DividedByZero;
    case Done(number) =>
      var found: seq<Allocation> := [];
      if number > 0 {
        match scheme
        case Uniform => found := AllocateUniform(first, blocks, number);
        case Variable =>
          var low;
          found, low := AllocateVariable(first, blocks, number);
        case Limited => found := AllocateLimited(first, blocks, number, largest);
        case Unknown =>
      }
      return Done(found);
  }

  /** Every exponent of the set lies in exactly one file. */
  lemma {:induction false} InOneFile(files: seq<Allocation>, first: nat, end: nat, e: nat) returns (i: nat)
    requires Contiguous(files, first, end) && first <= e < end
    ensures i < |files|
            && forall j {:trigger files[j]} :: 0 <= j < |files| ==>
               (files[j].exponent <= e < files[j].exponent + files[j].count <==> j == i)
    decreases |files|
  {
    var k := |files| - 1;
    var last, rest := files[k], files[..k];
    RestContiguous(files, first, end);
    if last.exponent <= e {
      i := k;
      forall j | 0 <= j < k ensures files[j].exponent + files[j].count <= e { EndsBefore(files, first, end, j, k); }
    } else {
      i := InOneFile(rest, first, last.exponent, e);
      forall j | 0 <= j < |files| ensures files[j].exponent <= e < files[j].exponent + files[j].count <==> j == i {
        if j < k { assert rest[j] == files[j]; }
      }
    }
  }

  lemma RestContiguous(files: seq<Allocation>, first: nat, end: nat)
    requires Contiguous(files, first, end) && files != []
    ensures Contiguous(files[..|files| - 1], first, files[|files| - 1].exponent)
  {
    var k := |files| - 1;
    var rest := files[..k];
    if rest != [] { assert rest[k - 1] == files[k - 1]
                   && files[k].exponent == files[k - 1].exponent + files[k - 1].count; }
    forall i, j | 0 <= i < |rest| && j == i + 1 < |rest| ensures rest[j].exponent == rest[i].exponent + rest[i].count {
      assert rest[i] == files[i] && rest[j] == files[j];
    }
  }

  lemma {:induction false} EndsBefore(files: seq<Allocation>, first: nat, end: nat, i: nat, j: nat)
    requires Contiguous(files, first, end) && i < j < |files|
    ensures files[i].exponent + files[i].count <= files[j].exponent
  {
    var p := j - 1;
    assert files[j].exponent == files[p].exponent + files[p].count;
    if i < p { EndsBefore(files, first, end, i, p); }
  }
}
