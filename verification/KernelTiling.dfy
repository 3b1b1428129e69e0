/** How one batch of inputs is cut into requests to the worker threads:
  parpar/gf16/controller_cpu.cpp:127-145, 488-495 and 538-624. */
module KernelTiling {
  import opened Arithmetic
  import opened Options

  // ---------------------------------------------------------------------- chunk sizes

  /** The slice is `size` bytes; chunks of `chunkLen` bytes cover it, the last one possibly short. */
  datatype Config = Config(size: nat, chunkLen: nat, numChunks: nat, threads: nat, outputs: nat) {
    ghost predicate Sized() {
      && chunkLen > 0 && numChunks > 0 && threads > 0
      && Prod(numChunks - 1, chunkLen) < size <= Prod(numChunks, chunkLen)
    }

    ghost predicate Valid() { Sized() && outputs > 0 }
  }

  /** A chunk length and count as chosen below are valid. */
  lemma SizedIs(c: Config)
    requires c.chunkLen > 0 && c.numChunks > 0 && c.threads > 0
    ensures c.Sized() <==> (c.numChunks - 1) * c.chunkLen < c.size <= c.numChunks * c.chunkLen
  {
    ProdIs(c.numChunks - 1, c.chunkLen);
    ProdIs(c.numChunks, c.chunkLen);
  }

  /** The size of the output memory. */
  function MemorySize(c: Config): (size: nat)
    ensures size == c.size * c.outputs
  {
    ProdIs(c.size, c.outputs);
    Prod(c.size, c.outputs)
  }

  function AlignToStride(n: nat, stride: nat): nat
    requires stride > 0
  {
    Prod(CeilDiv(n, stride), stride)
  }

  /** Into how many chunks a slice should be cut: so many of the target length, rounded to the nearest number, as make
      up the slice if threads would get less than half the target, or as make up the part of each thread. */
  function WantedChunks(size: nat, target: nat, threads: nat): nat
    requires target > 0 && threads > 0
  {
    var perThread := (size + threads - 1) / threads;
    if perThread <= target / 2 then AtLeastOne((size + target / 2) / target)
    else Prod(AtLeastOne((perThread + target / 2) / target), threads)
  }

  function AtLeastOne(n: nat): (r: nat)
    ensures r > 0
  {
    if n < 1 then 1 else n
  }

  lemma WantedSome(size: nat, target: nat, threads: nat)
    requires target > 0 && threads > 0
    ensures WantedChunks(size, target, threads) > 0
  {
    hide AtLeastOne;
    var perThread := (size + threads - 1) / threads;
    ProdLess(0, AtLeastOne((perThread + target / 2) / target), threads);
  }

  /** That many chunks of the length make up the slice, and with one stride less they would not. */
  lemma TightLength(size: nat, n: nat, stride: nat)
    requires size > 0 && n > 0 && stride > 0
    ensures var chunkLen := AlignToStride(CeilDiv(size, n), stride);
            && chunkLen >= stride && size <= n * chunkLen && n * (chunkLen - stride) < size
  {
    var least := CeilDiv(size, n);
    CeilDivBounds(size, n);
    var q := CeilDiv(least, stride);
    CeilDivBounds(least, stride);
    var chunkLen := AlignToStride(least, stride);
    assert chunkLen == Prod(q - 1, stride) + stride;
    ProdCommutes(least, n);
    ProdCommutes(least - 1, n);
    ProdScales(n, least, chunkLen);
    ProdScales(n, chunkLen - stride, least - 1);
    ProdIs(n, chunkLen);
    ProdIs(n, chunkLen - stride);
  }

  /** Choose the chunk length for a slice, starting from a target length. */
  method CalcChunkSize(size: nat, target: nat, numThreads: nat, stride: nat) returns (chunkLen: nat, numChunks: nat)
    requires size > 0 && target > 0 && numThreads > 0 && stride > 0
    ensures chunkLen > 0 && chunkLen % stride == 0 && numChunks > 0
    ensures (numChunks - 1) * chunkLen < size <= numChunks * chunkLen
    ensures var n := WantedChunks(size, target, numThreads); size <= n * chunkLen && n * (chunkLen - stride) < size
  {
    var targetThreadChunk := CeilDiv(size, numThreads);
    CeilDivIs(size, numThreads);
    if targetThreadChunk <= target / 2 {
      numChunks := AtLeastOne(RoundDiv(size, target));
      QuotIs(size + target / 2, target);
    } else {
      numChunks := Prod(AtLeastOne(RoundDiv(targetThreadChunk, target)), numThreads);
      QuotIs(targetThreadChunk + target / 2, target);
    }
    WantedSome(size, target, numThreads);
    chunkLen, numChunks := FitChunks(size, numChunks, stride);
  }

  /** The least whole number of strides of which the wanted number of chunks make up the slice. */
  method FitChunks(size: nat, wanted: nat, stride: nat) returns (chunkLen: nat, numChunks: nat)
    requires size > 0 && wanted > 0 && stride > 0
    ensures chunkLen > 0 && chunkLen % stride == 0 && numChunks > 0
    ensures (numChunks - 1) * chunkLen < size <= numChunks * chunkLen
    ensures size <= wanted * chunkLen && wanted * (chunkLen - stride) < size
  {
    TightLength(size, wanted, stride);
    CeilDivBounds(size, wanted);
    chunkLen := AlignToStride(CeilDiv(size, wanted), stride);
    Aligned(CeilDiv(size, wanted), stride);
    hide AlignToStride;
    numChunks := CeilDiv(size, chunkLen);
    CeilDivBounds(size, chunkLen);
    QuotIs(chunkLen, stride);
    ProdIs(numChunks - 1, chunkLen);
    ProdIs(numChunks, chunkLen);
  }

  lemma Aligned(n: nat, stride: nat)
    requires n > 0 && stride > 0
    ensures AlignToStride(n, stride) >= n && Rem(AlignToStride(n, stride), stride) == 0
  {
    CeilDivBounds(n, stride);
    QuotUnique(AlignToStride(n, stride), stride, CeilDiv(n, stride), 0);
  }

  // ---------------------------------------------------------------------- requests

  /** A request to one thread: `rounds` chunks from `chunk` on, outputs from `first` on; `len` bytes of
      the slice; `output` is where in the output memory it starts. */
  datatype Request = Request(thread: nat, chunk: nat, rounds: nat, first: nat, count: nat, len: nat, output: nat)

  predicate Covers(r: Request, chunk: nat, out: nat) {
    r.chunk <= chunk < r.chunk + r.rounds && r.first <= out < r.first + r.count
  }

  /** How many requests cover a chunk of one output. */
  function Count(requests: seq<Request>, chunk: nat, out: nat): nat {
    if requests == [] then 0 else
      var k := |requests| - 1;
      Count(requests[..k], chunk, out) + if Covers(requests[k], chunk, out) then 1 else 0
  }

  lemma CountAppend(requests: seq<Request>, r: Request, chunk: nat, out: nat)
    ensures Count(requests + [r], chunk, out) == Count(requests, chunk, out) + if Covers(r, chunk, out) then 1 else 0
  {
    assert (requests + [r])[..|requests|] == requests;
  }

  /** The chunks before `chunk`, and the first `outs` outputs of that chunk, are covered once; nothing
      else is covered. */
  ghost predicate Tiled(c: Config, requests: seq<Request>, chunk: nat, outs: nat) {
    forall k, o {:trigger Count(requests, k, o)} :: 0 <= k && 0 <= o < c.outputs ==>
      Count(requests, k, o) == if k < chunk || (k == chunk && o < outs) then 1 else 0
  }

  lemma TiledPart(c: Config, requests: seq<Request>, r: Request, chunk: nat, outs: nat)
    requires Tiled(c, requests, chunk, outs) && r.chunk == chunk && r.rounds == 1 && r.first == outs
             && outs + r.count <= c.outputs
    ensures Tiled(c, requests + [r], chunk, outs + r.count)
  {
    forall k: nat, o: nat | o < c.outputs
      ensures Count(requests + [r], k, o) == if k < chunk || (k == chunk && o < outs + r.count) then 1 else 0
    {
      CountAppend(requests, r, k, o);
    }
  }

  lemma TiledFull(c: Config, requests: seq<Request>, r: Request, chunk: nat)
    requires Tiled(c, requests, chunk, 0) && r.chunk == chunk && r.first == 0 && r.count == c.outputs
    ensures Tiled(c, requests + [r], chunk + r.rounds, 0)
  {
    forall k: nat, o: nat | o < c.outputs
      ensures Count(requests + [r], k, o) == if k < chunk + r.rounds then 1 else 0
    {
      CountAppend(requests, r, k, o);
    }
  }

  lemma TiledNext(c: Config, requests: seq<Request>, chunk: nat)
    requires Tiled(c, requests, chunk, c.outputs)
    ensures Tiled(c, requests, chunk + 1, 0)
  {}

  // ---------------------------------------------------------------------- splitting the outputs

  /** outputs * k / parts rounded to the nearest whole number. */
  function Split(outputs: nat, parts: nat, k: nat): nat
    requires parts > 0
  {
    Quot(Prod(k, 2 * outputs) + parts, 2 * parts)
  }

  /** It is the number nearest to k * outputs / parts, the larger one of two. */
  lemma SplitNearest(outputs: nat, parts: nat, k: nat)
    requires parts > 0
    ensures var n := Split(outputs, parts, k);
            2 * parts * n <= 2 * (k * outputs) + parts < 2 * parts * n + 2 * parts
  {
    var a := Prod(k, 2 * outputs) + parts;
    QuotRem(a, 2 * parts);
    ProdIs(Quot(a, 2 * parts), 2 * parts);
    ProdTwice(k, outputs);
    ProdIs(k, outputs);
  }

  lemma {:induction false} ProdTwice(a: nat, b: nat)
    ensures Prod(a, 2 * b) == 2 * Prod(a, b)
  {
    if a > 0 { ProdTwice(a - 1, b); }
  }

  lemma SplitEnds(outputs: nat, parts: nat)
    requires parts > 0
    ensures Split(outputs, parts, 0) == 0 && Split(outputs, parts, parts) == outputs
  {
    ProdTwice(parts, outputs);
    ProdTwice(outputs, parts);
    ProdCommutes(parts, outputs);
    QuotUnique(Prod(parts, 2 * outputs) + parts, 2 * parts, outputs, parts);
  }

  lemma {:induction false} QuotGrows(a: nat, b: nat, d: nat)
    requires d > 0 && a + d <= b
    ensures Quot(a, d) + 1 <= Quot(b, d)
    decreases a
  {
    if a >= d { QuotGrows(a - d, b - d, d); }
  }

  /** With at least one output per thread every thread gets one. */
  lemma SplitGrows(outputs: nat, parts: nat, k: nat)
    requires 0 < parts <= outputs
    ensures Split(outputs, parts, k) + 1 <= Split(outputs, parts, k + 1)
  {
    QuotGrows(Prod(k, 2 * outputs) + parts, Prod(k + 1, 2 * outputs) + parts, 2 * parts);
  }

  lemma {:induction false} SplitBelow(outputs: nat, parts: nat, k: nat)
    requires 0 < parts <= outputs && k <= parts
    ensures Split(outputs, parts, k) <= outputs
    decreases parts - k
  {
    SplitEnds(outputs, parts);
    if k < parts {
      SplitBelow(outputs, parts, k + 1);
      SplitGrows(outputs, parts, k);
    }
  }

  // ---------------------------------------------------------------------- where a request writes

  /** The bytes of the slice before a chunk. */
  function Offset(c: Config, chunk: nat): nat { Prod(chunk, c.chunkLen) }

  /** The length of a chunk; only the last one can be short. */
  function CellSize(c: Config, chunk: nat): nat
    requires Offset(c, chunk) <= c.size
  {
    Min(c.size - Offset(c, chunk), c.chunkLen)
  }

  /** The output memory holds chunk after chunk, and within a chunk output after output. */
  function CellStart(c: Config, chunk: nat, out: nat): nat
    requires Offset(c, chunk) <= c.size
  {
    Prod(Offset(c, chunk), c.outputs) + Prod(out, CellSize(c, chunk))
  }

  lemma OffsetBelow(c: Config, chunk: nat)
    requires c.Valid() && chunk < c.numChunks
    ensures Offset(c, chunk) < c.size
  {
    if chunk < c.numChunks - 1 { ProdLess(chunk, c.numChunks - 1, c.chunkLen); }
  }

  /** What a worker computes for a round and an output of its request. */
  function ProcSize(c: Config, r: Request, round: nat): nat
    requires Prod(round, c.chunkLen) <= r.len
  {
    Min(r.len - Prod(round, c.chunkLen), c.chunkLen)
  }

  function Dst(c: Config, r: Request, round: nat, out: nat): nat
    requires Prod(round, c.chunkLen) <= r.len
  {
    r.output + Prod(out, ProcSize(c, r, round)) + Prod(Prod(round, r.count), c.chunkLen)
  }

  /** In one round and for one output the worker writes the cell that its request covers there. */
  ghost predicate WritesCell(c: Config, r: Request, round: nat, out: nat) {
    && Prod(round, c.chunkLen) <= r.len && Offset(c, r.chunk + round) <= c.size
    && Dst(c, r, round, out) == CellStart(c, r.chunk + round, r.first + out)
    && ProcSize(c, r, round) == CellSize(c, r.chunk + round)
  }

  ghost predicate WritesCells(c: Config, r: Request) {
    && r.thread < c.threads && r.chunk + r.rounds <= c.numChunks && r.first + r.count <= c.outputs && r.rounds > 0
       && r.count > 0
    && forall round: nat, out: nat :: round < r.rounds && out < r.count ==> WritesCell(c, r, round, out)
  }

  lemma PartWrites(c: Config, r: Request)
    requires c.Valid() && r.thread < c.threads && r.chunk < c.numChunks && r.rounds == 1
             && r.first + r.count <= c.outputs && r.count > 0
    requires Offset(c, r.chunk) <= c.size && r.len == CellSize(c, r.chunk)
             && r.output == Prod(Offset(c, r.chunk), c.outputs) + Prod(r.first, r.len)
    ensures WritesCells(c, r)
  {
    forall round: nat, out: nat | round < r.rounds && out < r.count ensures WritesCell(c, r, round, out) {
      ProdAdd(r.first, out, r.len);
    }
  }

  lemma FullOffset(c: Config, chunk: nat, round: nat)
    ensures Offset(c, chunk + round) == Offset(c, chunk) + Prod(round, c.chunkLen)
    ensures Prod(Offset(c, chunk + round), c.outputs)
            == Prod(Offset(c, chunk), c.outputs) + Prod(Prod(round, c.outputs), c.chunkLen)
  {
    ProdAdd(chunk, round, c.chunkLen);
    ProdAdd(Offset(c, chunk), Prod(round, c.chunkLen), c.outputs);
    ProdSwap(round, c.outputs, c.chunkLen);
  }

  lemma FullRound(c: Config, r: Request, round: nat, out: nat)
    requires c.Valid() && r.chunk + r.rounds <= c.numChunks && r.first == 0 && r.count == c.outputs && round < r.rounds
    requires Offset(c, r.chunk) <= c.size
    requires r.len == Min(c.size - Offset(c, r.chunk), Prod(r.rounds, c.chunkLen))
             && r.output == Prod(Offset(c, r.chunk), c.outputs)
    ensures WritesCell(c, r, round, out)
  {
    OffsetBelow(c, r.chunk + round);
    FullOffset(c, r.chunk, round);
    ProdLess(round, r.rounds, c.chunkLen);
  }

  lemma FullWrites(c: Config, r: Request)
    requires c.Valid() && r.thread < c.threads && r.chunk + r.rounds <= c.numChunks && r.first == 0
             && r.count == c.outputs && r.rounds > 0
    requires Offset(c, r.chunk) <= c.size
    requires r.len == Min(c.size - Offset(c, r.chunk), Prod(r.rounds, c.chunkLen))
             && r.output == Prod(Offset(c, r.chunk), c.outputs)
    ensures WritesCells(c, r)
  {
    forall round: nat, out: nat | round < r.rounds && out < r.count ensures WritesCell(c, r, round, out) {
      FullRound(c, r, round, out);
    }
  }

  // ---------------------------------------------------------------------- the dispatcher

  ghost predicate AllWriteCells(c: Config, requests: seq<Request>) {
    forall i :: 0 <= i < |requests| ==> WritesCells(c, requests[i])
  }

  lemma WritesMore(c: Config, requests: seq<Request>, r: Request)
    requires AllWriteCells(c, requests) && WritesCells(c, r)
    ensures AllWriteCells(c, requests + [r])
  {}

  /** Send the chunks left over after an even split to several threads each, then an equal number of
      whole chunks to every thread. Without outputs nothing is sent and no count is stored. */
  method RunKernel(c: Config) returns (requests: seq<Request>, procRefs: Option<nat>)
    requires c.Sized()
    ensures Tiled(c, requests, c.numChunks, 0) && AllWriteCells(c, requests)
    ensures if c.outputs == 0 then requests == [] && procRefs == None else procRefs == Some(|requests|)
  {
    requests, procRefs := [], None;
    if c.outputs == 0 {
      return;
    }
    var fullChunksPerThread := Quot(c.numChunks, c.threads);
    var leftoverChunks := Rem(c.numChunks, c.threads);
    QuotRem(c.numChunks, c.threads);
    ProdCommutes(fullChunksPerThread, c.threads);
    if leftoverChunks > 0 {
      var threadsPerChunk := Min(Quot(c.threads, leftoverChunks), c.outputs);
      ThreadsSuffice(c.threads, leftoverChunks, threadsPerChunk);
      var usedThreads := Prod(leftoverChunks, threadsPerChunk);
      procRefs := Some((if fullChunksPerThread > 0 then c.threads else 0) + usedThreads);
      requests := SendLeftovers(c, leftoverChunks, threadsPerChunk);
    } else {
      procRefs := Some(c.threads);
    }
    if fullChunksPerThread > 0 {
      requests := SendFull(c, requests, leftoverChunks, fullChunksPerThread);
    }
  }

  lemma ThreadsSuffice(threads: nat, leftover: nat, perChunk: nat)
    requires 0 < leftover < threads && perChunk <= Quot(threads, leftover)
    ensures Prod(leftover, perChunk) <= threads && Quot(threads, leftover) >= 1
  {
    QuotRem(threads, leftover);
    ProdCommutes(leftover, perChunk);
    if perChunk < Quot(threads, leftover) { ProdLess(perChunk, Quot(threads, leftover), leftover); }
  }

  method SendLeftovers(c: Config, leftoverChunks: nat, threadsPerChunk: nat) returns (requests: seq<Request>)
    requires c.Valid() && 0 < leftoverChunks <= c.numChunks
    requires 0 < threadsPerChunk <= c.outputs && Prod(leftoverChunks, threadsPerChunk) <= c.threads
    ensures Tiled(c, requests, leftoverChunks, 0) && |requests| == Prod(leftoverChunks, threadsPerChunk)
    ensures AllWriteCells(c, requests)
  {
    requests := [];
    var thread, chunk := 0, 0;
    while chunk < leftoverChunks
      invariant 0 <= chunk <= leftoverChunks && thread == Prod(chunk, threadsPerChunk) == |requests|
      invariant Tiled(c, requests, chunk, 0) && AllWriteCells(c, requests)
    {
      ProdLess(chunk, leftoverChunks, threadsPerChunk);
      requests, thread := SendChunk(c, requests, chunk, thread, threadsPerChunk);
      chunk := chunk + 1;
    }
  }

  /** The request of a thread for its share of the outputs of one chunk. */
  predicate SplitShare(c: Config, r: Request, chunk: nat, thread: nat, part: nat, parts: nat)
    requires parts > 0
  {
    && r.thread == thread && r.chunk == chunk && r.rounds == 1
    && r.first == Split(c.outputs, parts, part) && r.first + r.count == Split(c.outputs, parts, part + 1)
  }

  lemma IsSplitShare(c: Config, r: Request, chunk: nat, thread: nat, part: nat, parts: nat)
    requires parts > 0 && r.thread == thread && r.chunk == chunk && r.rounds == 1
    requires r.first == Split(c.outputs, parts, part) && r.first + r.count == Split(c.outputs, parts, part + 1)
    ensures SplitShare(c, r, chunk, thread, part, parts)
  {}

  /** Split the outputs of one chunk over some threads. */
  method SendChunk(c: Config, before: seq<Request>, chunk: nat, thread0: nat, threadsPerChunk: nat)
    returns (requests: seq<Request>, thread: nat)
    requires c.Valid() && chunk < c.numChunks && 0 < threadsPerChunk <= c.outputs
    requires thread0 == |before| && thread0 + threadsPerChunk <= c.threads
    requires Tiled(c, before, chunk, 0) && AllWriteCells(c, before)
    ensures Tiled(c, requests, chunk + 1, 0) && AllWriteCells(c, requests)
    ensures thread == |requests| == thread0 + threadsPerChunk
    ensures before <= requests
            && forall i :: thread0 <= i < thread ==> SplitShare(c, requests[i], chunk, i, i - thread0, threadsPerChunk)
  {
    hide SplitShare, Split, Tiled, AllWriteCells;
    requests, thread := before, thread0;
    OffsetBelow(c, chunk);
    var sliceOffset := Offset(c, chunk);
    var reqLen := Min(c.size - sliceOffset, c.chunkLen);
    var outputIdx, tc := 0, 0;
    SplitEnds(c.outputs, threadsPerChunk);
    while tc < threadsPerChunk
      invariant 0 <= tc <= threadsPerChunk && thread == thread0 + tc == |requests|
      invariant outputIdx == Split(c.outputs, threadsPerChunk, tc) <= c.outputs
      invariant Tiled(c, requests, chunk, outputIdx) && AllWriteCells(c, requests)
      invariant before <= requests
      invariant forall i :: thread0 <= i < thread ==> SplitShare(c, requests[i], chunk, i, i - thread0, threadsPerChunk)
    {
      SplitGrows(c.outputs, threadsPerChunk, tc);
      SplitBelow(c.outputs, threadsPerChunk, tc + 1);
      var numOutputs := Split(c.outputs, threadsPerChunk, tc + 1) - outputIdx;
      var req := Request(thread, chunk, 1, outputIdx, numOutputs, reqLen,
                         Prod(sliceOffset, c.outputs) + Prod(outputIdx, reqLen));
      TiledPart(c, requests, req, chunk, outputIdx);
      PartWrites(c, req);
      WritesMore(c, requests, req);
      IsSplitShare(c, req, chunk, thread, tc, threadsPerChunk);
      requests := requests + [req];
      outputIdx := outputIdx + numOutputs;
      thread := thread + 1;
      tc := tc + 1;
    }
    TiledNext(c, requests, chunk);
  }

  /** The request of a thread for its share of whole chunks: as many as any other thread has, and all outputs. */
  predicate FullShare(c: Config, r: Request, thread: nat, leftoverChunks: nat, fullChunksPerThread: nat) {
    && r.thread == thread && r.rounds == fullChunksPerThread && r.first == 0 && r.count == c.outputs
    && r.chunk == leftoverChunks + Prod(thread, fullChunksPerThread)
  }

  /** Give every thread the same number of whole chunks. */
  method SendFull(c: Config, before: seq<Request>, leftoverChunks: nat, fullChunksPerThread: nat)
    returns (requests: seq<Request>)
    requires c.Valid() && fullChunksPerThread > 0
             && leftoverChunks + Prod(c.threads, fullChunksPerThread) == c.numChunks
    requires Tiled(c, before, leftoverChunks, 0) && AllWriteCells(c, before)
    ensures Tiled(c, requests, c.numChunks, 0) && |requests| == |before| + c.threads && AllWriteCells(c, requests)
    ensures before <= requests
    ensures forall i :: |before| <= i < |requests| ==>
              FullShare(c, requests[i], i - |before|, leftoverChunks, fullChunksPerThread)
  {
    requests := before;
    var chunk, thread := leftoverChunks, 0;
    while thread < c.threads
      invariant 0 <= thread <= c.threads && |requests| == |before| + thread && before <= requests
      invariant forall i :: |before| <= i < |requests| ==>
                  FullShare(c, requests[i], i - |before|, leftoverChunks, fullChunksPerThread)
      invariant chunk == leftoverChunks + Prod(thread, fullChunksPerThread)
      invariant Tiled(c, requests, chunk, 0) && AllWriteCells(c, requests)
    {
      ProdLess(thread, c.threads, fullChunksPerThread);
      OffsetBelow(c, chunk);
      var sliceOffset := Offset(c, chunk);
      var req := Request(thread, chunk, fullChunksPerThread, 0, c.outputs,
                         Min(c.size - sliceOffset, Prod(fullChunksPerThread, c.chunkLen)),
                         Prod(sliceOffset, c.outputs));
      TiledFull(c, requests, req, chunk);
      FullWrites(c, req);
      requests := requests + [req];
      chunk := chunk + fullChunksPerThread;
      thread := thread + 1;
    }
  }

  // ---------------------------------------------------------------------- every byte once

  ghost predicate InCell(c: Config, chunk: nat, out: nat, a: nat) {
    && chunk < c.numChunks && out < c.outputs && Offset(c, chunk) <= c.size
    && CellStart(c, chunk, out) <= a < CellStart(c, chunk, out) + CellSize(c, chunk)
  }

  lemma CellEnd(c: Config, chunk: nat, out: nat)
    requires c.Valid() && chunk < c.numChunks && out < c.outputs && Offset(c, chunk) <= c.size
    ensures CellStart(c, chunk, out) + CellSize(c, chunk) <= Prod(Offset(c, chunk) + CellSize(c, chunk), c.outputs)
  {
    ProdLess(out, c.outputs, CellSize(c, chunk));
    ProdCommutes(c.outputs, CellSize(c, chunk));
    ProdAdd(Offset(c, chunk), CellSize(c, chunk), c.outputs);
  }

  lemma CellsApart(c: Config, k: nat, o: nat, k': nat, o': nat, a: nat)
    requires c.Valid() && InCell(c, k, o, a) && InCell(c, k', o', a)
    ensures k == k' && o == o'
  {
    if k < k' { EarlierCell(c, k, o, k', o'); }
    if k' < k { EarlierCell(c, k', o', k, o); }
    ProdOrder(o, o', CellSize(c, k));
  }

  lemma EarlierCell(c: Config, k: nat, o: nat, k': nat, o': nat)
    requires c.Valid() && k < k' < c.numChunks && o < c.outputs && Offset(c, k) <= c.size && Offset(c, k') <= c.size
    ensures CellStart(c, k, o) + CellSize(c, k) <= CellStart(c, k', o')
  {
    CellEnd(c, k, o);
    ProdLess(k, k', c.chunkLen);
    ProdMonotone(Offset(c, k) + CellSize(c, k), Offset(c, k'), c.outputs);
  }

  /** Every byte of the output memory lies in a cell. */
  lemma CellsCover(c: Config, a: nat) returns (chunk: nat, out: nat)
    requires c.Valid() && a < MemorySize(c)
    ensures InCell(c, chunk, out, a)
  {
    var whole := Prod(c.chunkLen, c.outputs);
    ProdLess(0, c.chunkLen, c.outputs);
    chunk := Quot(a, whole);
    var r := Rem(a, whole);
    QuotRem(a, whole);
    ProdAssoc(chunk, c.chunkLen, c.outputs);
    if c.numChunks <= chunk {
      ProdMonotone(c.numChunks, chunk, c.chunkLen);
      ProdMonotone(c.size, Offset(c, chunk), c.outputs);
      assert false;
    }
    OffsetBelow(c, chunk);
    var size := CellSize(c, chunk);
    out := Quot(r, size);
    QuotRem(r, size);
    if c.outputs <= out {
      ProdMonotone(c.outputs, out, size);
      ProdCommutes(c.outputs, size);
      ProdAdd(Offset(c, chunk), size, c.outputs);
      assert false;
    }
  }

  /** A worker writes address a in some round of its request. */
  ghost predicate Writes(c: Config, r: Request, a: nat) {
    exists round: nat, out: nat :: round < r.rounds && out < r.count && WritesAt(c, r, round, out, a)
  }

  ghost predicate WritesAt(c: Config, r: Request, round: nat, out: nat, a: nat) {
    Prod(round, c.chunkLen) <= r.len && Dst(c, r, round, out) <= a < Dst(c, r, round, out) + ProcSize(c, r, round)
  }

  lemma WritesAtIsCell(c: Config, r: Request, round: nat, out: nat, a: nat)
    requires WritesCells(c, r) && round < r.rounds && out < r.count
    ensures WritesAt(c, r, round, out, a) <==> InCell(c, r.chunk + round, r.first + out, a)
  {
    assert WritesCell(c, r, round, out);
  }

  lemma WritesIsCovers(c: Config, r: Request, chunk: nat, out: nat, a: nat)
    requires c.Valid() && WritesCells(c, r) && InCell(c, chunk, out, a)
    ensures Writes(c, r, a) <==> Covers(r, chunk, out)
  {
    if Covers(r, chunk, out) {
      WritesAtIsCell(c, r, chunk - r.chunk, out - r.first, a);
    }
    if Writes(c, r, a) {
      var round: nat, o: nat :| round < r.rounds && o < r.count && WritesAt(c, r, round, o, a);
      WritesAtIsCell(c, r, round, o, a);
      CellsApart(c, chunk, out, r.chunk + round, r.first + o, a);
    }
  }

  lemma {:induction false} CountZero(requests: seq<Request>, chunk: nat, out: nat, i: nat)
    requires Count(requests, chunk, out) == 0 && i < |requests|
    ensures !Covers(requests[i], chunk, out)
  {
    var k := |requests| - 1;
    if i < k { CountZero(requests[..k], chunk, out, i); }
  }

  lemma {:induction false} CountOne(requests: seq<Request>, chunk: nat, out: nat) returns (i: nat)
    requires Count(requests, chunk, out) == 1
    ensures i < |requests| && forall j :: 0 <= j < |requests| ==> (Covers(requests[j], chunk, out) <==> j == i)
  {
    var k := |requests| - 1;
    if Covers(requests[k], chunk, out) {
      i := k;
      forall j | 0 <= j < k ensures !Covers(requests[j], chunk, out) {
        CountZero(requests[..k], chunk, out, j);
        assert requests[..k][j] == requests[j];
      }
    } else {
      i := CountOne(requests[..k], chunk, out);
      assert forall j :: 0 <= j < k ==> requests[..k][j] == requests[j];
    }
  }

  /** Exactly one request writes each byte of the output memory. */
  lemma WrittenOnce(c: Config, requests: seq<Request>, a: nat) returns (i: nat)
    requires c.Valid() && Tiled(c, requests, c.numChunks, 0) && AllWriteCells(c, requests) && a < MemorySize(c)
    ensures i < |requests| && forall j :: 0 <= j < |requests| ==> (Writes(c, requests[j], a) <==> j == i)
  {
    var chunk, out := CellsCover(c, a);
    i := CountOne(requests, chunk, out);
    forall j | 0 <= j < |requests| ensures Writes(c, requests[j], a) <==> j == i {
      WritesIsCovers(c, requests[j], chunk, out, a);
    }
  }
}
