/** The protocol of the threads and the tiling together: what the output memory holds when all threads have come to
  rest. parpar/gf16/controller_cpu.cpp:463-624. */
module Backend {
  import opened Arithmetic
  import opened KernelTiling
  import Scheduler

  /** What one input adds to one output at one position of the slice, and how such terms add up. */
  datatype Terms<!C, !D, !W> = Terms(term: (C, D, nat, nat) -> W, add: (W, W) -> W, zero: W)

  /** What a request adds at an address of the output memory for one input: a worker adds, in the round and for the
      output that write there, the term of that output at that position of its part of the slice. */
  ghost function Contribution<C, D, W>(m: Terms<C, D, W>, k: Config, r: Request, coeff: C, data: D, a: nat): W {
    if Writes(k, r, a) then
      var round: nat, out: nat :| round < r.rounds && out < r.count && WritesAt(k, r, round, out, a);
      m.term(coeff, data, r.first + out, Offset(k, r.chunk) + Prod(round, k.chunkLen) + (a - Dst(k, r, round, out)))
    else m.zero
  }

  /** A tile is what one request adds, spread over the whole output memory. */
  ghost function Tile<C, D, W>(m: Terms<C, D, W>, k: Config, r: Request, coeff: C, data: D): seq<W> {
    seq(MemorySize(k), a requires a >= 0 => Contribution(m, k, r, coeff, data, a))
  }

  function AddTiles<C, D, W>(m: Terms<C, D, W>, x: seq<W>, y: seq<W>): seq<W> {
    seq(|x|, a requires 0 <= a < |x| => if a < |y| then m.add(x[a], y[a]) else x[a])
  }

  /** The protocol, with one tile for every request that is sent for a batch. */
  ghost function Protocol<C, D, W>(m: Terms<C, D, W>, k: Config, requests: seq<Request>, areas: nat,
                                   batchSize: nat): Scheduler.Config<C, D, seq<W>> {
    Scheduler.Config(areas, batchSize, |requests|, k.threads,
                     (t: nat) => if t < |requests| then requests[t].thread else 0,
                     (t: nat, coeff: C, data: D) => if t < |requests| then Tile(m, k, requests[t], coeff, data) else [],
                     (x: seq<W>, y: seq<W>) => AddTiles(m, x, y),
                     seq(MemorySize(k), _ => m.zero))
  }

  lemma ProtocolValid<C, D, W>(m: Terms<C, D, W>, k: Config, requests: seq<Request>, areas: nat, batchSize: nat)
    requires k.Valid() && Tiled(k, requests, k.numChunks, 0) && AllWriteCells(k, requests) && areas > 0 && batchSize > 0
    ensures Protocol(m, k, requests, areas, batchSize).Valid()
  {
    assert Count(requests, 0, 0) == 1;
  }

  /** What inputs contribute to one output at one position, added to a first value. */
  ghost function Sum<C, D, W>(m: Terms<C, D, W>, first: W, inputs: seq<Scheduler.Input<C, D>>, out: nat,
                              position: nat): W {
    if inputs == [] then first
    else
      var n := |inputs| - 1;
      m.add(Sum(m, first, inputs[..n], out, position), m.term(inputs[n].coeff, inputs[n].data, out, position))
  }

  /** Where an address lies in the slice of its output. */
  ghost function Position(k: Config, chunk: nat, out: nat, a: nat): nat
    requires InCell(k, chunk, out, a)
  {
    Offset(k, chunk) + (a - CellStart(k, chunk, out))
  }

  /** The one request that writes an address adds the right term. */
  lemma ContributionIs<C, D, W>(m: Terms<C, D, W>, k: Config, r: Request, coeff: C, data: D, chunk: nat, out: nat,
                                a: nat)
    requires k.Valid() && WritesCells(k, r) && InCell(k, chunk, out, a) && Writes(k, r, a)
    ensures Contribution(m, k, r, coeff, data, a) == m.term(coeff, data, out, Position(k, chunk, out, a))
  {
    hide Prod, MemorySize, InCell;
    var round: nat, o: nat :| round < r.rounds && o < r.count && WritesAt(k, r, round, o, a)
      && Contribution(m, k, r, coeff, data, a)
         == m.term(coeff, data, r.first + o, Offset(k, r.chunk) + Prod(round, k.chunkLen) + (a - Dst(k, r, round, o)));
    WritesAtIsCell(k, r, round, o, a);
    CellsApart(k, chunk, out, r.chunk + round, r.first + o, a);
    assert WritesCell(k, r, round, o);
    ProdAdd(r.chunk, round, k.chunkLen);
  }

  lemma {:induction false} AccumulateIs<C, D, W>(m: Terms<C, D, W>, k: Config, requests: seq<Request>, areas: nat,
                                                 batchSize: nat,
                                                 t: nat, base: seq<W>, inputs: seq<Scheduler.Input<C, D>>, chunk: nat,
                                                 out: nat, a: nat)
    requires k.Valid() && AllWriteCells(k, requests) && t < |requests| && InCell(k, chunk, out, a)
             && Writes(k, requests[t], a)
    requires a < MemorySize(k) == |base|
    ensures var tile := Scheduler.Accumulate(Protocol(m, k, requests, areas, batchSize), t, base, inputs);
            |tile| == |base| && tile[a] == Sum(m, base[a], inputs, out, Position(k, chunk, out, a))
  {
    hide Prod, MemorySize, InCell, Writes, Contribution, WritesCells;
    if inputs != [] {
      var n := |inputs| - 1;
      AccumulateIs(m, k, requests, areas, batchSize, t, base, inputs[..n], chunk, out, a);
      ContributionIs(m, k, requests[t], inputs[n].coeff, inputs[n].data, chunk, out, a);
    }
  }

  // ---------------------------------------------------------------------- one memory

  /** The requests of a batch cut up the output memory. */
  ghost predicate CutsUp(k: Config, requests: seq<Request>) {
    k.Valid() && Tiled(k, requests, k.numChunks, 0) && AllWriteCells(k, requests)
  }

  /** The request that writes an address. */
  ghost function Writer(k: Config, requests: seq<Request>, a: nat): (t: nat)
    requires CutsUp(k, requests) && a < MemorySize(k)
    ensures t < |requests| && forall j :: 0 <= j < |requests| ==> (Writes(k, requests[j], a) <==> j == t)
  {
    assert exists t: nat :: t < |requests| && Writes(k, requests[t], a) by {
      var t := WrittenOnce(k, requests, a);
      assert Writes(k, requests[t], a);
    }
    var t: nat :| t < |requests| && Writes(k, requests[t], a);
    assert forall j :: 0 <= j < |requests| ==> (Writes(k, requests[j], a) <==> j == t) by {
      var t' := WrittenOnce(k, requests, a);
    }
    t
  }

  /** The output memory: what an address holds is what its one writer has put there. */
  ghost function Memory<W>(k: Config, requests: seq<Request>, zero: W, output: seq<seq<W>>, a: nat): W
    requires CutsUp(k, requests) && a < MemorySize(k) && |output| == |requests|
  {
    var tile := output[Writer(k, requests, a)];
    if a < |tile| then tile[a] else zero
  }

  /** A tile that has been computed at least once spans the memory. */
  lemma TileSpans<C, D, W>(m: Terms<C, D, W>, k: Config, requests: seq<Request>, areas: nat, batchSize: nat,
                           s: Scheduler.State<C, D, seq<W>>, t: nat)
    requires Scheduler.Inv(Protocol(m, k, requests, areas, batchSize), s) && t < |requests|
    ensures |s.output| == |s.done| == |requests| && (s.done[t] > 0 ==> |s.output[t]| == MemorySize(k))
  {
    hide Scheduler.AreasOk, Scheduler.QueueOk, Scheduler.ContentsOk, Scheduler.JobOk, Scheduler.WorkOk,
        Scheduler.BusyOk,
         Scheduler.RefsOk, Tile, AddTiles;
    var c := Protocol(m, k, requests, areas, batchSize);
    if s.done[t] > 0 {
      SpanKept(m, k, requests, areas, batchSize, t, c.zero, Scheduler.Flatten(s.batches[..s.done[t]]));
    }
  }

  lemma {:induction false} SpanKept<C, D, W>(m: Terms<C, D, W>, k: Config, requests: seq<Request>, areas: nat,
                                             batchSize: nat,
                                             t: nat, base: seq<W>, inputs: seq<Scheduler.Input<C, D>>)
    ensures |Scheduler.Accumulate(Protocol(m, k, requests, areas, batchSize), t, base, inputs)| == |base|
  {
    hide Tile;
    if inputs != [] {
      SpanKept(m, k, requests, areas, batchSize, t, base, inputs[..|inputs| - 1]);
    }
  }

  /** When a worker computes a request, it adds the inputs of the batch, or stores their sum if it is the first batch,
      at exactly the addresses that the request writes. */
  lemma ComputeWrites<C(!new), D(!new), W(!new)>(m: Terms<C, D, W>, k: Config, requests: seq<Request>, areas: nat,
                                                 batchSize: nat,
                                                 actions: seq<Scheduler.Action<C, D>>, s: Scheduler.State<C, D, seq<W>>,
                                                 w: nat, a: nat)
    requires CutsUp(k, requests) && a < MemorySize(k)
    requires var c := Protocol(m, k, requests, areas, batchSize);
             Scheduler.Reachable(c, actions, s) && Scheduler.Enabled(c, s, Scheduler.Compute(w))
    ensures var c := Protocol(m, k, requests, areas, batchSize);
            var r, s' := s.requests[w][0], Scheduler.DoCompute(c, s, w);
            && |s.output| == |s'.output| == |requests| && r.tile < |requests| && r.batch < |s.batches|
            && var before, after := Memory(k, requests, m.zero, s.output, a), Memory(k, requests, m.zero, s'.output, a);
               if Writes(k, requests[r.tile], a) then
                 exists chunk: nat, out: nat :: InCell(k, chunk, out, a)
                   && after == Sum(m, if r.batch > 0 then before
                                   else m.zero, s.batches[r.batch], out, Position(k, chunk, out, a))
               else after == before
  {
    hide Prod, MemorySize, InCell, Writes, WritesCells, Contribution, Tiled, Scheduler.Inv, Scheduler.Accumulate,
        Scheduler.Reachable;
    var c, r := Protocol(m, k, requests, areas, batchSize), s.requests[w][0];
    Scheduler.ReachableInv(c, actions, s);
    Scheduler.IsValid(c, actions, s);
    Scheduler.ComputeAdds(c, s, w);
    TileSpans(m, k, requests, areas, batchSize, s, r.tile);
    if Writes(k, requests[r.tile], a) {
      var chunk, out := CellsCover(k, a);
      AccumulateIs(m, k, requests, areas, batchSize, r.tile, if r.batch > 0 then s.output[r.tile]
                   else c.zero, s.batches[r.batch],
                   chunk, out, a);
    }
  }

  /** No other step writes to the output memory. */
  lemma OthersKeep<C, D, V>(c: Scheduler.Config<C, D, V>, s: Scheduler.State<C, D, V>, action: Scheduler.Action<C, D>)
    requires c.Valid() && Scheduler.Enabled(c, s, action) && !action.Compute?
    ensures Scheduler.Step(c, s, action).output == s.output
  {}

  /** When all threads have come to rest, every byte of the output memory is the sum over all inputs that were added, in
      every run and whatever the memory held before. */
  lemma OutputIsSum<C(!new), D(!new), W(!new)>(m: Terms<C, D, W>, k: Config, requests: seq<Request>, areas: nat,
                                               batchSize: nat,
                                               actions: seq<Scheduler.Action<C, D>>, s: Scheduler.State<C, D, seq<W>>,
                                               a: nat)
    returns (chunk: nat, out: nat)
    requires CutsUp(k, requests) && a < MemorySize(k)
    requires Scheduler.Reachable(Protocol(m, k, requests, areas, batchSize), actions, s)
    requires Scheduler.Quiescent(s) && s.staged == [] && Scheduler.Added(actions) != []
    ensures |s.output| == |requests| && InCell(k, chunk, out, a)
    ensures Memory(k, requests, m.zero, s.output, a)
            == Sum(m, m.zero, Scheduler.Added(actions), out, Position(k, chunk, out, a))
  {
    hide Prod, MemorySize, InCell, Writes, WritesCells, Contribution, Tiled;
    var c, t := Protocol(m, k, requests, areas, batchSize), Writer(k, requests, a);
    chunk, out := CellsCover(k, a);
    Scheduler.Result(c, actions, s);
    AccumulateIs(m, k, requests, areas, batchSize, t, c.zero, Scheduler.Added(actions), chunk, out, a);
  }

  /** The requests that the dispatcher sends cut up the memory, and the count it stores is the number of tiles that the
      protocol counts down from. */
  method Dispatch<C(!new), D(!new), W(!new)>(k: Config, ghost m: Terms<C, D, W>, areas: nat, batchSize: nat)
    returns (requests: seq<Request>, procRefs: nat)
    requires k.Valid() && areas > 0 && batchSize > 0
    ensures CutsUp(k, requests)
    ensures Protocol(m, k, requests, areas, batchSize).Valid()
            && procRefs == Protocol(m, k, requests, areas, batchSize).tiles
  {
    var stored;
    requests, stored := RunKernel(k);
    procRefs := stored.value;
    ProtocolValid(m, k, requests, areas, batchSize);
  }
}
