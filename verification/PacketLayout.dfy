/** Laying out the packets of one recovery file: src/par2creator.cpp:638-742. */
module PacketLayout {
  import opened Arithmetic
  import opened RecoveryFiles

  /** A recovery packet by its exponent, a critical packet by its number, or the creator packet. */
  datatype Packet = Recovery(exponent: nat) | Critical(number: nat) | Creator

  datatype Placed = Placed(packet: Packet, offset: nat, length: nat)

  /** The packets fill the file from 0 to `end` without gap or overlap. */
  ghost predicate Tiles(placed: seq<Placed>, end: nat) {
    && (placed == [] ==> end == 0)
    && (placed != [] ==> placed[0].offset == 0 && placed[|placed| - 1].offset + placed[|placed| - 1].length == end)
    && forall i, j {:trigger placed[i], placed[j]} :: 0 <= i < |placed| && j == i + 1 < |placed| ==>
       placed[j].offset == placed[i].offset + placed[i].length
  }

  /** A packet occupies as many bytes as it is long. */
  ghost predicate Sized(p: Placed, lengths: seq<nat>, recoveryLength: nat, creatorLength: nat) {
    match p.packet
    case Recovery(_) => p.length == recoveryLength
    case Critical(number) => number < |lengths| && p.length == lengths[number]
    case Creator => p.length == creatorLength
  }

  ghost predicate AllSized(placed: seq<Placed>, lengths: seq<nat>, recoveryLength: nat, creatorLength: nat) {
    forall k :: 0 <= k < |placed| ==> Sized(placed[k], lengths, recoveryLength, creatorLength)
  }

  /** How often a packet has been placed. */
  function Occurrences(placed: seq<Placed>, p: Packet): nat {
    if placed == [] then 0
    else Occurrences(placed[..|placed| - 1], p) + if placed[|placed| - 1].packet == p then 1 else 0
  }

  /** The exponents of the recovery packets, in file order. */
  function Exponents(placed: seq<Placed>): seq<nat> {
    if placed == [] then []
    else
      var last := placed[|placed| - 1].packet;
      Exponents(placed[..|placed| - 1]) + if last.Recovery? then [last.exponent] else []
  }

  /** The number of critical packets. */
  function Criticals(placed: seq<Placed>): nat {
    if placed == [] then 0
    else Criticals(placed[..|placed| - 1]) + if placed[|placed| - 1].packet.Critical? then 1 else 0
  }

  /** Critical packets are spread evenly: before recovery packet e of `count` there are e/count of all of them, rounded
      down. */
  ghost predicate Spread(placed: seq<Placed>, count: nat, all: nat)
    requires count > 0
  {
    placed != [] ==>
      && Spread(placed[..|placed| - 1], count, all)
      && var before := placed[..|placed| - 1];
         placed[|placed| - 1].packet.Recovery? ==> Criticals(before) == |Exponents(before)| * all / count
  }

  lemma Append(placed: seq<Placed>, end: nat, packet: Packet, length: nat, p: Packet)
    requires Tiles(placed, end)
    ensures var more := placed + [Placed(packet, end, length)];
            && Tiles(more, end + length)
               && Occurrences(more, p) == Occurrences(placed, p) + (if p == packet then 1 else 0)
            && Exponents(more) == Exponents(placed) + (if packet.Recovery? then [packet.exponent] else [])
            && Criticals(more) == Criticals(placed) + (if packet.Critical? then 1 else 0)
  {
    assert (placed + [Placed(packet, end, length)])[..|placed|] == placed;
  }

  /** Critical packets go round in turn: each has been placed `rounds` times, those before `next` once more. */
  ghost predicate InTurn(placed: seq<Placed>, n: nat, rounds: nat, next: nat) {
    next <= n && forall p :: 0 <= p < n ==> Occurrences(placed, Critical(p)) == rounds + if p < next then 1 else 0
  }

  /** The recovery packets from `first` up to `end` have been placed in order, no other one, and no creator packet. */
  ghost predicate InOrder(placed: seq<Placed>, first: nat, end: nat) {
    && first + |Exponents(placed)| == end
       && (forall i :: 0 <= i < |Exponents(placed)| ==> Exponents(placed)[i] == first + i)
    && Occurrences(placed, Creator) == 0
  }

  lemma PlaceCritical(placed: seq<Placed>, end: nat, n: nat, rounds: nat, next: nat, length: nat, first: nat,
                      limit: nat)
    requires Tiles(placed, end) && InTurn(placed, n, rounds, next) && next < n && InOrder(placed, first, limit)
    ensures var more := placed + [Placed(Critical(next), end, length)];
            && Tiles(more, end + length) && InTurn(more, n, rounds, next + 1) && InOrder(more, first, limit)
            && Criticals(more) == Criticals(placed) + 1
  {
    hide Tiles, Occurrences, Exponents, Criticals;
    var more := placed + [Placed(Critical(next), end, length)];
    Append(placed, end, Critical(next), length, Creator);
    forall p | 0 <= p < n ensures Occurrences(more, Critical(p)) == rounds + if p < next + 1 then 1 else 0 {
      Append(placed, end, Critical(next), length, Critical(p));
    }
  }

  lemma PlaceRecovery(placed: seq<Placed>, end: nat, n: nat, rounds: nat, next: nat, length: nat, first: nat,
                      limit: nat)
    requires Tiles(placed, end) && InTurn(placed, n, rounds, next) && InOrder(placed, first, limit)
    ensures var more := placed + [Placed(Recovery(limit), end, length)];
            && Tiles(more, end + length) && InTurn(more, n, rounds, next) && InOrder(more, first, limit + 1)
            && Criticals(more) == Criticals(placed)
  {
    hide Tiles, Occurrences, Exponents, Criticals;
    var more := placed + [Placed(Recovery(limit), end, length)];
    Append(placed, end, Recovery(limit), length, Creator);
    forall p | 0 <= p < n ensures Occurrences(more, Critical(p)) == rounds + if p < next then 1 else 0 {
      Append(placed, end, Recovery(limit), length, Critical(p));
    }
  }

  /** A critical or creator packet does not disturb the spread. */
  lemma KeepSpread(placed: seq<Placed>, count: nat, all: nat, other: Placed)
    requires count > 0 && Spread(placed, count, all) && !other.packet.Recovery?
    ensures Spread(placed + [other], count, all)
  {
    assert (placed + [other])[..|placed|] == placed;
  }

  /** A recovery packet keeps the spread if the accumulator is below the count. */
  lemma GrowSpread(placed: seq<Placed>, count: nat, all: nat, other: Placed, rest: nat)
    requires count > 0 && Spread(placed, count, all)
    requires Accounted(Criticals(placed), rest, |Exponents(placed)|, count, all) && rest < count
    ensures Spread(placed + [other], count, all)
  {
    hide Criticals, Exponents, Prod, Quot;
    assert (placed + [other])[..|placed|] == placed;
    QuotUnique(Prod(|Exponents(placed)|, all), count, Criticals(placed), rest);
    QuotIs(Prod(|Exponents(placed)|, all), count);
    ProdIs(|Exponents(placed)|, all);
  }

  lemma StartOut(n: nat, first: nat)
    ensures Tiles([], 0) && InTurn([], n, 0, 0) && InOrder([], first, first) && Criticals([]) == 0
  {}

  lemma StartSpread(count: nat, all: nat)
    requires count > 0
    ensures Spread([], count, all)
  {}

  lemma NextRound(placed: seq<Placed>, n: nat, rounds: nat)
    requires InTurn(placed, n, rounds, n)
    ensures InTurn(placed, n, rounds + 1, 0)
  {}

  /** What the accumulator stands for: t critical packets placed and a rest account for e recovery packets. */
  ghost predicate Accounted(t: nat, rest: nat, e: nat, count: nat, share: nat) {
    Prod(t, count) + rest == Prod(e, share)
  }

  /** When all recovery packets are placed, nothing is left in the accumulator and every critical packet has
      been placed the same number of times. */
  lemma AllAccounted(t: nat, rest: nat, count: nat, n: nat, copies: nat, rounds: nat, next: nat)
    requires count > 0 && rest < count && Accounted(t, rest, count, count, Prod(copies, n))
    requires t == Prod(rounds, n) + next && next <= n
    ensures rest == 0
    ensures n > 0 ==> (rounds == copies && next == 0) || (rounds + 1 == copies && next == n)
  {
    var share := Prod(copies, n);
    ProdCommutes(count, share);
    QuotUnique(Prod(t, count) + rest, count, t, rest);
    QuotUnique(Prod(share, count), count, share, 0);
    if n > 0 {
      if next == n {
        QuotUnique(share, n, rounds + 1, 0);
      } else {
        QuotUnique(share, n, rounds, next);
      }
      QuotUnique(share, n, copies, 0);
    }
  }

  /** A finished file: packets of the right sizes fill it, every critical packet is there as often as the
      number of recovery packets has binary digits, recovery packets are in order with the critical ones spread
      evenly between them, and the one creator packet comes last. */
  ghost predicate LaidOut(placed: seq<Placed>, size: nat, allocation: Allocation, lengths: seq<nat>,
                          recoveryLength: nat, creatorLength: nat) {
    var count := allocation.count;
    && Tiles(placed, size) && AllSized(placed, lengths, recoveryLength, creatorLength)
    && (forall p :: 0 <= p < |lengths| ==>
        Occurrences(placed, Critical(p)) == if count == 0 then 1 else BitLength(count))
    && |Exponents(placed)| == count && (forall i :: 0 <= i < count ==> Exponents(placed)[i] == allocation.exponent + i)
    && (count > 0 ==> Spread(placed, count, BitLength(count) * |lengths|))
    && Occurrences(placed, Creator) == 1 && placed != [] && placed[|placed| - 1].packet == Creator
  }

  /** Lay out one file that holds `allocation`. `lengths` are those of the critical packets. */
  method LayOut(allocation: Allocation, lengths: seq<nat>, recoveryLength: nat, creatorLength: nat)
    returns (placed: seq<Placed>, size: nat)
    ensures LaidOut(placed, size, allocation, lengths, recoveryLength, creatorLength)
  {
    hide LaidOut, Spread, Tiles, BitLength, InTurn, InOrder, AllSized;
    ghost var rounds, next;
    if allocation.count == 0 {
      placed, size := OneSet(lengths, allocation.exponent, recoveryLength, creatorLength);
      rounds, next := 0, |lengths|;
    } else {
      placed, size, rounds, next := Interleave(allocation, lengths, recoveryLength, creatorLength);
    }
    WithCreator(placed, size, allocation, lengths, recoveryLength, creatorLength, rounds, next);
    placed := placed + [Placed(Creator, size, creatorLength)];
    size := size + creatorLength;
  }

  /** The creator packet completes the file. */
  lemma WithCreator(placed: seq<Placed>, size: nat, allocation: Allocation, lengths: seq<nat>, recoveryLength: nat,
                    creatorLength: nat,
                    rounds: nat, next: nat)
    requires Tiles(placed, size) && AllSized(placed, lengths, recoveryLength, creatorLength)
    requires InTurn(placed, |lengths|, rounds, next) && (next == 0 || next == |lengths|)
    requires var copies := if allocation.count == 0 then 1 else BitLength(allocation.count);
             |lengths| > 0 ==> rounds + (if next == |lengths| then 1 else 0) == copies
    requires InOrder(placed, allocation.exponent, allocation.exponent + allocation.count)
    requires allocation.count > 0 ==> Spread(placed, allocation.count, BitLength(allocation.count) * |lengths|)
    ensures LaidOut(placed + [Placed(Creator, size, creatorLength)], size + creatorLength, allocation, lengths,
                    recoveryLength, creatorLength)
  {
    hide Tiles, Occurrences, Exponents, Criticals, Spread, Prod, BitLength;
    var count := allocation.count;
    var more := placed + [Placed(Creator, size, creatorLength)];
    forall p | 0 <= p < |lengths| ensures Occurrences(more, Critical(p)) == if count == 0 then 1 else BitLength(count) {
      Append(placed, size, Creator, creatorLength, Critical(p));
    }
    if count > 0 {
      KeepSpread(placed, count, BitLength(count) * |lengths|, Placed(Creator, size, creatorLength));
    }
    Append(placed, size, Creator, creatorLength, Creator);
  }

  /** A file without recovery packets gets one set of critical packets. */
  method OneSet(lengths: seq<nat>, ghost first: nat, ghost recoveryLength: nat, ghost creatorLength: nat)
    returns (placed: seq<Placed>, offset: nat)
    ensures Tiles(placed, offset) && InTurn(placed, |lengths|, 0, |lengths|) && InOrder(placed, first, first)
    ensures AllSized(placed, lengths, recoveryLength, creatorLength)
  {
    hide Tiles, InTurn, InOrder;
    placed, offset := [], 0;
    StartOut(|lengths|, first);
    var next := 0;
    while next < |lengths|
      invariant 0 <= next <= |lengths|
      invariant Tiles(placed, offset) && InTurn(placed, |lengths|, 0, next) && InOrder(placed, first, first)
      invariant AllSized(placed, lengths, recoveryLength, creatorLength)
    {
      PlaceCritical(placed, offset, |lengths|, 0, next, lengths[next], first, first);
      placed := placed + [Placed(Critical(next), offset, lengths[next])];
      offset := offset + lengths[next];
      next := next + 1;
    }
  }

  /** Recovery packets with critical packets spread between them. */
  method Interleave(allocation: Allocation, lengths: seq<nat>, recoveryLength: nat, ghost creatorLength: nat)
    returns (placed: seq<Placed>, offset: nat, ghost rounds: nat, ghost next: nat)
    requires allocation.count > 0
    ensures AllSized(placed, lengths, recoveryLength, creatorLength)
    ensures Tiles(placed, offset) && InOrder(placed, allocation.exponent, allocation.exponent + allocation.count)
    ensures InTurn(placed, |lengths|, rounds, next)
            && Spread(placed, allocation.count, BitLength(allocation.count) * |lengths|)
    ensures next == 0 || next == |lengths|
    ensures |lengths| > 0 ==> rounds + (if next == |lengths| then 1 else 0) == BitLength(allocation.count)
  {
    hide Tiles, InTurn, BitLength, Accounted, Spread, Criticals, Occurrences, Exponents;
    var n, count := |lengths|, allocation.count;
    var copies := CountBits(count, 0);
    var share := Prod(copies, n);
    placed, offset := [], 0;
    StartOut(n, allocation.exponent);
    var packetCount, nextCritical := 0, n;
    ghost var t: nat := 0;
    rounds, next := 0, 0;
    var exponent, limit := allocation.exponent, allocation.exponent + count;
    NothingAccounted(count, share);
    StartSpread(count, share);
    ProdCommutes(copies, n);
    ProdIs(copies, n);
    while exponent < limit
      invariant allocation.exponent <= exponent <= limit && packetCount < count
      invariant Tiles(placed, offset) && InOrder(placed, allocation.exponent, exponent)
                && InTurn(placed, n, rounds, next)
      invariant Spread(placed, count, share) && t == Criticals(placed)
                && AllSized(placed, lengths, recoveryLength, creatorLength)
      invariant next <= n && (nextCritical == next || (nextCritical == n && next == 0)) && t == Prod(rounds, n) + next
      invariant Accounted(t, packetCount, exponent - allocation.exponent, count, share)
    {
      GrowSpread(placed, count, share, Placed(Recovery(exponent), offset, recoveryLength), packetCount);
      PlaceRecovery(placed, offset, n, rounds, next, recoveryLength, allocation.exponent, exponent);
      placed := placed + [Placed(Recovery(exponent), offset, recoveryLength)];
      offset := offset + recoveryLength;
      exponent := exponent + 1;
      OneMore(t, packetCount, exponent - allocation.exponent - 1, count, share);
      packetCount := packetCount + share;
      while packetCount >= count
        invariant Tiles(placed, offset) && InOrder(placed, allocation.exponent, exponent)
                  && InTurn(placed, n, rounds, next)
        invariant Spread(placed, count, share) && t == Criticals(placed)
                  && AllSized(placed, lengths, recoveryLength, creatorLength)
        invariant next <= n && (nextCritical == next || (nextCritical == n && next == 0)) && t == Prod(rounds, n) + next
        invariant Accounted(t, packetCount, exponent - allocation.exponent, count, share)
        invariant packetCount >= count ==> n > 0
      {
        if nextCritical == n {
          if next == n {
            NextRound(placed, n, rounds);
            rounds, next := rounds + 1, 0;
          }
          nextCritical := 0;
        }
        KeepSpread(placed, count, share, Placed(Critical(nextCritical), offset, lengths[nextCritical]));
        PlaceCritical(placed, offset, n, rounds, next, lengths[nextCritical], allocation.exponent, exponent);
        placed := placed + [Placed(Critical(nextCritical), offset, lengths[nextCritical])];
        offset := offset + lengths[nextCritical];
        nextCritical, next := nextCritical + 1, next + 1;
        OneLess(t, packetCount, exponent - allocation.exponent, count, share);
        packetCount, t := packetCount - count, t + 1;
      }
    }
    AllAccounted(t, packetCount, count, n, copies, rounds, next);
  }

  lemma NothingAccounted(count: nat, share: nat)
    ensures Accounted(0, 0, 0, count, share)
  {}

  lemma OneMore(t: nat, rest: nat, e: nat, count: nat, share: nat)
    requires Accounted(t, rest, e, count, share)
    ensures Accounted(t, rest + share, e + 1, count, share)
  {}

  lemma OneLess(t: nat, rest: nat, e: nat, count: nat, share: nat)
    requires Accounted(t, rest, e, count, share) && rest >= count
    ensures Accounted(t + 1, rest - count, e, count, share)
  {}

  /** Lay out all files: the recovery files and one without recovery packets at the end. `exponents` are those of
      the recovery packets in the order in which they are handed out. */
  method LayOutFiles(allocations: seq<Allocation>, last: nat, lengths: seq<nat>, recoveryLength: nat,
                     creatorLength: nat,
                     ghost first: nat, ghost end: nat)
    returns (files: seq<seq<Placed>>, sizes: seq<nat>, exponents: seq<nat>)
    requires Contiguous(allocations, first, end)
    ensures |files| == |sizes| == |allocations| + 1
    ensures forall k :: 0 <= k <= |allocations| ==>
              LaidOut(files[k], sizes[k], (allocations + [Allocation(last, 0)])[k], lengths, recoveryLength,
                      creatorLength)
    ensures first + |exponents| == end && forall i :: 0 <= i < |exponents| ==> exponents[i] == first + i
  {
    hide LaidOut, Contiguous;
    files, sizes, exponents := [], [], [];
    while |files| < |allocations|
      invariant |files| == |sizes| <= |allocations|
      invariant forall k :: 0 <= k < |files| ==>
                LaidOut(files[k], sizes[k], allocations[k], lengths, recoveryLength, creatorLength)
      invariant first + |exponents| == Reached(allocations, first, |files|)
      invariant forall i :: 0 <= i < |exponents| ==> exponents[i] == first + i
      decreases |allocations| - |files|
    {
      var allocation := allocations[|files|];
      var placed, size := LayOut(allocation, lengths, recoveryLength, creatorLength);
      HandedOut(placed, size, allocation, lengths, recoveryLength, creatorLength);
      Follows(allocations, first, end, |files|);
      exponents := exponents + Exponents(placed);
      files, sizes := files + [placed], sizes + [size];
    }
    Follows(allocations, first, end, |files|);
    var placed, size := LayOut(Allocation(last, 0), lengths, recoveryLength, creatorLength);
    files, sizes := files + [placed], sizes + [size];
  }

  /** Where the first k files end. */
  ghost function Reached(allocations: seq<Allocation>, first: nat, k: nat): nat
    requires k <= |allocations|
  {
    if k == 0 then first else allocations[k - 1].exponent + allocations[k - 1].count
  }

  lemma Follows(allocations: seq<Allocation>, first: nat, end: nat, k: nat)
    requires Contiguous(allocations, first, end) && k <= |allocations|
    ensures Reached(allocations, first, k) == if k < |allocations| then allocations[k].exponent else end
  {
    if 0 < k < |allocations| {
      var j := k - 1;
      assert allocations[k].exponent == allocations[j].exponent + allocations[j].count;
    }
  }

  lemma HandedOut(placed: seq<Placed>, size: nat, allocation: Allocation, lengths: seq<nat>, recoveryLength: nat,
                  creatorLength: nat)
    requires LaidOut(placed, size, allocation, lengths, recoveryLength, creatorLength)
    ensures |Exponents(placed)| == allocation.count
            && forall i :: 0 <= i < allocation.count ==> Exponents(placed)[i] == allocation.exponent + i
  {}
}
