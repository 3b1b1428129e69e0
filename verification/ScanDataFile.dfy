/** Scanning a file for blocks: src/par2repairer.cpp:1699-1945 and
  src/par2repairersourcefile.cpp:121-149. */
module ScanDataFile {
  import opened Arithmetic
  import opened HashIndex
  import opened FindMatch
  import FileScan

  datatype MatchType = NoMatch | PartialMatch | FullMatch

  // ---------------------------------------------------------------------- blocks of source files

  /** The number of blocks that a file of some size has. */
  ghost predicate IsBlockCount(blocksize: nat, filesize: nat, count: nat) {
    blocksize > 0 && count > 0 && Prod(count - 1, blocksize) < filesize <= Prod(count, blocksize)
  }

  /** Every block of a file is a whole block except possibly the last, and none is empty. */
  function BlockLength(blocksize: nat, filesize: nat, count: nat, i: nat): (length: nat)
    requires IsBlockCount(blocksize, filesize, count) && i < count
    ensures 0 < length <= blocksize && (i + 1 < count ==> length == blocksize)
  {
    ProdMonotone(i, count - 1, blocksize);
    if i + 1 < count then ProdMonotone(i + 1, count - 1, blocksize); Min(blocksize, filesize - Prod(i, blocksize))
    else Min(blocksize, filesize - Prod(i, blocksize))
  }

  /** The entries of a file follow one another, block by block. */
  ghost predicate Sequenced(nodes: seq<Node>) {
    forall k {:trigger nodes[k]} :: 0 <= k < |nodes| ==>
      && nodes[k].first == (nodes[k].block == 0)
      && (nodes[k].next != NIL ==>
            nodes[k].next == k + 1 < |nodes| && nodes[k + 1].file == nodes[k].file
                && nodes[k + 1].block == nodes[k].block + 1)
  }

  lemma LoadedSequenced(before: seq<Node>, now: seq<Node>, file: nat, entries: seq<BlockEntry>)
    requires Sequenced(before) && Loaded(before, now, file, entries, |entries|)
    ensures Sequenced(now)
  {
    forall k | 0 <= k < |now|
      ensures now[k].first == (now[k].block == 0)
      ensures now[k].next != NIL ==>
              now[k].next == k + 1 < |now| && now[k + 1].file == now[k].file && now[k + 1].block == now[k].block + 1
    {
      if k < |before| {
        assert SameIdentity(before[k], now[k]);
        if before[k].next != NIL {
          var n := before[k].next;
          assert n == k + 1 < |before|;
          assert SameIdentity(before[n], now[n]);
        }
      }
    }
  }

  /** What the packets of a source file promise: how many blocks it has, its size, and its hashes. */
  datatype Packets = Packets(blockCount: nat -> nat, fileSize: nat -> nat, hashFull: nat -> nat, hash16k: nat -> nat)

  /** The entries belong to blocks that their files have, and the data blocks have the lengths set for those. */
  ghost predicate Described(nodes: seq<Node>, length: nat -> nat, blocksize: nat, packets: Packets) {
    forall k {:trigger nodes[k]} {:trigger length(k)} :: 0 <= k < |nodes| ==>
      var f := nodes[k].file;
      && IsBlockCount(blocksize, packets.fileSize(f), packets.blockCount(f)) && nodes[k].block < packets.blockCount(f)
      && length(k) == BlockLength(blocksize, packets.fileSize(f), packets.blockCount(f), nodes[k].block)
  }

  /** Loading a file whose packets agree keeps that. */
  lemma LoadedDescribed(before: seq<Node>, now: seq<Node>, file: nat, entries: seq<BlockEntry>, length: nat -> nat,
                        blocksize: nat,
                        packets: Packets)
    requires Described(before, length, blocksize, packets) && Loaded(before, now, file, entries, |entries|)
    requires IsBlockCount(blocksize, packets.fileSize(file), packets.blockCount(file))
             && packets.blockCount(file) == |entries|
    requires forall k {:trigger length(k)} :: |before| <= k < |now| ==>
               length(k) == BlockLength(blocksize, packets.fileSize(file), |entries|, k - |before|)
    ensures Described(now, length, blocksize, packets)
  {
    hide IsBlockCount, BlockLength;
    forall k | 0 <= k < |now|
      ensures var f := now[k].file;
              && IsBlockCount(blocksize, packets.fileSize(f), packets.blockCount(f))
                 && now[k].block < packets.blockCount(f)
              && length(k) == BlockLength(blocksize, packets.fileSize(f), packets.blockCount(f), now[k].block)
    {
      if k < |before| {
        assert SameIdentity(before[k], now[k]);
      }
    }
  }

  /** Blocks that another one follows are whole, and no block is empty. */
  ghost predicate LengthsOk(nodes: seq<Node>, length: nat -> nat, blocksize: nat) {
    forall k {:trigger length(k)} :: 0 <= k < |nodes| ==>
        0 < length(k) <= blocksize && (nodes[k].next != NIL ==> length(k) == blocksize)
  }

  lemma DescribedLengths(nodes: seq<Node>, length: nat -> nat, blocksize: nat, packets: Packets)
    requires Sequenced(nodes) && Described(nodes, length, blocksize, packets)
    ensures LengthsOk(nodes, length, blocksize)
  {
    hide IsBlockCount, BlockLength;
    forall k | 0 <= k < |nodes|
      ensures 0 < length(k) <= blocksize && (nodes[k].next != NIL ==> length(k) == blocksize) {
      assert nodes[k].next != NIL ==>
          nodes[nodes[k].next].block == nodes[k].block + 1 && nodes[nodes[k].next].file == nodes[k].file;
    }
  }

  // ---------------------------------------------------------------------- matches

  /** Where the scan has located data: the entry of a block and an offset in the scanned file. */
  datatype Location = Location(entry: nat, offset: nat)

  predicate Found(matches: seq<Location>, i: nat) {
    exists k :: 0 <= k < |matches| && matches[k].entry == i
  }

  function DiskNow(d: Blocks, matches: seq<Location>, disk: nat, i: nat): nat {
    if Found(matches, i) then disk else d.disk(i)
  }

  /** What is known of the blocks after some matches in this file. */
  function BlocksNow(d: Blocks, matches: seq<Location>, disk: nat): (r: Blocks)
    ensures r.length == d.length && r.complete == d.complete
    ensures forall i: nat {:trigger r.located(i)} :: r.located(i) == (Found(matches, i) || d.located(i))
  {
    d.(located := (i: nat) => Found(matches, i) || d.located(i), disk := (i: nat) => DiskNow(d, matches, disk, i))
  }

  /** The matches so far are blocks 0, 1, 2 and so on of one file, end to end from the start of the
      scanned file. */
  ghost predicate InSequence(nodes: seq<Node>, matches: seq<Location>, blocksize: nat) {
    matches != [] ==>
      && forall k :: 0 <= k < |matches| ==>
           && matches[k].entry == matches[0].entry + k < |nodes| && matches[k].offset == Prod(k, blocksize)
           && nodes[matches[k].entry].block == k && nodes[matches[k].entry].file == nodes[matches[0].entry].file
  }

  lemma SequenceGrows(nodes: seq<Node>, matches: seq<Location>, blocksize: nat, entry: nat, offset: nat)
    requires Sequenced(nodes) && InSequence(nodes, matches, blocksize) && entry < |nodes|
             && offset == Prod(|matches|, blocksize)
    requires if matches == [] then nodes[entry].first else nodes[matches[|matches| - 1].entry].next == entry
    ensures InSequence(nodes, matches + [Location(entry, offset)], blocksize)
  {
    var more := matches + [Location(entry, offset)];
    var last := |matches|;
    if matches != [] {
      var n := matches[last - 1].entry;
      assert nodes[n].next == n + 1 == entry;
      assert nodes[entry].block == last;
    }
    forall k | 0 <= k < |more|
      ensures more[k].entry == more[0].entry + k < |nodes| && more[k].offset == Prod(k, blocksize)
      ensures nodes[more[k].entry].block == k && nodes[more[k].entry].file == nodes[more[0].entry].file
    {
      if k < last { assert more[k] == matches[k]; }
    }
  }

  /** How far the checksummer gets: FileCheckSummer::Jump moves by at most a block and not past the end. */
  function JumpTo(size: nat, blocksize: nat, offset: nat, distance: nat): nat {
    Min(offset + Min(distance, blocksize), size)
  }

  /** As long as nothing has spoilt the full match, the next block is expected right here. */
  ghost predicate OnTrack(nodes: seq<Node>, matches: seq<Location>, blocksize: nat, size: nat, offset: nat,
                          nextentry: int, sourcefile: int) {
    && InSequence(nodes, matches, blocksize)
    && (if matches == [] then nextentry == NIL && offset == 0
        else
          var last := matches[|matches| - 1].entry;
          && sourcefile == nodes[last].file && nextentry == nodes[last].next
          && (nextentry != NIL ==> offset == Min(Prod(|matches|, blocksize), size)))
  }

  /** Matches are made front to back. */
  ghost predicate Advancing(nodes: seq<Node>, matches: seq<Location>, offset: nat) {
    && (forall k :: 0 <= k < |matches| ==> matches[k].entry < |nodes| && matches[k].offset < offset)
    && (forall j, k :: 0 <= j < k < |matches| ==> matches[j].offset < matches[k].offset)
  }

  lemma StaysOnTrack(nodes: seq<Node>, length: nat -> nat, matches: seq<Location>, blocksize: nat, size: nat,
                     offset: nat, nextentry: int, sourcefile: int, entry: nat)
    requires Sequenced(nodes) && LengthsOk(nodes, length, blocksize)
             && OnTrack(nodes, matches, blocksize, size, offset, nextentry, sourcefile)
    requires entry < |nodes| && offset < size
    requires if matches == [] then nodes[entry].first && offset == 0 else entry == nextentry
    ensures OnTrack(nodes, matches + [Location(entry, offset)], blocksize, size,
                    JumpTo(size, blocksize, offset, length(entry)), nodes[entry].next,
                    if matches == [] then nodes[entry].file else sourcefile)
  {
    SequenceGrows(nodes, matches, blocksize, entry, offset);
    if matches != [] {
      var last := matches[|matches| - 1].entry;
      assert nodes[last].next == last + 1;
    }
  }

  /** A window bears an entry out: it has the crc and hash of the entry, or the entry expected here is the last block
      of its file, the window cut to the length of that block has its crc, and the cut window has the hash. */
  ghost predicate BorneOut(w: Window, length: nat -> nat, nodes: seq<Node>, expected: int, entry: nat) {
    entry < |nodes| &&
    (|| KeyOf(nodes[entry]) == Key(w.crc, w.hash)
     || (&& 0 <= expected < |nodes| && nodes[expected].next == NIL
         && w.shortCrc(length(expected)) == nodes[expected].crc
         && nodes[entry].hash == w.shortHash(length(expected)) && (entry == expected || nodes[entry].crc == w.crc)))
  }

  lemma ChoiceInList(w: Window, d: Blocks, nodes: seq<Node>, suggested: int, preferred: int, m: seq<nat>)
    requires forall k :: 0 <= k < |m| ==> m[k] < |nodes|
    ensures var (e, _) := Choose(w, d, nodes, suggested, preferred, m); e == NIL || e in m
  {
    hide FirstFit, FirstOf, Fits, RightLength;
    if |m| > 1 {
      var first := FirstFit(w, d, m);
      assert first == NIL || first in m;
    }
  }

  /** The result of FindMatch is an entry that the window bears out. */
  lemma ChoiceBorneOut(w: Window, d: Blocks, nodes: seq<Node>, suggested: int, preferred: int, hash: nat)
    requires suggested == NIL || 0 <= suggested < |nodes|
    requires (false, hash) == Suggestion(w, d, nodes, suggested)
    ensures var (e, _) := Choose(w, d, nodes, suggested, preferred, Matching(nodes, |nodes|, Key(w.crc, hash)));
            e == NIL || (e >= 0 && BorneOut(w, d.length, nodes, suggested, e))
  {
    hide Choose, Matching;
    var m := Matching(nodes, |nodes|, Key(w.crc, hash));
    ChoiceInList(w, d, nodes, suggested, preferred, m);
  }

  method Look(nodes: seq<Node>, table: seq<int>, d: Blocks, w: Window, suggested: int, preferred: int)
    returns (entry: int, duplicate: bool)
    requires Indexed(nodes, table) && (suggested == NIL || 0 <= suggested < |nodes|) && preferred >= NIL
    ensures entry == NIL || (entry >= 0 && BorneOut(w, d.length, nodes, suggested, entry))
    ensures entry == Answer(w, d, nodes, suggested, preferred)
  {
    hide Indexed, Choose;
    entry, duplicate := Match(w, d, nodes, table, suggested, preferred);
    ghost var (taken, hash) := Suggestion(w, d, nodes, suggested);
    if !taken {
      ChoiceBorneOut(w, d, nodes, suggested, preferred, hash);
    }
  }

  // ---------------------------------------------------------------------- windows are bytes

  /** The bytes under scan and how they are checked. */
  datatype Content<!B> = Content(bytes: seq<B>, blocksize: nat, sums: FileScan.Checksum<B, nat>, md5: seq<B> -> nat) {

    /** Crc and hash of the n bytes at an offset, padded with zeros to a block. */
    function KeyAt(offset: nat, n: nat): Key
      requires offset + n <= |bytes| && n <= blocksize
    {
      var block := FileScan.Block(bytes, sums.zero, blocksize, offset, n);
      Key(sums.crc(block), md5(block))
    }

    function Left(offset: nat): nat
      requires offset <= |bytes|
    {
      Min(blocksize, |bytes| - offset)
    }
  }

  /** What a window at an offset shows. `known` says that its whole content is defined; n is the length to which it may
      be cut. */
  ghost predicate Shows<B>(c: Content<B>, offset: nat, known: bool, n: nat, w: Window) {
    && offset < |c.bytes| && (offset + c.blocksize <= |c.bytes| ==> known)
    && (known ==> Key(w.crc, w.hash) == c.KeyAt(offset, c.Left(offset)))
    && (n <= c.Left(offset) ==> Key(w.shortCrc(n), w.shortHash(n)) == c.KeyAt(offset, n))
  }

  /** The window knows where it is and how much of the file is left. */
  ghost predicate Placed<B>(c: Content<B>, offset: nat, w: Window) {
    && offset < |c.bytes| && w.offset == offset && w.blockLength == c.Left(offset)
    && (w.shortBlock <==> c.Left(offset) < c.blocksize)
  }

  /** An entry is borne out by the bytes at an offset, if a block of them is there: they have its crc and hash; or the
      entry expected is a last block, and the bytes cut to its length have its crc and the hash of the entry found. */
  ghost predicate Backed<B>(c: Content<B>, length: nat -> nat, nodes: seq<Node>, expected: int, entry: nat,
                            offset: nat) {
    && entry < |nodes| && offset < |c.bytes|
    && (offset + c.blocksize <= |c.bytes| ==>
          || KeyOf(nodes[entry]) == c.KeyAt(offset, c.blocksize)
          || (&& 0 <= expected < |nodes| && nodes[expected].next == NIL && length(expected) <= c.blocksize
              && var cut := c.KeyAt(offset, length(expected));
                 && nodes[expected].crc == cut.crc && nodes[entry].hash == cut.hash
                 && (entry == expected || nodes[entry].crc == c.KeyAt(offset, c.blocksize).crc)))
  }

  lemma WindowBacks<B>(c: Content<B>, length: nat -> nat, nodes: seq<Node>, expected: int, entry: nat, offset: nat,
                       known: bool, n: nat, w: Window)
    requires BorneOut(w, length, nodes, expected, entry) && Shows(c, offset, known, n, w)
    requires 0 <= expected < |nodes| ==> n == length(expected) <= c.blocksize
    ensures Backed(c, length, nodes, expected, entry, offset)
  {}

  /** Every match is borne out by the bytes at its offset, where the block expected is the one after the match
      before. */
  ghost predicate AllBacked<B>(c: Content<B>, length: nat -> nat, nodes: seq<Node>, matches: seq<Location>) {
    matches != [] ==>
      var k := |matches| - 1;
      && AllBacked(c, length, nodes, matches[..k])
      && Backed(c, length, nodes, Expected(nodes, matches[..k]), matches[k].entry, matches[k].offset)
  }

  /** The entry after the one matched last. */
  function Expected(nodes: seq<Node>, matches: seq<Location>): int {
    if matches != [] && matches[|matches| - 1].entry < |nodes| then nodes[matches[|matches| - 1].entry].next else NIL
  }

  lemma BackedUnexpected<B>(c: Content<B>, length: nat -> nat, nodes: seq<Node>, expected: int, entry: nat, offset: nat)
    requires Backed(c, length, nodes, NIL, entry, offset)
    ensures Backed(c, length, nodes, expected, entry, offset)
  {}

  lemma OneMoreBacked<B>(c: Content<B>, length: nat -> nat, nodes: seq<Node>, matches: seq<Location>, expected: int,
                         entry: nat, offset: nat)
    requires AllBacked(c, length, nodes, matches) && Backed(c, length, nodes, expected, entry, offset)
    requires expected == NIL || expected == Expected(nodes, matches)
    ensures AllBacked(c, length, nodes, matches + [Location(entry, offset)])
  {
    hide Backed;
    assert (matches + [Location(entry, offset)])[..|matches|] == matches;
    if expected == NIL { BackedUnexpected(c, length, nodes, Expected(nodes, matches), entry, offset); }
  }

  /** A match in sequence is borne out by the bytes of the window, or by those that the block should have. */
  ghost predicate CutMatch<B>(c: Content<B>, length: nat -> nat, nodes: seq<Node>, entry: nat, offset: nat) {
    && entry < |nodes| && offset < |c.bytes|
    && (length(entry) <= c.Left(offset) ==>
          || KeyOf(nodes[entry]) == c.KeyAt(offset, c.Left(offset))
              || KeyOf(nodes[entry]) == c.KeyAt(offset, length(entry)))
  }

  ghost predicate AllCut<B>(c: Content<B>, length: nat -> nat, nodes: seq<Node>, matches: seq<Location>) {
    forall k :: 0 <= k < |matches| ==> CutMatch(c, length, nodes, matches[k].entry, matches[k].offset)
  }

  lemma WindowCuts<B>(c: Content<B>, length: nat -> nat, nodes: seq<Node>, expected: int, entry: nat, offset: nat,
                      n: nat, w: Window)
    requires BorneOut(w, length, nodes, expected, entry) && Shows(c, offset, true, n, w)
    requires expected == NIL || (entry == expected && n == length(expected))
    ensures CutMatch(c, length, nodes, entry, offset)
  {}

  /** The block i of the file that a full match found, with its crc and hash. */
  ghost predicate Verified<B>(c: Content<B>, nodes: seq<Node>, matches: seq<Location>) {
    forall k :: 0 <= k < |matches| ==>
      && matches[k].entry < |nodes| && Prod(k, c.blocksize) < |c.bytes|
      && KeyOf(nodes[matches[k].entry]) == c.KeyAt(Prod(k, c.blocksize), c.Left(Prod(k, c.blocksize)))
  }

  /** If the size agrees, the blocks of the scanned file are those of the source file. */
  lemma SizesAgree<B>(c: Content<B>, length: nat -> nat, nodes: seq<Node>, matches: seq<Location>, packets: Packets)
    requires InSequence(nodes, matches, c.blocksize) && AllCut(c, length, nodes, matches)
    requires Described(nodes, length, c.blocksize, packets)
    requires matches != [] ==> |c.bytes| == packets.fileSize(nodes[matches[0].entry].file)
    ensures Verified(c, nodes, matches)
  {
    forall k | 0 <= k < |matches|
      ensures matches[k].entry < |nodes| && Prod(k, c.blocksize) < |c.bytes|
      ensures KeyOf(nodes[matches[k].entry]) == c.KeyAt(Prod(k, c.blocksize), c.Left(Prod(k, c.blocksize)))
    {
      var e := matches[k].entry;
      assert CutMatch(c, length, nodes, e, matches[k].offset);
      LengthIs(c.blocksize, packets.fileSize(nodes[e].file), packets.blockCount(nodes[e].file), k);
    }
  }

  lemma LengthIs(blocksize: nat, filesize: nat, count: nat, i: nat)
    requires IsBlockCount(blocksize, filesize, count) && i < count
    ensures Prod(i, blocksize) < filesize
            && BlockLength(blocksize, filesize, count, i) == Min(blocksize, filesize - Prod(i, blocksize))
  {
    ProdMonotone(i, count - 1, blocksize);
  }

  // ---------------------------------------------------------------------- the scan

  function ContentOf<B(0,!new)>(summer: FileScan.FileCheckSummer<B, nat, nat>): Content<B> {
    Content(summer.file, summer.blocksize, summer.sums, summer.md5)
  }

  /** What the checksummer says about its window, and about the first n bytes of it. */
  method View<B(0,!new)>(summer: FileScan.FileCheckSummer<B, nat, nat>, n: nat, disk: nat) returns (w: Window)
    requires summer.Valid() && summer.currentoffset < |summer.file| && n <= summer.blocksize
    ensures Shows(ContentOf(summer), summer.currentoffset, summer.Defined(), n, w)
    ensures w.offset == summer.currentoffset && w.disk == disk
    ensures w.blockLength == Min(summer.blocksize, |summer.file| - summer.currentoffset)
    ensures w.shortBlock <==> |summer.file| - summer.currentoffset < summer.blocksize
  {
    var hash := summer.Hashed();
    var shortCrc := summer.ShortChecksum(n);
    var shortHash := summer.ShortHash(n);
    w := Window(summer.checksum, hash, (m: nat) => shortCrc, (m: nat) => shortHash,
                summer.ShortBlock(), summer.BlockLength(), summer.currentoffset, disk);
  }

  /** The state of the checksummer while a full match is still possible: it has come block by block. */
  ghost predicate BlockByBlock<B(0,!new)>(summer: FileScan.FileCheckSummer<B, nat, nat>)
    reads summer
  {
    summer.hasher.Some? || summer.blocksize == 1
  }

  /** What the scan keeps: the verdict so far, the matches, the entry expected next, and the source file. */
  datatype Findings = Findings(matchtype: MatchType, matches: seq<Location>, nextentry: int, sourcefile: int)

  /** A match is the first block of its file at the start of the scanned one, or the block expected. */
  predicate AsExpected(nodes: seq<Node>, f: Findings, entry: nat, offset: nat)
    requires entry < |nodes|
  {
    if f.matches == [] then nodes[entry].first && offset == 0 else entry == f.nextentry
  }

  /** The verdict and the source file after a match. */
  function Judged(nodes: seq<Node>, f: Findings, entry: nat, offset: nat): Findings
    requires entry < |nodes|
  {
    f.(matchtype := if AsExpected(nodes, f, entry, offset) then f.matchtype else PartialMatch,
       sourcefile := if f.matches == [] then nodes[entry].file else f.sourcefile)
  }

  function Recorded(nodes: seq<Node>, f: Findings, entry: nat, offset: nat): Findings
    requires entry < |nodes|
  {
    Judged(nodes, f, entry, offset).(matches := f.matches + [Location(entry, offset)], nextentry := nodes[entry].next)
  }

  function Missed(f: Findings): Findings { f.(matchtype := PartialMatch, nextentry := NIL) }

  // ---------------------------------------------------------------------- what the search does not pass over

  /** What one look at the window at an offset gave. */
  ghost predicate Probed<B>(c: Content<B>, d: Blocks, nodes: seq<Node>, disk: nat, f: Findings, offset: nat,
                            known: bool,
                            n: nat, w: Window, entry: int)
  {
    && (f.nextentry == NIL || (0 <= f.nextentry < |nodes| && n == d.length(f.nextentry)))
    && Shows(c, offset, known, n, w) && Placed(c, offset, w)
    && entry == Answer(w, BlocksNow(d, f.matches, disk), nodes, f.nextentry, f.sourcefile)
    && (entry == NIL || (0 <= entry < |nodes| && BorneOut(w, d.length, nodes, f.nextentry, entry)))
  }

  /** The entry expected is the one after the last match, and that match ends at the offset. */
  ghost predicate EndsHere<B>(c: Content<B>, length: nat -> nat, nodes: seq<Node>, f: Findings, offset: nat) {
    f.nextentry != NIL ==>
      && f.matches != []
      && var m := f.matches[|f.matches| - 1];
         && m.entry < |nodes| && f.nextentry == nodes[m.entry].next
         && offset == JumpTo(|c.bytes|, c.blocksize, m.offset, length(m.entry))
  }

  /** An offset lies in the stretch that a match jumped over. */
  ghost predicate JumpedOver(length: nat -> nat, matches: seq<Location>, o: nat) {
    exists k :: 0 <= k < |matches| && matches[k].offset <= o < matches[k].offset + length(matches[k].entry)
  }

  ghost predicate FoundBefore(matches: seq<Location>, i: nat, o: nat) {
    exists k :: 0 <= k < |matches| && matches[k].entry == i && matches[k].offset < o
  }

  /** A match ends at an offset, a last block is expected there, and the bytes cut to its length have its crc, but
      another hash than the whole window: then the program searches with the wrong hash. */
  ghost predicate Misleads<B>(c: Content<B>, length: nat -> nat, nodes: seq<Node>, m: Location, o: nat) {
    && m.entry < |nodes| && m.offset + length(m.entry) == o && o + c.blocksize <= |c.bytes|
    && var e := nodes[m.entry].next;
       && 0 <= e < |nodes| && nodes[e].next == NIL && length(e) <= c.blocksize
       && nodes[e].crc == c.KeyAt(o, length(e)).crc && c.KeyAt(o, length(e)).hash != c.KeyAt(o, c.blocksize).hash
  }

  ghost predicate Misled<B>(c: Content<B>, length: nat -> nat, nodes: seq<Node>, matches: seq<Location>, o: nat) {
    exists k :: 0 <= k < |matches| && Misleads(c, length, nodes, matches[k], o)
  }

  /** If a whole block of bytes is at an offset, then every entry with their crc and hash has been located, there or
      earlier in this file, or belongs to a file that is complete; unless the program was misled. */
  ghost predicate Barren<B>(c: Content<B>, d: Blocks, nodes: seq<Node>, matches: seq<Location>, o: nat) {
    o + c.blocksize <= |c.bytes| && !Misled(c, d.length, nodes, matches, o) ==>
      forall i {:trigger nodes[i]} :: 0 <= i < |nodes| && KeyOf(nodes[i]) == c.KeyAt(o, c.blocksize) ==>
        d.located(i) || d.complete(nodes[i].file) || FoundBefore(matches, i, o)
  }

  /** Nothing usable has been passed over: every offset lies in the stretch of a match or is barren. */
  ghost predicate Covered<B>(c: Content<B>, d: Blocks, nodes: seq<Node>, matches: seq<Location>, end: nat) {
    forall o: nat {:trigger JumpedOver(d.length, matches, o)} :: o < end ==>
      JumpedOver(d.length, matches, o) || Barren(c, d, nodes, matches, o)
  }

  lemma BarrenMore<B>(c: Content<B>, d: Blocks, nodes: seq<Node>, matches: seq<Location>, m: Location, o: nat)
    requires Barren(c, d, nodes, matches, o)
    ensures Barren(c, d, nodes, matches + [m], o)
  {
    var more := matches + [m];
    if Misled(c, d.length, nodes, matches, o) {
      var k :| 0 <= k < |matches| && Misleads(c, d.length, nodes, matches[k], o);
      assert more[k] == matches[k];
    } else if o + c.blocksize <= |c.bytes| {
      forall i | 0 <= i < |nodes| && KeyOf(nodes[i]) == c.KeyAt(o, c.blocksize)
        ensures d.located(i) || d.complete(nodes[i].file) || FoundBefore(more, i, o)
      {
        if FoundBefore(matches, i, o) {
          var k :| 0 <= k < |matches| && matches[k].entry == i && matches[k].offset < o;
          assert more[k] == matches[k];
        }
      }
    }
  }

  lemma JumpedMore(length: nat -> nat, matches: seq<Location>, m: Location, o: nat)
    ensures JumpedOver(length, matches, o) ==> JumpedOver(length, matches + [m], o)
    ensures m.offset <= o < m.offset + length(m.entry) ==> JumpedOver(length, matches + [m], o)
  {
    var more := matches + [m];
    assert more[|matches|] == m;
    if JumpedOver(length, matches, o) {
      var k :| 0 <= k < |matches| && matches[k].offset <= o < matches[k].offset + length(matches[k].entry);
      assert more[k] == matches[k];
    }
  }

  lemma CoveredMatch<B>(c: Content<B>, d: Blocks, nodes: seq<Node>, matches: seq<Location>, entry: nat, offset: nat)
    requires Covered(c, d, nodes, matches, offset) && d.length(entry) <= c.blocksize
    ensures Covered(c, d, nodes, matches + [Location(entry, offset)],
                    JumpTo(|c.bytes|, c.blocksize, offset, d.length(entry)))
  {
    hide Barren, JumpedOver;
    var m := Location(entry, offset);
    forall o: nat | o < JumpTo(|c.bytes|, c.blocksize, offset, d.length(entry))
      ensures JumpedOver(d.length, matches + [m], o) || Barren(c, d, nodes, matches + [m], o)
    {
      JumpedMore(d.length, matches, m, o);
      if o < offset && !JumpedOver(d.length, matches, o) { BarrenMore(c, d, nodes, matches, m, o); }
    }
  }

  lemma CoveredMiss<B>(c: Content<B>, d: Blocks, nodes: seq<Node>, matches: seq<Location>, offset: nat)
    requires Covered(c, d, nodes, matches, offset) && Barren(c, d, nodes, matches, offset)
    ensures Covered(c, d, nodes, matches, offset + 1)
  {
    hide Barren, JumpedOver;
  }

  /** The hash that is looked up is that of the window unless the program is misled. */
  lemma LooksForWindow<B>(c: Content<B>, d: Blocks, nodes: seq<Node>, disk: nat, f: Findings, offset: nat, known: bool,
                          n: nat, w: Window)
    requires Probed(c, d, nodes, disk, f, offset, known, n, w, NIL) && EndsHere(c, d.length, nodes, f, offset)
    requires LengthsOk(nodes, d.length, c.blocksize) && offset + c.blocksize <= |c.bytes|
    requires !Misled(c, d.length, nodes, f.matches, offset)
    ensures Key(w.crc, Suggestion(w, BlocksNow(d, f.matches, disk), nodes, f.nextentry).1)
            == c.KeyAt(offset, c.blocksize)
  {
    var now := BlocksNow(d, f.matches, disk);
    SuggestionRule(w, now, nodes, f.nextentry);
    hide Suggestion, Answer, BorneOut;
    if f.nextentry != NIL && nodes[f.nextentry].next == NIL && w.shortCrc(n) == nodes[f.nextentry].crc {
      var k := |f.matches| - 1;
      assert !Misleads(c, d.length, nodes, f.matches[k], offset);
      assert 0 < d.length(f.matches[k].entry) <= c.blocksize && 0 < d.length(f.nextentry) <= c.blocksize;
    }
  }

  lemma MissBarren<B>(c: Content<B>, d: Blocks, nodes: seq<Node>, disk: nat, f: Findings, offset: nat, known: bool,
                      n: nat, w: Window)
    requires Probed(c, d, nodes, disk, f, offset, known, n, w, NIL) && EndsHere(c, d.length, nodes, f, offset)
    requires LengthsOk(nodes, d.length, c.blocksize) && Advancing(nodes, f.matches, offset)
    ensures Barren(c, d, nodes, f.matches, offset)
  {
    if offset + c.blocksize <= |c.bytes| && !Misled(c, d.length, nodes, f.matches, offset) {
      var now := BlocksNow(d, f.matches, disk);
      LooksForWindow(c, d, nodes, disk, f, offset, known, n, w);
      hide Misled, EndsHere, LengthsOk, Shows;
      forall i | 0 <= i < |nodes| && KeyOf(nodes[i]) == c.KeyAt(offset, c.blocksize)
        ensures d.located(i) || d.complete(nodes[i].file) || FoundBefore(f.matches, i, offset)
      {
        NothingUsable(w, now, nodes, f.nextentry, f.sourcefile, i);
        assert now.located(i) == (Found(f.matches, i) || d.located(i));
      }
    }
  }

  // ---------------------------------------------------------------------- an intact file

  /** The scanned file is a copy of source file s, whose entries start at b: each block has the crc and hash of its
      bytes, no block has been located, the file is not complete, and size and hashes agree. Other entries may have the
      crc and hash of its first block only if they belong to s too, or if s is the file that is looked for. */
  ghost predicate Intact<B>(c: Content<B>, d: Blocks, nodes: seq<Node>, packets: Packets, original: int, s: nat,
                            b: nat) {
    var count := packets.blockCount(s);
    && 0 < count && b + count <= |nodes| && !d.complete(s)
    && (forall k :: 0 <= k < count ==> IsCopy(c, d, nodes, s, count, b, k))
    && (forall i :: 0 <= i < |nodes| && nodes[i].file == s ==> b <= i)
    && (original == s || forall i :: 0 <= i < |nodes| && KeyOf(nodes[i]) == KeyOf(nodes[b]) ==> nodes[i].file == s)
    && |c.bytes| == packets.fileSize(s) && c.md5(c.bytes) == packets.hashFull(s)
    && c.md5(c.bytes[..Min(|c.bytes|, 16384)]) == packets.hash16k(s)
  }

  /** The entry for block k of file s is k after b, and the bytes are those of that block. */
  ghost predicate IsCopy<B>(c: Content<B>, d: Blocks, nodes: seq<Node>, s: nat, count: nat, b: nat, k: nat) {
    && b + k < |nodes| && nodes[b + k].file == s && nodes[b + k].block == k
    && nodes[b + k].next == (if k + 1 < count then b + k + 1 else NIL)
    && !d.located(b + k) && k * c.blocksize < |c.bytes|
    && KeyOf(nodes[b + k]) == c.KeyAt(k * c.blocksize, c.Left(k * c.blocksize))
  }

  /** All blocks before the offset have been matched, each where it belongs. */
  ghost predicate Following<B>(c: Content<B>, f: Findings, original: int, s: nat, b: nat, count: nat, offset: nat) {
    var m := |f.matches|;
    && f.matchtype == FullMatch && m <= count && offset == Min(Prod(m, c.blocksize), |c.bytes|)
    && (forall j :: 0 <= j < m ==> f.matches[j] == Location(b + j, Prod(j, c.blocksize)))
    && (if m == 0 then f.nextentry == NIL && f.sourcefile == original
        else f.sourcefile == s && f.nextentry == if m < count then b + m else NIL)
  }

  /** At the start the first block is found. */
  lemma FirstAnswer<B>(c: Content<B>, d: Blocks, nodes: seq<Node>, packets: Packets, original: int, s: nat, b: nat,
                       disk: nat, f: Findings, n: nat, w: Window, entry: int)
    requires Intact(c, d, nodes, packets, original, s, b) && Probed(c, d, nodes, disk, f, 0, true, n, w, entry)
    requires f.matches == [] && f.nextentry == NIL && f.sourcefile == original
    requires nodes[b].first && d.length(b) == c.Left(0)
    ensures entry == b
  {
    hide Matching, Suggestion, Choose, BorneOut;
    var now, key := BlocksNow(d, [], disk), Key(w.crc, w.hash);
    SuggestionRule(w, now, nodes, NIL);
    CopyStarts(c, d, nodes, packets, original, s, b);
    hide Intact;
    assert !Found([], b);
    ChosenFirst(w, now, nodes, original, s, b);
  }

  lemma CopyStarts<B>(c: Content<B>, d: Blocks, nodes: seq<Node>, packets: Packets, original: int, s: nat, b: nat)
    requires Intact(c, d, nodes, packets, original, s, b)
    ensures b < |nodes| && nodes[b].file == s && !d.located(b) && !d.complete(s) && 0 < |c.bytes|
    ensures KeyOf(nodes[b]) == c.KeyAt(0, c.Left(0))
    ensures forall i :: 0 <= i < |nodes| && nodes[i].file == s ==> b <= i
    ensures original == s || forall i :: 0 <= i < |nodes| && KeyOf(nodes[i]) == KeyOf(nodes[b]) ==> nodes[i].file == s
  {
    assert IsCopy(c, d, nodes, s, packets.blockCount(s), b, 0);
    assert 0 * c.blocksize == 0;
  }

  lemma ChosenFirst(w: Window, d: Blocks, nodes: seq<Node>, preferred: int, s: nat, b: nat)
    requires b < |nodes| && nodes[b].file == s && !d.located(b) && !d.complete(s)
             && KeyOf(nodes[b]) == Key(w.crc, w.hash)
    requires nodes[b].first && w.offset == 0 && (w.shortBlock ==> w.blockLength == d.length(b))
    requires forall i :: 0 <= i < |nodes| && nodes[i].file == s ==> b <= i
    requires preferred == s || forall i :: 0 <= i < |nodes| && KeyOf(nodes[i]) == KeyOf(nodes[b]) ==> nodes[i].file == s
    ensures Choose(w, d, nodes, NIL, preferred, Matching(nodes, |nodes|, Key(w.crc, w.hash))).0 == b
  {
    var m := Matching(nodes, |nodes|, Key(w.crc, w.hash));
    MatchingAscends(nodes, |nodes|, Key(w.crc, w.hash));
    hide Matching, Choose;
    ChooseCases(w, d, nodes, NIL, preferred, m);
    if |m| == 1 {
      SingleRule(w, d, nodes, NIL, b);
    } else {
      FirstOfSeveral(w, d, nodes, preferred, m, s, b);
    }
  }

  lemma FirstOfSeveral(w: Window, d: Blocks, nodes: seq<Node>, preferred: int, m: seq<nat>, s: nat, b: nat)
    requires (forall k :: 0 <= k < |m| ==> m[k] < |nodes|) && (forall i, j :: 0 <= i < j < |m| ==> m[i] < m[j])
    requires b in m && b < |nodes| && nodes[b].file == s && !d.located(b)
             && (w.shortBlock ==> w.blockLength == d.length(b))
    requires forall i :: 0 <= i < |nodes| && nodes[i].file == s ==> b <= i
    requires preferred == s || forall k :: 0 <= k < |m| ==> nodes[m[k]].file == s
    ensures ChooseMany(w, d, nodes, preferred, m) == b
  {
    SeveralRule(w, d, nodes, preferred, m);
    hide ChooseMany, Fits, IsFirst, IsFirstOf;
    var j :| 0 <= j < |m| && m[j] == b;
    assert Fits(w, d, m[j]);
    if preferred == s {
      Earliest(w, d, nodes, preferred, m, s, b, ChooseMany(w, d, nodes, preferred, m), j);
    } else {
      EarliestOfAll(w, d, nodes, m, s, b, ChooseMany(w, d, nodes, preferred, m), j);
    }
  }

  lemma Earliest(w: Window, d: Blocks, nodes: seq<Node>, preferred: int, m: seq<nat>, s: nat, b: nat, e: int, j: nat)
    requires (forall k :: 0 <= k < |m| ==> m[k] < |nodes|) && (forall i, j :: 0 <= i < j < |m| ==> m[i] < m[j])
    requires j < |m| && m[j] == b && Fits(w, d, b) && nodes[b].file == s == preferred
    requires 0 <= e < |nodes| && nodes[e].file == s && IsFirstOf(w, d, nodes, preferred, m, e)
    requires forall i :: 0 <= i < |nodes| && nodes[i].file == s ==> b <= i
    ensures e == b
  {
    hide Fits;
  }

  lemma EarliestOfAll(w: Window, d: Blocks, nodes: seq<Node>, m: seq<nat>, s: nat, b: nat, e: int, j: nat)
    requires (forall k :: 0 <= k < |m| ==> m[k] < |nodes|) && (forall i, j :: 0 <= i < j < |m| ==> m[i] < m[j])
    requires j < |m| && m[j] == b && Fits(w, d, b) && IsFirst(w, d, m, e)
    requires forall k :: 0 <= k < |m| ==> nodes[m[k]].file == s
    requires forall i :: 0 <= i < |nodes| && nodes[i].file == s ==> b <= i
    ensures e == b
  {
    hide Fits;
  }

  /** Later on the block expected is found. */
  lemma NextAnswer<B>(c: Content<B>, d: Blocks, nodes: seq<Node>, disk: nat, f: Findings, offset: nat, n: nat,
                      w: Window,
                      entry: int, s: nat, count: nat, b: nat, k: nat)
    requires Probed(c, d, nodes, disk, f, offset, true, n, w, entry) && f.nextentry == b + k
    requires IsCopy(c, d, nodes, s, count, b, k) && offset == k * c.blocksize && n == c.Left(offset)
    requires !Found(f.matches, b + k)
    ensures entry == b + k
  {
    SuggestionRule(w, BlocksNow(d, f.matches, disk), nodes, f.nextentry);
  }

  /** The block of a copy at an offset is as long as what is left there, up to a whole block. */
  lemma CopyLength<B>(c: Content<B>, d: Blocks, nodes: seq<Node>, packets: Packets, original: int, s: nat, b: nat,
                      k: nat)
    requires Intact(c, d, nodes, packets, original, s, b) && Described(nodes, d.length, c.blocksize, packets)
    requires k < packets.blockCount(s)
    ensures b + k < |nodes| && IsCopy(c, d, nodes, s, packets.blockCount(s), b, k)
    ensures Prod(k, c.blocksize) == k * c.blocksize < |c.bytes| && d.length(b + k) == c.Left(k * c.blocksize)
  {
    assert IsCopy(c, d, nodes, s, packets.blockCount(s), b, k);
    assert |c.bytes| == packets.fileSize(s);
    hide Intact;
    DescribedAt(nodes, d.length, c.blocksize, packets, b + k);
    hide Described, BlockLength;
    ProdIs(k, c.blocksize);
    LengthIs(c.blocksize, packets.fileSize(s), packets.blockCount(s), k);
  }

  lemma DescribedAt(nodes: seq<Node>, length: nat -> nat, blocksize: nat, packets: Packets, e: nat)
    requires Described(nodes, length, blocksize, packets) && e < |nodes|
    ensures var f := nodes[e].file;
            && IsBlockCount(blocksize, packets.fileSize(f), packets.blockCount(f))
               && nodes[e].block < packets.blockCount(f)
            && length(e) == BlockLength(blocksize, packets.fileSize(f), packets.blockCount(f), nodes[e].block)
  {
    hide IsBlockCount, BlockLength;
  }

  /** Before the end of a copy there is a block left, and at the end there is none. */
  lemma CopyEnds<B>(c: Content<B>, d: Blocks, nodes: seq<Node>, packets: Packets, original: int, s: nat, b: nat, m: nat)
    requires Intact(c, d, nodes, packets, original, s, b) && Described(nodes, d.length, c.blocksize, packets)
    requires m <= packets.blockCount(s)
    ensures Prod(m, c.blocksize) < |c.bytes| <==> m < packets.blockCount(s)
  {
    assert IsCopy(c, d, nodes, s, packets.blockCount(s), b, 0);
    assert |c.bytes| == packets.fileSize(s);
    hide Intact;
    DescribedAt(nodes, d.length, c.blocksize, packets, b);
    hide Described, BlockLength;
    ProdMonotone(m, if m < packets.blockCount(s) then packets.blockCount(s) - 1 else m, c.blocksize);
  }

  lemma FollowingFinds<B>(c: Content<B>, d: Blocks, nodes: seq<Node>, packets: Packets, original: int, s: nat, b: nat,
                          disk: nat, f: Findings, offset: nat, n: nat, w: Window, entry: int)
    requires Intact(c, d, nodes, packets, original, s, b) && Described(nodes, d.length, c.blocksize, packets)
    requires Sequenced(nodes) && offset < |c.bytes| && Probed(c, d, nodes, disk, f, offset, true, n, w, entry)
    requires Following(c, f, original, s, b, packets.blockCount(s), offset)
    ensures |f.matches| < packets.blockCount(s) && entry == b + |f.matches| < |nodes|
    ensures AsExpected(nodes, f, entry, offset)
    ensures Following(c, Recorded(nodes, f, entry, offset), original, s, b, packets.blockCount(s),
                      JumpTo(|c.bytes|, c.blocksize, offset, d.length(entry)))
  {
    hide Intact, Described, Probed, Sequenced;
    var m, count := |f.matches|, packets.blockCount(s);
    CopyEnds(c, d, nodes, packets, original, s, b, m);
    CopyLength(c, d, nodes, packets, original, s, b, m);
    if m == 0 {
      StartsFile(nodes, b);
      assert Prod(0, c.blocksize) == 0;
      FirstAnswer(c, d, nodes, packets, original, s, b, disk, f, n, w, entry);
    } else {
      NotYetFound(c, f, original, s, b, count, offset);
      KnownLength(c, d, nodes, disk, f, offset, true, n, w, entry);
      NextAnswer(c, d, nodes, disk, f, offset, n, w, entry, s, count, b, m);
    }
    FollowingMore(c, d.length, nodes, f, original, s, b, count, offset);
  }

  lemma StartsFile(nodes: seq<Node>, b: nat)
    requires Sequenced(nodes) && b < |nodes| && nodes[b].block == 0
    ensures nodes[b].first
  {}

  lemma NotYetFound<B>(c: Content<B>, f: Findings, original: int, s: nat, b: nat, count: nat, offset: nat)
    requires Following(c, f, original, s, b, count, offset)
    ensures !Found(f.matches, b + |f.matches|)
  {}

  lemma KnownLength<B>(c: Content<B>, d: Blocks, nodes: seq<Node>, disk: nat, f: Findings, offset: nat, known: bool,
                       n: nat, w: Window, entry: int)
    requires Probed(c, d, nodes, disk, f, offset, known, n, w, entry)
    ensures f.nextentry != NIL ==> n == d.length(f.nextentry)
  {}

  lemma FollowingMore<B>(c: Content<B>, length: nat -> nat, nodes: seq<Node>, f: Findings, original: int, s: nat,
                         b: nat,
                         count: nat, offset: nat)
    requires Following(c, f, original, s, b, count, offset) && |f.matches| < count && b + |f.matches| < |nodes|
    requires offset == Prod(|f.matches|, c.blocksize) < |c.bytes| && length(b + |f.matches|) == c.Left(offset)
    requires nodes[b + |f.matches|].file == s && AsExpected(nodes, f, b + |f.matches|, offset)
    requires nodes[b + |f.matches|].next == if |f.matches| + 1 < count then b + |f.matches| + 1 else NIL
    ensures Following(c, Recorded(nodes, f, b + |f.matches|, offset), original, s, b, count,
                      JumpTo(|c.bytes|, c.blocksize, offset, length(b + |f.matches|)))
  {
    var m := |f.matches|;
    assert Prod(m + 1, c.blocksize) == Prod(m, c.blocksize) + c.blocksize;
  }

  /** Every copy that the file could be has been followed up to the offset. */
  ghost predicate CopiesFollow<B>(c: Content<B>, d: Blocks, nodes: seq<Node>, packets: Packets, original: int,
                                  f: Findings,
                                  offset: nat)
  {
    forall s: nat, b: nat {:trigger Intact(c, d, nodes, packets, original, s, b)} ::
      Intact(c, d, nodes, packets, original, s, b) ==> Following(c, f, original, s, b, packets.blockCount(s), offset)
  }

  /** What the search has achieved up to an offset. */
  ghost predicate Sought<B>(c: Content<B>, d: Blocks, nodes: seq<Node>, packets: Packets, original: int, skipdata: bool,
                            f: Findings, offset: nat)
  {
    && EndsHere(c, d.length, nodes, f, offset) && (skipdata || Covered(c, d, nodes, f.matches, offset))
    && CopiesFollow(c, d, nodes, packets, original, f, offset)
  }

  lemma SoughtStart<B>(c: Content<B>, d: Blocks, nodes: seq<Node>, packets: Packets, skipdata: bool, f: Findings)
    requires f.matchtype == FullMatch && f.matches == [] && f.nextentry == NIL
    ensures Sought(c, d, nodes, packets, f.sourcefile, skipdata, f, 0)
  {
    hide Intact;
  }

  lemma CopiesMatch<B>(c: Content<B>, d: Blocks, nodes: seq<Node>, packets: Packets, original: int, disk: nat,
                       f: Findings,
                       offset: nat, known: bool, n: nat, w: Window, entry: nat)
    requires CopiesFollow(c, d, nodes, packets, original, f, offset) && offset < |c.bytes| && entry < |nodes|
    requires Probed(c, d, nodes, disk, f, offset, known, n, w, entry)
    requires Sequenced(nodes) && Described(nodes, d.length, c.blocksize, packets)
    requires f.matchtype == FullMatch && (f.matches == [] || f.nextentry != NIL) ==> known
    ensures CopiesFollow(c, d, nodes, packets, original, Recorded(nodes, f, entry, offset),
                         JumpTo(|c.bytes|, c.blocksize, offset, d.length(entry)))
  {
    hide Intact, Probed, Sequenced, Described, JumpTo, Recorded;
    forall s: nat, b: nat | Intact(c, d, nodes, packets, original, s, b)
      ensures Following(c, Recorded(nodes, f, entry, offset), original, s, b, packets.blockCount(s),
                        JumpTo(|c.bytes|, c.blocksize, offset, d.length(entry)))
    {
      CopyEnds(c, d, nodes, packets, original, s, b, |f.matches|);
      FollowingFinds(c, d, nodes, packets, original, s, b, disk, f, offset, n, w, entry);
    }
  }

  lemma EndsAfter<B>(c: Content<B>, length: nat -> nat, nodes: seq<Node>, f: Findings, offset: nat, entry: nat)
    requires entry < |nodes|
    ensures EndsHere(c, length, nodes, Recorded(nodes, f, entry, offset),
                     JumpTo(|c.bytes|, c.blocksize, offset, length(entry)))
  {}

  lemma SoughtMatch<B>(c: Content<B>, d: Blocks, nodes: seq<Node>, packets: Packets, original: int, skipdata: bool,
                       disk: nat, f: Findings, offset: nat, known: bool, n: nat, w: Window, entry: nat)
    requires Sought(c, d, nodes, packets, original, skipdata, f, offset) && offset < |c.bytes| && entry < |nodes|
    requires Probed(c, d, nodes, disk, f, offset, known, n, w, entry)
    requires Sequenced(nodes) && LengthsOk(nodes, d.length, c.blocksize)
             && Described(nodes, d.length, c.blocksize, packets)
    requires f.matchtype == FullMatch && (f.matches == [] || f.nextentry != NIL) ==> known
    ensures Sought(c, d, nodes, packets, original, skipdata, Recorded(nodes, f, entry, offset),
                   JumpTo(|c.bytes|, c.blocksize, offset, d.length(entry)))
  {
    hide Intact, Probed, Sequenced, LengthsOk, Described, Covered, EndsHere, CopiesFollow, JumpTo;
    LengthOf(nodes, d.length, c.blocksize, entry);
    if !skipdata { CoveredMatch(c, d, nodes, f.matches, entry, offset); }
    EndsAfter(c, d.length, nodes, f, offset, entry);
    CopiesMatch(c, d, nodes, packets, original, disk, f, offset, known, n, w, entry);
  }

  /** If nothing is found, or not what was expected, the file is no copy. */
  lemma NotACopy<B>(c: Content<B>, d: Blocks, nodes: seq<Node>, packets: Packets, original: int, skipdata: bool,
                    disk: nat,
                    f: Findings, offset: nat, known: bool, n: nat, w: Window, entry: int, s: nat, b: nat)
    requires Sought(c, d, nodes, packets, original, skipdata, f, offset) && offset < |c.bytes|
    requires Probed(c, d, nodes, disk, f, offset, known, n, w, entry)
    requires Sequenced(nodes) && Described(nodes, d.length, c.blocksize, packets)
    requires f.matchtype == FullMatch && (f.matches == [] || f.nextentry != NIL) ==> known
    requires entry == NIL || (0 <= entry < |nodes| && !AsExpected(nodes, f, entry, offset))
    ensures !Intact(c, d, nodes, packets, original, s, b)
  {
    hide Intact, Probed, Sequenced, Described, Covered, EndsHere;
    if Intact(c, d, nodes, packets, original, s, b) {
      CopyEnds(c, d, nodes, packets, original, s, b, |f.matches|);
      FollowingFinds(c, d, nodes, packets, original, s, b, disk, f, offset, n, w, entry);
      assert false;
    }
  }

  lemma SoughtMiss<B>(c: Content<B>, d: Blocks, nodes: seq<Node>, packets: Packets, original: int, skipdata: bool,
                      disk: nat, f: Findings, offset: nat, known: bool, n: nat, w: Window, next: nat)
    requires Sought(c, d, nodes, packets, original, skipdata, f, offset) && offset < |c.bytes|
    requires Probed(c, d, nodes, disk, f, offset, known, n, w, NIL) && Made(c, d.length, nodes, f, offset)
    requires Sequenced(nodes) && LengthsOk(nodes, d.length, c.blocksize)
             && Described(nodes, d.length, c.blocksize, packets)
    requires f.matchtype == FullMatch && (f.matches == [] || f.nextentry != NIL) ==> known
    requires skipdata || next == offset + 1
    ensures Sought(c, d, nodes, packets, original, skipdata, Missed(f), next)
  {
    hide Intact, Probed, Sequenced, LengthsOk, Described, Covered, AllBacked, AllCut, OnTrack, Barren;
    if !skipdata {
      MissBarren(c, d, nodes, disk, f, offset, known, n, w);
      CoveredMiss(c, d, nodes, f.matches, offset);
    }
    forall s: nat, b: nat ensures !Intact(c, d, nodes, packets, original, s, b) {
      NotACopy(c, d, nodes, packets, original, skipdata, disk, f, offset, known, n, w, NIL, s, b);
    }
  }

  ghost predicate NoCopy<B>(c: Content<B>, d: Blocks, nodes: seq<Node>, packets: Packets, original: int) {
    forall s: nat, b: nat :: !Intact(c, d, nodes, packets, original, s, b)
  }

  lemma SoughtStop<B>(c: Content<B>, d: Blocks, nodes: seq<Node>, packets: Packets, original: int, skipdata: bool,
                      disk: nat, f: Findings, offset: nat, known: bool, n: nat, w: Window, entry: int)
    requires Sought(c, d, nodes, packets, original, skipdata, f, offset) && offset < |c.bytes|
    requires Probed(c, d, nodes, disk, f, offset, known, n, w, entry)
    requires Sequenced(nodes) && Described(nodes, d.length, c.blocksize, packets)
    requires f.matchtype == FullMatch && (f.matches == [] || f.nextentry != NIL) ==> known
    requires entry == NIL || (0 <= entry < |nodes| && !AsExpected(nodes, f, entry, offset))
    ensures NoCopy(c, d, nodes, packets, original)
  {
    hide Intact, Probed, Sequenced, Described, Sought;
    forall s: nat, b: nat ensures !Intact(c, d, nodes, packets, original, s, b) {
      NotACopy(c, d, nodes, packets, original, skipdata, disk, f, offset, known, n, w, entry, s, b);
    }
  }

  /** At the end of the file nothing usable has been passed over, and a copy has been matched as a whole. */
  lemma SoughtAll<B>(c: Content<B>, d: Blocks, nodes: seq<Node>, packets: Packets, original: int, skipdata: bool,
                     f: Findings)
    requires Sought(c, d, nodes, packets, original, skipdata, f, |c.bytes|)
             && Described(nodes, d.length, c.blocksize, packets)
    ensures !skipdata ==> Covered(c, d, nodes, f.matches, |c.bytes|)
    ensures forall s: nat, b: nat {:trigger Intact(c, d, nodes, packets, original, s, b)} ::
              Intact(c, d, nodes, packets, original, s, b) ==>
                && f.matchtype == FullMatch && f.sourcefile == s && f.matches != []
                   && |f.matches| == packets.blockCount(s)
                && |c.bytes| == packets.fileSize(s) && c.md5(c.bytes) == packets.hashFull(s)
                && c.md5(c.bytes[..Min(|c.bytes|, 16384)]) == packets.hash16k(s)
  {
    hide Covered, Described;
    forall s: nat, b: nat | Intact(c, d, nodes, packets, original, s, b)
      ensures f.matchtype == FullMatch && f.sourcefile == s && f.matches != [] && |f.matches| == packets.blockCount(s)
    {
      CopyEnds(c, d, nodes, packets, original, s, b, |f.matches|);
    }
  }

  /** What holds of the findings in every outcome. */
  ghost predicate Borne<B>(c: Content<B>, length: nat -> nat, nodes: seq<Node>, f: Findings) {
    Advancing(nodes, f.matches, |c.bytes|) && AllBacked(c, length, nodes, f.matches)
  }

  /** What a full match means: all blocks of one source file were found and no others, block i at i * blocksize, each
      with the crc and hash that its bytes have; and size and hashes of the whole file agree. */
  ghost predicate FullyMatched<B>(c: Content<B>, nodes: seq<Node>, f: Findings, packets: Packets) {
    && f.matches != [] && 0 <= f.sourcefile && |f.matches| == packets.blockCount(f.sourcefile)
    && InSequence(nodes, f.matches, c.blocksize) && nodes[f.matches[0].entry].file == f.sourcefile
    && (forall k :: 0 <= k < |f.matches| ==> f.matches[k].offset == k * c.blocksize) && Verified(c, nodes, f.matches)
    && |c.bytes| == packets.fileSize(f.sourcefile) && c.md5(c.bytes) == packets.hashFull(f.sourcefile)
    && c.md5(c.bytes[..Min(|c.bytes|, 16384)]) == packets.hash16k(f.sourcefile)
  }

  /** Scan a file. All matches are borne out by its bytes, and a full match is one. */
  method Scan<B(0,!new)>(summer: FileScan.FileCheckSummer<B, nat, nat>, readable: nat -> bool, nodes: seq<Node>,
                         table: seq<int>, d: Blocks,
                         disk: nat, original: int, skipdata: bool, skipleaway: nat, renameonly: bool, packets: Packets)
    returns (ok: bool, f: Findings)
    requires summer.Fixed() && summer.currentoffset == 0 && summer.context16k == [] && !summer.hasblockhash
    requires Indexed(nodes, table) && Sequenced(nodes) && Described(nodes, d.length, summer.blocksize, packets)
             && original >= NIL
    modifies summer, summer.buffer
    ensures (forall i :: readable(i)) ==> ok
    ensures Borne(ContentOf(summer), d.length, nodes, f)
    ensures ok && f.matchtype == FullMatch ==> FullyMatched(ContentOf(summer), nodes, f, packets)
    ensures ok && !skipdata && !renameonly ==> Covered(ContentOf(summer), d, nodes, f.matches, |summer.file|)
    ensures ok ==> forall s: nat, b: nat {:trigger Intact(ContentOf(summer), d, nodes, packets, original, s, b)} ::
              Intact(ContentOf(summer), d, nodes, packets, original, s, b) ==>
                  f.matchtype == FullMatch && f.sourcefile == s
  {
    hide Indexed, Described, Made, Verified, Sequenced, LengthsOk, InSequence, Borne, Covered, Intact, Sought;
    hide FileScan.FileCheckSummer.Valid, FileScan.FileCheckSummer.Fixed;
    ghost var c := ContentOf(summer);
    DescribedLengths(nodes, d.length, summer.blocksize, packets);
    f := Findings(FullMatch, [], NIL, original);
    NoneMade(c, d.length, nodes, f);
    WhatWasMade(c, d.length, nodes, f, 0);
    ok := summer.Start(readable(0));
    if !ok {
      return;
    }
    var stopped;
    ok, stopped, f := Search(summer, readable, nodes, table, d, disk, skipdata, skipleaway, renameonly, f, packets);
    if !ok || stopped {
      return;
    }
    WhatWasMade(c, d.length, nodes, f, summer.currentoffset);
    SoughtAll(c, d, nodes, packets, original, skipdata, f);
    var hashfull, hash16k := summer.GetFileHashes();
    if f.matches == [] {
      f := f.(matchtype := NoMatch);
    } else if || f.matchtype != FullMatch || |f.matches| != packets.blockCount(f.sourcefile)
              || |summer.file| != packets.fileSize(f.sourcefile)
              || hashfull != packets.hashFull(f.sourcefile) || hash16k != packets.hash16k(f.sourcefile) {
      f := f.(matchtype := PartialMatch);
    } else {
      SizesAgree(c, d.length, nodes, f.matches, packets);
      Offsets(nodes, f.matches, c.blocksize);
    }
    SameMatches(c, d.length, nodes, f);
  }

  lemma Offsets(nodes: seq<Node>, matches: seq<Location>, blocksize: nat)
    requires InSequence(nodes, matches, blocksize)
    ensures forall k :: 0 <= k < |matches| ==> matches[k].offset == k * blocksize
  {
    forall k | 0 <= k < |matches| ensures matches[k].offset == k * blocksize { ProdIs(k, blocksize); }
  }

  /** The loop of the scan. It stops before the end if only perfect matches are wanted and this is none. */
  method Search<B(0,!new)>(summer: FileScan.FileCheckSummer<B, nat, nat>, readable: nat -> bool, nodes: seq<Node>,
                           table: seq<int>, d: Blocks,
                           disk: nat, skipdata: bool, skipleaway: nat, renameonly: bool, start: Findings,
                           ghost packets: Packets)
    returns (ok: bool, stopped: bool, f: Findings)
    requires summer.Valid() && summer.currentoffset == 0 && BlockByBlock(summer)
    requires Indexed(nodes, table) && Sequenced(nodes) && LengthsOk(nodes, d.length, summer.blocksize)
    requires start.matchtype == FullMatch && start.matches == [] && start.nextentry == NIL && start.sourcefile >= NIL
    requires Made(ContentOf(summer), d.length, nodes, start, 0) && Described(nodes, d.length, summer.blocksize, packets)
    modifies summer, summer.buffer
    ensures (forall i :: readable(i)) ==> ok
    ensures Borne(ContentOf(summer), d.length, nodes, f) && (stopped ==> f.matchtype == PartialMatch)
    ensures ok && !stopped ==> summer.Valid() && summer.currentoffset == |summer.file| && f.sourcefile >= NIL
    ensures ok && !stopped ==> Made(ContentOf(summer), d.length, nodes, f, |summer.file|)
    ensures ok && !stopped ==>
              Sought(ContentOf(summer), d, nodes, packets, start.sourcefile, skipdata, f, |summer.file|)
    ensures stopped ==> renameonly && NoCopy(ContentOf(summer), d, nodes, packets, start.sourcefile)
  {
    hide Indexed, Probed, Made, Borne, Sequenced, LengthsOk, Described, Sought, NoCopy;
    hide FileScan.FileCheckSummer.Valid;
    ghost var c := ContentOf(summer);
    var calls, scandistance := 1, Min(2 * skipleaway, summer.blocksize);
    var scanskip, scanoffset := if skipdata then summer.blocksize - scandistance else 0, scandistance / 2;
    ok, stopped, f := true, false, start;
    SoughtStart(c, d, nodes, packets, skipdata, f);
    while summer.currentoffset < |summer.file|
      invariant summer.Valid() && summer.currentoffset <= |summer.file| && ok && !stopped
      invariant f.sourcefile >= NIL && (f.nextentry == NIL || 0 <= f.nextentry < |nodes|)
      invariant Made(c, d.length, nodes, f, summer.currentoffset)
      invariant Sought(c, d, nodes, packets, start.sourcefile, skipdata, f, summer.currentoffset)
      invariant f.matchtype == FullMatch && (f.matches == [] || f.nextentry != NIL) ==> BlockByBlock(summer)
      decreases |summer.file| - summer.currentoffset
    {
      var offset := summer.currentoffset;
      var entry, n, w := Probe(summer, nodes, table, d, disk, f);
      ghost var known := summer.Defined();
      WhatWasMade(c, d.length, nodes, f, offset);
      if entry == NIL || !AsExpected(nodes, f, entry, offset) {
        stopped := renameonly;
        if stopped {
          SoughtStop(c, d, nodes, packets, start.sourcefile, skipdata, disk, f, offset, known, n, w, entry);
          f := if entry == NIL then f.(matchtype := PartialMatch) else Judged(nodes, f, entry, offset);
          SameMatches(c, d.length, nodes, f);
          return;
        }
      }
      if entry != NIL {
        LengthOf(nodes, d.length, summer.blocksize, entry);
        OneMoreMade(c, d, nodes, disk, f, offset, known, n, w, entry);
        SoughtMatch(c, d, nodes, packets, start.sourcefile, skipdata, disk, f, offset, known, n, w, entry);
        f := Recorded(nodes, f, entry, offset);
        ok := summer.Jump(d.length(entry), readable(calls));
        calls, scanoffset := calls + 1, scandistance / 2;
        WhatWasMade(c, d.length, nodes, f, JumpTo(|c.bytes|, c.blocksize, offset, d.length(entry)));
      } else {
        ok, calls, scanoffset := Skip(summer, readable, calls, scanskip, scandistance, scanoffset);
        StillMade(c, d.length, nodes, f, offset, if ok then summer.currentoffset else offset);
        if ok {
          SoughtMiss(c, d, nodes, packets, start.sourcefile, skipdata, disk, f, offset, known, n, w,
                     summer.currentoffset);
        }
        f := Missed(f);
        WhatWasMade(c, d.length, nodes, f, if ok then summer.currentoffset else offset);
      }
      if !ok {
        return;
      }
    }
    WhatWasMade(c, d.length, nodes, f, summer.currentoffset);
  }

  /** Look at the window and search for it. */
  method Probe<B(0,!new)>(summer: FileScan.FileCheckSummer<B, nat, nat>, nodes: seq<Node>, table: seq<int>, d: Blocks,
                          disk: nat, f: Findings)
    returns (entry: int, n: nat, w: Window)
    requires summer.Valid() && summer.currentoffset < |summer.file|
    requires Indexed(nodes, table) && LengthsOk(nodes, d.length, summer.blocksize)
    requires f.sourcefile >= NIL && (f.nextentry == NIL || 0 <= f.nextentry < |nodes|)
    ensures entry == NIL || 0 <= entry < |nodes|
    ensures Probed(ContentOf(summer), d, nodes, disk, f, summer.currentoffset, summer.Defined(), n, w, entry)
  {
    hide Answer;
    hide Indexed, Shows, FileScan.FileCheckSummer.Valid;
    n := if f.nextentry == NIL then 0 else d.length(f.nextentry);
    w := View(summer, n, disk);
    var duplicate;
    entry, duplicate := Look(nodes, table, BlocksNow(d, f.matches, disk), w, f.nextentry, f.sourcefile);
  }

  /** Move on by one byte, and further if a whole stretch has been searched in vain. */
  method Skip<B(0,!new)>(summer: FileScan.FileCheckSummer<B, nat, nat>, readable: nat -> bool, calls: nat,
                         scanskip: nat, scandistance: nat,
                         scanoffset: nat)
    returns (ok: bool, next: nat, scanned: nat)
    requires summer.Valid() && summer.currentoffset < |summer.file|
    modifies summer, summer.buffer
    ensures (forall i :: readable(i)) ==> ok
    ensures ok ==> summer.Valid() && old(summer.currentoffset) < summer.currentoffset <= |summer.file|
    ensures ok && scanskip == 0 ==> summer.currentoffset == old(summer.currentoffset) + 1
  {
    hide FileScan.FileCheckSummer.Valid;
    next, scanned := calls + 1, scanoffset;
    ok := summer.Step(readable(calls));
    if ok && scanskip > 0 {
      scanned := scanned + 1;
      if scanned >= scandistance && summer.currentoffset < |summer.file| {
        ok := summer.Jump(scanskip, readable(next));
        next, scanned := next + 1, 0;
      }
    }
  }

  /** The matches made up to an offset, and what is known of them while a full match is still possible. */
  ghost predicate Made<B>(c: Content<B>, length: nat -> nat, nodes: seq<Node>, f: Findings, offset: nat) {
    && offset <= |c.bytes| && Advancing(nodes, f.matches, offset) && AllBacked(c, length, nodes, f.matches)
    && (f.nextentry == NIL || f.nextentry == Expected(nodes, f.matches))
    && (f.matchtype == FullMatch ==>
          && OnTrack(nodes, f.matches, c.blocksize, |c.bytes|, offset, f.nextentry, f.sourcefile)
          && AllCut(c, length, nodes, f.matches))
  }

  lemma NoneMade<B>(c: Content<B>, length: nat -> nat, nodes: seq<Node>, f: Findings)
    requires f.matchtype == FullMatch && f.matches == [] && f.nextentry == NIL
    ensures Made(c, length, nodes, f, 0)
  {}

  lemma WhatWasMade<B>(c: Content<B>, length: nat -> nat, nodes: seq<Node>, f: Findings, offset: nat)
    requires Made(c, length, nodes, f, offset)
    ensures Borne(c, length, nodes, f)
    ensures f.matchtype == FullMatch ==>
            InSequence(nodes, f.matches, c.blocksize) && AllCut(c, length, nodes, f.matches)
    ensures f.matchtype == FullMatch && f.matches != [] ==>
              f.matches[0].entry < |nodes| && nodes[f.matches[0].entry].file == f.sourcefile
  {
    hide AllBacked, AllCut;
  }

  /** The verdict does not matter for what all matches have in common. */
  lemma SameMatches<B>(c: Content<B>, length: nat -> nat, nodes: seq<Node>, f: Findings)
    ensures forall g: Findings {:trigger Borne(c, length, nodes, g)} :: g.matches == f.matches ==>
            (Borne(c, length, nodes, f) <==> Borne(c, length, nodes, g))
  {}

  /** A position without a match ends the hope for a full one. */
  lemma StillMade<B>(c: Content<B>, length: nat -> nat, nodes: seq<Node>, f: Findings, offset: nat, next: nat)
    requires Made(c, length, nodes, f, offset) && offset <= next <= |c.bytes|
    ensures Made(c, length, nodes, Missed(f), next)
  {
    hide AllBacked, AllCut;
    AdvancingOn(nodes, f.matches, offset, next);
  }

  lemma OneMoreMade<B>(c: Content<B>, d: Blocks, nodes: seq<Node>, disk: nat, f: Findings, offset: nat, known: bool,
                       n: nat, w: Window, entry: nat)
    requires Made(c, d.length, nodes, f, offset) && entry < |nodes|
    requires Probed(c, d, nodes, disk, f, offset, known, n, w, entry)
    requires Sequenced(nodes) && LengthsOk(nodes, d.length, c.blocksize) && offset < |c.bytes|
    requires f.matchtype == FullMatch && (f.matches == [] || f.nextentry != NIL) ==> known
    ensures Made(c, d.length, nodes, Recorded(nodes, f, entry, offset),
                 JumpTo(|c.bytes|, c.blocksize, offset, d.length(entry)))
    ensures nodes[entry].next == NIL || 0 <= nodes[entry].next < |nodes|
  {
    hide Answer, Placed;
    hide Backed, Shows, BorneOut, AllBacked, AllCut, InSequence, Advancing, OnTrack;
    assert 0 <= f.nextentry < |nodes| ==> d.length(f.nextentry) <= c.blocksize;
    assert 0 < d.length(entry);
    NextEntry(nodes, entry);
    hide Sequenced;
    MatchMade(c, d.length, nodes, f.matches, f.nextentry, entry, offset, known, n, w);
    AdvancingMore(nodes, f.matches, entry, offset);
    AdvancingOn(nodes, f.matches + [Location(entry, offset)], offset + 1,
                JumpTo(|c.bytes|, c.blocksize, offset, d.length(entry)));
    if f.matchtype == FullMatch && AsExpected(nodes, f, entry, offset) {
      TrackStart(nodes, f.matches, c.blocksize, |c.bytes|, offset, f.nextentry, f.sourcefile);
      StaysOnTrack(nodes, d.length, f.matches, c.blocksize, |c.bytes|, offset, f.nextentry, f.sourcefile, entry);
      MatchInSequence(c, d.length, nodes, f.matches, f.nextentry, entry, offset, known, n, w);
    }
  }

  lemma TrackStart(nodes: seq<Node>, matches: seq<Location>, blocksize: nat, size: nat, offset: nat, nextentry: int,
                   sourcefile: int)
    requires OnTrack(nodes, matches, blocksize, size, offset, nextentry, sourcefile)
    ensures matches == [] ==> nextentry == NIL
  {}

  lemma AdvancingMore(nodes: seq<Node>, matches: seq<Location>, entry: nat, offset: nat)
    requires Advancing(nodes, matches, offset) && entry < |nodes|
    ensures Advancing(nodes, matches + [Location(entry, offset)], offset + 1)
  {}

  lemma AdvancingOn(nodes: seq<Node>, matches: seq<Location>, offset: nat, next: nat)
    requires Advancing(nodes, matches, offset) && offset <= next
    ensures Advancing(nodes, matches, next)
  {}

  lemma LengthOf(nodes: seq<Node>, length: nat -> nat, blocksize: nat, entry: int)
    requires LengthsOk(nodes, length, blocksize)
    ensures 0 <= entry < |nodes| ==>
            0 < length(entry) <= blocksize && (nodes[entry].next != NIL ==> length(entry) == blocksize)
  {}

  lemma NextEntry(nodes: seq<Node>, entry: nat)
    requires Sequenced(nodes) && entry < |nodes|
    ensures nodes[entry].next == NIL || 0 <= nodes[entry].next < |nodes|
  {}

  lemma MatchMade<B>(c: Content<B>, length: nat -> nat, nodes: seq<Node>, matches: seq<Location>, expected: int,
                     entry: nat, offset: nat,
                     known: bool, n: nat, w: Window)
    requires BorneOut(w, length, nodes, expected, entry) && Shows(c, offset, known, n, w)
             && AllBacked(c, length, nodes, matches)
    requires 0 <= expected < |nodes| ==> n == length(expected) <= c.blocksize
    requires expected == NIL || expected == Expected(nodes, matches)
    ensures entry < |nodes| && AllBacked(c, length, nodes, matches + [Location(entry, offset)])
  {
    hide Backed, Shows, BorneOut, AllBacked;
    WindowBacks(c, length, nodes, expected, entry, offset, known, n, w);
    EntryOf(w, length, nodes, expected, entry);
    OneMoreBacked(c, length, nodes, matches, expected, entry, offset);
  }

  lemma MatchInSequence<B>(c: Content<B>, length: nat -> nat, nodes: seq<Node>, matches: seq<Location>, expected: int,
                           entry: nat, offset: nat,
                           known: bool, n: nat, w: Window)
    requires BorneOut(w, length, nodes, expected, entry) && Shows(c, offset, known, n, w) && known
             && AllCut(c, length, nodes, matches)
    requires expected == NIL || (entry == expected && n == length(expected))
    ensures AllCut(c, length, nodes, matches + [Location(entry, offset)])
  {
    hide CutMatch, Shows, BorneOut;
    WindowCuts(c, length, nodes, expected, entry, offset, n, w);
  }

  lemma EntryOf(w: Window, length: nat -> nat, nodes: seq<Node>, expected: int, entry: nat)
    requires BorneOut(w, length, nodes, expected, entry)
    ensures entry < |nodes|
  {}
}
