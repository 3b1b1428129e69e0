/** Finding the packets of a recovery file: src/par2repairer.cpp:467-625. The buffered search agrees with a scan that
  looks at one position after the other. */
module PacketScanner {
  import opened Arithmetic
  import opened PacketLayout
  import opened Sequences

  type u8 = b: nat | b < 256

  type Bytes = seq<u8>

  const MAGIC: Bytes := [80, 65, 82, 50, 0, 80, 75, 84]
  const HEADER_SIZE: nat := 64
  const SETID_OFFSET: nat := 32
  const WORD64: nat := 0x1_0000_0000_0000_0000

  datatype Header = Header(magic: Bytes, length: nat, hash: Bytes, setid: Bytes, kind: Bytes)

  datatype Found = Found(offset: nat, header: Header)

  function LittleEndian(bytes: Bytes): nat {
    if bytes == [] then 0 else bytes[0] + 256 * LittleEndian(bytes[1..])
  }

  /** Byte i of a length field weighs 256^i. */
  lemma Weights(bytes: Bytes)
    requires |bytes| == 8
    ensures var b: seq<nat> := bytes;
            LittleEndian(bytes) == b[0] + 0x100 * b[1] + 0x1_0000 * b[2] + 0x100_0000 * b[3] + 0x1_0000_0000 * b[4]
                                   + 0x100_0000_0000 * b[5] + 0x1_0000_0000_0000 * b[6] + 0x100_0000_0000_0000 * b[7]
  {
    WeightsFour(bytes);
    WeightsFour(bytes[4..]);
    assert LittleEndian(bytes[4..][4..]) == 0;
  }

  lemma WeightsFour(bytes: Bytes)
    requires |bytes| >= 4
    ensures var b: seq<nat> := bytes;
            LittleEndian(bytes) == b[0] + 0x100 * b[1] + 0x1_0000 * b[2] + 0x100_0000 * b[3]
                                   + 0x1_0000_0000 * LittleEndian(bytes[4..])
  {
    assert bytes[1..][1..] == bytes[2..] && bytes[2..][1..] == bytes[3..] && bytes[3..][1..] == bytes[4..];
    assert LittleEndian(bytes[1..]) == bytes[1] + 256 * LittleEndian(bytes[2..]);
    assert LittleEndian(bytes[2..]) == bytes[2] + 256 * LittleEndian(bytes[3..]);
    assert LittleEndian(bytes[3..]) == bytes[3] + 256 * LittleEndian(bytes[4..]);
  }

  function Parse(bytes: Bytes): Header
    requires |bytes| == HEADER_SIZE
  {
    Header(bytes[..8], LittleEndian(bytes[8..16]), bytes[16..32], bytes[32..48], bytes[48..64])
  }

  /** The fields lie one behind the other: eight bytes of magic, eight of length, and sixteen each of hash, set id and
      type. */
  lemma HeaderFields(bytes: Bytes) returns (length: Bytes)
    requires |bytes| == 64
    ensures var h := Parse(bytes);
            && bytes == h.magic + length + h.hash + h.setid + h.kind && h.length == LittleEndian(length)
            && |h.magic| == |length| == 8 && |h.hash| == |h.setid| == |h.kind| == 16
  {
    length := bytes[8..16];
  }

  /** Is there room for a header? */
  predicate Fits(file: Bytes, offset: nat) { offset + HEADER_SIZE <= |file| }

  function HeaderAt(file: Bytes, offset: nat): Header
    requires Fits(file, offset)
  {
    Parse(file[offset..offset + HEADER_SIZE])
  }

  /** The magic value starts at an offset. */
  ghost predicate MagicAt(file: Bytes, offset: nat) { Fits(file, offset) && HeaderAt(file, offset).magic == MAGIC }

  /** A packet lies at an offset: magic value, a length that is possible and whole words, and the digest of
      everything from the set id on is the one in the header. */
  ghost predicate PacketAt(md5: Bytes -> Bytes, file: Bytes, offset: nat) {
    && MagicAt(file, offset)
    && var h := HeaderAt(file, offset);
       && HEADER_SIZE <= h.length && h.length % 4 == 0 && offset + h.length <= |file|
       && md5(file[offset + SETID_OFFSET..offset + h.length]) == h.hash
  }

  /** The plain scan: skip a packet where there is one, otherwise move one byte. */
  ghost function Packets(md5: Bytes -> Bytes, file: Bytes, offset: nat): seq<Found>
    decreases |file| - offset
  {
    if !Fits(file, offset) then []
    else if PacketAt(md5, file, offset) then
      var h := HeaderAt(file, offset);
      [Found(offset, h)] + Packets(md5, file, offset + h.length)
    else Packets(md5, file, offset + 1)
  }

  // ---------------------------------------------------------------------- what the plain scan finds

  ghost predicate Covers(f: Found, q: nat) { f.offset <= q < f.offset + f.header.length }

  /** Packets at or after an offset, in order and without overlap. */
  ghost predicate Apart(md5: Bytes -> Bytes, file: Bytes, offset: nat, fs: seq<Found>) {
    && (forall i :: 0 <= i < |fs| ==>
        offset <= fs[i].offset && PacketAt(md5, file, fs[i].offset) && fs[i].header == HeaderAt(file, fs[i].offset))
    && (forall i, j :: 0 <= i < j < |fs| ==> fs[i].offset + fs[i].header.length <= fs[j].offset)
  }

  lemma {:induction false} PacketsApart(md5: Bytes -> Bytes, file: Bytes, offset: nat)
    ensures Apart(md5, file, offset, Packets(md5, file, offset))
    decreases |file| - offset
  {
    hide PacketAt, HeaderAt, Parse;
    if Fits(file, offset) {
      if PacketAt(md5, file, offset) {
        PacketSize(md5, file, offset);
        var h := HeaderAt(file, offset);
        PacketsApart(md5, file, offset + h.length);
        ApartFirst(md5, file, offset, Packets(md5, file, offset + h.length));
      } else {
        PacketsApart(md5, file, offset + 1);
      }
    }
  }

  lemma ApartFirst(md5: Bytes -> Bytes, file: Bytes, offset: nat, rest: seq<Found>)
    requires PacketAt(md5, file, offset) && Apart(md5, file, offset + HeaderAt(file, offset).length, rest)
    ensures Apart(md5, file, offset, [Found(offset, HeaderAt(file, offset))] + rest)
  {
    hide HeaderAt, Parse;
    var fs := [Found(offset, HeaderAt(file, offset))] + rest;
    assert forall i :: 0 < i < |fs| ==> fs[i] == rest[i - 1];
  }

  lemma PacketSize(md5: Bytes -> Bytes, file: Bytes, offset: nat)
    requires PacketAt(md5, file, offset)
    ensures Fits(file, offset) && HEADER_SIZE <= HeaderAt(file, offset).length <= |file| - offset
  {}

  /** A packet is missed only if it starts inside one that was found. */
  lemma {:induction false} PacketsComplete(md5: Bytes -> Bytes, file: Bytes, offset: nat, q: nat)
    requires offset <= q && PacketAt(md5, file, q)
    ensures exists i :: 0 <= i < |Packets(md5, file, offset)| && Covers(Packets(md5, file, offset)[i], q)
    decreases |file| - offset
  {
    hide PacketAt, HeaderAt, Parse;
    PacketSize(md5, file, q);
    var fs := Packets(md5, file, offset);
    if PacketAt(md5, file, offset) {
      PacketSize(md5, file, offset);
      var next := offset + HeaderAt(file, offset).length;
      if q < next {
        assert Covers(fs[0], q);
      } else {
        PacketsComplete(md5, file, next, q);
        var i :| 0 <= i < |Packets(md5, file, next)| && Covers(Packets(md5, file, next)[i], q);
        assert fs[i + 1] == Packets(md5, file, next)[i];
      }
    } else {
      PacketsComplete(md5, file, offset + 1, q);
    }
  }

  /** A file that was laid out as packets, each written as a packet of its length. */
  ghost predicate Written(md5: Bytes -> Bytes, file: Bytes, placed: seq<Placed>) {
    forall i :: 0 <= i < |placed| ==>
        PacketAt(md5, file, placed[i].offset) && HeaderAt(file, placed[i].offset).length == placed[i].length
  }

  /** What the creator lays out is what the scan finds, packet for packet. */
  lemma {:induction false} LaidOutIsFound(md5: Bytes -> Bytes, file: Bytes, placed: seq<Placed>, k: nat)
    requires Tiles(placed, |file|) && Written(md5, file, placed) && k <= |placed|
    ensures var fs := Packets(md5, file, if k < |placed| then placed[k].offset else |file|);
            |fs| == |placed| - k
                && forall i :: 0 <= i < |fs| ==>
                   fs[i].offset == placed[k + i].offset && fs[i].header.length == placed[k + i].length
    decreases |placed| - k
  {
    hide PacketAt, HeaderAt, Parse;
    if k < |placed| {
      var here, next := placed[k], k + 1;
      PacketSize(md5, file, here.offset);
      if next < |placed| { assert placed[next].offset == here.offset + here.length; }
      LaidOutIsFound(md5, file, placed, next);
    }
  }

  // ---------------------------------------------------------------------- which packets are used

  datatype Kind = RecoverySlice | FileVerification | FileDescription | MainPacket | CreatorPacket | Unknown

  function KindOf(kind: Bytes): Kind {
    if kind == [80, 65, 82, 32, 50, 46, 48, 0, 82, 101, 99, 118, 83, 108, 105, 99] then RecoverySlice
    else if kind == [80, 65, 82, 32, 50, 46, 48, 0, 73, 70, 83, 67, 0, 0, 0, 0] then FileVerification
    else if kind == [80, 65, 82, 32, 50, 46, 48, 0, 70, 105, 108, 101, 68, 101, 115, 99] then FileDescription
    else if kind == [80, 65, 82, 32, 50, 46, 48, 0, 77, 97, 105, 110, 0, 0, 0, 0] then MainPacket
    else if kind == [80, 65, 82, 32, 50, 46, 48, 0, 67, 114, 101, 97, 116, 111, 114, 0] then CreatorPacket
    else Unknown
  }

  /** The bytes of a text. */
  function Ascii(text: string): (r: Bytes)
    requires forall i :: 0 <= i < |text| ==> text[i] as int < 256
  {
    seq(|text|, i requires 0 <= i < |text| => text[i] as int)
  }

  /** The magic value and the five type names. */
  lemma MagicText()
    ensures MAGIC == Ascii("PAR2\0PKT")
  {}

  lemma RecoverySliceName(kind: Bytes)
    ensures KindOf(kind) == RecoverySlice <==> kind == Ascii("PAR 2.0\0RecvSlic")
  {
    var name := Ascii("PAR 2.0\0RecvSlic");
    assert name == [80, 65, 82, 32, 50, 46, 48, 0, 82, 101, 99, 118, 83, 108, 105, 99];
    hide Ascii;
    assert name[8] == 82;
  }

  lemma FileVerificationName(kind: Bytes)
    ensures KindOf(kind) == FileVerification <==> kind == Ascii("PAR 2.0\0IFSC\0\0\0\0")
  {
    var name := Ascii("PAR 2.0\0IFSC\0\0\0\0");
    assert name == [80, 65, 82, 32, 50, 46, 48, 0, 73, 70, 83, 67, 0, 0, 0, 0];
    hide Ascii;
    assert name[8] == 73;
  }

  lemma FileDescriptionName(kind: Bytes)
    ensures KindOf(kind) == FileDescription <==> kind == Ascii("PAR 2.0\0FileDesc")
  {
    var name := Ascii("PAR 2.0\0FileDesc");
    assert name == [80, 65, 82, 32, 50, 46, 48, 0, 70, 105, 108, 101, 68, 101, 115, 99];
    hide Ascii;
    assert name[8] == 70;
  }

  lemma MainPacketName(kind: Bytes)
    ensures KindOf(kind) == MainPacket <==> kind == Ascii("PAR 2.0\0Main\0\0\0\0")
  {
    var name := Ascii("PAR 2.0\0Main\0\0\0\0");
    assert name == [80, 65, 82, 32, 50, 46, 48, 0, 77, 97, 105, 110, 0, 0, 0, 0];
    hide Ascii;
    assert name[8] == 77;
  }

  lemma CreatorPacketName(kind: Bytes)
    ensures KindOf(kind) == CreatorPacket <==> kind == Ascii("PAR 2.0\0Creator\0")
  {
    var name := Ascii("PAR 2.0\0Creator\0");
    assert name == [80, 65, 82, 32, 50, 46, 48, 0, 67, 114, 101, 97, 116, 111, 114, 0];
    hide Ascii;
    assert name[8] == 67;
  }

  /** The packets of a set that are of a known kind. */
  function OfSet(found: seq<Found>, setid: Bytes): seq<Found> {
    if found == [] then []
    else
      var last := found[|found| - 1];
      OfSet(found[..|found| - 1], setid) + if last.header.setid == setid
          && KindOf(last.header.kind) != Unknown then [last] else []
  }

  lemma OfSetAppend(found: seq<Found>, f: Found, setid: Bytes)
    ensures OfSet(found + [f], setid) == OfSet(found, setid) + if f.header.setid == setid
            && KindOf(f.header.kind) != Unknown then [f] else []
  {
    hide KindOf;
    assert (found + [f])[..|found|] == found;
  }

  lemma OfSetOne(f: Found, setid: Bytes)
    ensures OfSet([f], setid) == if f.header.setid == setid && KindOf(f.header.kind) != Unknown then [f] else []
  {
    hide KindOf;
    OfSetAppend([], f, setid);
    assert [] + [f] == [f];
  }

  lemma OfSetJoin(found: seq<Found>, f: Found, setid: Bytes)
    ensures OfSet(found + [f], setid) == OfSet(found, setid) + OfSet([f], setid)
  {
    hide KindOf;
    OfSetAppend(found, f, setid);
    OfSetOne(f, setid);
  }

  lemma NoneOfSet()
    ensures forall setid :: OfSet([], setid) == []
  {}

  // ---------------------------------------------------------------------- the buffered scan

  /** 64-bit addition. */
  function Add64(a: nat, b: nat): nat { (a + b) % WORD64 }

  /** A length field so large that the end of the packet wraps around to a position in the file. Only the rest of the
      header is hashed then, because the end lies before the start. */
  ghost predicate WrapsAt(md5: Bytes -> Bytes, file: Bytes, offset: nat) {
    && MagicAt(file, offset)
    && var h := HeaderAt(file, offset);
       && h.length % 4 == 0 && WORD64 <= offset + h.length && Add64(offset, h.length) <= |file|
       && md5(file[offset + SETID_OFFSET..offset + HEADER_SIZE]) == h.hash
  }

  /** What the program takes at a magic value, and where it goes on. */
  ghost function Taken(md5: Bytes -> Bytes, file: Bytes, offset: nat): (seq<Found>, nat)
    requires Fits(file, offset)
  {
    var h := HeaderAt(file, offset);
    if WrapsAt(md5, file, offset) || PacketAt(md5, file, offset) then ([Found(offset, h)], Add64(offset, h.length))
    else ([], offset + 1)
  }

  /** The first magic value from an offset on, or the place where no header fits any more. */
  ghost function NextMagic(file: Bytes, offset: nat): (at: nat)
    ensures offset <= at && (Fits(file, at) ==> MagicAt(file, at))
    decreases |file| - offset
  {
    if !Fits(file, offset) || MagicAt(file, offset) then offset else NextMagic(file, offset + 1)
  }

  lemma {:induction false} NextMagicIs(file: Bytes, offset: nat, at: nat)
    requires offset <= at && (Fits(file, at) ==> MagicAt(file, at))
    requires forall k :: offset <= k < at ==> Fits(file, k) && !MagicAt(file, k)
    ensures NextMagic(file, offset) == at
    decreases at - offset
  {
    hide MagicAt;
    if offset < at {
      assert !MagicAt(file, offset);
      NextMagicIs(file, offset + 1, at);
    }
  }

  /** One round of the program. */
  ghost function OneRound(md5: Bytes -> Bytes, file: Bytes, offset: nat): (seq<Found>, nat)
    requires Fits(file, offset)
  {
    var at := NextMagic(file, offset);
    if Fits(file, at) then Taken(md5, file, at) else ([], at)
  }

  method Read(file: Bytes, offset: nat, buffer: array<u8>, want: nat)
    requires want <= buffer.Length && offset + want <= |file|
    modifies buffer
    ensures buffer[..want] == file[offset..offset + want]
  {
    forall i | 0 <= i < want { buffer[i] := file[offset + i]; }
  }

  lemma NoneBeyond(md5: Bytes -> Bytes, file: Bytes, offset: nat)
    requires !Fits(file, offset)
    ensures Packets(md5, file, offset) == []
  {}

  /** Search for the magic value a buffer at a time. Buffers overlap by one byte less than a header, so nothing is
      missed. */
  method FindMagic(file: Bytes, start: nat, buffer: array<u8>) returns (offset: nat, header: Header)
    requires buffer.Length >= HEADER_SIZE
    modifies buffer
    ensures start <= offset && forall k :: start <= k < offset ==> Fits(file, k) && !MagicAt(file, k)
    ensures Fits(file, offset) ==> MagicAt(file, offset) && header == HeaderAt(file, offset)
  {
    hide Parse;
    offset := start;
    header := Header([], 0, [], [], []);
    while Fits(file, offset)
      invariant start <= offset && forall k :: start <= k < offset ==> Fits(file, k) && !MagicAt(file, k)
      decreases |file| - offset
    {
      var want := Min(buffer.Length, |file| - offset);
      Read(file, offset, buffer, want);
      var current, limit := 0, want - HEADER_SIZE;
      InBuffer(file, offset, buffer[..want]);
      while current <= limit && Parse(buffer[current..current + HEADER_SIZE]).magic != MAGIC
        invariant 0 <= current <= limit + 1
        invariant forall k :: offset <= k < offset + current ==> Fits(file, k) && !MagicAt(file, k)
      {
        assert Window(buffer[..want], current) == buffer[current..current + HEADER_SIZE];
        current := current + 1;
      }
      offset := offset + current;
      if current <= limit {
        assert Window(buffer[..want], current) == buffer[current..current + HEADER_SIZE];
        header := Parse(buffer[current..current + HEADER_SIZE]);
        break;
      }
    }
  }

  function Window(bytes: Bytes, current: nat): Bytes
    requires current + HEADER_SIZE <= |bytes|
  {
    bytes[current..current + HEADER_SIZE]
  }

  lemma InBuffer(file: Bytes, offset: nat, bytes: Bytes)
    requires offset + |bytes| <= |file| && bytes == file[offset..offset + |bytes|]
    ensures forall c: nat {:trigger Window(bytes, c)} :: c + HEADER_SIZE <= |bytes| ==>
            HeaderAt(file, offset + c) == Parse(Window(bytes, c))
  {
    hide Parse;
    forall c: nat | c + HEADER_SIZE <= |bytes| ensures HeaderAt(file, offset + c) == Parse(Window(bytes, c)) {
      SliceOfSlice(file, offset, offset + |bytes|, c, c + HEADER_SIZE);
    }
  }

  /** Digest everything from the set id up to a limit, a buffer at a time; with a limit inside the header, the
      header. */
  method HashPacket(md5: Bytes -> Bytes, file: Bytes, offset: nat, header: Header, limit: nat, buffer: array<u8>)
    returns (hash: Bytes)
    requires Fits(file, offset) && header == HeaderAt(file, offset) && limit <= |file| && buffer.Length >= HEADER_SIZE
    modifies buffer
    ensures hash == md5(file[offset + SETID_OFFSET..if limit > offset + HEADER_SIZE then limit
                             else offset + HEADER_SIZE])
  {
    var context := header.setid + header.kind;
    var current := offset + HEADER_SIZE;
    while current < limit
      invariant offset + HEADER_SIZE <= current <= |file| && (current <= limit || current == offset + HEADER_SIZE)
      invariant context == file[offset + SETID_OFFSET..current]
    {
      var want := Min(buffer.Length, limit - current);
      Read(file, current, buffer, want);
      context := context + buffer[..want];
      current := current + want;
    }
    hash := md5(context);
  }

  lemma {:induction false} LittleEndianBound(bytes: Bytes)
    ensures LittleEndian(bytes) < Pow2(8 * |bytes|)
  {
    if bytes != [] {
      LittleEndianBound(bytes[1..]);
      Pow2Add(8, 8 * |bytes| - 8);
      assert Pow2(8) == 256;
    }
  }

  lemma LengthBound(file: Bytes, offset: nat)
    requires Fits(file, offset)
    ensures HeaderAt(file, offset).length < WORD64
  {
    LittleEndianBound(file[offset..offset + HEADER_SIZE][8..16]);
    assert Pow2(8) == 0x100;
    Pow2Add(8, 8);
    Pow2Add(16, 16);
    Pow2Add(32, 32);
  }

  /** A sum of two words either fits a word or wraps once. */
  lemma WrapsOnce(a: nat, b: nat)
    requires a < WORD64 && b < WORD64
    ensures Add64(a, b) == if a + b < WORD64 then a + b else a + b - WORD64
  {}

  /** The limit and the digest decide between the cases. */
  lemma TakenIs(md5: Bytes -> Bytes, file: Bytes, offset: nat, header: Header, limit: nat)
    requires MagicAt(file, offset) && header == HeaderAt(file, offset) && |file| + HEADER_SIZE < WORD64
    requires limit == Add64(offset, header.length)
    ensures HEADER_SIZE > header.length || header.length % 4 != 0 || |file| < limit ==>
            Taken(md5, file, offset) == ([], offset + 1)
    ensures HEADER_SIZE <= header.length && header.length % 4 == 0 && limit <= |file| ==>
              var end := if limit > offset + HEADER_SIZE then limit else offset + HEADER_SIZE;
              Taken(md5, file, offset) == if md5(file[offset + SETID_OFFSET..end]) == header.hash
                  then ([Found(offset, header)], limit) else ([], offset + 1)
  {
    LengthBound(file, offset);
    hide HeaderAt;
    WrapsOnce(offset, header.length);
  }

  /** One round of the search: where to go on, and the packet that was taken, if any. */
  method Next(md5: Bytes -> Bytes, file: Bytes, start: nat, buffer: array<u8>) returns (next: nat, found: seq<Found>)
    requires Fits(file, start) && |file| + HEADER_SIZE < WORD64 && buffer.Length >= HEADER_SIZE
    modifies buffer
    ensures (found, next) == OneRound(md5, file, start)
  {
    hide HeaderAt, Parse, Taken, Add64;
    found := [];
    var offset, header := start, HeaderAt(file, start);
    if header.magic != MAGIC {
      offset, header := FindMagic(file, start + 1, buffer);
    }
    NextMagicIs(file, start, offset);
    if !Fits(file, offset) {
      return offset, [];
    }
    var limit := Add64(offset, header.length);
    TakenIs(md5, file, offset, header, limit);
    if HEADER_SIZE > header.length || header.length % 4 != 0 || |file| < limit {
      return offset + 1, [];
    }
    var hash := HashPacket(md5, file, offset, header, limit, buffer);
    if hash != header.hash {
      return offset + 1, [];
    }
    return limit, [Found(offset, header)];
  }

  // ---------------------------------------------------------------------- when the program agrees with the plain scan

  /** The plain scan meets no length field that wraps. */
  ghost predicate Unwrapped(md5: Bytes -> Bytes, file: Bytes, offset: nat)
    decreases |file| - offset
  {
    Fits(file, offset) ==>
      && !WrapsAt(md5, file, offset)
      && Unwrapped(md5, file, offset + if PacketAt(md5, file, offset) then HeaderAt(file, offset).length else 1)
  }

  lemma WrapIsNoPacket(md5: Bytes -> Bytes, file: Bytes, offset: nat)
    requires |file| + HEADER_SIZE < WORD64
    ensures PacketAt(md5, file, offset) ==> !WrapsAt(md5, file, offset)
    ensures WrapsAt(md5, file, offset) ==> !PacketAt(md5, file, offset)
  {
    hide HeaderAt;
  }

  /** Positions without the magic value are skipped. */
  lemma {:induction false} Skip(md5: Bytes -> Bytes, file: Bytes, offset: nat)
    ensures var at := NextMagic(file, offset);
            Packets(md5, file, offset) == Packets(md5, file, at)
                && (Unwrapped(md5, file, offset) <==> Unwrapped(md5, file, at))
    decreases |file| - offset
  {
    hide HeaderAt;
    if Fits(file, offset) && !MagicAt(file, offset) {
      Skip(md5, file, offset + 1);
    }
  }

  /** A round that meets no wrapping length does what the plain scan does. */
  lemma RoundAgrees(md5: Bytes -> Bytes, file: Bytes, offset: nat)
    requires Fits(file, offset) && |file| + HEADER_SIZE < WORD64
    requires var at := NextMagic(file, offset); !WrapsAt(md5, file, at)
    ensures var (found, next) := OneRound(md5, file, offset);
            && offset < next && |found| <= 1 && Packets(md5, file, offset) == found + Packets(md5, file, next)
            && (Unwrapped(md5, file, offset) <==> Unwrapped(md5, file, next))
  {
    hide HeaderAt, MagicAt;
    Skip(md5, file, offset);
    var at := NextMagic(file, offset);
    if Fits(file, at) {
      if PacketAt(md5, file, at) {
        PacketSize(md5, file, at);
        WrapsOnce(at, HeaderAt(file, at).length);
      } else {
        assert [] + Packets(md5, file, at + 1) == Packets(md5, file, at + 1);
      }
    } else {
      assert [] + Packets(md5, file, at) == Packets(md5, file, at);
    }
  }

  /** A round that meets one takes what is no packet, and goes back. */
  lemma RoundWraps(md5: Bytes -> Bytes, file: Bytes, offset: nat)
    requires Fits(file, offset) && |file| + HEADER_SIZE < WORD64
    requires var at := NextMagic(file, offset); WrapsAt(md5, file, at)
    ensures var at := NextMagic(file, offset);
            && Fits(file, at) && !PacketAt(md5, file, at)
               && OneRound(md5, file, offset).0 == [Found(at, HeaderAt(file, at))]
            && OneRound(md5, file, offset).1 < at
  {
    var at := NextMagic(file, offset);
    WrapIsNoPacket(md5, file, at);
    LengthBound(file, at);
    WrapsOnce(at, HeaderAt(file, at).length);
  }

  /** A header whose length field is four less than 2^64, four bytes into a file, takes the scan back to the start. */
  lemma WrapExample(md5: Bytes -> Bytes, file: Bytes)
    requires MagicAt(file, 4) && HeaderAt(file, 4).length == WORD64 - 4
    requires md5(file[4 + SETID_OFFSET..4 + HEADER_SIZE]) == HeaderAt(file, 4).hash
    ensures WrapsAt(md5, file, 4) && Taken(md5, file, 4).1 == 0
  {
    hide HeaderAt;
  }

  /** What has been taken after n rounds, and where the program is. */
  ghost function Rounds(md5: Bytes -> Bytes, file: Bytes, n: nat): (seq<Found>, nat) {
    if n == 0 then ([], 0)
    else
      var (taken, offset) := Rounds(md5, file, n - 1);
      if Fits(file, offset) then
        var (found, next) := OneRound(md5, file, offset);
        (taken + found, next)
      else (taken, offset)
  }

  lemma {:induction false} RoundsAgree(md5: Bytes -> Bytes, file: Bytes, n: nat)
    requires Unwrapped(md5, file, 0) && |file| + HEADER_SIZE < WORD64
    ensures var (taken, offset) := Rounds(md5, file, n);
            && taken + Packets(md5, file, offset) == Packets(md5, file, 0) && Unwrapped(md5, file, offset)
            && (Fits(file, offset) ==> n <= offset)
  {
    hide OneRound, Packets, WrapsAt;
    if n > 0 {
      RoundsAgree(md5, file, n - 1);
      var (taken, offset) := Rounds(md5, file, n - 1);
      if Fits(file, offset) {
        MeetsNone(md5, file, offset);
        RoundAgrees(md5, file, offset);
        var (found, next) := OneRound(md5, file, offset);
        assert (taken + found) + Packets(md5, file, next) == taken + (found + Packets(md5, file, next));
      }
    }
  }

  lemma MeetsNone(md5: Bytes -> Bytes, file: Bytes, offset: nat)
    requires Unwrapped(md5, file, offset)
    ensures !WrapsAt(md5, file, NextMagic(file, offset))
  {
    Skip(md5, file, offset);
  }

  /** Something was taken that is no packet. */
  ghost predicate Astray(md5: Bytes -> Bytes, file: Bytes, taken: seq<Found>) {
    exists i :: 0 <= i < |taken| && !PacketAt(md5, file, taken[i].offset)
  }

  lemma {:induction false} RoundsStray(md5: Bytes -> Bytes, file: Bytes, n: nat)
    requires !Unwrapped(md5, file, 0) && |file| + HEADER_SIZE < WORD64
    ensures var (taken, offset) := Rounds(md5, file, n); Astray(md5, file, taken) || !Unwrapped(md5, file, offset)
  {
    hide OneRound, WrapsAt, Unwrapped, PacketAt;
    if n > 0 {
      RoundsStray(md5, file, n - 1);
      var (taken, offset) := Rounds(md5, file, n - 1);
      if Fits(file, offset) {
        var (found, next) := OneRound(md5, file, offset);
        if Astray(md5, file, taken) {
          var i :| 0 <= i < |taken| && !PacketAt(md5, file, taken[i].offset);
          assert (taken + found)[i] == taken[i];
        } else if WrapsAt(md5, file, NextMagic(file, offset)) {
          RoundWraps(md5, file, offset);
          assert (taken + found)[|taken|] == found[0];
        } else {
          RoundAgrees(md5, file, offset);
        }
      }
    }
  }

  lemma AllPackets(md5: Bytes -> Bytes, file: Bytes)
    ensures !Astray(md5, file, Packets(md5, file, 0))
  {
    PacketsApart(md5, file, 0);
  }

  lemma UnwrappedBeyond(md5: Bytes -> Bytes, file: Bytes, offset: nat)
    requires !Fits(file, offset)
    ensures Unwrapped(md5, file, offset)
  {}

  /** The program comes to an end having taken exactly the packets of the plain scan, if and only if the plain scan
      meets no length field that wraps. */
  lemma AgreesExactly(md5: Bytes -> Bytes, file: Bytes)
    requires |file| + HEADER_SIZE < WORD64
    ensures (exists n :: !Fits(file, Rounds(md5, file, n).1) && Rounds(md5, file, n).0 == Packets(md5, file, 0))
            <==> Unwrapped(md5, file, 0)
  {
    hide Rounds, Packets, Unwrapped, Astray;
    if Unwrapped(md5, file, 0) {
      var n := |file|;
      RoundsAgree(md5, file, n);
      NoneBeyond(md5, file, Rounds(md5, file, n).1);
    }
    if n :| !Fits(file, Rounds(md5, file, n).1) && Rounds(md5, file, n).0 == Packets(md5, file, 0) {
      UnwrappedBeyond(md5, file, Rounds(md5, file, n).1);
      AllPackets(md5, file);
      if !Unwrapped(md5, file, 0) {
        RoundsStray(md5, file, n);
        assert false;
      }
    }
  }

  /** The part of the repairer that loads packets; `loaded` are those handed on by kind. */
  class PacketLoader {
    const md5: Bytes -> Bytes
    var firstpacket: bool
    var setid: Bytes
    var loaded: seq<Found>

    constructor (md5: Bytes -> Bytes)
      ensures this.md5 == md5 && firstpacket && loaded == []
    {
      this.md5 := md5;
      firstpacket, setid, loaded := true, [], [];
    }

    /** What a packet that was found does: the first one fixes the set, and those of the set are handed on. */
    method Accept(f: Found)
      modifies this
      ensures !firstpacket && setid == if old(firstpacket) then f.header.setid else old(setid)
      ensures loaded == old(loaded) + OfSet([f], setid)
    {
      hide KindOf, OfSet;
      if firstpacket {
        setid, firstpacket := f.header.setid, false;
      }
      if setid == f.header.setid && KindOf(f.header.kind) != Unknown {
        loaded := loaded + [f];
      }
      OfSetOne(f, setid);
    }

    /** Exactly the packets of the plain scan are found, in its order, and those of the set are loaded. The set is the
        one of the first packet ever found. */
    method LoadPacketsFromFile(file: Bytes, bufferlimit: nat)
      requires Unwrapped(md5, file, 0) && |file| + HEADER_SIZE < WORD64 && bufferlimit >= HEADER_SIZE
      modifies this
      ensures var found := Packets(md5, file, 0);
              && firstpacket == (old(firstpacket) && found == [])
              && setid == (if old(firstpacket) && found != [] then found[0].header.setid else old(setid))
              && loaded == old(loaded) + OfSet(found, setid)
    {
      hide Packets, Unwrapped, WrapsAt, OneRound, OfSet;
      var filesize := |file|;
      var buffersize := Min(bufferlimit, filesize);
      var buffer := new u8[buffersize];
      var offset := 0;
      ghost var found: seq<Found> := [];
      NoneOfSet();
      assert found + Packets(md5, file, offset) == Packets(md5, file, 0);
      while Fits(file, offset)
        invariant found + Packets(md5, file, offset) == Packets(md5, file, 0) && Unwrapped(md5, file, offset)
        invariant firstpacket == (old(firstpacket) && found == [])
        invariant setid == (if old(firstpacket) && found != [] then found[0].header.setid else old(setid))
        invariant loaded == old(loaded) + OfSet(found, setid)
        decreases filesize - offset
      {
        MeetsNone(md5, file, offset);
        RoundAgrees(md5, file, offset);
        var next, more := Next(md5, file, offset, buffer);
        assert (found + more) + Packets(md5, file, next) == found + (more + Packets(md5, file, next));
        if more != [] {
          var f := more[0];
          ghost var before := loaded;
          Accept(f);
          assert more == [f];
          OfSetJoin(found, f, setid);
          assert before + OfSet(more, setid) == old(loaded) + (OfSet(found, setid) + OfSet(more, setid));
        } else {
          assert found + more == found;
        }
        found := found + more;
        offset := next;
      }
      NoneBeyond(md5, file, offset);
      assert found == Packets(md5, file, 0);
    }
  }
}
