/** Multiplication tables for GF(2^16) and the packed multiply-accumulate loop that uses them:
  parpar/gf16/gf16_lookup.c:6-29, 487-584 and 641-650, on a machine with 64-bit words. */
module Gf16Lookup {
  import opened Arithmetic
  import opened BinaryAlgebra
  import opened BitWords
  import opened LongMultiply

  type Bits64 = b: seq<bool> | |b| == 64 witness seq(64, _ => false)

  /** x^16 reduced by 0x1100B: bits 0, 1, 3 and 12. */
  function Polynomial(): (p: Bits16)
    ensures forall i :: 0 <= i < 16 ==> p[i] == (i == 0 || i == 1 || i == 3 || i == 12)
  {
    seq(16, i => i == 0 || i == 1 || i == 3 || i == 12)
  }

  function Ring(): Words<Bits16> { Ring16(Polynomial()) }

  function Twice(c: Bits16): Bits16 { ShiftBits(Polynomial(), c) }

  // ---------------------------------------------------------------------- doubling several lanes at once

  /** (p << 1) cut to the width of the word. */
  function ShiftedUp(p: seq<bool>): (r: seq<bool>)
    requires |p| > 0
    ensures |r| == |p| && forall i :: 0 <= i < |p| ==> r[i] == (i > 0 && p[i - 1])
  {
    [false] + p[..|p| - 1]
  }

  /** 0x1100B in every lane of 16 bits, with bit 16 dropped from the top lane; the bit 16 of the other
      lanes cancels what they shift into the next one. */
  function LanePolynomial(width: nat): (r: seq<bool>)
    ensures |r| == width && forall i :: 0 <= i < width ==> r[i] == IsLaneBit(i)
  {
    seq(width, i => IsLaneBit(i))
  }

  predicate IsLaneBit(i: int) {
    || i == 0 || i == 1 || i == 3 || i == 12 || i == 17 || i == 19 || i == 28
    || i == 33 || i == 35 || i == 44 || i == 49 || i == 51 || i == 60
  }

  /** GF16_MULTBY_TWO_X2 and GF16_MULTBY_TWO_X4: only the top bit of the top lane decides. */
  function TwiceLanes(p: seq<bool>): (r: seq<bool>)
    requires |p| > 0
    ensures |r| == |p|
  {
    XorBits(ShiftedUp(p), if p[|p| - 1] then LanePolynomial(|p|) else ZeroBits(|p|))
  }

  function Lanes2(a: Bits16, b: Bits16): Bits32 { a + b }

  function Lanes4(a: Bits16, b: Bits16, c: Bits16, d: Bits16): Bits64 { a + b + c + d }

  /** The lane that starts at bit k of word p holds c. */
  ghost predicate LaneIs(p: seq<bool>, k: nat, c: Bits16) {
    k + 16 <= |p| && forall j {:trigger c[j]} :: 0 <= j < 16 ==> p[k + j] == c[j]
  }

  lemma LaneBits(k: nat, j: nat)
    requires (k == 0 || k == 16 || k == 32 || k == 48) && j < 16
    ensures IsLaneBit(k + j) == if j == 0 then k == 0 else j == 1 || j == 3 || j == 12
  {}

  lemma TwiceLanesAt(p: seq<bool>, i: nat)
    requires i < |p|
    ensures TwiceLanes(p)[i] == ((i > 0 && p[i - 1]) != (p[|p| - 1] && IsLaneBit(i)))
  {
    hide IsLaneBit;
  }

  lemma TwiceAt(c: Bits16, j: nat)
    requires j < 16
    ensures Twice(c)[j] == ((j > 0 && c[j - 1]) != (c[15] && (j == 0 || j == 1 || j == 3 || j == 12)))
  {}

  lemma TwiceBit(p: seq<bool>, k: nat, c: Bits16, j: nat)
    requires (k == 0 || k == 16 || k == 32 || k == 48) && j < 16 && k + 16 <= |p| && p[|p| - 1] == c[15]
    requires if j > 0 then p[k + j - 1] == c[j - 1] else k > 0 ==> p[k - 1] == c[15]
    ensures TwiceLanes(p)[k + j] == Twice(c)[j]
  {
    hide IsLaneBit, TwiceLanes, Twice;
    LaneBits(k, j);
    TwiceLanesAt(p, k + j);
    TwiceAt(c, j);
  }

  /** With equal lanes the doubling is right in each of them. */
  lemma TwiceLane(p: seq<bool>, k: nat, c: Bits16)
    requires (k == 0 || k == 16 || k == 32 || k == 48) && LaneIs(p, k, c) && p[|p| - 1] == c[15]
             && (k > 0 ==> p[k - 1] == c[15])
    ensures LaneIs(TwiceLanes(p), k, Twice(c))
  {
    hide TwiceLanes, Twice;
    forall j | 0 <= j < 16 ensures TwiceLanes(p)[k + j] == Twice(c)[j] {
      assert j > 0 ==> p[k + (j - 1)] == c[j - 1];
      TwiceBit(p, k, c, j);
    }
  }

  lemma Lanes4Are(p: Bits64, a: Bits16, b: Bits16, c: Bits16, d: Bits16)
    ensures p == Lanes4(a, b, c, d) <==> LaneIs(p, 0, a) && LaneIs(p, 16, b) && LaneIs(p, 32, c) && LaneIs(p, 48, d)
  {
    if LaneIs(p, 0, a) && LaneIs(p, 16, b) && LaneIs(p, 32, c) && LaneIs(p, 48, d) {
      forall i: nat | i < 64 ensures p[i] == Lanes4(a, b, c, d)[i] {
        if i < 16 { assert p[0 + i] == a[i]; }
        else if i < 32 { assert p[16 + (i - 16)] == b[i - 16]; }
        else if i < 48 { assert p[32 + (i - 32)] == c[i - 32]; }
        else { assert p[48 + (i - 48)] == d[i - 48]; }
      }
    }
  }

  lemma Lanes2Are(p: Bits32, a: Bits16, b: Bits16)
    ensures p == Lanes2(a, b) <==> LaneIs(p, 0, a) && LaneIs(p, 16, b)
  {
    if LaneIs(p, 0, a) && LaneIs(p, 16, b) {
      forall i: nat | i < 32 ensures p[i] == Lanes2(a, b)[i] {
        if i < 16 { assert p[0 + i] == a[i]; } else { assert p[16 + (i - 16)] == b[i - 16]; }
      }
    }
  }

  lemma TwiceLanes2(c: Bits16)
    ensures TwiceLanes(Lanes2(c, c)) == Lanes2(Twice(c), Twice(c))
  {
    hide TwiceLanes, Twice;
    var p := Lanes2(c, c);
    Lanes2Are(p, c, c);
    TwiceLane(p, 0, c);
    TwiceLane(p, 16, c);
    Lanes2Are(TwiceLanes(p), Twice(c), Twice(c));
  }

  lemma TwiceLanes4(c: Bits16)
    ensures TwiceLanes(Lanes4(c, c, c, c)) == Lanes4(Twice(c), Twice(c), Twice(c), Twice(c))
  {
    hide TwiceLanes, Twice;
    var p := Lanes4(c, c, c, c);
    Lanes4Are(p, c, c, c, c);
    TwiceLane(p, 0, c);
    TwiceLane(p, 16, c);
    TwiceLane(p, 32, c);
    TwiceLane(p, 48, c);
    Lanes4Are(TwiceLanes(p), Twice(c), Twice(c), Twice(c), Twice(c));
  }

  /** The polynomial in the first and third lane, and its bit 16 in the lane after each. */
  predicate IsLowerBit(i: int) {
    || i == 0 || i == 1 || i == 3 || i == 12 || i == 16
    || i == 32 || i == 33 || i == 35 || i == 44 || i == 48
  }

  /** GF16_MULTBY_TWO_LOWER_X2, on a word whose second and fourth lanes are clear. */
  function TwiceLower(p: Bits64): (r: Bits64)
    requires forall i :: 48 <= i < 64 ==> !p[i]
  {
    XorBits(ShiftedUp(p), if p[47] then seq(64, i => IsLowerBit(i)) else ZeroBits(64))
  }

  lemma TwiceLowerAt(p: Bits64, i: nat)
    requires (forall i :: 48 <= i < 64 ==> !p[i]) && i < 64
    ensures TwiceLower(p)[i] == ((i > 0 && p[i - 1]) != (p[47] && IsLowerBit(i)))
  {
    hide IsLowerBit;
  }

  lemma LowerBits(k: nat, j: nat)
    requires (k == 0 || k == 16 || k == 32 || k == 48) && j < 16
    ensures IsLowerBit(k + j) == (j == 0 || ((k == 0 || k == 32) && (j == 1 || j == 3 || j == 12)))
  {}

  /** The first and the third lane are doubled. */
  lemma LowerLane(p: Bits64, k: nat, c: Bits16)
    requires (forall i :: 48 <= i < 64 ==> !p[i]) && (k == 0 || k == 32) && LaneIs(p, k, c) && p[47] == c[15]
    requires k > 0 ==> !p[k - 1]
    ensures LaneIs(TwiceLower(p), k, Twice(c))
  {
    hide TwiceLower, Twice, IsLowerBit;
    forall j | 0 <= j < 16 ensures TwiceLower(p)[k + j] == Twice(c)[j] {
      assert j > 0 ==> p[k + (j - 1)] == c[j - 1];
      TwiceLowerAt(p, k + j);
      LowerBits(k, j);
      TwiceAt(c, j);
    }
  }

  /** The second and the fourth lane stay clear. */
  lemma UpperLane(p: Bits64, k: nat)
    requires (forall i :: 48 <= i < 64 ==> !p[i]) && (k == 16 || k == 48)
    requires LaneIs(p, k, ZeroBits(16)) && p[k - 1] == p[47]
    ensures LaneIs(TwiceLower(p), k, ZeroBits(16))
  {
    hide TwiceLower, IsLowerBit;
    forall j | 0 <= j < 16 ensures TwiceLower(p)[k + j] == ZeroBits(16)[j] {
      assert j > 0 ==> p[k + (j - 1)] == ZeroBits(16)[j - 1];
      TwiceLowerAt(p, k + j);
      LowerBits(k, j);
    }
  }

  lemma TwiceLower2(c: Bits16)
    ensures TwiceLower(Lanes4(c, ZeroBits(16), c, ZeroBits(16)))
            == Lanes4(Twice(c), ZeroBits(16), Twice(c), ZeroBits(16))
  {
    hide TwiceLower, Twice;
    var z: Bits16 := ZeroBits(16);
    var p := Lanes4(c, z, c, z);
    Lanes4Are(p, c, z, c, z);
    LowerLane(p, 0, c);
    UpperLane(p, 16);
    LowerLane(p, 32, c);
    UpperLane(p, 48);
    Lanes4Are(TwiceLower(p), Twice(c), z, Twice(c), z);
  }

  // ---------------------------------------------------------------------- multiples of a coefficient

  /** The product of c with the polynomial whose coefficients are the bits of v. */
  function Multiple<T>(s: Words<T>, c: T, v: nat): T
    decreases v
  {
    if v == 0 then s.zero else s.xor(Scale(s, v % 2 == 1, c), Multiple(s, s.shift(c), v / 2))
  }

  lemma {:induction false} MultipleIs<T(!new)>(s: Words<T>, c: T, v: nat, n: nat)
    requires Lawful(s) && v < Pow2(n)
    ensures Multiple(s, c, v) == Combine(s, c, FromNumber(v, n))
    decreases n
  {
    if n > 0 {
      MultipleIs(s, s.shift(c), v / 2, n - 1);
      assert FromNumber(v, n)[1..] == FromNumber(v / 2, n - 1);
      assert s.xor(s.zero, s.zero) == s.zero;
    }
  }

  lemma Regroup<T(!new)>(s: Words<T>, a: T, b: T, c: T)
    requires Lawful(s)
    ensures s.xor(a, s.xor(b, c)) == s.xor(b, s.xor(a, c))
  {
    calc { s.xor(a, s.xor(b, c)); s.xor(s.xor(a, b), c); s.xor(s.xor(b, a), c); s.xor(b, s.xor(a, c)); }
  }

  /** Adding bit m to the multiplier adds the m-th doubling of c. */
  lemma {:induction false} MultipleAdd<T(!new)>(s: Words<T>, c: T, m: nat, k: nat)
    requires Lawful(s) && k < Pow2(m)
    ensures Multiple(s, c, Pow2(m) + k) == s.xor(Iterate(s, c, m), Multiple(s, c, k))
    decreases m
  {
    var v := Pow2(m) + k;
    if m == 0 {
      assert Multiple(s, c, 1) == s.xor(c, Multiple(s, s.shift(c), 0));
    } else {
      assert v % 2 == k % 2 && v / 2 == Pow2(m - 1) + k / 2;
      MultipleAdd(s, s.shift(c), m - 1, k / 2);
      IterateShift(s, c, m - 1);
      var low := Scale(s, k % 2 == 1, c);
      var rest := Multiple(s, s.shift(c), k / 2);
      assert Multiple(s, c, v) == s.xor(low, s.xor(Iterate(s, c, m), rest));
      Regroup(s, low, Iterate(s, c, m), rest);
      if k == 0 { assert s.xor(s.zero, s.zero) == s.zero; }
    }
  }

  // ---------------------------------------------------------------------- the tables

  function Lane(p: Bits64, l: nat): Bits16
    requires l < 4
  {
    p[16 * l..16 * l + 16]
  }

  lemma LaneOf(a: Bits16, b: Bits16, c: Bits16, d: Bits16)
    ensures var p := Lanes4(a, b, c, d); Lane(p, 0) == a && Lane(p, 1) == b && Lane(p, 2) == c && Lane(p, 3) == d
  {}

  lemma LanesXor(a: Bits16, b: Bits16, c: Bits16, d: Bits16, a': Bits16, b': Bits16, c': Bits16, d': Bits16)
    ensures XorBits(Lanes4(a, b, c, d), Lanes4(a', b', c', d'))
            == Lanes4(XorBits(a, a'), XorBits(b, b'), XorBits(c, c'), XorBits(d, d'))
  {}

  function Xor64(p: Bits64, q: Bits64): Bits64 { XorBits(p, q) }

  lemma LanesAdded(d: Bits16, p: Bits64, a: Bits16, b: Bits16, c: Bits16, e: Bits16)
    requires p == Lanes4(d, d, d, d)
    ensures var r := Xor64(p, Lanes4(a, b, c, e));
            && Lane(r, 0) == XorBits(d, a) && Lane(r, 1) == XorBits(d, b)
            && Lane(r, 2) == XorBits(d, c) && Lane(r, 3) == XorBits(d, e)
  {
    LanesXor(d, d, d, d, a, b, c, e);
    LaneOf(XorBits(d, a), XorBits(d, b), XorBits(d, c), XorBits(d, e));
  }

  /** Four 16-bit entries read as one word, and written as one word. */
  function Read64(t: array<Bits16>, i: nat): Bits64
    requires i + 4 <= t.Length
    reads t
  {
    Lanes4(t[i], t[i + 1], t[i + 2], t[i + 3])
  }

  method Write64(t: array<Bits16>, i: nat, p: Bits64)
    requires i + 4 <= t.Length
    modifies t
    ensures t[i] == Lane(p, 0) && t[i + 1] == Lane(p, 1) && t[i + 2] == Lane(p, 2) && t[i + 3] == Lane(p, 3)
    ensures forall k :: 0 <= k < t.Length && !(i <= k < i + 4) ==> t[k] == old(t[k])
  {
    t[i], t[i + 1], t[i + 2], t[i + 3] := Lane(p, 0), Lane(p, 1), Lane(p, 2), Lane(p, 3);
  }

  /** The entries of a table are multiples of c. */
  ghost predicate IsMultiples(t: seq<Bits16>, c: Bits16, n: nat) {
    n <= |t| && forall v :: 0 <= v < n ==> t[v] == Multiple(Ring(), c, v)
  }

  /** Write to four entries at i what four entries at k hold, with the lanes of a word added. */
  method AddLanes(t: array<Bits16>, i: nat, k: nat, ghost d: Bits16, coefficient4: Bits64)
    requires k + 4 <= i && i + 4 <= t.Length && coefficient4 == Lanes4(d, d, d, d)
    modifies t
    ensures forall v :: i <= v < i + 4 ==> t[v] == XorBits(d, old(t[v - i + k]))
    ensures forall v :: 0 <= v < t.Length && !(i <= v < i + 4) ==> t[v] == old(t[v])
  {
    hide Xor64, Lanes4, Lane, XorBits;
    LanesAdded(d, coefficient4, t[k], t[k + 1], t[k + 2], t[k + 3]);
    Write64(t, i, Xor64(coefficient4, Read64(t, k)));
    forall v | i <= v < i + 4 ensures t[v] == XorBits(d, old(t[v - i + k])) {
      if v == i { } else if v == i + 1 { } else if v == i + 2 { } else { assert v == i + 3; }
    }
  }

  /** Double the number of entries: each new one is an old one plus d. */
  method DoubleTable(t: array<Bits16>, j: nat, ghost d: Bits16, coefficient4: Bits64)
    requires 8 * j <= t.Length && coefficient4 == Lanes4(d, d, d, d)
    modifies t
    ensures forall v :: 0 <= v < 4 * j ==> t[v] == old(t[v])
    ensures forall v :: 4 * j <= v < 8 * j ==> t[v] == XorBits(d, old(t[v - 4 * j]))
  {
    hide XorBits, Lanes4;
    var k := 0;
    while k < j
      invariant 0 <= k <= j
      invariant forall v :: 0 <= v < 4 * j ==> t[v] == old(t[v])
      invariant forall v :: 4 * j <= v < 4 * (j + k) ==> t[v] == XorBits(d, old(t[v - 4 * j]))
    {
      AddLanes(t, 4 * (k + j), 4 * k, d, coefficient4);
      k := k + 1;
    }
  }

  /** The m-th doubling of c. */
  function Doubled(c: Bits16, m: nat): Bits16 { Iterate(Ring(), c, m) }

  lemma DoubledStep(c: Bits16, m: nat)
    ensures Doubled(c, m + 1) == Twice(Doubled(c, m))
  {}

  lemma MultipleAddRing(c: Bits16, m: nat, k: nat)
    requires k < Pow2(m)
    ensures Multiple(Ring(), c, Pow2(m) + k) == XorBits(Doubled(c, m), Multiple(Ring(), c, k))
  {
    Ring16Lawful(Polynomial());
    MultipleAdd(Ring(), c, m, k);
  }

  /** One more bit of the multiplier. */
  lemma MultiplesGrow(t: seq<Bits16>, t': seq<Bits16>, c: Bits16, m: nat)
    requires IsMultiples(t, c, Pow2(m)) && |t'| == |t| && 2 * Pow2(m) <= |t|
    requires forall v :: 0 <= v < Pow2(m) ==> t'[v] == t[v]
    requires forall v :: Pow2(m) <= v < 2 * Pow2(m) ==> t'[v] == XorBits(Doubled(c, m), t[v - Pow2(m)])
    ensures IsMultiples(t', c, Pow2(m + 1))
  {
    hide Multiple, XorBits, Doubled;
    forall v | 0 <= v < 2 * Pow2(m) ensures t'[v] == Multiple(Ring(), c, v) {
      if v >= Pow2(m) { MultipleAddRing(c, m, v - Pow2(m)); }
    }
  }

  /** The first four multiples: 0, c, 2c and 3c. */
  lemma FirstMultiples(c: Bits16)
    ensures Multiple(Ring(), c, 0) == ZeroBits(16) && Multiple(Ring(), c, 1) == c
    ensures Multiple(Ring(), c, 2) == Twice(c) && Multiple(Ring(), c, 3) == XorBits(Twice(c), c)
  {
    assert Pow2(0) == 1 && Pow2(1) == 2;
    MultipleAddRing(c, 0, 0);
    MultipleAddRing(c, 1, 0);
    MultipleAddRing(c, 1, 1);
    DoubledStep(c, 0);
    XorBitsLaws(c, c, c);
    XorBitsLaws(Twice(c), c, c);
  }

  /** The first four entries, and the word that adds 4c in every lane. */
  method FirstEntries(c: Bits16, table1: array<Bits16>) returns (coefficient4: Bits64)
    requires table1.Length == 2048
    modifies table1
    ensures IsMultiples(table1[..], c, 4)
    ensures var d := Doubled(c, 2); coefficient4 == Lanes4(d, d, d, d)
  {
    hide Multiple, XorBits, TwiceLanes, Twice, Doubled, Lanes4;
    var tmp: Bits32 := TwiceLanes(Lanes2(c, c));
    TwiceLanes2(c);
    Lanes2Halves(Twice(c));
    FirstMultiples(c);
    LaneOf(ZeroBits(16), c, Twice(c), XorBits(Twice(c), c));
    Write64(table1, 0, Lanes4(ZeroBits(16), c, tmp[..16], XorBits(tmp[16..], c)));
    FourTimes(c, tmp);
    coefficient4 := TwiceLanes(tmp + tmp);
  }

  lemma FourTimes(c: Bits16, tmp: Bits32)
    requires tmp == Lanes2(Twice(c), Twice(c))
    ensures var d := Doubled(c, 2); TwiceLanes(tmp + tmp) == Lanes4(d, d, d, d)
  {
    hide Twice, TwiceLanes;
    assert tmp + tmp == Lanes4(Twice(c), Twice(c), Twice(c), Twice(c));
    TwiceLanes4(Twice(c));
    DoubledStep(c, 0);
    DoubledStep(c, 1);
  }

  /** table1: the multiples of c by all 11-bit numbers. */
  method BuildTable1(c: Bits16, table1: array<Bits16>) returns (coefficient4: Bits64)
    requires table1.Length == 2048
    modifies table1
    ensures IsMultiples(table1[..], c, 2048)
    ensures var d := Doubled(c, 11); coefficient4 == Lanes4(d, d, d, d)
  {
    hide Multiple, XorBits, TwiceLanes, Twice, Doubled, Lanes4, IsMultiples;
    coefficient4 := FirstEntries(c, table1);
    var j := 1;
    ghost var m := 2;
    assert Pow2(2) == 4;
    while j < 512
      invariant 2 <= m <= 11 && 4 * j == Pow2(m)
      invariant IsMultiples(table1[..], c, Pow2(m))
      invariant coefficient4 == Lanes4(Doubled(c, m), Doubled(c, m), Doubled(c, m), Doubled(c, m))
      decreases 512 - j
    {
      PowersOfTwo(m);
      ghost var before := table1[..];
      DoubleTable(table1, j, Doubled(c, m), coefficient4);
      MultiplesGrow(before, table1[..], c, m);
      TwiceLanes4(Doubled(c, m));
      DoubledStep(c, m);
      coefficient4 := TwiceLanes(coefficient4);
      j, m := 2 * j, m + 1;
    }
    PowersOfTwo(m);
  }

  lemma Lanes2Halves(d: Bits16)
    ensures Lanes2(d, d)[..16] == d && Lanes2(d, d)[16..] == d
  {}

  lemma PowersOfTwo(m: nat)
    ensures Pow2(m + 1) == 2 * Pow2(m)
    ensures m <= 10 ==> Pow2(m) <= 1024
    ensures m == 11 ==> Pow2(m) == 2048
    ensures m > 11 ==> Pow2(m) > 2048
  {
    assert Pow2(8) == 256;
    assert Pow2(11) == 2048;
    Pow2Monotone(m, 10);
    Pow2Monotone(12, m);
  }

  // ---------------------------------------------------------------------- the second table

  function Zero(): Bits16 { ZeroBits(16) }

  /** Bitwise and with a mask that keeps whole lanes. */
  function KeepLanes(p: Bits64, k0: bool, k1: bool, k2: bool, k3: bool): Bits64 {
    Lanes4(if k0 then Lane(p, 0) else Zero(), if k1 then Lane(p, 1) else Zero(), if k2 then Lane(p, 2)
           else Zero(), if k3 then Lane(p, 3) else Zero())
  }

  function OrBits(a: seq<bool>, b: seq<bool>): (r: seq<bool>)
    requires |a| == |b|
    ensures |r| == |a| && forall i :: 0 <= i < |a| ==> r[i] == (a[i] || b[i])
  {
    seq(|a|, i requires 0 <= i < |a| => a[i] || b[i])
  }

  /** The product of a 16-bit value with 0x0001000000010000. */
  function Spread(x: Bits32): Bits64
    requires x[16..] == Zero()
  {
    Lanes4(Zero(), x[..16], Zero(), x[..16])
  }

  function Pair(a: Bits32, b: Bits32): Bits64 {
    var low: seq<bool> := a;
    low + b
  }

  /** Two 32-bit entries read as one word, and written as one word. */
  function ReadPair(t: array<Bits32>, i: nat): Bits64
    requires i + 2 <= t.Length
    reads t
  {
    Pair(t[i], t[i + 1])
  }

  method WritePair(t: array<Bits32>, i: nat, p: Bits64)
    requires i + 2 <= t.Length
    modifies t
    ensures t[i] == p[..32] && t[i + 1] == p[32..]
    ensures forall k :: 0 <= k < t.Length && !(i <= k < i + 2) ==> t[k] == old(t[k])
  {
    t[i], t[i + 1] := p[..32], p[32..];
  }

  lemma PairHalves(a: Bits16, b: Bits16, c: Bits16, d: Bits16)
    ensures Lanes4(a, b, c, d)[..32] == Lanes2(a, b) && Lanes4(a, b, c, d)[32..] == Lanes2(c, d)
    ensures Pair(Lanes2(a, b), Lanes2(c, d)) == Lanes4(a, b, c, d)
  {}

  /** Entries below n hold a multiple of e in their low lane and nothing in the other. */
  ghost predicate IsLow(t: seq<Bits32>, e: Bits16, n: nat) {
    n <= |t| && forall v :: 0 <= v < n ==> t[v] == Lanes2(Multiple(Ring(), e, v), Zero())
  }

  lemma XorZero()
    ensures XorBits(Zero(), Zero()) == Zero()
  {
    XorBitsLaws(Zero(), Zero(), Zero());
  }

  lemma PairSum(f: Bits16, x: Bits16, y: Bits16)
    ensures XorBits(Lanes4(f, Zero(), f, Zero()), Pair(Lanes2(x, Zero()), Lanes2(y, Zero())))
            == Lanes4(XorBits(f, x), Zero(), XorBits(f, y), Zero())
  {
    PairHalves(x, Zero(), y, Zero());
    LanesXor(f, Zero(), f, Zero(), x, Zero(), y, Zero());
    XorZero();
  }

  /** Double the number of entries with one lane in use. */
  method DoubleLow(t: array<Bits32>, j: nat, ghost e: Bits16, ghost m: nat, coefficient4: Bits64)
    requires 4 * j <= t.Length && 2 * j == Pow2(m) && IsLow(t[..], e, 2 * j)
    requires coefficient4 == Lanes4(Doubled(e, m), Zero(), Doubled(e, m), Zero())
    modifies t
    ensures IsLow(t[..], e, 4 * j)
  {
    hide Multiple, XorBits, Doubled, Lanes4, Lanes2, Zero;
    var k := 0;
    while k < j
      invariant 0 <= k <= j
      invariant IsLow(t[..], e, 2 * (j + k))
    {
      ghost var f, x, y := Doubled(e, m), Multiple(Ring(), e, 2 * k), Multiple(Ring(), e, 2 * k + 1);
      MultipleAddRing(e, m, 2 * k);
      MultipleAddRing(e, m, 2 * k + 1);
      assert t[2 * k] == t[..][2 * k] && t[2 * k + 1] == t[..][2 * k + 1];
      PairSum(f, x, y);
      PairHalves(XorBits(f, x), Zero(), XorBits(f, y), Zero());
      WritePair(t, 2 * (k + j), XorBits(coefficient4, ReadPair(t, 2 * k)));
      k := k + 1;
    }
  }

  /** The low half of table2: the multiples of e by all 5-bit numbers. */
  method BuildLow(t: array<Bits32>, ghost e: Bits16, coefficient4: Bits64)
    requires t.Length == 1024 && coefficient4 == Lanes4(e, e, e, e)
    modifies t
    ensures IsLow(t[..], e, 32)
  {
    hide Multiple, XorBits, Doubled, Lanes4, Lanes2, TwiceLanes, Twice, TwiceLower, IsLow;
    WritePair(t, 0, KeepLanes(coefficient4, false, false, true, false));
    LowStart(t[..], e, coefficient4);
    var next := KeepLanes(TwiceLanes(coefficient4), true, false, true, false);
    LowNext(e, coefficient4);
    var j := 1;
    ghost var m := 1;
    assert Pow2(1) == 2;
    while j < 16
      invariant 1 <= m <= 5 && 2 * j == Pow2(m)
      invariant IsLow(t[..], e, 2 * j)
      invariant next == Lanes4(Doubled(e, m), Zero(), Doubled(e, m), Zero())
      decreases 16 - j
    {
      SmallPowers(m);
      DoubleLow(t, j, e, m, next);
      UpperClear(Doubled(e, m), Doubled(e, m));
      TwiceLower2(Doubled(e, m));
      DoubledStep(e, m);
      next := TwiceLower(next);
      j, m := 2 * j, m + 1;
    }
    SmallPowers(m);
  }

  lemma UpperClear(a: Bits16, c: Bits16)
    ensures forall i :: 48 <= i < 64 ==> !Lanes4(a, Zero(), c, Zero())[i]
  {}

  lemma SmallPowers(m: nat)
    requires 1 <= m <= 5
    ensures Pow2(m + 1) == 2 * Pow2(m) && (m < 5 ==> Pow2(m) <= 16) && (m == 5 ==> Pow2(m) == 32)
  {
    assert Pow2(5) == 32;
    Pow2Monotone(m, 4);
  }

  lemma LowStart(t: seq<Bits32>, e: Bits16, coefficient4: Bits64)
    requires |t| == 1024 && coefficient4 == Lanes4(e, e, e, e)
    requires var p := KeepLanes(coefficient4, false, false, true, false); t[0] == p[..32] && t[1] == p[32..]
    ensures IsLow(t, e, 2)
  {
    hide Multiple, XorBits, Twice;
    LaneOf(e, e, e, e);
    PairHalves(Zero(), Zero(), e, Zero());
    FirstMultiples(e);
  }

  lemma LowNext(e: Bits16, coefficient4: Bits64)
    requires coefficient4 == Lanes4(e, e, e, e)
    ensures KeepLanes(TwiceLanes(coefficient4), true, false, true, false)
            == Lanes4(Doubled(e, 1), Zero(), Doubled(e, 1), Zero())
  {
    hide TwiceLanes, Twice;
    TwiceLanes4(e);
    LaneOf(Twice(e), Twice(e), Twice(e), Twice(e));
    DoubledStep(e, 0);
  }

  /** table2 holds multiples of e by two 5-bit numbers, side by side. */
  ghost predicate IsPairs(t: seq<Bits32>, e: Bits16, n: nat) {
    32 * n <= |t| && forall j, k {:trigger Entry(t, j, k)} :: 0 <= j < n && 0 <= k < 32 ==>
      Entry(t, j, k) == Lanes2(Multiple(Ring(), e, k), Multiple(Ring(), e, j))
  }

  function Entry(t: seq<Bits32>, j: nat, k: nat): Bits32 {
    if 32 * j + k < |t| then t[32 * j + k] else ZeroBits(32)
  }

  lemma OrHigh(x: Bits16, y: Bits16, z: Bits16)
    ensures OrBits(Lanes4(Zero(), z, Zero(), z), Pair(Lanes2(x, Zero()), Lanes2(y, Zero()))) == Lanes4(x, z, y, z)
  {
    PairHalves(x, Zero(), y, Zero());
    var a, b, r := Lanes4(Zero(), z, Zero(), z), Lanes4(x, Zero(), y, Zero()), Lanes4(x, z, y, z);
    forall i: nat | i < 64 ensures OrBits(a, b)[i] == r[i] {
      if i < 16 { assert r[i] == x[i]; } else if i < 32 { assert r[i] == z[i - 16]; } else if i < 48 {
        assert r[i] == y[i - 32]; } else { assert r[i] == z[i - 48]; }
    }
  }

  /** One row of table2: the multiple of e by j in the high lane. */
  method BuildRow(t: array<Bits32>, ghost e: Bits16, j: nat)
    requires t.Length == 1024 && 1 <= j < 32 && IsLow(t[..], e, 32)
    modifies t
    ensures forall v :: 0 <= v < 1024 && !(32 * j <= v < 32 * j + 32) ==> t[v] == old(t[v])
    ensures forall v :: 32 * j <= v < 32 * j + 32 ==>
            t[v] == Lanes2(Multiple(Ring(), e, v - 32 * j), Multiple(Ring(), e, j))
  {
    hide Multiple, XorBits, Lanes4, Lanes2, Zero, OrBits;
    ghost var z := Multiple(Ring(), e, j);
    assert t[j] == t[..][j];
    LowHalf(z);
    var highVal := Spread(t[j]);
    var k := 0;
    while k < 16
      invariant 0 <= k <= 16
      invariant forall v :: 0 <= v < 1024 && !(32 * j <= v < 32 * j + 2 * k) ==> t[v] == old(t[v])
      invariant forall v :: 32 * j <= v < 32 * j + 2 * k ==> t[v] == Lanes2(Multiple(Ring(), e, v - 32 * j), z)
    {
      ghost var x, y := Multiple(Ring(), e, 2 * k), Multiple(Ring(), e, 2 * k + 1);
      assert t[2 * k] == old(t[..])[2 * k] && t[2 * k + 1] == old(t[..])[2 * k + 1];
      OrHigh(x, y, z);
      PairHalves(x, z, y, z);
      WritePair(t, 2 * (j * 16 + k), OrBits(highVal, ReadPair(t, 2 * k)));
      k := k + 1;
    }
  }

  lemma LowHalf(z: Bits16)
    ensures Lanes2(z, Zero())[..16] == z && Lanes2(z, Zero())[16..] == Zero()
  {}

  method BuildTable2(t: array<Bits32>, ghost e: Bits16, coefficient4: Bits64)
    requires t.Length == 1024 && coefficient4 == Lanes4(e, e, e, e)
    modifies t
    ensures IsPairs(t[..], e, 32)
  {
    hide Multiple, XorBits, Lanes4, Lanes2, Zero;
    BuildLow(t, e, coefficient4);
    FirstRow(t[..], e);
    var j := 1;
    while j < 32
      invariant 1 <= j <= 32
      invariant IsLow(t[..], e, 32) && IsPairs(t[..], e, j)
    {
      ghost var before := t[..];
      BuildRow(t, e, j);
      PairsGrow(before, t[..], e, j);
      j := j + 1;
    }
  }

  lemma PairsGrow(t: seq<Bits32>, t': seq<Bits32>, e: Bits16, j: nat)
    requires |t| == |t'| == 1024 && j < 32 && IsPairs(t, e, j)
    requires forall v :: 0 <= v < 1024 && !(32 * j <= v < 32 * j + 32) ==> t'[v] == t[v]
    requires forall v :: 32 * j <= v < 32 * j + 32 ==>
             t'[v] == Lanes2(Multiple(Ring(), e, v - 32 * j), Multiple(Ring(), e, j))
    ensures IsPairs(t', e, j + 1)
  {
    hide Multiple, Lanes2;
    forall i, k | 0 <= i < j + 1 && 0 <= k < 32
      ensures Entry(t', i, k) == Lanes2(Multiple(Ring(), e, k), Multiple(Ring(), e, i)) {
      if i < j { assert Entry(t', i, k) == Entry(t, i, k); }
    }
  }

  lemma FirstRow(t: seq<Bits32>, e: Bits16)
    requires |t| == 1024 && IsLow(t, e, 32)
    ensures IsPairs(t, e, 1)
  {
    hide Multiple;
    FirstMultiples(e);
  }

  // ---------------------------------------------------------------------- products by table

  lemma {:induction false} CombineConcat<T(!new)>(s: Words<T>, c: T, p: seq<bool>, q: seq<bool>)
    requires Lawful(s)
    ensures Combine(s, c, p + q) == s.xor(Combine(s, c, p), Combine(s, Iterate(s, c, |p|), q))
  {
    if p == [] {
      assert p + q == q;
      assert s.xor(s.zero, Combine(s, c, q)) == s.xor(Combine(s, c, q), s.zero);
    } else {
      assert (p + q)[1..] == p[1..] + q;
      CombineConcat(s, s.shift(c), p[1..], q);
      IterateShift(s, c, |p| - 1);
      var first, rest, tail := Scale(s, p[0], c), Combine(s, s.shift(c), p[1..]), Combine(s, Iterate(s, c, |p|), q);
      assert s.xor(first, s.xor(rest, tail)) == s.xor(s.xor(first, rest), tail);
    }
  }

  /** Looking a group of bits up in a table of multiples. */
  lemma MultipleOfBits(c: Bits16, bits: seq<bool>)
    ensures Multiple(Ring(), c, Number(bits)) == Combine(Ring(), c, bits)
  {
    NumberBound(bits);
    Ring16Lawful(Polynomial());
    MultipleIs(Ring(), c, Number(bits), |bits|);
    FromNumberInverse(bits);
  }

  /** x doubled k times. */
  function Scaled(k: nat, x: nat): nat { if k == 0 then x else 2 * Scaled(k - 1, x) }

  lemma {:induction false} NumberConcat(p: seq<bool>, q: seq<bool>)
    ensures Number(p + q) == Number(p) + Scaled(|p|, Number(q))
  {
    if p == [] {
      assert p + q == q;
    } else {
      assert (p + q)[1..] == p[1..] + q;
      NumberConcat(p[1..], q);
    }
  }

  lemma Scaled5(x: nat)
    ensures Scaled(5, x) == 32 * x
  {
    assert Scaled(1, x) == 2 * x;
    assert Scaled(2, x) == 4 * x;
    assert Scaled(3, x) == 8 * x;
    assert Scaled(4, x) == 16 * x;
  }

  /** A product is the sum of the product with the low 11 bits and that with the high 5. */
  lemma ProductSplit(c: Bits16, a: Bits16)
    ensures Mul(Ring(), c, a) == XorBits(Combine(Ring(), c, a[..11]), Combine(Ring(), Doubled(c, 11), a[11..]))
  {
    Ring16Lawful(Polynomial());
    CombineConcat(Ring(), c, a[..11], a[11..]);
    assert a[..11] + a[11..] == a;
  }

  // ---------------------------------------------------------------------- packing

  /** Bits lo up to hi of a word, moved to position `at`; everything else clear. */
  function Field(p: Bits32, lo: nat, hi: nat, at: nat): (r: Bits32)
    requires lo <= hi <= 32 && at + (hi - lo) <= 32
    ensures forall i :: 0 <= i < 32 ==> r[i] == (at <= i < at + (hi - lo) && p[i - at + lo])
  {
    seq(32, i requires 0 <= i < 32 => at <= i < at + (hi - lo) && p[i - at + lo])
  }

  /** The three masked and shifted parts of a word: bits 0-10 and 27-31 stay, bits 16-26 move down by 5,
      bits 11-15 move up by 11. */
  function Prepare(p: Bits32): Bits32 {
    OrBits(OrBits(OrBits(Field(p, 0, 11, 0), Field(p, 27, 32, 27)), Field(p, 16, 27, 11)), Field(p, 11, 16, 22))
  }

  lemma PrepareIs(a: Bits16, b: Bits16)
    ensures Prepare(Lanes2(a, b)) == a[..11] + b[..11] + a[11..] + b[11..]
  {
    var p, r := Lanes2(a, b), a[..11] + b[..11] + a[11..] + b[11..];
    forall i: nat | i < 32 ensures Prepare(p)[i] == r[i] {
      if i < 11 { assert r[i] == a[i] == p[i]; }
      else if i < 22 { assert r[i] == b[i - 11] == p[i + 5]; }
      else if i < 27 { assert r[i] == a[i - 11] == p[i - 11]; }
      else { assert r[i] == b[i - 16] == p[i]; }
    }
  }

  /** The loop body for half a word: two lookups of 11 bits and one of 10 bits. */
  function HalfProduct(table1: seq<Bits16>, table2: seq<Bits32>, data: Bits32): Bits32
    requires |table1| == 2048 && |table2| == 1024
  {
    IndexBounds(data);
    XorBits(XorBits(Lanes2(table1[Number(data[..11])], Zero()), table2[Number(data[22..])]),
            Lanes2(Zero(), table1[Number(data[11..22])]))
  }

  lemma IndexBounds(data: Bits32)
    ensures Number(data[..11]) < 2048 && Number(data[22..]) < 1024 && Number(data[11..22]) < 2048
  {
    NumberBound(data[..11]);
    NumberBound(data[22..]);
    NumberBound(data[11..22]);
    assert Pow2(8) == 256;
    assert Pow2(11) == 2048;
  }

  ghost predicate IsTables(c: Bits16, table1: seq<Bits16>, table2: seq<Bits32>) {
    |table1| == 2048 && |table2| == 1024 && IsMultiples(table1, c, 2048) && IsPairs(table2, Doubled(c, 11), 32)
  }

  lemma HighLookup(e: Bits16, table2: seq<Bits32>, a: seq<bool>, b: seq<bool>)
    requires |table2| == 1024 && IsPairs(table2, e, 32) && |a| == |b| == 5
    ensures Number(a + b) < 1024 && table2[Number(a + b)] == Lanes2(Combine(Ring(), e, a), Combine(Ring(), e, b))
  {
    hide Multiple, Combine, Lanes2;
    NumberConcat(a, b);
    NumberBound(a);
    NumberBound(b);
    assert Pow2(5) == 32;
    Scaled5(Number(b));
    assert Entry(table2, Number(b), Number(a)) == table2[32 * Number(b) + Number(a)];
    MultipleOfBits(e, a);
    MultipleOfBits(e, b);
  }

  lemma LowLookup(c: Bits16, table1: seq<Bits16>, a: seq<bool>)
    requires |table1| == 2048 && IsMultiples(table1, c, 2048) && |a| == 11
    ensures Number(a) < 2048 && table1[Number(a)] == Combine(Ring(), c, a)
  {
    hide Multiple, Combine;
    NumberBound(a);
    assert Pow2(8) == 256;
    assert Pow2(11) == 2048;
    MultipleOfBits(c, a);
  }

  lemma LaneSum(x: Bits16, y: Bits16, u: Bits16, v: Bits16)
    ensures XorBits(XorBits(Lanes2(x, Zero()), Lanes2(u, v)), Lanes2(Zero(), y)) == Lanes2(XorBits(x, u), XorBits(y, v))
  {
    var s := XorBits(XorBits(Lanes2(x, Zero()), Lanes2(u, v)), Lanes2(Zero(), y));
    var r := Lanes2(XorBits(x, u), XorBits(y, v));
    forall i: nat | i < 32 ensures s[i] == r[i] {
      if i < 16 { assert r[i] == (x[i] != u[i]); } else { assert r[i] == (y[i - 16] != v[i - 16]); }
    }
  }

  lemma PackedParts(a: Bits16, b: Bits16)
    ensures var data := Prepare(Lanes2(a, b));
    data[..11] == a[..11] && data[11..22] == b[..11] && data[22..] == a[11..] + b[11..]
  {
    hide Prepare;
    PrepareIs(a, b);
  }

  lemma Lookups(c: Bits16, table1: seq<Bits16>, table2: seq<Bits32>, data: Bits32, a: Bits16, b: Bits16)
    requires IsTables(c, table1, table2) && data[..11] == a[..11] && data[11..22] == b[..11]
             && data[22..] == a[11..] + b[11..]
    ensures HalfProduct(table1, table2, data)
         == XorBits(XorBits(Lanes2(Combine(Ring(), c, a[..11]), Zero()),
                            Lanes2(Combine(Ring(), Doubled(c, 11), a[11..]), Combine(Ring(), Doubled(c, 11), b[11..]))),
                    Lanes2(Zero(), Combine(Ring(), c, b[..11])))
  {
    hide Multiple, Combine, XorBits, IsMultiples, IsPairs, Lanes2, Number;
    LowLookup(c, table1, a[..11]);
    LowLookup(c, table1, b[..11]);
    HighLookup(Doubled(c, 11), table2, a[11..], b[11..]);
  }

  /** On packed data the lookups multiply both lanes by c. */
  lemma HalfProductIs(c: Bits16, table1: seq<Bits16>, table2: seq<Bits32>, a: Bits16, b: Bits16)
    requires IsTables(c, table1, table2)
    ensures |table1| == 2048 && |table2| == 1024
    ensures HalfProduct(table1, table2, Prepare(Lanes2(a, b))) == Lanes2(Mul(Ring(), c, a), Mul(Ring(), c, b))
  {
    TableSizes(c, table1, table2);
    hide Multiple, Combine, Prepare, Mul, XorBits, IsMultiples, IsPairs, HalfProduct, Lanes2, Doubled, IsTables;
    PackedParts(a, b);
    Lookups(c, table1, table2, Prepare(Lanes2(a, b)), a, b);
    ProductSplit(c, a);
    ProductSplit(c, b);
    LaneSum(Combine(Ring(), c, a[..11]), Combine(Ring(), c, b[..11]), Combine(Ring(), Doubled(c, 11), a[11..]),
            Combine(Ring(), Doubled(c, 11), b[11..]));
  }

  // ---------------------------------------------------------------------- whole words

  function Prepare64(p: Bits64): Bits64 { Pair(Prepare(p[..32]), Prepare(p[32..])) }

  /** The loop body: the product of the low half, and that of the high half moved up. */
  function WordProduct(table1: seq<Bits16>, table2: seq<Bits32>, data: Bits64): Bits64
    requires |table1| == 2048 && |table2| == 1024
  {
    XorBits(Pair(HalfProduct(table1, table2, data[..32]), ZeroBits(32)),
            Pair(ZeroBits(32), HalfProduct(table1, table2, data[32..])))
  }

  /** Each of the four 16-bit words multiplied by c. */
  function Products(c: Bits16, p: Bits64): Bits64 {
    Lanes4(Mul(Ring(), c, Lane(p, 0)), Mul(Ring(), c, Lane(p, 1)), Mul(Ring(), c, Lane(p, 2)),
           Mul(Ring(), c, Lane(p, 3)))
  }

  lemma PairSides(x: Bits32, y: Bits32)
    ensures XorBits(Pair(x, ZeroBits(32)), Pair(ZeroBits(32), y)) == Pair(x, y) && Pair(x, y)[..32] == x
            && Pair(x, y)[32..] == y
  {
    var s, r := XorBits(Pair(x, ZeroBits(32)), Pair(ZeroBits(32), y)), Pair(x, y);
    forall i: nat | i < 64 ensures s[i] == r[i] {
      if i < 32 { assert r[i] == x[i]; } else { assert r[i] == y[i - 32]; }
    }
  }

  lemma HalvesAreLanes(p: Bits64)
    ensures p[..32] == Lanes2(Lane(p, 0), Lane(p, 1)) && p[32..] == Lanes2(Lane(p, 2), Lane(p, 3))
  {}

  /** Packing a word and looking it up multiplies each of its four 16-bit words. */
  lemma WordProductIs(c: Bits16, table1: seq<Bits16>, table2: seq<Bits32>, p: Bits64)
    requires IsTables(c, table1, table2)
    ensures WordProduct(table1, table2, Prepare64(p)) == Products(c, p)
  {
    hide HalfProduct, Prepare, Mul, XorBits, IsTables;
    TableSizes(c, table1, table2);
    PairSides(Prepare(p[..32]), Prepare(p[32..]));
    HalvesAreLanes(p);
    HalfProductIs(c, table1, table2, Lane(p, 0), Lane(p, 1));
    HalfProductIs(c, table1, table2, Lane(p, 2), Lane(p, 3));
    PairSides(HalfProduct(table1, table2, Prepare(p[..32])), HalfProduct(table1, table2, Prepare(p[32..])));
    PairHalves(Mul(Ring(), c, Lane(p, 0)), Mul(Ring(), c, Lane(p, 1)), Mul(Ring(), c, Lane(p, 2)),
               Mul(Ring(), c, Lane(p, 3)));
  }

  // ---------------------------------------------------------------------- the loop

  /** What a destination word becomes: the products with the words of the first n regions are added. */
  function Accumulated(coefficients: seq<Bits16>, regions: seq<seq<Bits64>>, k: nat, n: nat, base: Bits64): Bits64
    requires n <= |coefficients| == |regions| && forall r :: 0 <= r < n ==> k < |regions[r]|
    decreases n
  {
    if n == 0 then base
    else XorBits(Accumulated(coefficients, regions, k, n - 1, base), Products(coefficients[n - 1], regions[n - 1][k]))
  }

  lemma ProductsAdd(c: Bits16, e: Bits16, p: Bits64)
    ensures Products(XorBits(c, e), p) == XorBits(Products(c, p), Products(e, p))
  {
    hide Lane, Mul, XorBits;
    Ring16IsRing(Polynomial());
    MulDistributes(Ring(), c, e, Lane(p, 0));
    MulDistributes(Ring(), c, e, Lane(p, 1));
    MulDistributes(Ring(), c, e, Lane(p, 2));
    MulDistributes(Ring(), c, e, Lane(p, 3));
    LanesXor(Mul(Ring(), c, Lane(p, 0)), Mul(Ring(), c, Lane(p, 1)), Mul(Ring(), c, Lane(p, 2)),
             Mul(Ring(), c, Lane(p, 3)),
             Mul(Ring(), e, Lane(p, 0)), Mul(Ring(), e, Lane(p, 1)), Mul(Ring(), e, Lane(p, 2)),
             Mul(Ring(), e, Lane(p, 3)));
  }

  /** One region adds to each 16-bit word the field product of the coefficient with the source word, none adds
      nothing. */
  lemma AccumulatedOne(c: Bits16, region: seq<Bits64>, k: nat, base: Bits64, l: nat)
    requires k < |region| && l < 4
    ensures Accumulated([], [], k, 0, base) == base
    ensures Lane(Accumulated([c], [region], k, 1, base), l)
         == XorBits(Lane(base, l), Mul(Ring(), c, Lane(region[k], l)))
  {
    hide Products, XorBits, Lane, Mul;
    var p := region[k];
    assert Accumulated([c], [region], k, 1, base) == XorBits(Accumulated([c], [region], k, 0, base), Products(c, p));
    hide Accumulated;
    LaneOfSum(base, Products(c, p), l);
    LaneOfProducts(c, p, l);
  }

  lemma LaneOfProducts(c: Bits16, p: Bits64, l: nat)
    requires l < 4
    ensures Lane(Products(c, p), l) == Mul(Ring(), c, Lane(p, l))
  {
    var m0, m1, m2, m3 :=
        Mul(Ring(), c, Lane(p, 0)), Mul(Ring(), c, Lane(p, 1)), Mul(Ring(), c, Lane(p, 2)), Mul(Ring(), c, Lane(p, 3));
    LaneOf(m0, m1, m2, m3);
    hide Lane, Lanes4, Mul;
    if l == 0 { } else if l == 1 { } else if l == 2 { } else { assert l == 3; }
  }

  lemma LaneOfSum(p: Bits64, q: Bits64, l: nat)
    requires l < 4
    ensures Lane(XorBits(p, q), l) == XorBits(Lane(p, l), Lane(q, l))
  {}

  /** Adding to one coefficient adds its products with the words of that region: the sum is linear in every
      coefficient. */
  lemma {:induction false} AccumulatedLinear(coefficients: seq<Bits16>, regions: seq<seq<Bits64>>, k: nat, n: nat,
                                             base: Bits64, r: nat, e: Bits16)
    requires n <= |coefficients| == |regions| && (forall r :: 0 <= r < n ==> k < |regions[r]|) && r < |coefficients|
    ensures Accumulated(coefficients[r := XorBits(coefficients[r], e)], regions, k, n, base)
         == if r < n then XorBits(Accumulated(coefficients, regions, k, n, base), Products(e, regions[r][k]))
            else Accumulated(coefficients, regions, k, n, base)
    decreases n
  {
    hide Products, XorBits;
    if n > 0 {
      var a, p := Accumulated(coefficients, regions, k, n - 1, base), Products(coefficients[n - 1], regions[n - 1][k]);
      AccumulatedLinear(coefficients, regions, k, n - 1, base, r, e);
      if r < n - 1 {
        XorSwap(a, Products(e, regions[r][k]), p);
      } else if r == n - 1 {
        ProductsAdd(coefficients[r], e, regions[r][k]);
        XorBitsLaws(a, p, Products(e, regions[r][k]));
      }
    }
  }

  lemma XorSwap(a: Bits64, b: Bits64, c: Bits64)
    ensures XorBits(XorBits(a, b), c) == XorBits(XorBits(a, c), b)
  {}

  /** calc_2table */
  method Calc2Table(c: Bits16) returns (table1: array<Bits16>, table2: array<Bits32>)
    ensures fresh(table1) && fresh(table2) && IsTables(c, table1[..], table2[..])
  {
    hide IsMultiples, IsPairs, Doubled, Lanes4;
    table1 := new Bits16[2048](_ => ZeroBits(16));
    table2 := new Bits32[1024](_ => ZeroBits(32));
    var coefficient4 := BuildTable1(c, table1);
    BuildTable2(table2, Doubled(c, 11), coefficient4);
  }

  /** One region: every destination word takes the product with the packed source word. */
  method MulAddRegion(dst: array<Bits64>, c: Bits16, src: seq<Bits64>, ghost words: seq<Bits64>)
    requires |src| == dst.Length == |words| && forall k :: 0 <= k < |words| ==> src[k] == Prepare64(words[k])
    modifies dst
    ensures forall k :: 0 <= k < dst.Length ==> dst[k] == XorBits(old(dst[k]), Products(c, words[k]))
  {
    hide IsTables, WordProduct, Products, XorBits, Prepare64;
    var table1, table2 := Calc2Table(c);
    var t1, t2 := table1[..], table2[..];
    TableSizes(c, t1, t2);
    var k := 0;
    while k < dst.Length
      invariant 0 <= k <= dst.Length
      invariant forall i :: 0 <= i < k ==> dst[i] == XorBits(old(dst[i]), Products(c, words[i]))
      invariant forall i :: k <= i < dst.Length ==> dst[i] == old(dst[i])
    {
      WordProductIs(c, t1, t2, words[k]);
      dst[k] := XorBits(dst[k], WordProduct(t1, t2, src[k]));
      k := k + 1;
    }
  }

  lemma TableSizes(c: Bits16, table1: seq<Bits16>, table2: seq<Bits32>)
    requires IsTables(c, table1, table2)
    ensures |table1| == 2048 && |table2| == 1024
  {}

  /** gf16_lookup3_muladd_multi_packed: on packed sources, every 16-bit word of the destination takes the
      field sum of coefficient times source over all regions. */
  method MulAddMultiPacked(dst: array<Bits64>, coefficients: seq<Bits16>, src: seq<seq<Bits64>>,
                           ghost words: seq<seq<Bits64>>)
    requires |src| == |coefficients| == |words|
    requires forall r :: 0 <= r < |src| ==> |src[r]| == dst.Length == |words[r]|
    requires forall r, k :: 0 <= r < |src| && 0 <= k < dst.Length ==> src[r][k] == Prepare64(words[r][k])
    modifies dst
    ensures forall k :: 0 <= k < dst.Length ==>
            dst[k] == Accumulated(coefficients, words, k, |coefficients|, old(dst[k]))
  {
    hide Products, XorBits, Prepare64;
    var region := 0;
    while region < |coefficients|
      invariant 0 <= region <= |coefficients|
      invariant forall k :: 0 <= k < dst.Length ==> dst[k] == Accumulated(coefficients, words, k, region, old(dst[k]))
    {
      MulAddRegion(dst, coefficients[region], src[region], words[region]);
      region := region + 1;
    }
  }
}
