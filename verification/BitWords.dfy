/** Fixed-width machine words as lists of bits.

  Position i holds the coefficient of x^i. The three widths the program computes with are
  instances of one construction: the polynomials below x^n modulo a generator, of which `p`
  lists the coefficients of x^n reduced. */
module BitWords {
  import opened Arithmetic
  import opened BinaryAlgebra

  type Bits8 = b: seq<bool> | |b| == 8 witness seq(8, _ => false)
  type Bits16 = b: seq<bool> | |b| == 16 witness seq(16, _ => false)
  type Bits32 = b: seq<bool> | |b| == 32 witness seq(32, _ => false)

  function XorBits(a: seq<bool>, b: seq<bool>): (r: seq<bool>)
    requires |a| == |b|
    ensures |r| == |a|
    ensures forall i :: 0 <= i < |a| ==> r[i] == (a[i] != b[i])
  {
    seq(|a|, i requires 0 <= i < |a| => a[i] != b[i])
  }

  /** Multiply by x and reduce: the coefficient that leaves the word selects p. */
  function ShiftBits(p: seq<bool>, a: seq<bool>): (r: seq<bool>)
    requires |a| == |p| > 0
    ensures |r| == |a|
    ensures forall i :: 0 <= i < |a| ==> r[i] == ((i > 0 && a[i - 1]) != (a[|a| - 1] && p[i]))
  {
    seq(|a|, i requires 0 <= i < |a| => (i > 0 && a[i - 1]) != (a[|a| - 1] && p[i]))
  }

  /** The word for x^k. */
  function UnitBits(n: nat, k: nat): (r: seq<bool>)
    ensures |r| == n
    ensures forall i :: 0 <= i < n ==> r[i] == (i == k)
  {
    seq(n, i => i == k)
  }

  function ZeroBits(n: nat): (r: seq<bool>)
    ensures |r| == n
    ensures forall i :: 0 <= i < n ==> !r[i]
  {
    seq(n, _ => false)
  }

  /** The first k coefficients of a, the others cleared. */
  function Prefix(a: seq<bool>, k: nat): (r: seq<bool>)
    ensures |r| == |a|
    ensures forall i :: 0 <= i < |a| ==> r[i] == (i < k && a[i])
  {
    seq(|a|, i requires 0 <= i < |a| => i < k && a[i])
  }

  lemma XorBitsLaws(a: seq<bool>, b: seq<bool>, c: seq<bool>)
    requires |a| == |b| == |c|
    ensures XorBits(a, b) == XorBits(b, a)
    ensures XorBits(XorBits(a, b), c) == XorBits(a, XorBits(b, c))
    ensures XorBits(a, ZeroBits(|a|)) == a
    ensures XorBits(a, a) == ZeroBits(|a|)
  {}

  lemma ShiftBitsLinear(p: seq<bool>, a: seq<bool>, b: seq<bool>)
    requires |p| == |a| == |b| > 0
    ensures ShiftBits(p, XorBits(a, b)) == XorBits(ShiftBits(p, a), ShiftBits(p, b))
  {}

  /** If the generator has a constant term, the shift can be undone. */
  lemma ShiftBitsInjective(p: seq<bool>, a: seq<bool>, b: seq<bool>)
    requires |p| == |a| == |b| > 0 && p[0] && ShiftBits(p, a) == ShiftBits(p, b)
    ensures a == b
  {
    assert ShiftBits(p, a)[0] == a[|a| - 1] && ShiftBits(p, b)[0] == b[|a| - 1];
    forall i | 0 <= i < |a| - 1 ensures a[i] == b[i] {
      assert ShiftBits(p, a)[i + 1] == ShiftBits(p, b)[i + 1];
    }
  }

  lemma ShiftUnit(p: seq<bool>, k: nat)
    requires k + 1 < |p|
    ensures ShiftBits(p, UnitBits(|p|, k)) == UnitBits(|p|, k + 1)
  {}

  lemma PrefixStep(a: seq<bool>, k: nat)
    requires k < |a|
    ensures Prefix(a, k + 1) == XorBits(Prefix(a, k), if a[k] then UnitBits(|a|, k) else ZeroBits(|a|))
  {}

  // ---------------------------------------------------------------------- 8 coefficients

  function Ring8(p: Bits8): Words<Bits8> {
    var zero: Bits8 := ZeroBits(8);
    var one: Bits8 := UnitBits(8, 0);
    var xor: (Bits8, Bits8) -> Bits8 := (a: Bits8, b: Bits8) => XorBits(a, b);
    var shift: Bits8 -> Bits8 := (a: Bits8) => ShiftBits(p, a);
    var bits: Bits8 -> seq<bool> := (a: Bits8) => a;
    Words(zero, one, xor, shift, bits)
  }

  lemma Ring8Lawful(p: Bits8)
    ensures Lawful(Ring8(p))
  {
    var s := Ring8(p);
    forall a: Bits8, b: Bits8 ensures s.xor(a, b) == s.xor(b, a) { XorBitsLaws(a, b, b); }
    forall a: Bits8, b: Bits8, c: Bits8 ensures s.xor(s.xor(a, b), c) == s.xor(a, s.xor(b, c)) {
      XorBitsLaws(a, b, c);
    }
    forall a: Bits8 ensures s.xor(a, s.zero) == a && s.xor(a, a) == s.zero { XorBitsLaws(a, a, a); }
    forall a: Bits8, b: Bits8 ensures s.shift(s.xor(a, b)) == s.xor(s.shift(a), s.shift(b)) {
      ShiftBitsLinear(p, a, b);
    }
  }

  /** Below x^8 nothing is reduced. */
  lemma {:induction false} Power8(p: Bits8, k: nat)
    requires k < 8
    ensures Power(Ring8(p), k) == UnitBits(8, k)
  {
    if k > 0 {
      Power8(p, k - 1);
      ShiftUnit(p, k - 1);
    }
  }

  lemma Ring8IsRing(p: Bits8)
    ensures IsRing(Ring8(p))
  {
    var s := Ring8(p);
    Ring8Lawful(p);
    forall a: Bits8 ensures Combine(s, s.one, s.bits(a)) == a {
      var acc: nat -> Bits8 := (k: nat) => Prefix(a, k);
      assert acc(0) == s.zero;
      forall i: nat | i < 8
        ensures acc(i + 1) == s.xor(acc(i), Scale(s, a[i], Iterate(s, s.one, i)))
      {
        Power8(p, i);
        PrefixStep(a, i);
      }
      CombineAccumulates(s, s.one, a, acc, 8);
      assert a[..8] == a && Prefix(a, 8) == a;
    }
  }

  // ---------------------------------------------------------------------- 16 coefficients

  function Ring16(p: Bits16): Words<Bits16> {
    var zero: Bits16 := ZeroBits(16);
    var one: Bits16 := UnitBits(16, 0);
    var xor: (Bits16, Bits16) -> Bits16 := (a: Bits16, b: Bits16) => XorBits(a, b);
    var shift: Bits16 -> Bits16 := (a: Bits16) => ShiftBits(p, a);
    var bits: Bits16 -> seq<bool> := (a: Bits16) => a;
    Words(zero, one, xor, shift, bits)
  }

  lemma Ring16Lawful(p: Bits16)
    ensures Lawful(Ring16(p))
  {
    var s := Ring16(p);
    forall a: Bits16, b: Bits16 ensures s.xor(a, b) == s.xor(b, a) { XorBitsLaws(a, b, b); }
    forall a: Bits16, b: Bits16, c: Bits16 ensures s.xor(s.xor(a, b), c) == s.xor(a, s.xor(b, c)) {
      XorBitsLaws(a, b, c);
    }
    forall a: Bits16 ensures s.xor(a, s.zero) == a && s.xor(a, a) == s.zero { XorBitsLaws(a, a, a); }
    forall a: Bits16, b: Bits16 ensures s.shift(s.xor(a, b)) == s.xor(s.shift(a), s.shift(b)) {
      ShiftBitsLinear(p, a, b);
    }
  }

  /** Below x^16 nothing is reduced. */
  lemma {:induction false} Power16(p: Bits16, k: nat)
    requires k < 16
    ensures Power(Ring16(p), k) == UnitBits(16, k)
  {
    if k > 0 {
      Power16(p, k - 1);
      ShiftUnit(p, k - 1);
    }
  }

  lemma Ring16IsRing(p: Bits16)
    ensures IsRing(Ring16(p))
  {
    var s := Ring16(p);
    Ring16Lawful(p);
    forall a: Bits16 ensures Combine(s, s.one, s.bits(a)) == a {
      var acc: nat -> Bits16 := (k: nat) => Prefix(a, k);
      assert acc(0) == s.zero;
      forall i: nat | i < 16
        ensures acc(i + 1) == s.xor(acc(i), Scale(s, a[i], Iterate(s, s.one, i)))
      {
        Power16(p, i);
        PrefixStep(a, i);
      }
      CombineAccumulates(s, s.one, a, acc, 16);
      assert a[..16] == a && Prefix(a, 16) == a;
    }
  }

  // ---------------------------------------------------------------------- 32 coefficients

  function Ring32(p: Bits32): Words<Bits32> {
    var zero: Bits32 := ZeroBits(32);
    var one: Bits32 := UnitBits(32, 0);
    var xor: (Bits32, Bits32) -> Bits32 := (a: Bits32, b: Bits32) => XorBits(a, b);
    var shift: Bits32 -> Bits32 := (a: Bits32) => ShiftBits(p, a);
    var bits: Bits32 -> seq<bool> := (a: Bits32) => a;
    Words(zero, one, xor, shift, bits)
  }

  lemma Ring32Lawful(p: Bits32)
    ensures Lawful(Ring32(p))
  {
    var s := Ring32(p);
    forall a: Bits32, b: Bits32 ensures s.xor(a, b) == s.xor(b, a) { XorBitsLaws(a, b, b); }
    forall a: Bits32, b: Bits32, c: Bits32 ensures s.xor(s.xor(a, b), c) == s.xor(a, s.xor(b, c)) {
      XorBitsLaws(a, b, c);
    }
    forall a: Bits32 ensures s.xor(a, s.zero) == a && s.xor(a, a) == s.zero { XorBitsLaws(a, a, a); }
    forall a: Bits32, b: Bits32 ensures s.shift(s.xor(a, b)) == s.xor(s.shift(a), s.shift(b)) {
      ShiftBitsLinear(p, a, b);
    }
  }

  /** Below x^32 nothing is reduced. */
  lemma {:induction false} Power32(p: Bits32, k: nat)
    requires k < 32
    ensures Power(Ring32(p), k) == UnitBits(32, k)
  {
    if k > 0 {
      Power32(p, k - 1);
      ShiftUnit(p, k - 1);
    }
  }

  lemma Ring32IsRing(p: Bits32)
    ensures IsRing(Ring32(p))
  {
    var s := Ring32(p);
    Ring32Lawful(p);
    forall a: Bits32 ensures Combine(s, s.one, s.bits(a)) == a {
      var acc: nat -> Bits32 := (k: nat) => Prefix(a, k);
      assert acc(0) == s.zero;
      forall i: nat | i < 32
        ensures acc(i + 1) == s.xor(acc(i), Scale(s, a[i], Iterate(s, s.one, i)))
      {
        Power32(p, i);
        PrefixStep(a, i);
      }
      CombineAccumulates(s, s.one, a, acc, 32);
      assert a[..32] == a && Prefix(a, 32) == a;
    }
  }

  // ------------------------------------------------------------------ words as numbers

  /** The number a list of bits stands for, least significant bit first. */
  function Number(bits: seq<bool>): nat {
    if bits == [] then 0 else (if bits[0] then 1 else 0) + 2 * Number(bits[1..])
  }

  function FromNumber(v: nat, n: nat): (r: seq<bool>)
    ensures |r| == n
  {
    if n == 0 then [] else [v % 2 == 1] + FromNumber(v / 2, n - 1)
  }

  lemma {:induction false} NumberBound(bits: seq<bool>)
    ensures Number(bits) < Pow2(|bits|)
  {
    if bits != [] { NumberBound(bits[1..]); }
  }

  lemma {:induction false} FromNumberInverse(bits: seq<bool>)
    ensures FromNumber(Number(bits), |bits|) == bits
  {
    if bits != [] { FromNumberInverse(bits[1..]); }
  }

  function AndBits(a: seq<bool>, b: seq<bool>): (r: seq<bool>)
    requires |a| == |b|
    ensures |r| == |a| && forall i :: 0 <= i < |a| ==> r[i] == (a[i] && b[i])
  {
    seq(|a|, i requires 0 <= i < |a| => a[i] && b[i])
  }

  /** Masking with a power of two less one is the remainder by that power. */
  lemma MaskIsRemainder(bits: seq<bool>, n: nat)
    requires n <= |bits|
    ensures Number(AndBits(bits, FromNumber(Pow2(n) - 1, |bits|))) == Number(bits) % Pow2(n)
  {
    MaskIsRem(bits, n);
    QuotIs(Number(bits), Pow2(n));
  }

  lemma {:induction false} MaskIsRem(bits: seq<bool>, n: nat)
    requires n <= |bits|
    ensures Number(AndBits(bits, FromNumber(Pow2(n) - 1, |bits|))) == Rem(Number(bits), Pow2(n))
  {
    if bits == [] {
      assert Pow2(n) == 1;
    } else {
      MaskIsRem(bits[1..], if n == 0 then 0 else n - 1);
      AndTail(bits, FromNumber(Pow2(n) - 1, |bits|));
      OneBit(bits, n);
    }
  }

  /** The remainder and the mask, one bit further. */
  lemma OneBit(bits: seq<bool>, n: nat)
    requires bits != []
    ensures var m := if n == 0 then 0 else n - 1;
            && Rem(Number(bits), Pow2(n)) == (if bits[0] && n > 0 then 1 else 0) + 2 * Rem(Number(bits[1..]), Pow2(m))
            && FromNumber(Pow2(n) - 1, |bits|) == [n > 0] + FromNumber(Pow2(m) - 1, |bits| - 1)
  {
    hide Rem;
    MaskHalves(n);
    if n == 0 {
      RemOne(Number(bits));
      RemOne(Number(bits[1..]));
    } else {
      var rest, p := Number(bits[1..]), Pow2(n - 1);
      assert Pow2(n) == 2 * p;
      hide Pow2, FromNumber;
      TwiceRem(rest, p, if bits[0] then 1 else 0);
    }
  }

  lemma MaskHalves(n: nat)
    ensures (Pow2(n) - 1) / 2 == Pow2(if n == 0 then 0 else n - 1) - 1 && ((Pow2(n) - 1) % 2 == 1 <==> n > 0)
  {}

  lemma AndTail(a: seq<bool>, b: seq<bool>)
    requires |a| == |b| > 0
    ensures Number(AndBits(a, b)) == (if a[0] && b[0] then 1 else 0) + 2 * Number(AndBits(a[1..], b[1..]))
  {
    assert AndBits(a, b)[1..] == AndBits(a[1..], b[1..]);
  }

  lemma {:induction false} RemOne(x: nat)
    ensures Rem(x, 1) == 0
  {
    if x > 0 { RemOne(x - 1); }
  }

  lemma {:induction false} TwiceRem(x: nat, m: nat, b: nat)
    requires m > 0 && b < 2
    ensures Rem(b + 2 * x, 2 * m) == b + 2 * Rem(x, m)
    decreases x
  {
    if x >= m { TwiceRem(x - m, m, b); }
  }
}
