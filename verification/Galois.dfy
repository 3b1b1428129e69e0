/** Log and antilog tables: include/par2/galois.h:134-314. */
module GaloisTables {
  import opened BinaryAlgebra
  import opened LinearAlgebra
  import opened Options

  /** `limit` is one less than the number of values; log[0] and antilog[limit] are placeholders. */
  datatype Table<!T> = Table(limit: nat, log: map<T, nat>, antilog: seq<T>)

  // ---------------------------------------------------------------------- the doubling loop

  /** The doubling loop, run `limit` times from one, meets every nonzero value. */
  ghost predicate Visits<T(!new)>(s: Words<T>, limit: nat) {
    forall a :: a != s.zero ==> Reaches(s, limit, a)
  }

  ghost predicate Reaches<T(!new)>(s: Words<T>, limit: nat, a: T) {
    exists l :: 0 <= l < limit && Power(s, l) == a
  }

  /** The values met in the first n rounds. */
  ghost function Met<T(!new)>(s: Words<T>, n: nat): set<T> {
    set l | 0 <= l < n :: Power(s, l)
  }

  /** n rounds meet at most n values. */
  lemma {:induction false} MetAtMost<T(!new)>(s: Words<T>, n: nat)
    ensures |Met(s, n)| <= n
  {
    if n > 0 {
      MetAtMost(s, n - 1);
      assert Met(s, n) == Met(s, n - 1) + {Power(s, n - 1)};
    }
  }

  lemma {:induction false} MetRepeats<T(!new)>(s: Words<T>, n: nat, i: nat, j: nat)
    requires i < j < n && Power(s, i) == Power(s, j)
    ensures |Met(s, n)| < n
  {
    if n == j + 1 {
      MetAtMost(s, j);
      assert Power(s, i) in Met(s, j);
      assert Met(s, n) == Met(s, j);
    } else {
      MetRepeats(s, n - 1, i, j);
      assert Met(s, n) == Met(s, n - 1) + {Power(s, n - 1)};
    }
  }

  ghost predicate Injective<T(!new)>(s: Words<T>) {
    forall a :: s.shift(a) == s.zero ==> a == s.zero
  }

  lemma ShiftCancels<T(!new)>(s: Words<T>, a: T, b: T)
    requires Lawful(s) && Injective(s) && s.shift(a) == s.shift(b)
    ensures a == b
  {
    assert s.shift(s.xor(a, b)) == s.xor(s.shift(a), s.shift(b)) == s.zero;
    assert s.xor(a, b) == s.zero;
    calc { a; s.xor(a, s.zero); s.xor(a, s.xor(b, b)); s.xor(s.xor(a, b), b); s.xor(s.zero, b); s.xor(b, s.zero); b; }
  }

  /** Meeting `limit` values in `limit` rounds leaves no room for meeting one twice. */
  lemma NoRepeat<T(!new)>(s: Words<T>, limit: nat, nonzero: set<T>, i: nat, j: nat)
    requires Visits(s, limit) && |nonzero| == limit && s.zero !in nonzero && i < j < limit
    ensures Power(s, i) != Power(s, j)
  {
    forall a | a in nonzero ensures a in Met(s, limit) {
      assert Reaches(s, limit, a);
    }
    Subset(nonzero, Met(s, limit));
    if Power(s, i) == Power(s, j) {
      MetRepeats(s, limit, i, j);
    }
  }

  lemma StepBack<T(!new)>(s: Words<T>, i: nat, j: nat)
    requires Lawful(s) && Injective(s) && 0 < i && 0 < j && Power(s, i) == Power(s, j)
    ensures Power(s, i - 1) == Power(s, j - 1)
  {
    ShiftCancels(s, Power(s, i - 1), Power(s, j - 1));
  }

  /** A loop that meets all of `limit` nonzero values in `limit` rounds is back at one after them. */
  lemma ReturnsToOne<T(!new)>(s: Words<T>, limit: nat, nonzero: set<T>)
    requires Lawful(s) && Injective(s) && s.one != s.zero
    requires Visits(s, limit) && |nonzero| == limit > 0 && s.zero !in nonzero
    ensures Power(s, limit) == s.one
  {
    PowerNonzero(s, limit);
    assert Reaches(s, limit, Power(s, limit));
    var j :| 0 <= j < limit && Power(s, j) == Power(s, limit);
    if j > 0 {
      StepBack(s, j, limit);
      NoRepeat(s, limit, nonzero, j - 1, limit - 1);
    }
  }

  lemma {:induction false} PowerNonzero<T(!new)>(s: Words<T>, n: nat)
    requires s.one != s.zero && Injective(s)
    ensures Power(s, n) != s.zero
  {
    if n > 0 { PowerNonzero(s, n - 1); }
  }

  lemma {:induction false} Subset<T>(a: set<T>, b: set<T>)
    requires a <= b
    ensures |a| <= |b|
  {
    if a != {} {
      var x :| x in a;
      Subset(a - {x}, b - {x});
    }
  }

  lemma {:induction false} MetDistinct<T(!new)>(s: Words<T>, n: nat)
    requires forall i, j :: 0 <= i < j < n ==> Power(s, i) != Power(s, j)
    ensures |Met(s, n)| == n
  {
    if n > 0 {
      MetDistinct(s, n - 1);
      assert Power(s, n - 1) !in Met(s, n - 1);
      assert Met(s, n) == Met(s, n - 1) + {Power(s, n - 1)};
    }
  }

  lemma {:induction false} StepBackAll<T(!new)>(s: Words<T>, i: nat, j: nat)
    requires Lawful(s) && Injective(s) && i <= j && Power(s, i) == Power(s, j)
    ensures Power(s, j - i) == s.one
  {
    if i > 0 {
      StepBack(s, i, j);
      StepBackAll(s, i - 1, j - 1);
    }
  }

  /** A loop that is not back at one before `limit` rounds meets all of at most `limit` values. */
  lemma FullOrder<T(!new)>(s: Words<T>, limit: nat, nonzero: set<T>)
    requires Lawful(s) && Injective(s) && s.one != s.zero
    requires forall d :: 0 < d < limit ==> Power(s, d) != s.one
    requires |nonzero| <= limit && forall a :: a != s.zero ==> a in nonzero
    ensures Visits(s, limit)
  {
    forall i, j | 0 <= i < j < limit ensures Power(s, i) != Power(s, j) {
      if Power(s, i) == Power(s, j) {
        StepBackAll(s, i, j);
      }
    }
    MetDistinct(s, limit);
    forall a | a in Met(s, limit) ensures a in nonzero {
      var l :| 0 <= l < limit && a == Power(s, l);
      PowerNonzero(s, l);
    }
    Same(Met(s, limit), nonzero);
    forall a | a != s.zero ensures Reaches(s, limit, a) {
      assert a in Met(s, limit);
    }
  }

  lemma Same<T>(a: set<T>, b: set<T>)
    requires a <= b && |b| <= |a|
    ensures a == b
  {
    Subset(a, b);
    if x :| x in b && x !in a {
      Subset(a, b - {x});
    }
  }

  // ---------------------------------------------------------------------- the tables

  /** The tables know every value: antilog lists the powers of x and log inverts it. */
  ghost predicate Complete<T(!new)>(s: Words<T>, t: Table<T>) {
    && t.limit > 0 && |t.antilog| == t.limit + 1 && s.zero in t.log
    && (forall l :: 0 <= l < t.limit ==> t.antilog[l] == Power(s, l))
    && (forall a {:trigger t.log[a]} {:trigger a in t.log} :: a != s.zero ==>
        a in t.log && t.log[a] < t.limit && Power(s, t.log[a]) == a)
  }

  /** The first `limit` powers are different from each other and from zero. */
  ghost predicate Distinct<T(!new)>(s: Words<T>, limit: nat) {
    && (forall l :: 0 <= l < limit ==> Power(s, l) != s.zero)
    && (forall i, j :: 0 <= i < j < limit ==> Power(s, i) != Power(s, j))
  }

  method BuildTable<T(!new,==)>(s: Words<T>, limit: nat) returns (t: Table<T>)
    ensures t.limit == limit && |t.antilog| == limit + 1
    ensures forall l :: 0 <= l < limit ==> t.antilog[l] == Power(s, l)
    ensures s.zero in t.log && t.log[s.zero] == limit && t.antilog[limit] == s.zero
    ensures limit > 0 && Visits(s, limit) ==> Complete(s, t)
    ensures Distinct(s, limit) ==> forall l :: 0 <= l < limit ==> t.antilog[l] in t.log && t.log[t.antilog[l]] == l
  {
    var log: map<T, nat>, antilog: seq<T> := map[], [];
    var b, l := s.one, 0;
    while l < limit
      invariant 0 <= l <= limit && b == Power(s, l)
      invariant |antilog| == l && forall i :: 0 <= i < l ==> antilog[i] == Power(s, i)
      invariant forall i {:trigger Power(s, i)} :: 0 <= i < l ==> Power(s, i) in log
      invariant forall a :: a in log ==> log[a] < l && Power(s, log[a]) == a
    {
      log := log[b := l];
      antilog := antilog + [b];
      b := s.shift(b);
      l := l + 1;
    }
    t := Table(limit, log[s.zero := limit], antilog + [s.zero]);
    if Visits(s, limit) {
      forall a | a != s.zero ensures a in t.log && t.log[a] < t.limit && Power(s, t.log[a]) == a {
        assert Reaches(s, limit, a);
      }
    }
    if Distinct(s, limit) {
      forall l | 0 <= l < limit ensures t.antilog[l] in t.log && t.log[t.antilog[l]] == l {
        assert Power(s, l) in log && Power(s, log[Power(s, l)]) == Power(s, l);
      }
    }
  }

  // ---------------------------------------------------------------------- arithmetic by tables

  function Multiply<T(!new)>(s: Words<T>, t: Table<T>, a: T, b: T): T
    requires Complete(s, t)
  {
    if a == s.zero || b == s.zero then s.zero
    else
      var sum := t.log[a] + t.log[b];
      if sum >= t.limit then t.antilog[sum - t.limit] else t.antilog[sum]
  }

  function Divide<T(!new)>(s: Words<T>, t: Table<T>, a: T, b: T): T
    requires Complete(s, t)
  {
    if a == s.zero then s.zero
    else if b == s.zero then s.zero
    else
      var sum := t.log[a] as int - t.log[b];
      if sum < 0 then t.antilog[sum + t.limit] else t.antilog[sum]
  }

  /** The high part of a sum added to its low part; the number of values is limit + 1. */
  function Fold(limit: nat, sum: nat): nat
    requires limit > 0
  {
    sum / (limit + 1) + sum % (limit + 1)
  }

  /** None stands for an index beyond the table. */
  function Pow<T(!new)>(s: Words<T>, t: Table<T>, a: T, n: nat): Option<T>
    requires Complete(s, t)
  {
    if n == 0 then Some(s.one)
    else if a == s.zero then Some(s.zero)
    else
      var sum := Fold(t.limit, t.log[a] * n);
      var index := if sum >= t.limit then sum - t.limit else sum;
      if index < |t.antilog| then Some(t.antilog[index]) else None
  }

  lemma PowerWrap<T(!new)>(s: Words<T>, limit: nat, n: nat)
    requires Power(s, limit) == s.one
    ensures Power(s, n + limit) == Power(s, n)
  {
    IterateAdd(s, s.one, limit, n);
  }

  lemma MulZeroWord<T(!new)>(s: Words<T>, a: T)
    requires IsRing(s)
    ensures Mul(s, a, s.zero) == s.zero == Mul(s, s.zero, a)
  {
    CombineZero(s, s.bits(a));
    MulCommutes(s, a, s.zero);
  }

  /** Multiplying through the tables is polynomial multiplication modulo the generator. */
  lemma MultiplyCorrect<T(!new)>(s: Words<T>, t: Table<T>, a: T, b: T)
    requires IsRing(s) && Complete(s, t) && Power(s, t.limit) == s.one
    ensures Multiply(s, t, a, b) == Mul(s, a, b)
  {
    if a == s.zero {
      MulZeroWord(s, b);
    } else if b == s.zero {
      MulZeroWord(s, a);
    } else {
      var sum := t.log[a] + t.log[b];
      PowerAdd(s, t.log[a], t.log[b]);
      if sum >= t.limit {
        PowerWrap(s, t.limit, sum - t.limit);
      }
    }
  }

  /** Dividing through the tables undoes that multiplication. */
  lemma DivideCorrect<T(!new)>(s: Words<T>, t: Table<T>, a: T, b: T)
    requires IsRing(s) && Complete(s, t) && Power(s, t.limit) == s.one && b != s.zero
    ensures Mul(s, Divide(s, t, a, b), b) == a
    ensures a != s.zero ==> Divide(s, t, a, b) != s.zero
  {
    if a == s.zero {
      MulZeroWord(s, b);
    } else {
      var sum := t.log[a] as int - t.log[b];
      if sum < 0 {
        PowerAdd(s, sum + t.limit, t.log[b]);
        PowerWrap(s, t.limit, t.log[a]);
      } else {
        PowerAdd(s, sum, t.log[b]);
      }
      MulZeroWord(s, b);
    }
  }

  /** The tables carry a field. */
  function TableField<T(!new)>(s: Words<T>, t: Table<T>): Field<T>
    requires Complete(s, t)
  {
    Field(s.zero, s.one, s.xor, (a, b) => Multiply(s, t, a, b), (a, b) => Divide(s, t, a, b))
  }

  lemma TableIsField<T(!new)>(s: Words<T>, t: Table<T>)
    requires IsRing(s) && Complete(s, t) && Power(s, t.limit) == s.one != s.zero
    ensures IsField(TableField(s, t))
  {
    var f := TableField(s, t);
    forall a, b ensures f.mul(a, b) == Mul(s, a, b) { MultiplyCorrect(s, t, a, b); }
    forall a, b ensures f.mul(a, b) == f.mul(b, a) { MulCommutes(s, a, b); }
    forall a, b, c ensures f.mul(f.mul(a, b), c) == f.mul(a, f.mul(b, c)) { MulAssociates(s, a, b, c); }
    forall a ensures f.mul(a, f.one) == a { MulOne(s, a); }
    forall a, b, c ensures f.mul(f.add(a, b), c) == f.add(f.mul(a, c), f.mul(b, c)) { MulDistributes(s, a, b, c); }
    forall a, p | p != f.zero ensures f.mul(f.div(a, p), p) == a { DivideCorrect(s, t, a, p); }
    forall a, p | p != f.zero ensures f.div(f.mul(a, p), p) == a { QuotientUnique(s, t, a, p); }
  }

  lemma QuotientUnique<T(!new)>(s: Words<T>, t: Table<T>, a: T, p: T)
    requires IsRing(s) && Complete(s, t) && Power(s, t.limit) == s.one && p != s.zero
    ensures Divide(s, t, Multiply(s, t, a, p), p) == a
  {
    MultiplyCorrect(s, t, a, p);
    var m := Mul(s, a, p);
    var q := Divide(s, t, m, p);
    var inverse := Divide(s, t, s.one, p);
    DivideCorrect(s, t, m, p);
    DivideCorrect(s, t, s.one, p);
    MulCommutes(s, p, inverse);
    MulAssociates(s, a, p, inverse);
    MulAssociates(s, q, p, inverse);
    MulOne(s, a);
    MulOne(s, q);
  }

  // ---------------------------------------------------------------------- powers

  /** Repeated multiplication. */
  function Raise<T>(s: Words<T>, a: T, n: nat): T {
    if n == 0 then s.one else Mul(s, Raise(s, a, n - 1), a)
  }

  lemma {:induction false} RaisePower<T(!new)>(s: Words<T>, l: nat, n: nat)
    requires IsRing(s)
    ensures Raise(s, Power(s, l), n) == Power(s, l * n)
  {
    if n == 0 {
      assert l * n == 0;
    } else {
      RaisePower(s, l, n - 1);
      PowerAdd(s, l * (n - 1), l);
      assert l * (n - 1) + l == l * n;
    }
  }

  lemma {:induction false} PowerWraps<T(!new)>(s: Words<T>, limit: nat, n: nat, k: nat)
    requires Power(s, limit) == s.one
    ensures Power(s, n + k * limit) == Power(s, n)
    decreases k
  {
    if k > 0 {
      PowerWraps(s, limit, n, k - 1);
      PowerWrap(s, limit, n + (k - 1) * limit);
      assert n + (k - 1) * limit + limit == n + k * limit;
    }
  }

  /** Folding a sum once does not change the power it stands for. */
  lemma FoldPower<T(!new)>(s: Words<T>, limit: nat, sum: nat)
    requires limit > 0 && Power(s, limit) == s.one
    ensures Power(s, sum) == Power(s, Fold(limit, sum))
  {
    var q := sum / (limit + 1);
    assert sum == Fold(limit, sum) + q * limit;
    PowerWraps(s, limit, Fold(limit, sum), q);
  }

  lemma AtMostProduct(a: nat, b: nat, c: nat, d: nat)
    requires a <= c && b <= d
    ensures a * b <= c * d
  {
    assert a * b <= c * b <= c * d;
  }

  lemma PartsBound(limit: nat, q: nat, r: nat)
    requires limit > 0 && r <= limit && q * (limit + 1) + r <= (limit - 1) * limit
    ensures q + r < 2 * limit
  {
    if q >= limit - 1 {
      AtMostProduct(limit - 1, limit + 1, q, limit + 1);
      assert (limit - 1) * (limit + 1) == (limit - 1) * limit + (limit - 1);
    }
  }

  lemma FoldBound(limit: nat, log: nat, n: nat)
    requires log < limit && n <= limit
    ensures Fold(limit, log * n) < 2 * limit
  {
    AtMostProduct(log, n, limit - 1, limit);
    PartsBound(limit, log * n / (limit + 1), log * n % (limit + 1));
  }

  /** The table power equals repeated multiplication exactly when one fold leaves less than twice
      the limit. */
  lemma PowCorrect<T(!new)>(s: Words<T>, t: Table<T>, a: T, n: nat)
    requires IsRing(s) && Complete(s, t) && Power(s, t.limit) == s.one != s.zero && t.antilog[t.limit] == s.zero
             && Injective(s)
    ensures Pow(s, t, a, n) == Some(Raise(s, a, n))
            <==> n == 0 || a == s.zero || Fold(t.limit, t.log[a] * n) < 2 * t.limit
  {
    if n != 0 {
      if a == s.zero {
        MulZeroWord(s, Raise(s, a, n - 1));
      } else {
        var sum := Fold(t.limit, t.log[a] * n);
        RaisePower(s, t.log[a], n);
        FoldPower(s, t.limit, t.log[a] * n);
        if sum >= t.limit {
          PowerWrap(s, t.limit, sum - t.limit);
        }
        PowerNonzero(s, sum);
      }
    }
  }

  /** In particular for every exponent up to the limit. */
  lemma PowUpToLimit<T(!new)>(s: Words<T>, t: Table<T>, a: T, n: nat)
    requires IsRing(s) && Complete(s, t) && Power(s, t.limit) == s.one != s.zero && t.antilog[t.limit] == s.zero
             && Injective(s)
    requires n <= t.limit
    ensures Pow(s, t, a, n) == Some(Raise(s, a, n))
  {
    if a != s.zero {
      FoldBound(t.limit, t.log[a], n);
    }
    PowCorrect(s, t, a, n);
  }

  /** With at most 16 bits and a 16-bit exponent the product of logarithm and exponent fits 32 bits. */
  lemma ProductFits<T(!new)>(s: Words<T>, t: Table<T>, a: T, n: nat)
    requires Complete(s, t) && t.limit <= 0xffff && n <= 0xffff && a != s.zero
    ensures t.log[a] * n < 0x1_0000_0000
  {
    AtMostProduct(t.log[a], n, 0xffff, 0xffff);
  }

  /** A value on which the table power fails: one fold of 85 * 771 leaves 510, and the placeholder behind the
      logarithms is returned where the power is one. */
  lemma PowFails<T(!new)>(s: Words<T>, t: Table<T>, a: T)
    requires IsRing(s) && Complete(s, t) && Power(s, t.limit) == s.one != s.zero && t.antilog[t.limit] == s.zero
    requires t.limit == 255 && a != s.zero && t.log[a] == 85
    ensures Pow(s, t, a, 771) == Some(s.zero) && Raise(s, a, 771) == s.one
  {
    assert Fold(255, 85 * 771) == 510;
    RaisePower(s, 85, 771);
    PowerWraps(s, 255, 0, 257);
  }

  // ---------------------------------------------------------------------- a field from the loop alone

  /** A loop that meets all nonzero values meets each once. */
  lemma VisitsDistinct<T(!new)>(s: Words<T>, limit: nat, nonzero: set<T>)
    requires Visits(s, limit) && |nonzero| == limit && forall a :: a in nonzero <==> a != s.zero
    ensures Distinct(s, limit)
  {
    forall a | a in nonzero ensures a in Met(s, limit) { assert Reaches(s, limit, a); }
    MetAtMost(s, limit);
    Same(nonzero, Met(s, limit));
    forall l | 0 <= l < limit ensures Power(s, l) != s.zero { assert Power(s, l) in Met(s, limit); }
    forall i, j | 0 <= i < j < limit ensures Power(s, i) != Power(s, j) { NoRepeat(s, limit, nonzero, i, j); }
  }

  lemma {:induction false} ZeroAfter<T(!new)>(s: Words<T>, k: nat, n: nat)
    requires Lawful(s) && Power(s, k) == s.zero && k <= n
    ensures Power(s, n) == s.zero
  {
    if k < n {
      ZeroAfter(s, k, n - 1);
      ShiftZero(s);
    }
  }

  /** Where the next power is zero, multiplying by 1 + x changes nothing. */
  lemma OnePlusX<T(!new)>(s: Words<T>, n: nat)
    requires IsRing(s) && Power(s, n + 1) == s.zero
    ensures Mul(s, s.xor(s.one, Power(s, 1)), Power(s, n)) == Power(s, n)
  {
    hide Mul, Power;
    MulDistributes(s, s.one, Power(s, 1), Power(s, n));
    MulOne(s, Power(s, n));
    PowerAdd(s, 1, n);
    assert s.xor(Power(s, n), s.zero) == Power(s, n);
  }

  lemma Logarithm<T(!new)>(s: Words<T>, limit: nat, a: T) returns (l: nat)
    requires Visits(s, limit) && a != s.zero
    ensures l < limit && Power(s, l) == a
  {
    assert Reaches(s, limit, a);
    l :| 0 <= l < limit && Power(s, l) == a;
  }

  lemma FirstPowers<T(!new)>(s: Words<T>, limit: nat)
    requires Distinct(s, limit) && limit > 1
    ensures Power(s, 0) == s.one != Power(s, 1) && Power(s, 1) != s.zero && Power(s, limit - 1) != s.zero
  {}

  /** If x were nilpotent then 1 + x, which is a power of x, would be both a unit and nilpotent. */
  lemma NotNilpotent<T(!new)>(s: Words<T>, limit: nat)
    requires IsRing(s) && Visits(s, limit) && Distinct(s, limit) && limit > 1
    ensures Power(s, limit) != s.zero
  {
    hide Mul, Power, Visits, Distinct, Additive, Linear, Unital;
    FirstPowers(s, limit);
    if Power(s, limit) == s.zero {
      var sum := s.xor(s.one, Power(s, 1));
      if sum == s.zero { SumZeroWord(s, s.one, Power(s, 1)); }
      var j := Logarithm(s, limit, sum);
      OnePlusX(s, limit - 1);
      PowerAdd(s, j, limit - 1);
      if j == 0 {
        SumOne(s, Power(s, 1));
      } else {
        ZeroAfter(s, limit, j + limit - 1);
      }
      assert false;
    }
  }

  lemma SumZeroWord<T(!new)>(s: Words<T>, a: T, b: T)
    requires Lawful(s) && s.xor(a, b) == s.zero
    ensures a == b
  {
    calc { a; s.xor(a, s.zero); s.xor(a, s.xor(b, b)); s.xor(s.xor(a, b), b); s.xor(s.zero, b); s.xor(b, s.zero); b; }
  }

  lemma SumOne<T(!new)>(s: Words<T>, x: T)
    requires Lawful(s) && s.xor(s.one, x) == s.one
    ensures x == s.zero
  {
    calc { x; s.xor(x, s.zero); s.xor(s.zero, x); s.xor(s.xor(s.one, s.one), x); s.xor(s.one, s.xor(s.one, x));
      s.xor(s.one, s.one); s.zero; }
  }

  lemma VisitsInjective<T(!new)>(s: Words<T>, limit: nat)
    requires IsRing(s) && Visits(s, limit) && Distinct(s, limit) && limit > 1
    ensures Injective(s)
  {
    hide Visits, Distinct, Additive, Linear, Unital;
    NotNilpotent(s, limit);
    forall a | s.shift(a) == s.zero ensures a == s.zero {
      if a != s.zero {
        var k := Logarithm(s, limit, a);
        ZeroAfter(s, k + 1, limit);
        assert false;
      }
    }
  }

  /** If the doubling loop, run as often as there are nonzero values, meets them all, then the tables carry a field.
      Only for words of one bit does that also need a shift that is injective. */
  lemma VisitsIsField<T(!new)>(s: Words<T>, t: Table<T>, nonzero: set<T>)
    requires IsRing(s) && Complete(s, t) && |nonzero| == t.limit && forall a :: a in nonzero <==> a != s.zero
    requires t.limit > 1 || Injective(s)
    ensures Power(s, t.limit) == s.one != s.zero && Injective(s) && IsField(TableField(s, t))
    ensures forall l :: 0 <= l < t.limit ==> t.log[t.antilog[l]] == l
  {
    forall a | a != s.zero ensures Reaches(s, t.limit, a) { assert Power(s, t.log[a]) == a; }
    VisitsDistinct(s, t.limit, nonzero);
    assert Power(s, 0) == s.one;
    if t.limit > 1 { VisitsInjective(s, t.limit); }
    ReturnsToOne(s, t.limit, nonzero);
    TableIsField(s, t);
    forall l | 0 <= l < t.limit ensures t.log[t.antilog[l]] == l { LogInverts(s, t, l); }
  }

  lemma LogInverts<T(!new)>(s: Words<T>, t: Table<T>, l: nat)
    requires Complete(s, t) && Distinct(s, t.limit) && l < t.limit
    ensures t.antilog[l] in t.log && t.log[t.antilog[l]] == l
  {
    var a := t.antilog[l];
    assert a != s.zero && a in t.log && Power(s, t.log[a]) == a;
  }

  /** If the loop meets every nonzero value and closes, every nonzero value has an inverse. */
  lemma Inverse<T(!new)>(s: Words<T>, limit: nat, b: T) returns (inverse: T)
    requires IsRing(s) && Visits(s, limit) && Power(s, limit) == s.one && b != s.zero
    ensures Mul(s, b, inverse) == s.one
  {
    hide Mul, Visits, Additive, Linear, Unital;
    var l := Logarithm(s, limit, b);
    inverse := Power(s, limit - l);
    PowerAdd(s, l, limit - l);
  }

  lemma OneQuotient<T(!new)>(s: Words<T>, a: T, b: T, inverse: T, r: T)
    requires IsRing(s) && Mul(s, b, inverse) == s.one
    ensures Mul(s, r, b) == a <==> r == Mul(s, a, inverse)
  {
    hide Mul, Additive, Linear, Unital;
    MulAssociates(s, r, b, inverse);
    MulOne(s, r);
    MulAssociates(s, a, inverse, b);
    MulCommutes(s, b, inverse);
    MulOne(s, a);
  }

  // ---------------------------------------------------------------------- the order of x

  lemma LeastOrder<T(!new)>(s: Words<T>, n: nat) returns (d: nat)
    requires 0 < n && Power(s, n) == s.one
    ensures 0 < d <= n && Power(s, d) == s.one
    ensures forall e :: 0 < e < d ==> Power(s, e) != s.one
  {
    d := 1;
    while Power(s, d) != s.one
      invariant 0 < d <= n && forall e :: 0 < e < d ==> Power(s, e) != s.one
      decreases n - d
    {
      d := d + 1;
    }
  }

  lemma OrderDivides<T(!new)>(s: Words<T>, n: nat, d: nat)
    requires 0 < d <= n && Power(s, d) == s.one == Power(s, n)
    requires forall e :: 0 < e < d ==> Power(s, e) != s.one
    ensures d * (n / d) == n
  {
    var q, r := n / d, n % d;
    assert r + q * d == n;
    PowerWraps(s, d, r, q);
  }

  /** Every proper divisor of 255 divides 15, 51 or 85. */
  lemma ProperDivisor(d: nat, k: nat)
    requires d * k == 255 && d < 255
    ensures d == 1 || d == 3 || d == 5 || d == 15 || d == 17 || d == 51 || d == 85
  {
    if d > 15 && k > 15 {
      AtMostProduct(16, 16, d, k);
    }
  }

  lemma OneAtMultiple<T(!new)>(s: Words<T>, d: nat, k: nat, n: nat)
    requires Power(s, d) == s.one && k * d == n
    ensures Power(s, n) == s.one
  {
    PowerWraps(s, d, 0, k);
  }

  /** 255 is 3 * 5 * 17, so three exponents decide that nothing below it leads back to one. */
  lemma Order255<T(!new)>(s: Words<T>)
    requires Power(s, 255) == s.one
    requires Power(s, 15) != s.one && Power(s, 51) != s.one && Power(s, 85) != s.one
    ensures forall d :: 0 < d < 255 ==> Power(s, d) != s.one
  {
    var d := LeastOrder(s, 255);
    OrderDivides(s, 255, d);
    if d < 255 {
      ProperDivisor(d, 255 / d);
      if d == 17 { OneAtMultiple(s, 17, 5, 85); }
      else if d == 1 { OneAtMultiple(s, 1, 15, 15); }
      else if d == 3 { OneAtMultiple(s, 3, 5, 15); }
      else if d == 5 { OneAtMultiple(s, 5, 3, 15); }
      assert false;
    }
  }
}
