/** Linear systems over a field of characteristic two, and the two row operations that Gaussian
  elimination is made of. */
module LinearAlgebra {

  datatype Field<!T> = Field(zero: T, one: T, add: (T, T) -> T, mul: (T, T) -> T, div: (T, T) -> T)

  ghost predicate IsField<T(!new)>(f: Field<T>) {
    && f.one != f.zero
    && (forall a, b {:trigger f.add(a, b), f.add(b, a)} :: f.add(a, b) == f.add(b, a))
    && (forall a, b, c {:trigger f.add(f.add(a, b), c), f.add(a, f.add(b, c))} ::
          f.add(f.add(a, b), c) == f.add(a, f.add(b, c)))
    && (forall a {:trigger f.add(a, f.zero)} :: f.add(a, f.zero) == a)
    && (forall a {:trigger f.add(a, a)} :: f.add(a, a) == f.zero)
    && (forall a, b {:trigger f.mul(a, b), f.mul(b, a)} :: f.mul(a, b) == f.mul(b, a))
    && (forall a, b, c {:trigger f.mul(f.mul(a, b), c), f.mul(a, f.mul(b, c))} ::
          f.mul(f.mul(a, b), c) == f.mul(a, f.mul(b, c)))
    && (forall a {:trigger f.mul(a, f.one)} :: f.mul(a, f.one) == a)
    && (forall a, b, c {:trigger f.mul(f.add(a, b), c)} :: f.mul(f.add(a, b), c) == f.add(f.mul(a, c), f.mul(b, c)))
    && (forall a, p {:trigger f.mul(f.div(a, p), p)} :: p != f.zero ==> f.mul(f.div(a, p), p) == a)
    && (forall a, p {:trigger f.div(f.mul(a, p), p)} :: p != f.zero ==> f.div(f.mul(a, p), p) == a)
  }

  lemma MulZero<T(!new)>(f: Field<T>, a: T)
    requires IsField(f)
    ensures f.mul(f.zero, a) == f.zero == f.mul(a, f.zero)
  {
    assert f.add(f.zero, f.zero) == f.zero;
    assert f.mul(f.add(f.zero, f.zero), a) == f.add(f.mul(f.zero, a), f.mul(f.zero, a));
    assert f.mul(f.zero, a) == f.mul(a, f.zero);
  }

  lemma AddZeroLeft<T(!new)>(f: Field<T>, a: T)
    requires IsField(f)
    ensures f.add(f.zero, a) == a
  {
    assert f.add(f.zero, a) == f.add(a, f.zero);
  }

  lemma DivZero<T(!new)>(f: Field<T>, p: T)
    requires IsField(f) && p != f.zero
    ensures f.div(f.zero, p) == f.zero
  {
    MulZero(f, p);
    assert f.div(f.mul(f.zero, p), p) == f.zero;
  }

  lemma Interchange<T(!new)>(f: Field<T>, a: T, b: T, c: T, d: T)
    requires IsField(f)
    ensures f.add(f.add(a, b), f.add(c, d)) == f.add(f.add(a, c), f.add(b, d))
  {
    calc {
      f.add(f.add(a, b), f.add(c, d));
      f.add(a, f.add(b, f.add(c, d)));
      f.add(a, f.add(f.add(b, c), d));
      f.add(a, f.add(f.add(c, b), d));
      f.add(a, f.add(c, f.add(b, d)));
      f.add(f.add(a, c), f.add(b, d));
    }
  }

  /** (a * s) * x == (a * x) * s */
  lemma MulSwap<T(!new)>(f: Field<T>, a: T, s: T, x: T)
    requires IsField(f)
    ensures f.mul(f.mul(a, s), x) == f.mul(f.mul(a, x), s)
  {
    calc {
      f.mul(f.mul(a, s), x);
      f.mul(a, f.mul(s, x));
      f.mul(a, f.mul(x, s));
      f.mul(f.mul(a, x), s);
    }
  }

  lemma Cancel<T(!new)>(f: Field<T>, x: T, y: T, p: T)
    requires IsField(f) && p != f.zero && f.mul(x, p) == f.mul(y, p)
    ensures x == y
  {
    assert f.div(f.mul(x, p), p) == x;
    assert f.div(f.mul(y, p), p) == y;
  }

  // ---------------------------------------------------------------------- rows

  /** The sum of row[i] * v[i]. */
  function Dot<T>(f: Field<T>, row: seq<T>, v: seq<T>): T
    requires |row| == |v|
  {
    if row == [] then f.zero else f.add(f.mul(row[0], v[0]), Dot(f, row[1..], v[1..]))
  }

  function DivideRow<T>(f: Field<T>, row: seq<T>, p: T): (r: seq<T>)
    ensures |r| == |row|
    ensures forall i :: 0 <= i < |row| ==> r[i] == f.div(row[i], p)
  {
    seq(|row|, i requires 0 <= i < |row| => f.div(row[i], p))
  }

  /** a - b * s; subtraction is addition. */
  function SubtractRow<T>(f: Field<T>, a: seq<T>, b: seq<T>, s: T): (r: seq<T>)
    requires |a| == |b|
    ensures |r| == |a|
    ensures forall i :: 0 <= i < |a| ==> r[i] == f.add(a[i], f.mul(b[i], s))
  {
    seq(|a|, i requires 0 <= i < |a| => f.add(a[i], f.mul(b[i], s)))
  }

  lemma {:induction false} DotDivide<T(!new)>(f: Field<T>, row: seq<T>, p: T, v: seq<T>)
    requires IsField(f) && |row| == |v| && p != f.zero
    ensures f.mul(Dot(f, DivideRow(f, row, p), v), p) == Dot(f, row, v)
  {
    if row == [] {
      MulZero(f, p);
    } else {
      var d := DivideRow(f, row, p);
      assert d[1..] == DivideRow(f, row[1..], p);
      DotDivide(f, row[1..], p, v[1..]);
      MulSwap(f, d[0], v[0], p);
      assert f.mul(d[0], p) == row[0];
      assert f.mul(f.add(f.mul(d[0], v[0]), Dot(f, d[1..], v[1..])), p)
          == f.add(f.mul(f.mul(d[0], v[0]), p), f.mul(Dot(f, d[1..], v[1..]), p));
    }
  }

  lemma {:induction false} DotSubtract<T(!new)>(f: Field<T>, a: seq<T>, b: seq<T>, s: T, v: seq<T>)
    requires IsField(f) && |a| == |b| == |v|
    ensures Dot(f, SubtractRow(f, a, b, s), v) == f.add(Dot(f, a, v), f.mul(Dot(f, b, v), s))
  {
    if a == [] {
      MulZero(f, s);
      AddZeroLeft(f, f.zero);
    } else {
      var r := SubtractRow(f, a, b, s);
      assert r[1..] == SubtractRow(f, a[1..], b[1..], s);
      DotSubtract(f, a[1..], b[1..], s, v[1..]);
      var at, bt := Dot(f, a[1..], v[1..]), Dot(f, b[1..], v[1..]);
      assert f.mul(r[0], v[0]) == f.add(f.mul(a[0], v[0]), f.mul(f.mul(b[0], s), v[0]));
      MulSwap(f, b[0], s, v[0]);
      Interchange(f, f.mul(a[0], v[0]), f.mul(f.mul(b[0], v[0]), s), at, f.mul(bt, s));
      assert f.mul(f.add(f.mul(b[0], v[0]), bt), s) == f.add(f.mul(f.mul(b[0], v[0]), s), f.mul(bt, s));
    }
  }

  ghost predicate IsUnit<T>(f: Field<T>, row: seq<T>, k: nat) {
    forall i :: 0 <= i < |row| ==> row[i] == if i == k then f.one else f.zero
  }

  lemma {:induction false} DotZero<T(!new)>(f: Field<T>, row: seq<T>, v: seq<T>)
    requires IsField(f) && |row| == |v| && forall i :: 0 <= i < |row| ==> row[i] == f.zero
    ensures Dot(f, row, v) == f.zero
  {
    if row != [] {
      DotZero(f, row[1..], v[1..]);
      MulZero(f, v[0]);
      AddZeroLeft(f, f.zero);
    }
  }

  /** A unit row picks out one unknown. */
  lemma {:induction false} DotUnit<T(!new)>(f: Field<T>, row: seq<T>, k: nat, v: seq<T>)
    requires IsField(f) && |row| == |v| && k < |row| && IsUnit(f, row, k)
    ensures Dot(f, row, v) == v[k]
  {
    if k == 0 {
      DotZero(f, row[1..], v[1..]);
      assert f.mul(f.one, v[0]) == f.mul(v[0], f.one);
    } else {
      assert IsUnit(f, row[1..], k - 1);
      DotUnit(f, row[1..], k - 1, v[1..]);
      MulZero(f, v[0]);
      AddZeroLeft(f, v[k]);
    }
  }

  lemma {:induction false} DotConcat<T(!new)>(f: Field<T>, a: seq<T>, b: seq<T>, v: seq<T>, w: seq<T>)
    requires IsField(f) && |a| == |v| && |b| == |w|
    ensures Dot(f, a + b, v + w) == f.add(Dot(f, a, v), Dot(f, b, w))
  {
    if a == [] {
      assert a + b == b && v + w == w;
      AddZeroLeft(f, Dot(f, b, w));
    } else {
      assert (a + b)[1..] == a[1..] + b && (v + w)[1..] == v[1..] + w;
      DotConcat(f, a[1..], b, v[1..], w);
      assert f.add(f.add(f.mul(a[0], v[0]), Dot(f, a[1..], v[1..])), Dot(f, b, w))
          == f.add(f.mul(a[0], v[0]), f.add(Dot(f, a[1..], v[1..]), Dot(f, b, w)));
    }
  }

  lemma DotSnoc<T(!new)>(f: Field<T>, a: seq<T>, x: T, v: seq<T>, y: T)
    requires IsField(f) && |a| == |v|
    ensures Dot(f, a + [x], v + [y]) == f.add(Dot(f, a, v), f.mul(x, y))
  {
    DotConcat(f, a, [x], v, [y]);
    assert Dot(f, [x], [y]) == f.add(f.mul(x, y), Dot(f, [], []));
    assert f.add(f.mul(x, y), f.zero) == f.mul(x, y);
  }

  lemma {:induction false} DotOfZeros<T(!new)>(f: Field<T>, row: seq<T>, v: seq<T>)
    requires IsField(f) && |row| == |v| && forall i :: 0 <= i < |v| ==> v[i] == f.zero
    ensures Dot(f, row, v) == f.zero
  {
    if row != [] {
      DotOfZeros(f, row[1..], v[1..]);
      MulZero(f, row[0]);
      AddZeroLeft(f, f.zero);
    }
  }

  /** Only the first n terms count when the rest of the vector is zero. */
  lemma DotSupported<T(!new)>(f: Field<T>, row: seq<T>, v: seq<T>, n: nat)
    requires IsField(f) && |row| == |v| && n <= |v| && forall i :: n <= i < |v| ==> v[i] == f.zero
    ensures Dot(f, row, v) == Dot(f, row[..n], v[..n])
  {
    assert row == row[..n] + row[n..] && v == v[..n] + v[n..];
    DotConcat(f, row[..n], row[n..], v[..n], v[n..]);
    DotOfZeros(f, row[n..], v[n..]);
    assert f.add(Dot(f, row[..n], v[..n]), f.zero) == Dot(f, row[..n], v[..n]);
  }

  // ---------------------------------------------------------------------- systems

  ghost predicate Shape<T>(m: seq<seq<T>>, rows: nat, cols: nat) {
    |m| == rows && forall r :: 0 <= r < rows ==> |m[r]| == cols
  }

  /** Every row of left, applied to v, equals the same row of right applied to w. */
  ghost predicate Holds<T>(f: Field<T>, left: seq<seq<T>>, right: seq<seq<T>>, v: seq<T>, w: seq<T>)
    requires Shape(left, |left|, |v|) && Shape(right, |left|, |w|)
  {
    forall r :: 0 <= r < |left| ==> Dot(f, left[r], v) == Dot(f, right[r], w)
  }

  lemma HoldsDivide<T(!new)>(f: Field<T>, left: seq<seq<T>>, right: seq<seq<T>>, v: seq<T>, w: seq<T>, row: nat, p: T)
    requires IsField(f) && Shape(left, |left|, |v|) && Shape(right, |left|, |w|) && Holds(f, left, right, v, w)
    requires row < |left| && p != f.zero
    ensures Holds(f, left[row := DivideRow(f, left[row], p)], right[row := DivideRow(f, right[row], p)], v, w)
  {
    DotDivide(f, left[row], p, v);
    DotDivide(f, right[row], p, w);
    Cancel(f, Dot(f, DivideRow(f, left[row], p), v), Dot(f, DivideRow(f, right[row], p), w), p);
  }

  lemma HoldsSubtract<T(!new)>(f: Field<T>, left: seq<seq<T>>, right: seq<seq<T>>, v: seq<T>, w: seq<T>, row: nat,
                               row2: nat, s: T)
    requires IsField(f) && Shape(left, |left|, |v|) && Shape(right, |left|, |w|) && Holds(f, left, right, v, w)
    requires row < |left| && row2 < |left|
    ensures Holds(f, left[row2 := SubtractRow(f, left[row2], left[row], s)],
                     right[row2 := SubtractRow(f, right[row2], right[row], s)], v, w)
  {
    DotSubtract(f, left[row2], left[row], s, v);
    DotSubtract(f, right[row2], right[row], s, w);
  }

  // ---------------------------------------------------------------------- singular blocks

  /** The first n rows of m send w to zero. */
  ghost predicate Kernel<T>(f: Field<T>, m: seq<seq<T>>, n: nat, w: seq<T>)
    requires Shape(m, |m|, |w|)
  {
    forall r :: 0 <= r < |m| && r < n ==> Dot(f, m[r], w) == f.zero
  }

  ghost predicate Supported<T>(f: Field<T>, w: seq<T>, n: nat) {
    forall c :: n <= c < |w| ==> w[c] == f.zero
  }

  ghost predicate IsZero<T>(f: Field<T>, w: seq<T>) {
    forall c :: 0 <= c < |w| ==> w[c] == f.zero
  }

  /** The leading n by n block of a square matrix sends only zero to zero. */
  ghost predicate Nonsingular<T(!new)>(f: Field<T>, m: seq<seq<T>>, n: nat) {
    && Shape(m, |m|, |m|)
    && forall w {:trigger Kernel(f, m, n, w)} :: |w| == |m| && Kernel(f, m, n, w) && Supported(f, w, n) ==> IsZero(f, w)
  }

  ghost predicate SameKernel<T(!new)>(f: Field<T>, m0: seq<seq<T>>, m: seq<seq<T>>, n: nat) {
    && Shape(m0, |m0|, |m0|) && Shape(m, |m0|, |m0|)
    && forall w {:trigger Kernel(f, m, n, w)} {:trigger Kernel(f, m0, n, w)} :: |w| == |m0| ==>
         (Kernel(f, m0, n, w) <==> Kernel(f, m, n, w))
  }

  lemma SameSingularity<T(!new)>(f: Field<T>, m0: seq<seq<T>>, m: seq<seq<T>>, n: nat)
    requires SameKernel(f, m0, m, n)
    ensures Nonsingular(f, m0, n) <==> Nonsingular(f, m, n)
  {}

  lemma DotDivideZero<T(!new)>(f: Field<T>, row: seq<T>, p: T, w: seq<T>)
    requires IsField(f) && |row| == |w| && p != f.zero
    ensures Dot(f, DivideRow(f, row, p), w) == f.zero <==> Dot(f, row, w) == f.zero
  {
    DotDivide(f, row, p, w);
    MulZero(f, p);
    if Dot(f, row, w) == f.zero {
      Cancel(f, Dot(f, DivideRow(f, row, p), w), f.zero, p);
    }
  }

  lemma KernelDivide<T(!new)>(f: Field<T>, m0: seq<seq<T>>, m: seq<seq<T>>, n: nat, row: nat, p: T)
    requires IsField(f) && SameKernel(f, m0, m, n) && row < |m| && p != f.zero
    ensures SameKernel(f, m0, m[row := DivideRow(f, m[row], p)], n)
  {
    forall w | |w| == |m| ensures Kernel(f, m, n, w) <==> Kernel(f, m[row := DivideRow(f, m[row], p)], n, w) {
      DotDivideZero(f, m[row], p, w);
      var m' := m[row := DivideRow(f, m[row], p)];
      forall r | 0 <= r < |m| ensures Dot(f, m[r], w) == f.zero <==> Dot(f, m'[r], w) == f.zero {}
    }
  }

  lemma DotSubtractZero<T(!new)>(f: Field<T>, a: seq<T>, b: seq<T>, s: T, w: seq<T>)
    requires IsField(f) && |a| == |b| == |w| && Dot(f, b, w) == f.zero
    ensures Dot(f, SubtractRow(f, a, b, s), w) == Dot(f, a, w)
  {
    DotSubtract(f, a, b, s, w);
    MulZero(f, s);
    assert f.add(Dot(f, a, w), f.zero) == Dot(f, a, w);
  }

  lemma KernelSubtract<T(!new)>(f: Field<T>, m0: seq<seq<T>>, m: seq<seq<T>>, n: nat, row: nat, row2: nat, s: T)
    requires IsField(f) && SameKernel(f, m0, m, n) && row < n && row < |m| && row2 < |m| && row != row2
    ensures SameKernel(f, m0, m[row2 := SubtractRow(f, m[row2], m[row], s)], n)
  {
    forall w | |w| == |m|
      ensures Kernel(f, m, n, w) <==> Kernel(f, m[row2 := SubtractRow(f, m[row2], m[row], s)], n, w) {
      var m' := m[row2 := SubtractRow(f, m[row2], m[row], s)];
      assert m'[row] == m[row];
      if Dot(f, m[row], w) == f.zero {
        DotSubtractZero(f, m[row2], m[row], s, w);
        forall r | 0 <= r < |m| ensures Dot(f, m[r], w) == Dot(f, m'[r], w) {}
      }
    }
  }
}
