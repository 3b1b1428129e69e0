/** Gaussian elimination in place: include/par2/reedsolomon.h:385-542. */
module Gauss {
  import opened LinearAlgebra

  /** The contents of one row, and of all rows, of a matrix in memory. */
  ghost function RowAt<T>(m: array2<T>, r: nat): (row: seq<T>)
    requires r < m.Length0
    reads m
    ensures |row| == m.Length1
    ensures forall c :: 0 <= c < m.Length1 ==> row[c] == m[r, c]
  {
    seq(m.Length1, c requires 0 <= c < m.Length1 reads m => m[r, c])
  }

  ghost function Contents<T>(m: array2<T>): (rows: seq<seq<T>>)
    reads m
    ensures Shape(rows, m.Length0, m.Length1)
    ensures forall r :: 0 <= r < m.Length0 ==> rows[r] == RowAt(m, r)
  {
    seq(m.Length0, r requires 0 <= r < m.Length0 reads m => RowAt(m, r))
  }

  /** Only one row differs from what the matrix held before. */
  ghost predicate OnlyRow<T>(m: array2<T>, before: seq<seq<T>>, row: nat)
    requires Shape(before, m.Length0, m.Length1)
    reads m
  {
    forall r, c {:trigger m[r, c]} :: 0 <= r < m.Length0 && 0 <= c < m.Length1 && r != row ==> m[r, c] == before[r][c]
  }

  lemma RowChanged<T>(m: array2<T>, before: seq<seq<T>>, row: nat, contents: seq<T>)
    requires row < m.Length0 && Shape(before, m.Length0, m.Length1)
    requires OnlyRow(m, before, row) && RowAt(m, row) == contents
    ensures Contents(m) == before[row := contents]
  {
    forall r | 0 <= r < m.Length0 ensures Contents(m)[r] == before[row := contents][r] {
      if r != row {
        assert RowAt(m, r) == before[r];
      }
    }
  }

  /** Divide the entries of a row from column `from` on; the entries before it are zero. */
  method ScaleRow<T(!new,==)>(f: Field<T>, m: array2<T>, row: nat, p: T, from: nat)
    requires IsField(f) && p != f.zero && row < m.Length0 && from <= m.Length1
    requires forall c :: 0 <= c < from ==> m[row, c] == f.zero
    modifies m
    ensures Contents(m) == old(Contents(m))[row := DivideRow(f, old(RowAt(m, row)), p)]
  {
    ghost var all, before := Contents(m), RowAt(m, row);
    DivZero(f, p);
    var col := from;
    while col < m.Length1
      invariant from <= col <= m.Length1
      invariant OnlyRow(m, all, row)
      invariant forall c :: 0 <= c < col ==> m[row, c] == f.div(before[c], p)
      invariant forall c :: col <= c < m.Length1 ==> m[row, c] == before[c]
    {
      if m[row, col] != f.zero {
        m[row, col] := f.div(m[row, col], p);
      }
      col := col + 1;
    }
    assert RowAt(m, row) == DivideRow(f, before, p);
    RowChanged(m, all, row, DivideRow(f, before, p));
  }

  /** Scale the row of a pivot p: the pivot becomes one, only the entries after it are divided. */
  method ScalePivotRow<T(!new,==)>(f: Field<T>, m: array2<T>, row: nat, p: T)
    requires IsField(f) && p != f.zero && row < m.Length0 && row < m.Length1 && m[row, row] == p
    requires forall c :: 0 <= c < row ==> m[row, c] == f.zero
    modifies m
    ensures Contents(m) == old(Contents(m))[row := DivideRow(f, old(RowAt(m, row)), p)]
  {
    ghost var all, before := Contents(m), RowAt(m, row);
    DivZero(f, p);
    DivSelf(f, p);
    m[row, row] := f.one;
    var col := row + 1;
    while col < m.Length1
      invariant row + 1 <= col <= m.Length1
      invariant OnlyRow(m, all, row)
      invariant forall c :: 0 <= c < col ==> m[row, c] == f.div(before[c], p)
      invariant forall c :: col <= c < m.Length1 ==> m[row, c] == before[c]
    {
      if m[row, col] != f.zero {
        m[row, col] := f.div(m[row, col], p);
      }
      col := col + 1;
    }
    assert RowAt(m, row) == DivideRow(f, before, p);
    RowChanged(m, all, row, DivideRow(f, before, p));
  }

  /** Subtract s times one row from another, from column `from` on; the subtracted row is zero
      before it. The factors 1 and 0 are treated apart. */
  method ReduceRow<T(!new,==)>(f: Field<T>, m: array2<T>, row: nat, row2: nat, s: T, from: nat)
    requires IsField(f) && row < m.Length0 && row2 < m.Length0 && row != row2 && from <= m.Length1
    requires forall c :: 0 <= c < from ==> m[row, c] == f.zero
    modifies m
    ensures Contents(m) == old(Contents(m))[row2 := SubtractRow(f, old(RowAt(m, row2)), old(RowAt(m, row)), s)]
  {
    ghost var all, a, b := Contents(m), RowAt(m, row2), RowAt(m, row);
    MulZero(f, s);
    forall x ensures f.add(x, f.mul(f.zero, s)) == x { assert f.add(x, f.zero) == x; }
    if s == f.zero {
      forall x, y ensures f.add(x, f.mul(y, f.zero)) == x { MulZero(f, y); assert f.add(x, f.zero) == x; }
      assert RowAt(m, row2) == SubtractRow(f, a, b, s);
      RowChanged(m, all, row2, SubtractRow(f, a, b, s));
      return;
    }
    var col := from;
    while col < m.Length1
      invariant from <= col <= m.Length1
      invariant OnlyRow(m, all, row2)
      invariant forall c :: 0 <= c < col ==> m[row2, c] == f.add(a[c], f.mul(b[c], s))
      invariant forall c :: col <= c < m.Length1 ==> m[row2, c] == a[c]
    {
      if m[row, col] != f.zero {
        if s == f.one {
          assert f.mul(b[col], f.one) == b[col];
          m[row2, col] := f.add(m[row2, col], m[row, col]);
        } else {
          m[row2, col] := f.add(m[row2, col], f.mul(m[row, col], s));
        }
      }
      col := col + 1;
    }
    assert RowAt(m, row2) == SubtractRow(f, a, b, s);
    RowChanged(m, all, row2, SubtractRow(f, a, b, s));
  }

  // ---------------------------------------------------------------------- progress

  /** The first k columns are those of the identity. */
  ghost predicate Solved<T>(f: Field<T>, m: seq<seq<T>>, k: nat) {
    && Shape(m, |m|, |m|) && k <= |m|
    && forall r, c {:trigger m[r][c]} :: 0 <= r < |m| && 0 <= c < k ==> m[r][c] == if r == c then f.one else f.zero
  }

  /** Column `row` has been cleared in the rows before row2. */
  ghost predicate Clearing<T>(f: Field<T>, m: seq<seq<T>>, row: nat, row2: nat) {
    && Solved(f, m, row) && row < |m| && row2 <= |m| && m[row][row] == f.one
    && forall r {:trigger m[r]} :: 0 <= r < row2 && r != row ==> m[r][row] == f.zero
  }

  lemma DivSelf<T(!new)>(f: Field<T>, p: T)
    requires IsField(f) && p != f.zero
    ensures f.div(p, p) == f.one
  {
    assert f.mul(f.one, p) == f.mul(p, f.one) == p;
    assert f.div(f.mul(f.one, p), p) == f.one;
  }

  lemma PivotScaled<T(!new)>(f: Field<T>, m: seq<seq<T>>, row: nat, p: T)
    requires IsField(f) && Solved(f, m, row) && row < |m| && p == m[row][row] && p != f.zero
    ensures Clearing(f, m[row := DivideRow(f, m[row], p)], row, 0)
  {
    DivZero(f, p);
    DivSelf(f, p);
  }

  lemma RowCleared<T(!new)>(f: Field<T>, m: seq<seq<T>>, row: nat, row2: nat)
    requires IsField(f) && Clearing(f, m, row, row2) && row2 < |m| && row2 != row
    ensures Clearing(f, m[row2 := SubtractRow(f, m[row2], m[row], m[row2][row])], row, row2 + 1)
  {
    var s := m[row2][row];
    MulZero(f, s);
    assert f.mul(f.one, s) == f.mul(s, f.one) == s;
    assert f.add(s, s) == f.zero;
    forall x ensures f.add(x, f.mul(f.zero, s)) == x { assert f.add(x, f.zero) == x; }
  }

  lemma ColumnCleared<T>(f: Field<T>, m: seq<seq<T>>, row: nat)
    requires Clearing(f, m, row, |m|)
    ensures Solved(f, m, row + 1)
  {}

  // ---------------------------------------------------------------------- the columns of the missing recovery blocks

  /** The rows of the present recovery blocks have nothing in the columns from k on. */
  ghost predicate TopClear<T>(f: Field<T>, m: seq<seq<T>>, k: nat) {
    && Shape(m, |m|, |m|) && k <= |m|
    && forall r, c {:trigger m[r][c]} :: 0 <= r < k <= c < |m| ==> m[r][c] == f.zero
  }

  ghost predicate SameTail<T>(m: seq<seq<T>>, m': seq<seq<T>>, k: nat) {
    && Shape(m, |m|, |m|) && Shape(m', |m|, |m|)
    && forall r, c {:trigger m'[r][c]} :: 0 <= r < |m| && k <= c < |m| ==> m'[r][c] == m[r][c]
  }

  lemma TailAfterDivide<T(!new)>(f: Field<T>, m0: seq<seq<T>>, m: seq<seq<T>>, k: nat, row: nat, p: T)
    requires IsField(f) && p != f.zero && row < k <= |m0| && TopClear(f, m0, k) && SameTail(m0, m, k)
    ensures SameTail(m0, m[row := DivideRow(f, m[row], p)], k)
  {
    DivZero(f, p);
  }

  lemma TailAfterSubtract<T(!new)>(f: Field<T>, m0: seq<seq<T>>, m: seq<seq<T>>, k: nat, row: nat, row2: nat, s: T)
    requires IsField(f) && row < k <= |m0| && row2 < |m0| && TopClear(f, m0, k) && SameTail(m0, m, k)
    ensures SameTail(m0, m[row2 := SubtractRow(f, m[row2], m[row], s)], k)
  {
    MulZero(f, s);
    forall x ensures f.add(x, f.mul(f.zero, s)) == x { assert f.add(x, f.zero) == x; }
  }

  // ---------------------------------------------------------------------- zero pivots

  lemma SolvedEntry<T(!new)>(f: Field<T>, m: seq<seq<T>>, n: nat, w: seq<T>, c: nat)
    requires IsField(f) && Solved(f, m, n) && |w| == |m| && Supported(f, w, n) && c < n
    ensures Dot(f, m[c], w) == w[c]
  {
    DotSupported(f, m[c], w, n);
    DotUnit(f, m[c][..n], c, w[..n]);
  }

  /** A block that has been brought to the identity is not singular. */
  lemma SolvedNonsingular<T(!new)>(f: Field<T>, m: seq<seq<T>>, n: nat)
    requires IsField(f) && Solved(f, m, n)
    ensures Nonsingular(f, m, n)
  {
    forall w | |w| == |m| && Kernel(f, m, n, w) && Supported(f, w, n) ensures IsZero(f, w) {
      forall c | 0 <= c < |w| ensures w[c] == f.zero {
        if c < n { SolvedEntry(f, m, n, w, c); }
      }
    }
  }

  /** The combination of columns that a zero pivot exposes. */
  ghost function Dependency<T>(f: Field<T>, m: seq<seq<T>>, k: nat): (w: seq<T>)
    requires Shape(m, |m|, |m|) && k < |m|
    ensures |w| == |m| && w[k] == f.one && Supported(f, w, k + 1)
    ensures forall c :: 0 <= c < k ==> w[c] == m[c][k]
  {
    seq(|m|, c requires 0 <= c < |m| => if c < k then m[c][k] else if c == k then f.one else f.zero)
  }

  /** Only the first k entries of the dependency and the one count. */
  lemma DotDependency<T(!new)>(f: Field<T>, m: seq<seq<T>>, k: nat, row: seq<T>)
    requires IsField(f) && Shape(m, |m|, |m|) && k < |m| == |row|
    ensures Dot(f, row, Dependency(f, m, k)) == f.add(Dot(f, row[..k], Dependency(f, m, k)[..k]), row[k])
  {
    var w := Dependency(f, m, k);
    DotSupported(f, row, w, k + 1);
    assert row[..k + 1] == row[..k] + [row[k]] && w[..k + 1] == w[..k] + [f.one];
    DotSnoc(f, row[..k], row[k], w[..k], f.one);
    assert f.mul(row[k], f.one) == row[k];
  }

  lemma DependencyAbove<T(!new)>(f: Field<T>, m: seq<seq<T>>, k: nat, r: nat)
    requires IsField(f) && Solved(f, m, k) && r < k < |m|
    ensures Dot(f, m[r], Dependency(f, m, k)) == f.zero
  {
    hide Dot;
    var w := Dependency(f, m, k);
    DotDependency(f, m, k, m[r]);
    DotUnit(f, m[r][..k], r, w[..k]);
    assert f.add(m[r][k], m[r][k]) == f.zero;
  }

  lemma DependencyAt<T(!new)>(f: Field<T>, m: seq<seq<T>>, k: nat)
    requires IsField(f) && Solved(f, m, k) && k < |m| && m[k][k] == f.zero
    ensures Dot(f, m[k], Dependency(f, m, k)) == f.zero
  {
    hide Dot;
    DotDependency(f, m, k, m[k]);
    DotZero(f, m[k][..k], Dependency(f, m, k)[..k]);
    AddZeroLeft(f, f.zero);
  }

  lemma ZeroPivotSingular<T(!new)>(f: Field<T>, m: seq<seq<T>>, k: nat)
    requires IsField(f) && Solved(f, m, k) && k < |m| && m[k][k] == f.zero
    ensures !Nonsingular(f, m, k + 1)
  {
    forall r | 0 <= r < |m| && r < k + 1 ensures Dot(f, m[r], Dependency(f, m, k)) == f.zero {
      if r < k { DependencyAbove(f, m, k, r); } else { DependencyAt(f, m, k); }
    }
    assert Kernel(f, m, k + 1, Dependency(f, m, k));
  }

  // ---------------------------------------------------------------------- the elimination

  /** What held of the first pair of matrices holds of the second. */
  ghost predicate Preserves<T(!new)>(f: Field<T>, left0: seq<seq<T>>, right0: seq<seq<T>>, left: seq<seq<T>>,
                                     right: seq<seq<T>>, rows: nat, cols: nat) {
    && Shape(left0, rows, cols) && Shape(right0, rows, rows) && Shape(left, rows, cols) && Shape(right, rows, rows)
    && forall v, w {:trigger Holds(f, left, right, v, w)} ::
       |v| == cols && |w| == rows && Holds(f, left0, right0, v, w) ==>
         Holds(f, left, right, v, w)
  }

  lemma PreservesDivide<T(!new)>(f: Field<T>, left0: seq<seq<T>>, right0: seq<seq<T>>, left: seq<seq<T>>,
                                 right: seq<seq<T>>,
                                 rows: nat, cols: nat, row: nat, p: T)
    requires IsField(f) && Preserves(f, left0, right0, left, right, rows, cols) && row < rows && p != f.zero
    ensures Preserves(f, left0, right0, left[row := DivideRow(f, left[row], p)],
                      right[row := DivideRow(f, right[row], p)], rows, cols)
  {
    forall v, w | |v| == cols && |w| == rows && Holds(f, left0, right0, v, w)
      ensures Holds(f, left[row := DivideRow(f, left[row], p)], right[row := DivideRow(f, right[row], p)], v, w)
    {
      HoldsDivide(f, left, right, v, w, row, p);
    }
  }

  lemma PreservesSubtract<T(!new)>(f: Field<T>, left0: seq<seq<T>>, right0: seq<seq<T>>, left: seq<seq<T>>,
                                   right: seq<seq<T>>,
                                   rows: nat, cols: nat, row: nat, row2: nat, s: T)
    requires IsField(f) && Preserves(f, left0, right0, left, right, rows, cols) && row < rows && row2 < rows
    ensures Preserves(f, left0, right0, left[row2 := SubtractRow(f, left[row2], left[row], s)],
                      right[row2 := SubtractRow(f, right[row2], right[row], s)], rows, cols)
  {
    forall v, w | |v| == cols && |w| == rows && Holds(f, left0, right0, v, w)
      ensures Holds(f, left[row2 := SubtractRow(f, left[row2], left[row], s)],
                    right[row2 := SubtractRow(f, right[row2], right[row], s)], v, w)
    {
      HoldsSubtract(f, left, right, v, w, row, row2, s);
    }
  }

  ghost predicate SameKernels<T(!new)>(f: Field<T>, right0: seq<seq<T>>, right: seq<seq<T>>, row: nat) {
    forall n :: row < n <= |right0| ==> SameKernel(f, right0, right, n)
  }

  /** The state of the elimination when it comes to pivot `row`. */
  ghost predicate Progress<T(!new)>(f: Field<T>, right0: seq<seq<T>>, right: seq<seq<T>>, row: nat) {
    && Solved(f, right, row) && SameKernels(f, right0, right, row)
    && forall n :: 0 <= n <= row ==> Nonsingular(f, right0, n)
  }

  lemma ProgressStart<T(!new)>(f: Field<T>, right: seq<seq<T>>)
    requires Shape(right, |right|, |right|)
    ensures Progress(f, right, right, 0)
  {}

  /** A zero pivot means that the next leading block was singular from the start. */
  lemma ProgressStuck<T(!new)>(f: Field<T>, right0: seq<seq<T>>, right: seq<seq<T>>, row: nat)
    requires IsField(f) && Progress(f, right0, right, row) && row < |right| == |right0| && right[row][row] == f.zero
    ensures !Nonsingular(f, right0, row + 1)
  {
    ZeroPivotSingular(f, right, row);
    SameSingularity(f, right0, right, row + 1);
  }

  lemma ProgressMade<T(!new)>(f: Field<T>, right0: seq<seq<T>>, right: seq<seq<T>>, row: nat)
    requires IsField(f) && row < |right| == |right0| && (forall n :: 0 <= n <= row ==> Nonsingular(f, right0, n))
    requires Solved(f, right, row + 1) && SameKernels(f, right0, right, row)
    ensures Progress(f, right0, right, row + 1)
  {
    SolvedNonsingular(f, right, row + 1);
    SameSingularity(f, right0, right, row + 1);
  }

  lemma KernelsDivide<T(!new)>(f: Field<T>, right0: seq<seq<T>>, right: seq<seq<T>>, row: nat, p: T)
    requires IsField(f) && SameKernels(f, right0, right, row) && row < |right| == |right0| && p != f.zero
    ensures SameKernels(f, right0, right[row := DivideRow(f, right[row], p)], row)
  {
    var after := right[row := DivideRow(f, right[row], p)];
    forall n | row < n <= |right0| ensures SameKernel(f, right0, after, n) {
      KernelDivide(f, right0, right, n, row, p);
    }
  }

  lemma KernelsSubtract<T(!new)>(f: Field<T>, right0: seq<seq<T>>, right: seq<seq<T>>, row: nat, row2: nat, s: T)
    requires IsField(f) && SameKernels(f, right0, right, row) && Shape(right, |right|, |right|)
    requires row < |right| == |right0| && row2 < |right| && row != row2
    ensures SameKernels(f, right0, right[row2 := SubtractRow(f, right[row2], right[row], s)], row)
  {
    var after := right[row2 := SubtractRow(f, right[row2], right[row], s)];
    forall n | row < n <= |right0| ensures SameKernel(f, right0, after, n) {
      KernelSubtract(f, right0, right, n, row, row2, s);
    }
  }

  /** Solve the first `datamissing` columns. Success leaves an equivalent system whose solved
      columns are the identity, and it comes exactly when no leading block is singular. */
  method GaussElim<T(!new,==)>(f: Field<T>, left: array2<T>, right: array2<T>, datamissing: nat) returns (ok: bool)
    requires IsField(f) && left != right
    requires left.Length0 == right.Length0 == right.Length1 && datamissing <= right.Length0
    modifies left, right
    ensures Preserves(f, old(Contents(left)), old(Contents(right)), Contents(left), Contents(right), left.Length0,
                      left.Length1)
    ensures ok ==> Solved(f, Contents(right), datamissing)
    ensures ok <==> forall n :: 0 <= n <= datamissing ==> Nonsingular(f, old(Contents(right)), n)
    ensures TopClear(f, old(Contents(right)), datamissing) ==>
            SameTail(old(Contents(right)), Contents(right), datamissing)
  {
    ghost var left0, right0 := Contents(left), Contents(right);
    ghost var clear := TopClear(f, right0, datamissing);
    ProgressStart(f, right0);
    var rows := right.Length0;
    var row := 0;
    while row < datamissing
      invariant 0 <= row <= datamissing
      invariant Preserves(f, left0, right0, Contents(left), Contents(right), rows, left.Length1)
      invariant Progress(f, right0, Contents(right), row)
      invariant clear ==> SameTail(right0, Contents(right), datamissing)
    {
      var pivotvalue := right[row, row];
      if pivotvalue == f.zero {
        ProgressStuck(f, right0, Contents(right), row);
        return false;
      }
      if pivotvalue != f.one {
        PreservesDivide(f, left0, right0, Contents(left), Contents(right), rows, left.Length1, row, pivotvalue);
        if clear { TailAfterDivide(f, right0, Contents(right), datamissing, row, pivotvalue); }
        PivotScaled(f, Contents(right), row, pivotvalue);
        KernelsDivide(f, right0, Contents(right), row, pivotvalue);
        ScaleRow(f, left, row, pivotvalue, 0);
        ScalePivotRow(f, right, row, pivotvalue);
      }
      ClearColumn(f, left, right, row, datamissing, left0, right0, clear);
      ProgressMade(f, right0, Contents(right), row);
      row := row + 1;
    }
    return true;
  }

  /** Subtract the pivot row from every other row. */
  method ClearColumn<T(!new,==)>(f: Field<T>, left: array2<T>, right: array2<T>, row: nat, ghost datamissing: nat,
                                 ghost left0: seq<seq<T>>, ghost right0: seq<seq<T>>, ghost clear: bool)
    requires IsField(f) && left != right
    requires left.Length0 == right.Length0 == right.Length1 && row < datamissing <= right.Length0
    requires Preserves(f, left0, right0, Contents(left), Contents(right), left.Length0, left.Length1)
    requires Clearing(f, Contents(right), row, 0)
    requires SameKernels(f, right0, Contents(right), row)
    requires clear ==> TopClear(f, right0, datamissing) && SameTail(right0, Contents(right), datamissing)
    modifies left, right
    ensures Preserves(f, left0, right0, Contents(left), Contents(right), left.Length0, left.Length1)
    ensures Solved(f, Contents(right), row + 1)
    ensures SameKernels(f, right0, Contents(right), row)
    ensures clear ==> SameTail(right0, Contents(right), datamissing)
  {
    var rows := right.Length0;
    var row2 := 0;
    while row2 < rows
      invariant 0 <= row2 <= rows
      invariant Preserves(f, left0, right0, Contents(left), Contents(right), rows, left.Length1)
      invariant Clearing(f, Contents(right), row, row2)
      invariant SameKernels(f, right0, Contents(right), row)
      invariant clear ==> SameTail(right0, Contents(right), datamissing)
    {
      if row != row2 {
        var scalevalue := right[row2, row];
        PreservesSubtract(f, left0, right0, Contents(left), Contents(right), rows, left.Length1, row, row2, scalevalue);
        if clear { TailAfterSubtract(f, right0, Contents(right), datamissing, row, row2, scalevalue); }
        RowCleared(f, Contents(right), row, row2);
        KernelsSubtract(f, right0, Contents(right), row, row2, scalevalue);
        ReduceRow(f, left, row, row2, scalevalue, 0);
        ReduceRow(f, right, row, row2, scalevalue, row);
      }
      row2 := row2 + 1;
    }
    ColumnCleared(f, Contents(right), row);
  }
}
