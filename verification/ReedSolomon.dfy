/** The recovery matrix: include/par2/reedsolomon.h:118-383 and src/reedsolomon.cpp:60-108. */
module ReedSolomonCode {
  import opened LinearAlgebra
  import opened Gauss

  /** Which recovery block a row stands for, and whether it is available. */
  datatype OutputRow = OutputRow(present: bool, exponent: nat)

  /** The coefficients: base b raised to exponent e, as a field element. */
  type Coefficient<!T> = (nat, nat) -> T

  // ---------------------------------------------------------------------- present and missing

  /** The indices below n, in order, whose flag is `wanted`. */
  function Indices(flags: seq<bool>, n: nat, wanted: bool): (r: seq<nat>)
    requires n <= |flags|
    ensures forall i :: 0 <= i < |r| ==> r[i] < n
  {
    if n == 0 then [] else
      var rest := Indices(flags, n - 1, wanted);
      if flags[n - 1] == wanted then rest + [n - 1] else rest
  }

  /** How many of the first k flags are `wanted`. */
  ghost function CountOf(flags: seq<bool>, k: nat, wanted: bool): nat
    requires k <= |flags|
  {
    |set j | 0 <= j < k && flags[j] == wanted|
  }

  lemma CountStep(flags: seq<bool>, k: nat, wanted: bool)
    requires k < |flags|
    ensures CountOf(flags, k + 1, wanted) == CountOf(flags, k, wanted) + if flags[k] == wanted then 1 else 0
  {
    var before, now := set j | 0 <= j < k && flags[j] == wanted, set j | 0 <= j < k + 1 && flags[j] == wanted;
    assert now == if flags[k] == wanted then before + {k} else before;
  }

  /** The list holds exactly the indices whose flag is `wanted`, in ascending order: index k comes after as many others
      as there are such indices before k. */
  ghost predicate Listing(r: seq<nat>, flags: seq<bool>, n: nat, wanted: bool)
    requires n <= |flags|
  {
    && |r| == CountOf(flags, n, wanted)
    && (forall i, j :: 0 <= i < j < |r| ==> r[i] < r[j])
    && (forall k :: 0 <= k < n && flags[k] == wanted ==>
        CountOf(flags, k, wanted) < |r| && r[CountOf(flags, k, wanted)] == k)
    && (forall i :: 0 <= i < |r| ==> r[i] < n && flags[r[i]] == wanted)
  }

  lemma {:induction false} IndicesListed(flags: seq<bool>, n: nat, wanted: bool)
    requires n <= |flags|
    ensures Listing(Indices(flags, n, wanted), flags, n, wanted)
  {
    hide CountOf, Listing;
    if n == 0 {
      ListingNone(flags, wanted);
    } else {
      IndicesListed(flags, n - 1, wanted);
      CountStep(flags, n - 1, wanted);
      if flags[n - 1] == wanted {
        ListingMore(Indices(flags, n - 1, wanted), flags, n - 1, wanted);
      } else {
        ListingSame(Indices(flags, n - 1, wanted), flags, n - 1, wanted);
      }
    }
  }

  lemma ListingNone(flags: seq<bool>, wanted: bool)
    ensures Listing([], flags, 0, wanted)
  {}

  lemma ListingSame(r: seq<nat>, flags: seq<bool>, n: nat, wanted: bool)
    requires n < |flags| && Listing(r, flags, n, wanted) && flags[n] != wanted
    requires CountOf(flags, n + 1, wanted) == CountOf(flags, n, wanted)
    ensures Listing(r, flags, n + 1, wanted)
  {
    hide CountOf;
  }

  lemma ListingMore(r: seq<nat>, flags: seq<bool>, n: nat, wanted: bool)
    requires n < |flags| && Listing(r, flags, n, wanted) && flags[n] == wanted
    requires CountOf(flags, n + 1, wanted) == CountOf(flags, n, wanted) + 1
    ensures Listing(r + [n], flags, n + 1, wanted)
  {
    hide CountOf;
    var more := r + [n];
    forall k | 0 <= k < n + 1 && flags[k] == wanted
      ensures CountOf(flags, k, wanted) < |more| && more[CountOf(flags, k, wanted)] == k
    {
      if k < n { assert r[CountOf(flags, k, wanted)] == k; }
    }
  }

  /** There is only one such list. */
  lemma ListingIndex(r: seq<nat>, flags: seq<bool>, n: nat, wanted: bool, i: nat)
    requires n <= |flags| && Listing(r, flags, n, wanted) && i < |r|
    ensures CountOf(flags, r[i], wanted) == i
  {
    var c := CountOf(flags, r[i], wanted);
    assert r[c] == r[i];
  }

  /** The exponents, in order, of those of the first n rows whose block is present (or missing). */
  function Exponents(rows: seq<OutputRow>, n: nat, present: bool): seq<nat>
    requires n <= |rows|
  {
    if n == 0 then [] else
      var rest := Exponents(rows, n - 1, present);
      if rows[n - 1].present == present then rest + [rows[n - 1].exponent] else rest
  }

  function Gather<T>(xs: seq<T>, indices: seq<nat>): (r: seq<T>)
    requires forall i :: 0 <= i < |indices| ==> indices[i] < |xs|
    ensures |r| == |indices|
    ensures forall i :: 0 <= i < |indices| ==> r[i] == xs[indices[i]]
  {
    seq(|indices|, i requires 0 <= i < |indices| => xs[indices[i]])
  }

  /** Counting in a byte. */
  function Increment(b: nat): nat { if b == 255 then 0 else b + 1 }

  /** The base of input block i: 1, 2, 3 and so on, in a byte. */
  function Base(i: nat): nat { if i == 0 then 1 else Increment(Base(i - 1)) }

  ghost predicate Numbered(bases: seq<nat>) {
    forall i {:trigger bases[i]} :: 0 <= i < |bases| ==> bases[i] == Base(i)
  }

  lemma {:induction false} BaseValue(i: nat)
    ensures Base(i) == (i + 1) % 256
  {
    if i != 0 { BaseValue(i - 1); }
  }

  /** They are the exponents of the rows whose flags say so, in row order. */
  lemma {:induction false} ExponentsGathered(rows: seq<OutputRow>, n: nat, present: bool)
    requires n <= |rows|
    ensures var flags := seq(|rows|, i requires 0 <= i < |rows| => rows[i].present);
            var exponents := seq(|rows|, i requires 0 <= i < |rows| => rows[i].exponent);
            Exponents(rows, n, present) == Gather(exponents, Indices(flags, n, present))
  {
    if n > 0 { ExponentsGathered(rows, n - 1, present); }
  }

  lemma {:induction false} ExponentsPrefix(rows: seq<OutputRow>, at: nat, n: nat, present: bool)
    requires at <= n <= |rows|
    ensures Exponents(rows, at, present) <= Exponents(rows, n, present)
  {
    if at < n {
      ExponentsPrefix(rows, at, n - 1, present);
    }
  }

  /** Later rows do not change the exponents of the first n. */
  lemma {:induction false} ExponentsAppend(rows: seq<OutputRow>, more: seq<OutputRow>, n: nat, present: bool)
    requires n <= |rows|
    ensures Exponents(rows + more, n, present) == Exponents(rows, n, present)
  {
    if n != 0 {
      ExponentsAppend(rows, more, n - 1, present);
    }
  }

  // ---------------------------------------------------------------------- recovery blocks

  function PowerRow<T>(pow: Coefficient<T>, bases: seq<nat>, exponent: nat): (r: seq<T>)
    ensures |r| == |bases|
    ensures forall i :: 0 <= i < |bases| ==> r[i] == pow(bases[i], exponent)
  {
    seq(|bases|, i requires 0 <= i < |bases| => pow(bases[i], exponent))
  }

  /** The recovery block of one exponent: the sum of base^exponent * data over all input blocks. */
  function Recovery<T>(f: Field<T>, pow: Coefficient<T>, bases: seq<nat>, exponent: nat, data: seq<T>): T
    requires |bases| == |data|
  {
    Dot(f, PowerRow(pow, bases, exponent), data)
  }

  function Recoveries<T>(f: Field<T>, pow: Coefficient<T>, bases: seq<nat>, exponents: seq<nat>,
                         data: seq<T>): (r: seq<T>)
    requires |bases| == |data|
    ensures |r| == |exponents|
    ensures forall i :: 0 <= i < |r| ==> r[i] == Recovery(f, pow, bases, exponents[i], data)
  {
    seq(|exponents|, i requires 0 <= i < |exponents| => Recovery(f, pow, bases, exponents[i], data))
  }

  function UnitRow<T>(f: Field<T>, n: nat, k: int): (r: seq<T>)
    ensures |r| == n
    ensures forall i :: 0 <= i < n ==> r[i] == if i == k then f.one else f.zero
  {
    seq(n, i requires 0 <= i < n => if i == k then f.one else f.zero)
  }

  // ---------------------------------------------------------------------- splitting a sum

  /** The part of a sum that those of the first n blocks with one flag contribute. */
  function Part<T>(f: Field<T>, flags: seq<bool>, row: seq<T>, data: seq<T>, n: nat, wanted: bool): T
    requires n <= |flags| == |row| == |data|
  {
    Dot(f, Gather(row, Indices(flags, n, wanted)), Gather(data, Indices(flags, n, wanted)))
  }

  lemma PartStep<T(!new)>(f: Field<T>, flags: seq<bool>, row: seq<T>, data: seq<T>, n: nat, wanted: bool)
    requires IsField(f) && n < |flags| == |row| == |data|
    ensures Part(f, flags, row, data, n + 1, wanted)
         == var rest := Part(f, flags, row, data, n, wanted);
            if flags[n] == wanted then f.add(rest, f.mul(row[n], data[n])) else rest
  {
    var rest := Indices(flags, n, wanted);
    if flags[n] == wanted {
      assert Gather(row, rest + [n]) == Gather(row, rest) + [row[n]];
      assert Gather(data, rest + [n]) == Gather(data, rest) + [data[n]];
      DotSnoc(f, Gather(row, rest), row[n], Gather(data, rest), data[n]);
    }
  }

  /** The sum over all blocks is the sum over the present ones plus the sum over the missing ones. */
  lemma {:induction false} DotSplit<T(!new)>(f: Field<T>, flags: seq<bool>, row: seq<T>, data: seq<T>, n: nat)
    requires IsField(f) && n <= |flags| == |row| == |data|
    ensures Dot(f, row[..n], data[..n])
            == f.add(Part(f, flags, row, data, n, true), Part(f, flags, row, data, n, false))
  {
    if n == 0 {
      AddZeroLeft(f, f.zero);
    } else {
      var k := n - 1;
      DotSplit(f, flags, row, data, k);
      PartStep(f, flags, row, data, k, true);
      PartStep(f, flags, row, data, k, false);
      assert row[..k] + [row[k]] == row[..n] && data[..k] + [data[k]] == data[..n];
      DotSnoc(f, row[..k], row[k], data[..k], data[k]);
      AppendTerm(f, Part(f, flags, row, data, k, true), Part(f, flags, row, data, k, false), f.mul(row[k], data[k]));
    }
  }

  lemma AppendTerm<T(!new)>(f: Field<T>, p: T, m: T, t: T)
    requires IsField(f)
    ensures f.add(f.add(p, m), t) == f.add(f.add(p, t), m) == f.add(p, f.add(m, t))
  {
    calc {
      f.add(f.add(p, m), t);
      f.add(p, f.add(m, t));
      f.add(p, f.add(t, m));
      f.add(f.add(p, t), m);
    }
  }

  // ---------------------------------------------------------------------- the two matrices

  /** What the caller has told the coder: which inputs are present, their bases, and the recovery blocks. */
  datatype Layout = Layout(flags: seq<bool>, bases: seq<nat>, rows: seq<OutputRow>) {
    ghost predicate Valid() { |flags| == |bases| }

    function Present(): (r: seq<nat>)
      ensures forall i :: 0 <= i < |r| ==> r[i] < |flags|
    { Indices(flags, |flags|, true) }

    function Missing(): (r: seq<nat>)
      ensures forall i :: 0 <= i < |r| ==> r[i] < |flags|
    { Indices(flags, |flags|, false) }

    /** The exponents of the recovery blocks that are there, and of those to compute. */
    function Available(): seq<nat> { Exponents(rows, |rows|, true) }

    function Wanted(): seq<nat> { Exponents(rows, |rows|, false) }

    ghost predicate Enough() { |Missing()| <= |Available()| }

    /** The exponents of the recovery blocks that stand in for missing data. */
    function Used(): (r: seq<nat>)
      requires |Missing()| <= |Available()|
      ensures |r| == |Missing()|
    { Available()[..|Missing()|] }
  }

  /** The columns: the present data, then the recovery blocks used. */
  function Inputs<T>(f: Field<T>, pow: Coefficient<T>, l: Layout, data: seq<T>): (r: seq<T>)
    requires l.Valid() && l.Enough() && |data| == |l.flags|
    ensures |r| == |l.Present()| + |l.Missing()|
  {
    Gather(data, l.Present()) + Recoveries(f, pow, l.bases, l.Used(), data)
  }

  /** The rows: the missing data, then the recovery blocks wanted. */
  function Outputs<T>(f: Field<T>, pow: Coefficient<T>, l: Layout, data: seq<T>): (r: seq<T>)
    requires l.Valid() && |data| == |l.flags|
    ensures |r| == |l.Missing()| + |l.Wanted()|
  {
    Gather(data, l.Missing()) + Recoveries(f, pow, l.bases, l.Wanted(), data)
  }

  function LeftRow<T>(f: Field<T>, pow: Coefficient<T>, l: Layout, r: nat): (row: seq<T>)
    requires l.Valid() && l.Enough() && r < |l.Missing()| + |l.Wanted()|
    ensures |row| == |l.Present()| + |l.Missing()|
  {
    var k := |l.Missing()|;
    if r < k then PowerRow(pow, Gather(l.bases, l.Present()), l.Used()[r]) + UnitRow(f, k, r)
    else PowerRow(pow, Gather(l.bases, l.Present()), l.Wanted()[r - k]) + UnitRow(f, k, -1)
  }

  function RightRow<T>(f: Field<T>, pow: Coefficient<T>, l: Layout, r: nat): (row: seq<T>)
    requires l.Valid() && l.Enough() && r < |l.Missing()| + |l.Wanted()|
    ensures |row| == |l.Missing()| + |l.Wanted()|
  {
    var k := |l.Missing()|;
    if r < k then PowerRow(pow, Gather(l.bases, l.Missing()), l.Used()[r]) + UnitRow(f, |l.Wanted()|, -1)
    else PowerRow(pow, Gather(l.bases, l.Missing()), l.Wanted()[r - k]) + UnitRow(f, |l.Wanted()|, r - k)
  }

  lemma PowerGather<T>(pow: Coefficient<T>, bases: seq<nat>, exponent: nat, indices: seq<nat>)
    requires forall i :: 0 <= i < |indices| ==> indices[i] < |bases|
    ensures PowerRow(pow, Gather(bases, indices), exponent) == Gather(PowerRow(pow, bases, exponent), indices)
  {}

  lemma DotUnitRow<T(!new)>(f: Field<T>, n: nat, k: int, v: seq<T>)
    requires IsField(f) && |v| == n && k < n
    ensures Dot(f, UnitRow(f, n, k), v) == if k < 0 then f.zero else v[k]
  {
    if k < 0 {
      DotZero(f, UnitRow(f, n, k), v);
    } else {
      DotUnit(f, UnitRow(f, n, k), k, v);
    }
  }

  /** A row of the matrices: powers for some of the data, then a unit row. */
  lemma DotPowersUnit<T(!new)>(f: Field<T>, pow: Coefficient<T>, bases: seq<nat>, e: nat, flags: seq<bool>,
                               wanted: bool,
                               data: seq<T>, n: nat, k: int, v: seq<T>)
    requires IsField(f) && |bases| == |flags| == |data| && |v| == n && k < n
    ensures Dot(f, PowerRow(pow, Gather(bases, Indices(flags, |flags|, wanted)), e) + UnitRow(f, n, k),
                Gather(data, Indices(flags, |flags|, wanted)) + v)
         == f.add(Part(f, flags, PowerRow(pow, bases, e), data, |flags|, wanted), if k < 0 then f.zero else v[k])
  {
    PowerGather(pow, bases, e, Indices(flags, |flags|, wanted));
    DotConcat(f, Gather(PowerRow(pow, bases, e), Indices(flags, |flags|, wanted)), UnitRow(f, n, k),
              Gather(data, Indices(flags, |flags|, wanted)), v);
    DotUnitRow(f, n, k, v);
  }

  lemma CancelPart<T(!new)>(f: Field<T>, p: T, m: T)
    requires IsField(f)
    ensures f.add(p, f.add(p, m)) == f.add(m, f.zero) == m
    ensures f.add(m, f.add(p, m)) == f.add(p, f.zero) == p
  {
    AddZeroLeft(f, m);
    assert f.add(p, f.add(p, m)) == f.add(f.add(p, p), m);
    assert f.add(m, f.add(m, p)) == f.add(f.add(m, m), p);
    AddZeroLeft(f, p);
    assert f.add(p, m) == f.add(m, p);
  }

  /** The system that the matrices state holds of every data vector. */
  lemma RowHolds<T(!new)>(f: Field<T>, pow: Coefficient<T>, l: Layout, data: seq<T>, r: nat)
    requires IsField(f) && l.Valid() && l.Enough() && |data| == |l.flags| && r < |l.Missing()| + |l.Wanted()|
    ensures Dot(f, LeftRow(f, pow, l, r), Inputs(f, pow, l, data))
            == Dot(f, RightRow(f, pow, l, r), Outputs(f, pow, l, data))
  {
    hide Part, Dot, Indices;
    var k := |l.Missing()|;
    var e := if r < k then l.Used()[r] else l.Wanted()[r - k];
    var used, wanted := Recoveries(f, pow, l.bases, l.Used(), data), Recoveries(f, pow, l.bases, l.Wanted(), data);
    var row := PowerRow(pow, l.bases, e);
    var p, m := Part(f, l.flags, row, data, |l.flags|, true), Part(f, l.flags, row, data, |l.flags|, false);
    DotSplit(f, l.flags, row, data, |l.flags|);
    assert row[..|l.flags|] == row && data[..|l.flags|] == data;
    CancelPart(f, p, m);
    DotPowersUnit(f, pow, l.bases, e, l.flags, true, data, k, if r < k then r else -1, used);
    DotPowersUnit(f, pow, l.bases, e, l.flags, false, data, |l.Wanted()|, if r < k then -1 else r - k, wanted);
  }

  // ---------------------------------------------------------------------- decoding

  ghost function LeftMatrix<T>(f: Field<T>, pow: Coefficient<T>, l: Layout): (m: seq<seq<T>>)
    requires l.Valid() && l.Enough()
    ensures Shape(m, |l.Missing()| + |l.Wanted()|, |l.Present()| + |l.Missing()|)
    ensures forall r :: 0 <= r < |m| ==> m[r] == LeftRow(f, pow, l, r)
  {
    var n := |l.Missing()| + |l.Wanted()|;
    seq(n, r requires 0 <= r < n => LeftRow(f, pow, l, r))
  }

  ghost function RightMatrix<T>(f: Field<T>, pow: Coefficient<T>, l: Layout): (m: seq<seq<T>>)
    requires l.Valid() && l.Enough()
    ensures Shape(m, |l.Missing()| + |l.Wanted()|, |l.Missing()| + |l.Wanted()|)
    ensures forall r :: 0 <= r < |m| ==> m[r] == RightRow(f, pow, l, r)
  {
    var n := |l.Missing()| + |l.Wanted()|;
    seq(n, r requires 0 <= r < n => RightRow(f, pow, l, r))
  }

  /** The matrix turns the inputs into the outputs, whatever the data was. */
  ghost predicate Decodes<T(!new)>(f: Field<T>, pow: Coefficient<T>, l: Layout, m: seq<seq<T>>) {
    && l.Valid() && l.Enough() && Shape(m, |l.Missing()| + |l.Wanted()|, |l.Present()| + |l.Missing()|)
    && forall data: seq<T>, r | |data| == |l.flags| && 0 <= r < |m| ::
         Dot(f, m[r], Inputs(f, pow, l, data)) == Outputs(f, pow, l, data)[r]
  }

  lemma SystemHolds<T(!new)>(f: Field<T>, pow: Coefficient<T>, l: Layout, data: seq<T>)
    requires IsField(f) && l.Valid() && l.Enough() && |data| == |l.flags|
    ensures Holds(f, LeftMatrix(f, pow, l), RightMatrix(f, pow, l), Inputs(f, pow, l, data), Outputs(f, pow, l, data))
  {
    forall r | 0 <= r < |l.Missing()| + |l.Wanted()|
      ensures Dot(f, LeftMatrix(f, pow, l)[r], Inputs(f, pow, l, data))
              == Dot(f, RightMatrix(f, pow, l)[r], Outputs(f, pow, l, data))
    {
      RowHolds(f, pow, l, data, r);
    }
  }

  lemma RightTopClear<T>(f: Field<T>, pow: Coefficient<T>, l: Layout)
    requires l.Valid() && l.Enough()
    ensures TopClear(f, RightMatrix(f, pow, l), |l.Missing()|)
  {}

  /** Once the columns of the missing data are solved, the right matrix is the identity. */
  lemma RightIsIdentity<T>(f: Field<T>, pow: Coefficient<T>, l: Layout, right: seq<seq<T>>, r: nat)
    requires l.Valid() && l.Enough() && SameTail(RightMatrix(f, pow, l), right, |l.Missing()|)
    requires Solved(f, right, |l.Missing()|) && r < |right|
    ensures IsUnit(f, right[r], r)
  {
    var k, m := |l.Missing()|, RightMatrix(f, pow, l);
    forall c | 0 <= c < |right| ensures right[r][c] == if c == r then f.one else f.zero {
      if k <= c {
        assert right[r][c] == m[r][c];
        assert m[r] == RightRow(f, pow, l, r);
      }
    }
  }

  /** The decoding theorem for an eliminated pair of matrices. */
  lemma Decoding<T(!new)>(f: Field<T>, pow: Coefficient<T>, l: Layout, left: seq<seq<T>>, right: seq<seq<T>>)
    requires IsField(f) && l.Valid() && l.Enough()
    requires Preserves(f, LeftMatrix(f, pow, l), RightMatrix(f, pow, l), left, right,
                       |l.Missing()| + |l.Wanted()|, |l.Present()| + |l.Missing()|)
    requires Solved(f, right, |l.Missing()|) && SameTail(RightMatrix(f, pow, l), right, |l.Missing()|)
    ensures Decodes(f, pow, l, left)
  {
    forall data: seq<T>, r | |data| == |l.flags| && 0 <= r < |left|
      ensures Dot(f, left[r], Inputs(f, pow, l, data)) == Outputs(f, pow, l, data)[r]
    {
      SystemHolds(f, pow, l, data);
      assert Holds(f, left, right, Inputs(f, pow, l, data), Outputs(f, pow, l, data));
      RightIsIdentity(f, pow, l, right, r);
      DotUnit(f, right[r], r, Outputs(f, pow, l, data));
    }
  }

  /** With no data missing the matrix needs no solving. */
  lemma Encoding<T(!new)>(f: Field<T>, pow: Coefficient<T>, l: Layout)
    requires IsField(f) && l.Valid() && |l.Missing()| == 0
    ensures Decodes(f, pow, l, LeftMatrix(f, pow, l))
  {
    var left, right := LeftMatrix(f, pow, l), RightMatrix(f, pow, l);
    forall data: seq<T>, r | |data| == |l.flags| && 0 <= r < |left|
      ensures Dot(f, left[r], Inputs(f, pow, l, data)) == Outputs(f, pow, l, data)[r]
    {
      RowHolds(f, pow, l, data, r);
      RightIsIdentity(f, pow, l, right, r);
      DotUnit(f, right[r], r, Outputs(f, pow, l, data));
    }
  }

  /** There are enough recovery blocks, there is something to compute, and no leading block of the
      coefficients of the missing data is singular. */
  ghost predicate Solvable<T(!new)>(f: Field<T>, pow: Coefficient<T>, l: Layout) {
    && l.Valid() && l.Enough() && |l.Missing()| + |l.Wanted()| > 0
    && forall n :: 0 <= n <= |l.Missing()| ==> Nonsingular(f, RightMatrix(f, pow, l), n)
  }

  lemma NoRows<T(!new)>(f: Field<T>, m: seq<seq<T>>)
    requires Shape(m, |m|, |m|)
    ensures Nonsingular(f, m, 0)
  {}

  // ---------------------------------------------------------------------- the coder

  ghost predicate Sorted(flags: seq<bool>, here: seq<nat>, gone: seq<nat>) {
    here == Indices(flags, |flags|, true) && gone == Indices(flags, |flags|, false)
  }

  ghost predicate Counted(rows: seq<OutputRow>, present: nat, missing: nat) {
    |Exponents(rows, |rows|, true)| == present && |Exponents(rows, |rows|, false)| == missing
  }

  /** Sort the input blocks into present and missing ones and number their bases. */
  method Classify(present: seq<bool>) returns (here: seq<nat>, gone: seq<nat>, bases: seq<nat>)
    ensures Sorted(present, here, gone)
    ensures Listing(here, present, |present|, true) && Listing(gone, present, |present|, false)
    ensures |bases| == |present| && Numbered(bases)
  {
    hide Listing;
    here, gone, bases := [], [], [];
    var base := 1;
    var index := 0;
    while index < |present|
      invariant 0 <= index <= |present| && |bases| == index
      invariant base == Base(index)
      invariant here == Indices(present, index, true) && gone == Indices(present, index, false)
      invariant Numbered(bases)
    {
      if present[index] {
        here := here + [index];
      } else {
        gone := gone + [index];
      }
      bases := bases + [base];
      base := Increment(base);
      index := index + 1;
    }
    IndicesListed(present, |present|, true);
    IndicesListed(present, |present|, false);
  }

  class ReedSolomon<T(!new,==,0)> {
    const f: Field<T>
    const pow: Coefficient<T>

    var inputcount: nat
    var datapresent: nat
    var datamissing: nat
    var datapresentindex: seq<nat>
    var datamissingindex: seq<nat>
    var database: seq<nat>

    var outputcount: nat
    var parpresent: nat
    var parmissing: nat
    var outputrows: seq<OutputRow>

    var leftmatrix: array2?<T>

    ghost var flags: seq<bool>

    ghost function Told(): Layout
      reads this
    {
      Layout(flags, database, outputrows)
    }

    ghost predicate Valid()
      reads this
    {
      && Sorted(flags, datapresentindex, datamissingindex) && |database| == inputcount == |flags|
      && datapresent == |datapresentindex| && datamissing == |datamissingindex|
      && outputcount == |outputrows| && Counted(outputrows, parpresent, parmissing)
    }

    constructor (f: Field<T>, pow: Coefficient<T>)
      ensures Valid() && this.f == f && this.pow == pow && Told() == Layout([], [], []) && leftmatrix == null
    {
      this.f, this.pow := f, pow;
      inputcount, datapresent, datamissing := 0, 0, 0;
      datapresentindex, datamissingindex, database := [], [], [];
      outputcount, parpresent, parmissing, outputrows := 0, 0, 0, [];
      leftmatrix := null;
      flags := [];
    }

    /** Input block i gets base i + 1, kept in a byte. */
    method SetInput(present: seq<bool>)
      requires Valid() && inputcount == 0
      modifies this
      ensures Valid() && outputrows == old(outputrows) && leftmatrix == old(leftmatrix)
      ensures flags == present && Numbered(database)
      ensures Listing(datapresentindex, present, |present|, true)
              && Listing(datamissingindex, present, |present|, false)
    {
      hide Listing, Indices;
      var here, gone, bases := Classify(present);
      inputcount, database := |present|, bases;
      datapresentindex, datapresent := here, |here|;
      datamissingindex, datamissing := gone, |gone|;
      flags := present;
    }

    method SetOutput(present: bool, exponent: nat)
      requires Valid()
      modifies this
      ensures Valid() && flags == old(flags) && database == old(database) && leftmatrix == old(leftmatrix)
      ensures outputrows == old(outputrows) + [OutputRow(present, exponent)]
    {
      ExponentsAppend(outputrows, [OutputRow(present, exponent)], |outputrows|, true);
      ExponentsAppend(outputrows, [OutputRow(present, exponent)], |outputrows|, false);
      outputrows := outputrows + [OutputRow(present, exponent)];
      outputcount := outputcount + 1;
      if present {
        parpresent := parpresent + 1;
      } else {
        parmissing := parmissing + 1;
      }
    }

    method SetOutputRange(present: bool, lowexponent: nat, highexponent: nat)
      requires Valid()
      modifies this
      ensures Valid() && flags == old(flags) && database == old(database) && leftmatrix == old(leftmatrix)
      ensures |outputrows|
              == |old(outputrows)| + (if lowexponent <= highexponent then highexponent + 1 - lowexponent else 0)
      ensures old(outputrows) <= outputrows
      ensures forall i :: |old(outputrows)| <= i < |outputrows| ==>
                outputrows[i] == OutputRow(present, lowexponent + i - |old(outputrows)|)
    {
      var exponent := lowexponent;
      while exponent <= highexponent
        invariant lowexponent <= exponent && (exponent == lowexponent || exponent <= highexponent + 1)
        invariant Valid() && flags == old(flags) && database == old(database) && leftmatrix == old(leftmatrix)
        invariant |outputrows| == |old(outputrows)| + exponent - lowexponent && old(outputrows) <= outputrows
        invariant forall i :: |old(outputrows)| <= i < |outputrows| ==>
                    outputrows[i] == OutputRow(present, lowexponent + i - |old(outputrows)|)
      {
        SetOutput(present, exponent);
        exponent := exponent + 1;
      }
    }

    /** Fill one row of a matrix with powers of the bases at some indices, then a unit row. */
    method FillRow(m: array2<T>, row: nat, indices: seq<nat>, exponent: nat, unit: int)
      requires row < m.Length0 && |indices| <= m.Length1
      requires forall i :: 0 <= i < |indices| ==> indices[i] < |database|
      modifies m
      ensures Contents(m) == old(Contents(m))[row := PowerRow(pow, Gather(database, indices), exponent)
                                                     + UnitRow(f, m.Length1 - |indices|, unit)]
    {
      ghost var all := Contents(m);
      var col := 0;
      while col < |indices|
        invariant 0 <= col <= |indices|
        invariant OnlyRow(m, all, row)
        invariant forall c :: 0 <= c < col ==> m[row, c] == pow(database[indices[c]], exponent)
      {
        m[row, col] := pow(database[indices[col]], exponent);
        col := col + 1;
      }
      while col < m.Length1
        invariant |indices| <= col <= m.Length1
        invariant OnlyRow(m, all, row)
        invariant forall c :: 0 <= c < |indices| ==> m[row, c] == pow(database[indices[c]], exponent)
        invariant forall c :: |indices| <= c < col ==> m[row, c] == if c - |indices| == unit then f.one else f.zero
      {
        m[row, col] := if col - |indices| == unit then f.one else f.zero;
        col := col + 1;
      }
      ghost var contents :=
          PowerRow(pow, Gather(database, indices), exponent) + UnitRow(f, m.Length1 - |indices|, unit);
      assert RowAt(m, row) == contents;
      RowChanged(m, all, row, contents);
    }

    /** Move on to the next row of the wanted kind. */
    method NextRow(at: nat, present: bool) returns (next: nat)
      requires at <= |outputrows|
      requires |Exponents(outputrows, at, present)| < |Exponents(outputrows, |outputrows|, present)|
      ensures at <= next < |outputrows| && outputrows[next].present == present
      ensures Exponents(outputrows, next, present) == Exponents(outputrows, at, present)
    {
      next := at;
      while outputrows[next].present != present
        invariant at <= next < |outputrows|
        invariant Exponents(outputrows, next, present) == Exponents(outputrows, at, present)
        decreases |outputrows| - next
      {
        next := next + 1;
      }
    }

    /** Fill consecutive rows from the recovery blocks of one kind, in order. */
    method FillRows(m: array2<T>, from: nat, count: nat, present: bool, indices: seq<nat>, diagonal: bool)
      requires Valid() && from + count <= m.Length0 && |indices| <= m.Length1
      requires forall i :: 0 <= i < |indices| ==> indices[i] < |database|
      requires count <= |Exponents(outputrows, |outputrows|, present)|
      modifies m
      ensures forall r :: 0 <= r < m.Length0 && !(from <= r < from + count) ==> Contents(m)[r] == old(Contents(m))[r]
      ensures forall r :: from <= r < from + count ==>
                Contents(m)[r] == PowerRow(pow, Gather(database, indices),
                                           Exponents(outputrows, |outputrows|, present)[r - from])
                                  + UnitRow(f, m.Length1 - |indices|, if diagonal then r - from else -1)
    {
      hide PowerRow, UnitRow, Gather, Sorted, Counted;
      ghost var exponents := Exponents(outputrows, |outputrows|, present);
      ghost var before := Contents(m);
      var at, row := 0, 0;
      while row < count
        invariant 0 <= row <= count && at <= |outputrows|
        invariant Exponents(outputrows, at, present) == exponents[..row]
        invariant forall r :: 0 <= r < m.Length0 && !(from <= r < from + row) ==> Contents(m)[r] == before[r]
        invariant forall r :: from <= r < from + row ==>
                    Contents(m)[r] == PowerRow(pow, Gather(database, indices), exponents[r - from])
                                      + UnitRow(f, m.Length1 - |indices|, if diagonal then r - from else -1)
      {
        at := NextRow(at, present);
        ExponentsPrefix(outputrows, at + 1, |outputrows|, present);
        FillRow(m, from + row, indices, outputrows[at].exponent, if diagonal then row else -1);
        at, row := at + 1, row + 1;
      }
    }

    /** The left matrix before elimination. */
    method BuildLeft(incount: nat, outcount: nat) returns (m: array2<T>)
      requires Valid() && Told().Enough() && outcount == datamissing + parmissing
               && incount == datapresent + datamissing
      ensures fresh(m) && m.Length0 == outcount && m.Length1 == incount && Contents(m) == LeftMatrix(f, pow, Told())
    {
      hide PowerRow, UnitRow, Gather, Exponents, Indices;
      m := new T[outcount, incount]((r, c) => f.zero);
      FillRows(m, 0, datamissing, true, datapresentindex, true);
      ghost var upper := Contents(m);
      FillRows(m, datamissing, parmissing, false, datapresentindex, false);
      ghost var l := Told();
      forall r | 0 <= r < outcount ensures Contents(m)[r] == LeftRow(f, pow, l, r) {
        if r < datamissing { assert Contents(m)[r] == upper[r]; }
      }
    }

    /** The right matrix before elimination. */
    method BuildRight(outcount: nat) returns (m: array2<T>)
      requires Valid() && Told().Enough() && outcount == datamissing + parmissing
      ensures fresh(m) && m.Length0 == m.Length1 == outcount && Contents(m) == RightMatrix(f, pow, Told())
    {
      hide PowerRow, UnitRow, Gather, Exponents, Indices;
      m := new T[outcount, outcount]((r, c) => f.zero);
      FillRows(m, 0, datamissing, true, datamissingindex, false);
      ghost var upper := Contents(m);
      FillRows(m, datamissing, parmissing, false, datamissingindex, true);
      ghost var l := Told();
      forall r | 0 <= r < outcount ensures Contents(m)[r] == RightRow(f, pow, l, r) {
        if r < datamissing { assert Contents(m)[r] == upper[r]; }
      }
    }

    /** Build the two matrices and solve for the missing data. Given enough recovery blocks and
        something to compute, this succeeds exactly when no leading block of the coefficients of
        the missing data is singular, and then the matrix left behind decodes all data. */
    method Compute() returns (ok: bool)
      requires Valid() && IsField(f)
      modifies this`leftmatrix
      ensures ok <==> Solvable(f, pow, Told())
      ensures ok ==> leftmatrix != null && fresh(leftmatrix) && Decodes(f, pow, Told(), Contents(leftmatrix))
    {
      var outcount := datamissing + parmissing;
      var incount := datapresent + datamissing;
      if datamissing > parpresent {
        return false;
      } else if outcount == 0 {
        return false;
      }
      ghost var l := Told();
      leftmatrix := BuildLeft(incount, outcount);
      if datamissing > 0 {
        var rightmatrix := BuildRight(outcount);
        RightTopClear(f, pow, l);
        ok := GaussElim(f, leftmatrix, rightmatrix, datamissing);
        if ok {
          Decoding(f, pow, l, Contents(leftmatrix), Contents(rightmatrix));
        }
        return ok;
      }
      Encoding(f, pow, l);
      NoRows(f, RightMatrix(f, pow, l));
      return true;
    }
  }
}
