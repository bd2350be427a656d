/**
 Matrix inversion by Gauss-Jordan elimination on the matrix beside the identity. The rows are updated
 in place; what stays true throughout is that the system the rows stand for has the same solutions.
 */
module Elimination {
  import opened Wrappers
  import opened Bytes
  import opened GF256
  import opened Field
  import opened Tables
  import opened LinearAlgebra

  function Unit(n: nat, c: nat): Vector {
    seq(n, i requires 0 <= i < n => if i == c then 1 else 0)
  }

  /** The matrix beside the identity. */
  function Augment(m: Matrix): (w: Matrix)
    requires Shape(m, |m|, |m|)
    ensures Shape(w, |m|, 2 * |m|)
  {
    seq(|m|, r requires 0 <= r < |m| => m[r] + Unit(|m|, r))
  }

  /** The first `n` columns are those of the identity. */
  ghost predicate UnitColumns(w: Matrix, n: nat)
    requires forall r :: 0 <= r < |w| ==> n <= |w[r]|
  {
    forall r, c :: 0 <= r < |w| && 0 <= c < n ==> w[r][c] == if r == c then 1 else 0
  }

  lemma AugmentSolutions(m: Matrix, x: Vector, y: Vector)
    requires Shape(m, |m|, |m|) && |x| == |y| == |m|
    ensures Solves(Augment(m), x + y) <==> Apply(m, x) == y
  {
    hide Dot, Mul, Add;
    var w := Augment(m);
    forall r | 0 <= r < |m|
      ensures Dot(w[r], x + y) == 0 <==> Dot(m[r], x) == y[r]
    {
      DotConcat(m[r], Unit(|m|, r), x, y);
      DotUnit(Unit(|m|, r), r, y);
      AddCancels(Dot(m[r], x), y[r]);
    }
    if Solves(w, x + y) {
      assert forall r :: 0 <= r < |m| ==> Dot(w[r], x + y) == 0;
    }
  }

  /** A row whose left half is a unit row. */
  lemma UnitRow(row: Vector, r: nat, k: nat, x: Vector, y: Vector)
    requires r < k == |x| == |y| && |row| == 2 * k
    requires forall c :: 0 <= c < k ==> row[c] == if r == c then 1 else 0
    ensures Dot(row, x + y) == 0 <==> x[r] == Dot(row[k..], y)
  {
    hide Dot, Mul, Add;
    assert row == row[..k] + row[k..];
    DotConcat(row[..k], row[k..], x, y);
    DotUnit(row[..k], r, x);
    AddCancels(x[r], Dot(row[k..], y));
  }

  function RightHalf(w: Matrix, k: nat): (r: Matrix)
    requires Shape(w, k, 2 * k)
    ensures Shape(r, k, k)
  {
    seq(k, i requires 0 <= i < k => w[i][k..])
  }

  /** Once the left half is the identity, the right half is the inverse. */
  lemma FinishedIsInverse(m: Matrix, w: Matrix)
    requires Shape(m, |m|, |m|) && Shape(w, |m|, 2 * |m|)
    requires UnitColumns(w, |m|) && SameSolutions(Augment(m), w, 2 * |m|)
    ensures IsInverse(m, RightHalf(w, |m|))
  {
    hide Dot, Mul, Add;
    var k := |m|;
    var inverse := RightHalf(w, k);
    forall x: Vector, y: Vector | |x| == k && |y| == k
      ensures Apply(m, x) == y <==> Apply(inverse, y) == x
    {
      AugmentSolutions(m, x, y);
      assert Solves(Augment(m), x + y) <==> Solves(w, x + y);
      forall r | 0 <= r < k
        ensures Dot(w[r], x + y) == 0 <==> x[r] == Apply(inverse, y)[r]
      {
        UnitRow(w[r], r, k, x, y);
      }
      if Solves(w, x + y) {
        assert forall r :: 0 <= r < k ==> Dot(w[r], x + y) == 0;
      }
    }
  }

  /** The column that a missing pivot sends to zero. */
  function Witness(w: Matrix, col: nat, k: nat): (x: Vector)
    requires Shape(w, k, 2 * k) && col < k
    ensures |x| == k
  {
    seq(k, c requires 0 <= c < k => if c < col then w[c][col] else if c == col then 1 else 0)
  }

  lemma WitnessRow(w: Matrix, col: nat, k: nat, r: nat)
    requires Shape(w, k, 2 * k) && col < k && r < k && UnitColumns(w, col)
    requires r >= col ==> w[r][col] == 0
    ensures Dot(w[r], Witness(w, col, k) + Zeros(k)) == 0
  {
    hide Dot, Mul, Add;
    var x, row := Witness(w, col, k), w[r];
    var head, tail, tailX := row[..col], row[col + 1..], x[col + 1..] + Zeros(k);
    assert row == head + ([row[col]] + tail);
    assert x + Zeros(k) == x[..col] + ([1] + tailX);
    DotConcat(head, [row[col]] + tail, x[..col], [1] + tailX);
    DotConcat([row[col]], tail, [1], tailX);
    DotZero(tailX, tail);
    DotSingle(row[col]);
    AddZero(row[col]);
    if r < col {
      DotUnit(head, r, x[..col]);
    } else {
      DotZero(head, x[..col]);
    }
    AddZero(0);
  }

  lemma DotSingle(a: byte)
    ensures Dot([a], [1]) == a
  {
    hide Mul, Add;
    assert Dot([a], [1]) == Add(Mul(a, 1), Dot([a][1..], [1][1..]));
    MulOneRight(a);
    AddZero(a);
  }

  /** With no pivot left in a column, some non-zero column is sent to zero. */
  lemma NoPivotIsSingular(m: Matrix, w: Matrix, col: nat)
    requires Shape(m, |m|, |m|) && Shape(w, |m|, 2 * |m|) && col < |m|
    requires UnitColumns(w, col) && SameSolutions(Augment(m), w, 2 * |m|)
    requires forall r :: col <= r < |m| ==> w[r][col] == 0
    ensures !Regular(m)
  {
    hide Dot, Mul, Add;
    var k := |m|;
    var x := Witness(w, col, k);
    forall r | 0 <= r < k
      ensures Dot(w[r], x + Zeros(k)) == 0
    {
      WitnessRow(w, col, k, r);
    }
    assert Solves(w, x + Zeros(k));
    AugmentSolutions(m, x, Zeros(k));
    ApplyLength(m, x);
    assert Solves(m, x);
    assert x[col] == 1 && Zeros(k)[col] == 0;
  }

  lemma InverseIsRegular(m: Matrix, r: Matrix)
    requires Shape(m, |m|, |m|) && IsInverse(m, r)
    ensures Regular(m)
  {
    hide Dot, IsInverse;
    var zero := Zeros(|m|);
    SendsZeroToZero(m, zero);
    forall x: Vector | |x| == |m| && Solves(m, x)
      ensures x == zero
    {
      assert Apply(m, x) == zero;
      UndoneAlike(m, r, x, zero);
    }
  }

  lemma SendsZeroToZero(m: Matrix, zero: Vector)
    requires Shape(m, |m|, |m|) && zero == Zeros(|m|)
    ensures Apply(m, zero) == zero
  {
    hide Dot;
    forall i | 0 <= i < |m|
      ensures Apply(m, zero)[i] == zero[i]
    {
      DotZero(zero, m[i]);
    }
  }

  lemma UndoneAlike(m: Matrix, r: Matrix, x: Vector, y: Vector)
    requires Shape(m, |m|, |m|) && IsInverse(m, r) && |x| == |y| == |m| && Apply(m, x) == Apply(m, y)
    ensures x == y
  {
    hide Apply;
    ApplyLength(m, x);
    ApplyLength(m, y);
    assert Apply(r, Apply(m, x)) == x && Apply(r, Apply(m, y)) == y;
  }

  // ---------------------------------------------------------------- the elimination

  ghost predicate RowsAre(work: seq<array<byte>>, w: Matrix)
    reads work
  {
    |work| == |w| && forall r :: 0 <= r < |work| ==> work[r][..] == w[r]
  }

  ghost predicate Separate(work: seq<array<byte>>, t: CodingTables) {
    && (forall i, j :: 0 <= i < j < |work| ==> work[i] != work[j])
    && (forall i :: 0 <= i < |work| ==> work[i] != t.EXP && work[i] != t.MUL && work[i] as object != t.LOG)
  }

  method ScaleRow(t: CodingTables, row: array<byte>, scale: byte)
    requires t.Filled() && row != t.EXP && row != t.MUL && row as object != t.LOG
    modifies row
    ensures row[..] == Scaled(scale, old(row[..]))
    ensures t.Filled()
  {
    hide Mul, CodingTables.Filled;
    for c := 0 to row.Length
      invariant t.Filled()
      invariant forall i :: 0 <= i < c ==> row[i] == Mul(scale, old(row[i]))
      invariant forall i :: c <= i < row.Length ==> row[i] == old(row[i])
    {
      MulCommutes(row[c], scale);
      row[c] := t.Times(row[c], scale);
    }
  }

  method AddRow(t: CodingTables, target: array<byte>, row: array<byte>, factor: byte)
    requires t.Filled() && target != t.EXP && target != t.MUL && target as object != t.LOG
    requires target != row && target.Length == row.Length
    modifies target
    ensures target[..] == Plus(old(target[..]), Scaled(factor, row[..]))
    ensures t.Filled()
  {
    hide Mul, Add, CodingTables.Filled;
    for c := 0 to row.Length
      invariant t.Filled()
      invariant forall i :: 0 <= i < c ==> target[i] == Add(old(target[i]), Mul(factor, row[i]))
      invariant forall i :: c <= i < row.Length ==> target[i] == old(target[i])
    {
      target[c] := Add(target[c], t.Times(factor, row[c]));
    }
  }

  /** The state of the work rows between two steps of the elimination. */
  ghost predicate Reduced(m: Matrix, w: Matrix, n: nat)
    requires Shape(m, |m|, |m|)
  {
    && Shape(w, |m|, 2 * |m|)
    && n <= |m|
    && UnitColumns(w, n)
    && SameSolutions(Augment(m), w, 2 * |m|)
  }

  /** Column `col` is already the unit column in the pivot row and in the rows above `r`. */
  ghost predicate Clearing(m: Matrix, w: Matrix, col: nat, r: nat)
    requires Shape(m, |m|, |m|)
  {
    && col < |m|
    && Reduced(m, w, col)
    && w[col][col] == 1
    && forall i :: 0 <= i < r && i < |m| && i != col ==> w[i][col] == 0
  }

  lemma SwapStep(m: Matrix, w: Matrix, col: nat, pivot: nat)
    requires Shape(m, |m|, |m|) && Reduced(m, w, col) && col <= pivot < |m|
    ensures Reduced(m, w[col := w[pivot]][pivot := w[col]], col)
  {
    hide Dot, Augment;
    SwapKeepsSolutions(w, col, pivot, 2 * |m|);
  }

  lemma ScaleStep(m: Matrix, w: Matrix, col: nat)
    requires Shape(m, |m|, |m|) && Reduced(m, w, col) && col < |m| && w[col][col] != 0
    ensures Clearing(m, w[col := Scaled(Inverse(w[col][col]), w[col])], col, 0)
  {
    hide Dot, Augment, Mul, Inverse;
    var c := Inverse(w[col][col]);
    MulInverse(w[col][col]);
    MulZeroRight(c);
    ScaleKeepsSolutions(w, col, c, 2 * |m|);
  }

  lemma ClearStep(m: Matrix, w: Matrix, col: nat, r: nat)
    requires Shape(m, |m|, |m|) && Clearing(m, w, col, r) && r < |m| && r != col
    ensures Clearing(m, w[r := Plus(w[r], Scaled(w[r][col], w[col]))], col, r + 1)
  {
    hide Dot, Augment, Mul, Add;
    var f := w[r][col];
    AddKeepsSolutions(w, r, f, col, 2 * |m|);
    MulOneRight(f);
    MulZeroRight(f);
    AddZero(f);
    AddZero(0);
    AddZero(1);
  }

  lemma ClearedIsReduced(m: Matrix, w: Matrix, col: nat)
    requires Shape(m, |m|, |m|) && Clearing(m, w, col, |m|)
    ensures Reduced(m, w, col + 1)
  {
    hide Dot, Augment, SameSolutions;
    forall r, c | 0 <= r < |w| && 0 <= c < col + 1
      ensures w[r][c] == if r == c then 1 else 0
    {
      if c == col && r != col {
        assert w[r][col] == 0;
      }
    }
  }

  /** Subtracts the pivot row from every other, leaving a unit column. */
  method ClearColumn(t: CodingTables, work: seq<array<byte>>, col: nat, ghost m: Matrix, ghost w: Matrix)
    returns (ghost w': Matrix)
    requires t.Filled() && Separate(work, t) && RowsAre(work, w)
    requires Shape(m, |m|, |m|) && Clearing(m, w, col, 0)
    modifies work
    ensures t.Filled() && RowsAre(work, w')
    ensures Reduced(m, w', col + 1)
  {
    hide Dot, Augment, Mul, Add, CodingTables.Filled, SameSolutions, Scaled, Plus;
    w' := w;
    for r := 0 to |work|
      invariant t.Filled() && RowsAre(work, w')
      invariant Clearing(m, w', col, r)
    {
      if r != col {
        var factor := work[r][col];
        ClearStep(m, w', col, r);
        ScaledLength(factor, w'[col]);
        AddRow(t, work[r], work[col], factor);
        w' := w'[r := Plus(w'[r], Scaled(w'[r][col], w'[col]))];
      }
    }
    ClearedIsReduced(m, w', col);
  }

  datatype Singular = Singular

  /** A fresh row for each row of the matrix, with the identity's row after it. */
  method WorkRows(t: CodingTables, m: Matrix) returns (work: seq<array<byte>>)
    requires Shape(m, |m|, |m|)
    ensures |work| == |m| && fresh(work) && Separate(work, t) && RowsAre(work, Augment(m))
  {
    work := [];
    for r := 0 to |m|
      invariant |work| == r && fresh(work) && Separate(work, t)
      invariant forall i :: 0 <= i < r ==> work[i][..] == Augment(m)[i]
    {
      var row := new byte[2 * |m|](c requires 0 <= c < 2 * |m| => Augment(m)[r][c]);
      work := work + [row];
    }
  }

  /** One round: finds a pivot, brings it up, scales it to 1 and clears its column. */
  method ReduceColumn(t: CodingTables, work: seq<array<byte>>, col: nat, ghost m: Matrix, ghost w: Matrix)
    returns (found: bool, work': seq<array<byte>>, ghost w': Matrix)
    requires t.Filled() && Separate(work, t) && RowsAre(work, w)
    requires Shape(m, |m|, |m|) && Reduced(m, w, col) && col < |m|
    modifies work
    ensures t.Filled()
    ensures !found ==> !Regular(m)
    ensures found ==> Reduced(m, w', col + 1) && RowsAre(work', w')
    ensures found ==> Separate(work', t) && forall i :: 0 <= i < |work'| ==> work'[i] in work
  {
    hide Dot, Mul, Add, CodingTables.Filled, SameSolutions, Scaled, Plus, Inverse, Regular;
    var pivot := col;
    while pivot < |work| && work[pivot][col] == 0
      invariant col <= pivot <= |work|
      invariant forall r :: col <= r < pivot ==> w[r][col] == 0
    {
      pivot := pivot + 1;
    }
    work', w' := work, w;
    if pivot == |work| {
      NoPivotIsSingular(m, w, col);
      return false, work', w';
    }
    SwapStep(m, w, col, pivot);
    work' := work[col := work[pivot]][pivot := work[col]];
    w' := w[col := w[pivot]][pivot := w[col]];
    ScaleStep(m, w', col);
    var scale := t.Invert(work'[col][col]);
    ScaleRow(t, work'[col], scale);
    w' := w'[col := Scaled(scale, w'[col])];
    w' := ClearColumn(t, work', col, m, w');
    found := true;
  }

  /**
   Inverts a square matrix, and refuses exactly the matrices that send some non-zero column to zero.
   */
  method Invert(t: CodingTables, m: Matrix) returns (result: Result<Matrix, Singular>)
    requires t.Filled() && Shape(m, |m|, |m|)
    ensures result.Ok? <==> Regular(m)
    ensures result.Ok? ==> IsInverse(m, result.value)
  {
    hide Dot, CodingTables.Filled, SameSolutions, Regular, IsInverse, Augment, UnitColumns;
    var size := |m|;
    var work := WorkRows(t, m);
    ghost var w := Augment(m);
    StartReduced(m);
    for col := 0 to size
      invariant |work| == size && Separate(work, t) && t.Filled() && RowsAre(work, w)
      invariant forall i :: 0 <= i < |work| ==> fresh(work[i])
      invariant Reduced(m, w, col)
    {
      var found, work', w' := ReduceColumn(t, work, col, m, w);
      if !found {
        return Err(Singular);
      }
      work, w := work', w';
    }
    FinishedIsInverse(m, w);
    InverseIsRegular(m, RightHalf(w, size));
    result := Ok(seq(size, r requires 0 <= r < size reads work => work[r][size..]));
    assert result.value == RightHalf(w, size);
  }

  lemma StartReduced(m: Matrix)
    requires Shape(m, |m|, |m|)
    ensures Reduced(m, Augment(m), 0)
  {
  }
}
