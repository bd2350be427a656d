/**
 The systematic generator matrix: the Vandermonde matrix on the points 0, 1, 2, ... times the inverse of
 its top square. Each of its rows evaluates, at its own point, the polynomial that takes the data as its
 values at the first points.
 */
module Generator {
  import opened Wrappers
  import opened Bytes
  import opened GF256
  import opened Tables
  import opened LinearAlgebra
  import opened Elimination
  import opened Interpolation

  datatype CodingError = BadParameters | TooSmall | BadParts | Singular

  predicate CodingBounds(required: nat, total: nat) {
    2 <= required < total <= 16
  }

  /** Some polynomial with |x| coefficients takes the values `x`, and the values `y`, at 0, 1, 2, ... */
  ghost predicate Codes(c: Vector, x: Vector, y: Vector) {
    && |c| == |x| <= 256 && |y| <= 256
    && (forall j :: 0 <= j < |x| ==> x[j] == Eval(c, j))
    && (forall i :: 0 <= i < |y| ==> y[i] == Eval(c, i))
  }

  ghost predicate Codeword(x: Vector, y: Vector) {
    exists c: Vector :: Codes(c, x, y)
  }

  /** The matrix turns every data column into its codeword. */
  ghost predicate IsGenerator(g: Matrix, k: nat, n: nat) {
    && k <= 256 && n <= 256
    && Shape(g, n, k)
    && forall x: Vector :: |x| == k ==> Codeword(x, Apply(g, x))
  }

  function Vandermonde(k: nat, n: nat): (v: Matrix)
    requires n <= 256
    ensures Shape(v, n, k)
  {
    seq(n, r requires 0 <= r < n => PowerRow(r, k))
  }

  lemma FirstPoints(k: nat) returns (points: seq<byte>)
    requires k <= 256
    ensures |points| == k && Distinct(points) && forall i :: 0 <= i < k ==> points[i] == i
  {
    points := seq(k, i requires 0 <= i < k => i);
  }

  lemma TopIsRegular(k: nat)
    requires k <= 256
    ensures Regular(Vandermonde(k, k))
  {
    hide Dot, Eval;
    var v := Vandermonde(k, k);
    var points := FirstPoints(k);
    forall x: Vector | |x| == k && Solves(v, x)
      ensures x == Zeros(k)
    {
      forall i | 0 <= i < k
        ensures Eval(x, points[i]) == 0
      {
        RowEvaluates(i, x);
        assert Dot(v[i], x) == 0;
      }
      TooManyRoots(x, points);
    }
  }

  /** The combination of the rows of `m` with the coefficients `v`. */
  function Combination(v: Vector, m: Matrix, k: nat): (u: Vector)
    requires Shape(m, |v|, k)
    ensures |u| == k
  {
    if |v| == 0 then Zeros(k) else Plus(Scaled(v[0], m[0]), Combination(v[1..], m[1..], k))
  }

  lemma {:induction false} CombinationApplies(v: Vector, m: Matrix, x: Vector)
    requires Shape(m, |v|, |x|)
    ensures Dot(Combination(v, m, |x|), x) == Dot(v, Apply(m, x))
  {
    hide Mul, Add;
    if |v| == 0 {
      DotZero(Zeros(|x|), x);
    } else {
      var rest := Combination(v[1..], m[1..], |x|);
      DotPlus(Scaled(v[0], m[0]), rest, x);
      DotScaled(v[0], m[0], x);
      CombinationApplies(v[1..], m[1..], x);
      assert Apply(m, x)[1..] == Apply(m[1..], x);
    }
  }

  /** The entry that the generator's inner sum computes, one term at a time. */
  method CombinationEntry(t: CodingTables, v: Vector, m: Matrix, k: nat, col: nat) returns (sum: byte)
    requires t.Filled() && Shape(m, |v|, k) && col < k
    ensures sum == Combination(v, m, k)[col]
  {
    hide Mul, Add, CodingTables.Filled;
    sum := 0;
    AddZero(Combination(v, m, k)[col]);
    assert v[0..] == v && m[0..] == m;
    for i := 0 to |v|
      invariant Add(sum, Combination(v[i..], m[i..], k)[col]) == Combination(v, m, k)[col]
    {
      var term := t.Times(v[i], m[i][col]);
      assert v[i..][1..] == v[i + 1..] && m[i..][1..] == m[i + 1..];
      AddAssociates(sum, term, Combination(v[i + 1..], m[i + 1..], k)[col]);
      sum := Add(sum, term);
    }
    AddZero(sum);
  }

  method PowersOf(t: CodingTables, r: byte, k: nat) returns (row: Vector)
    requires t.Filled() && k > 0
    ensures row == PowerRow(r, k)
  {
    hide Mul, CodingTables.Filled;
    row := [1];
    for c := 1 to k
      invariant row == PowerRow(r, c)
    {
      row := row + [t.Times(row[c - 1], r)];
    }
  }

  lemma ProductIsGenerator(g: Matrix, inverse: Matrix, k: nat, n: nat)
    requires k <= n <= 256 && Shape(g, n, k)
    requires IsInverse(Vandermonde(k, k), inverse)
    requires forall r :: 0 <= r < n ==> g[r] == Combination(PowerRow(r, k), inverse, k)
    ensures IsGenerator(g, k, n)
  {
    hide Dot, Eval, Combination;
    forall x: Vector | |x| == k
      ensures Codeword(x, Apply(g, x))
    {
      var c := Apply(inverse, x);
      assert Apply(Vandermonde(k, k), c) == x;
      forall j | 0 <= j < k
        ensures x[j] == Eval(c, j)
      {
        RowEvaluates(j, c);
        assert Apply(Vandermonde(k, k), c)[j] == Dot(PowerRow(j, k), c);
      }
      forall i | 0 <= i < n
        ensures Apply(g, x)[i] == Eval(c, i)
      {
        CombinationApplies(PowerRow(i, k), inverse, x);
        RowEvaluates(i, c);
      }
      assert Codes(c, x, Apply(g, x));
    }
  }

  /** Builds the generator, and refuses only parameters out of bounds. */
  method Generate(t: CodingTables, required: nat, total: nat) returns (result: Result<Matrix, CodingError>)
    requires t.Filled()
    ensures result.Ok? <==> 2 <= required < total <= 16
    ensures result.Err? ==> result.error == BadParameters
    ensures result.Ok? ==> IsGenerator(result.value, required, total)
  {
    hide Dot, CodingTables.Filled, Regular, IsInverse, Combination;
    if !CodingBounds(required, total) {
      return Err(BadParameters);
    }
    var vandermonde: Matrix := [];
    for r := 0 to total
      invariant |vandermonde| == r
      invariant forall i :: 0 <= i < r ==> vandermonde[i] == PowerRow(i, required)
    {
      var row := PowersOf(t, r, required);
      vandermonde := vandermonde + [row];
    }
    assert vandermonde[..required] == Vandermonde(required, required);
    TopIsRegular(required);
    var inverted := Invert(t, vandermonde[..required]);
    var topInverse := inverted.value;
    InverseShape(vandermonde[..required], topInverse);
    var matrix: Matrix := [];
    for r := 0 to total
      invariant |matrix| == r
      invariant forall i :: 0 <= i < r ==> matrix[i] == Combination(PowerRow(i, required), topInverse, required)
    {
      var row: Vector := [];
      for col := 0 to required
        invariant |row| == col
        invariant forall c :: 0 <= c < col ==> row[c] == Combination(vandermonde[r], topInverse, required)[c]
      {
        var entry := CombinationEntry(t, vandermonde[r], topInverse, required, col);
        row := row + [entry];
      }
      assert row == Combination(vandermonde[r], topInverse, required);
      matrix := matrix + [row];
    }
    ProductIsGenerator(matrix, topInverse, required, total);
    result := Ok(matrix);
  }

  lemma InverseShape(m: Matrix, r: Matrix)
    requires Shape(m, |m|, |m|) && IsInverse(m, r)
    ensures Shape(r, |m|, |m|)
  {
  }

  // ---------------------------------------------------------------- any k rows

  /** The rows of the generator at the chosen indices. */
  function Chosen(g: Matrix, indices: seq<nat>, k: nat): (m: Matrix)
    requires Shape(g, |g|, k) && forall j :: 0 <= j < |indices| ==> indices[j] < |g|
    ensures Shape(m, |indices|, k)
    ensures forall j :: 0 <= j < |indices| ==> m[j] == g[indices[j]]
  {
    seq(|indices|, j requires 0 <= j < |indices| => g[indices[j]])
  }

  predicate GoodIndices(indices: seq<nat>, k: nat, n: nat) {
    && |indices| == k
    && (forall j :: 0 <= j < k ==> indices[j] < n)
    && (forall i, j :: 0 <= i < j < k ==> indices[i] != indices[j])
  }

  lemma ZeroPolynomial(k: nat, t: byte)
    ensures Eval(Zeros(k), t) == 0
    decreases k
  {
    hide Mul, Add;
    if k > 0 {
      assert Zeros(k)[1..] == Zeros(k - 1);
      ZeroPolynomial(k - 1, t);
      MulZeroRight(t);
      AddZero(0);
    }
  }

  /** The chosen indices as points of the field. */
  function Points(indices: seq<nat>): (points: seq<byte>)
    requires forall j :: 0 <= j < |indices| ==> indices[j] < 256
    ensures |points| == |indices| && forall j :: 0 <= j < |indices| ==> points[j] == indices[j]
  {
    seq(|indices|, j requires 0 <= j < |indices| => indices[j])
  }

  lemma PointsDistinct(indices: seq<nat>, k: nat, n: nat)
    requires GoodIndices(indices, k, n) && n <= 256
    ensures Distinct(Points(indices))
  {
    hide Points;
  }

  lemma ChosenKernel(c: Vector, x: Vector, y: Vector, indices: seq<nat>)
    requires Codes(c, x, y) && GoodIndices(indices, |x|, |y|)
    requires forall j :: 0 <= j < |x| ==> y[indices[j]] == 0
    ensures x == Zeros(|x|)
  {
    PointsDistinct(indices, |x|, |y|);
    hide Dot, Eval, Points, Distinct;
    TooManyRoots(c, Points(indices));
    forall j | 0 <= j < |x|
      ensures x[j] == 0
    {
      ZeroPolynomial(|x|, j);
    }
  }

  /** Any k distinct rows of the generator form an invertible matrix. */
  lemma AnyRowsAreRegular(g: Matrix, indices: seq<nat>, k: nat, n: nat)
    requires IsGenerator(g, k, n) && GoodIndices(indices, k, n)
    ensures Regular(Chosen(g, indices, k))
  {
    hide Dot, Eval, Codes;
    var m := Chosen(g, indices, k);
    forall x: Vector | |x| == k && Solves(m, x)
      ensures x == Zeros(k)
    {
      var y := Apply(g, x);
      assert Codeword(x, y);
      var c: Vector :| Codes(c, x, y);
      forall j | 0 <= j < k
        ensures y[indices[j]] == 0
      {
        assert Dot(m[j], x) == 0;
      }
      ChosenKernel(c, x, y, indices);
    }
  }
}
