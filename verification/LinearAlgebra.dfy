/** Vectors and matrices of bytes, as sequences and sequences of rows. */
module LinearAlgebra {
  import opened Bytes
  import opened GF256
  import opened Field

  type Vector = seq<byte>
  type Matrix = seq<Vector>

  function Dot(u: Vector, v: Vector): byte
    requires |u| == |v|
  {
    if |u| == 0 then 0 else Add(Mul(u[0], v[0]), Dot(u[1..], v[1..]))
  }

  function Plus(u: Vector, v: Vector): Vector
    requires |u| == |v|
  {
    seq(|u|, i requires 0 <= i < |u| => Add(u[i], v[i]))
  }

  function Scaled(c: byte, u: Vector): Vector {
    seq(|u|, i requires 0 <= i < |u| => Mul(c, u[i]))
  }

  function Zeros(n: nat): Vector {
    seq(n, _ => 0)
  }

  predicate Shape(m: Matrix, rows: nat, columns: nat) {
    |m| == rows && forall r :: 0 <= r < rows ==> |m[r]| == columns
  }

  /** The product of a matrix and a column. */
  function Apply(m: Matrix, x: Vector): Vector
    requires Shape(m, |m|, |x|)
  {
    seq(|m|, r requires 0 <= r < |m| => Dot(m[r], x))
  }

  /** `v` solves the homogeneous system whose equations are the rows of `w`. */
  ghost predicate Solves(w: Matrix, v: Vector)
    requires Shape(w, |w|, |v|)
  {
    forall r :: 0 <= r < |w| ==> Dot(w[r], v) == 0
  }

  ghost predicate SameSolutions(w: Matrix, w': Matrix, n: nat)
    requires Shape(w, |w|, n) && Shape(w', |w'|, n)
  {
    forall v: Vector :: |v| == n ==> (Solves(w, v) <==> Solves(w', v))
  }

  /** Only the zero column is sent to zero. */
  ghost predicate Regular(m: Matrix)
    requires Shape(m, |m|, |m|)
  {
    forall x: Vector :: |x| == |m| && Solves(m, x) ==> x == Zeros(|m|)
  }

  /** `r` undoes `m`, and `m` undoes `r`. */
  ghost predicate IsInverse(m: Matrix, r: Matrix)
    requires Shape(m, |m|, |m|)
  {
    && Shape(r, |m|, |m|)
    && (forall x: Vector :: |x| == |m| ==> Apply(r, Apply(m, x)) == x)
    && (forall y: Vector :: |y| == |m| ==> Apply(m, Apply(r, y)) == y)
  }

  // ---------------------------------------------------------------- dot products

  lemma {:induction false} DotPlus(u: Vector, w: Vector, v: Vector)
    requires |u| == |w| == |v|
    ensures Dot(Plus(u, w), v) == Add(Dot(u, v), Dot(w, v))
  {
    hide Mul, Add;
    if |u| == 0 {
      AddZero(0);
    } else {
      assert Plus(u, w)[1..] == Plus(u[1..], w[1..]);
      DotPlus(u[1..], w[1..], v[1..]);
      MulAddLeft(u[0], w[0], v[0]);
      AddSwap(Mul(u[0], v[0]), Mul(w[0], v[0]), Dot(u[1..], v[1..]), Dot(w[1..], v[1..]));
    }
  }

  lemma {:induction false} DotScaled(c: byte, u: Vector, v: Vector)
    requires |u| == |v|
    ensures Dot(Scaled(c, u), v) == Mul(c, Dot(u, v))
  {
    hide Mul, Add;
    if |u| == 0 {
      MulZeroRight(c);
    } else {
      assert Scaled(c, u)[1..] == Scaled(c, u[1..]);
      DotScaled(c, u[1..], v[1..]);
      MulAssociates(c, u[0], v[0]);
      MulAddRight(c, Mul(u[0], v[0]), Dot(u[1..], v[1..]));
    }
  }

  lemma {:induction false} DotCommutes(u: Vector, v: Vector)
    requires |u| == |v|
    ensures Dot(u, v) == Dot(v, u)
  {
    hide Mul, Add;
    if |u| > 0 {
      MulCommutes(u[0], v[0]);
      DotCommutes(u[1..], v[1..]);
    }
  }

  lemma {:induction false} DotConcat(u: Vector, u': Vector, v: Vector, v': Vector)
    requires |u| == |v| && |u'| == |v'|
    ensures Dot(u + u', v + v') == Add(Dot(u, v), Dot(u', v'))
  {
    hide Mul, Add;
    if |u| == 0 {
      assert u + u' == u' && v + v' == v';
      AddZero(Dot(u', v'));
    } else {
      assert (u + u')[1..] == u[1..] + u' && (v + v')[1..] == v[1..] + v';
      DotConcat(u[1..], u', v[1..], v');
      AddAssociates(Mul(u[0], v[0]), Dot(u[1..], v[1..]), Dot(u', v'));
    }
  }

  lemma {:induction false} DotZero(u: Vector, v: Vector)
    requires |u| == |v| && forall i :: 0 <= i < |u| ==> u[i] == 0
    ensures Dot(u, v) == 0 && Dot(v, u) == 0
  {
    hide Mul, Add;
    if |u| > 0 {
      DotZero(u[1..], v[1..]);
      MulOfZero(v[0]);
      MulZeroRight(v[0]);
      AddZero(0);
    }
  }

  /** The dot product with a vector that is 1 at `c` and 0 elsewhere. */
  lemma {:induction false} DotUnit(u: Vector, c: nat, v: Vector)
    requires c < |u| == |v|
    requires forall i :: 0 <= i < |u| ==> u[i] == if i == c then 1 else 0
    ensures Dot(u, v) == v[c]
  {
    hide Mul, Add;
    if c == 0 {
      DotZero(u[1..], v[1..]);
      MulCommutes(1, v[0]);
      MulOneRight(v[0]);
      AddZero(v[0]);
    } else {
      MulOfZero(v[0]);
      DotUnit(u[1..], c - 1, v[1..]);
      AddZero(v[c]);
    }
  }

  lemma ApplyLength(m: Matrix, x: Vector)
    requires Shape(m, |m|, |x|)
    ensures |Apply(m, x)| == |m|
    ensures forall r :: 0 <= r < |m| ==> Apply(m, x)[r] == Dot(m[r], x)
  {
  }

  // ---------------------------------------------------------------- row operations keep the solutions

  lemma SwapKeepsSolutions(w: Matrix, i: nat, j: nat, n: nat)
    requires Shape(w, |w|, n) && i < |w| && j < |w|
    ensures SameSolutions(w, w[i := w[j]][j := w[i]], n)
  {
    hide Dot;
    var w' := w[i := w[j]][j := w[i]];
    forall v: Vector | |v| == n
      ensures Solves(w, v) <==> Solves(w', v)
    {
      if Solves(w', v) {
        assert Dot(w'[i], v) == 0 && Dot(w'[j], v) == 0;
        forall r | 0 <= r < |w|
          ensures Dot(w[r], v) == 0
        {
          assert Dot(w'[r], v) == 0;
        }
      }
    }
  }

  lemma ScaleKeepsSolutions(w: Matrix, i: nat, c: byte, n: nat)
    requires Shape(w, |w|, n) && i < |w| && c != 0
    ensures SameSolutions(w, w[i := Scaled(c, w[i])], n)
  {
    hide Dot, Mul, Scaled;
    ScaledLength(c, w[i]);
    var w' := w[i := Scaled(c, w[i])];
    forall v: Vector | |v| == n
      ensures Solves(w, v) <==> Solves(w', v)
    {
      DotScaled(c, w[i], v);
      NoZeroDivisors(c, Dot(w[i], v));
      if Solves(w', v) {
        assert Dot(w'[i], v) == 0;
        forall r | 0 <= r < |w|
          ensures Dot(w[r], v) == 0
        {
          assert Dot(w'[r], v) == 0;
        }
      }
    }
  }

  lemma ScaledLength(c: byte, u: Vector)
    ensures |Scaled(c, u)| == |u|
  {
  }

  lemma AddKeepsSolutions(w: Matrix, r: nat, f: byte, i: nat, n: nat)
    requires Shape(w, |w|, n) && r < |w| && i < |w| && r != i
    ensures SameSolutions(w, w[r := Plus(w[r], Scaled(f, w[i]))], n)
  {
    hide Dot, Mul, Add;
    var w' := w[r := Plus(w[r], Scaled(f, w[i]))];
    forall v: Vector | |v| == n
      ensures Solves(w, v) <==> Solves(w', v)
    {
      DotPlus(w[r], Scaled(f, w[i]), v);
      DotScaled(f, w[i], v);
      MulZeroRight(f);
      AddZero(Dot(w[r], v));
      if Solves(w', v) {
        assert Dot(w'[r], v) == 0 && Dot(w'[i], v) == 0;
        forall k | 0 <= k < |w|
          ensures Dot(w[k], v) == 0
        {
          assert Dot(w'[k], v) == 0;
        }
      }
    }
  }
}
