/**
 Polynomials with byte coefficients, evaluated at byte points. A non-zero polynomial with k coefficients
 has fewer than k roots, so k values at distinct points determine it.
 */
module Interpolation {
  import opened Bytes
  import opened GF256
  import opened Field
  import opened LinearAlgebra

  /** The value at `t` of the polynomial with these coefficients, lowest first. */
  function Eval(p: Vector, t: byte): byte {
    if |p| == 0 then 0 else Add(p[0], Mul(t, Eval(p[1..], t)))
  }

  /** The quotient by (t + r), by synthetic division. */
  function Quotient(p: Vector, r: byte): (q: Vector)
    requires |p| > 0
    ensures |q| == |p| - 1
  {
    if |p| == 1 then [] else [Eval(p[1..], r)] + Quotient(p[1..], r)
  }

  predicate Distinct(s: seq<byte>) {
    forall i, j :: 0 <= i < j < |s| ==> s[i] != s[j]
  }

  /** The algebra of one division step. */
  lemma DivisionStep(p0: byte, t: byte, r: byte, e: byte, q: byte)
    ensures Add(p0, Mul(t, Add(e, Mul(Add(t, r), q))))
         == Add(Add(p0, Mul(r, e)), Mul(Add(t, r), Add(e, Mul(t, q))))
  {
    hide *;
    var d := Add(t, r);
    MulAddRight(t, e, Mul(d, q));
    MulAddRight(d, e, Mul(t, q));
    MulAddLeft(t, r, e);
    MulAssociates(t, d, q);
    MulCommutes(t, d);
    MulAssociates(d, t, q);
    var te, re, x := Mul(t, e), Mul(r, e), Mul(d, Mul(t, q));
    AddAssociates(p0, re, Add(Add(te, re), x));
    AddAssociates(te, re, x);
    AddCommutes(te, Add(re, x));
    AddAssociates(re, Add(re, x), te);
    AddAssociates(re, re, x);
    AddZero(re);
    AddZero(x);
    AddCommutes(x, te);
  }

  lemma {:induction false} Division(p: Vector, r: byte, t: byte)
    requires |p| > 0
    ensures Eval(p, t) == Add(Eval(p, r), Mul(Add(t, r), Eval(Quotient(p, r), t)))
  {
    hide Mul, Add;
    MulZeroRight(t);
    MulZeroRight(r);
    MulZeroRight(Add(t, r));
    AddZero(p[0]);
    if |p| > 1 {
      var rest := p[1..];
      Division(rest, r, t);
      DivisionStep(p[0], t, r, Eval(rest, r), Eval(Quotient(rest, r), t));
      assert Quotient(p, r)[1..] == Quotient(rest, r);
    }
  }

  lemma {:induction false} ZeroQuotient(p: Vector, r: byte)
    requires |p| > 0 && Eval(p, r) == 0 && Quotient(p, r) == Zeros(|p| - 1)
    ensures p == Zeros(|p|)
  {
    hide Mul, Add;
    MulZeroRight(r);
    AddZero(p[0]);
    if |p| > 1 {
      var q := Quotient(p, r);
      assert q[0] == Eval(p[1..], r) && q[0] == 0;
      assert q[1..] == Quotient(p[1..], r) && q[1..] == Zeros(|p| - 2);
      ZeroQuotient(p[1..], r);
      assert p == [p[0]] + p[1..];
    }
  }

  /** A polynomial with as many distinct roots as coefficients is zero. */
  lemma {:induction false} TooManyRoots(p: Vector, roots: seq<byte>)
    requires |roots| == |p| && Distinct(roots)
    requires forall i :: 0 <= i < |roots| ==> Eval(p, roots[i]) == 0
    ensures p == Zeros(|p|)
    decreases |p|
  {
    hide Mul, Add, Eval, Quotient;
    if |p| > 0 {
      var r := roots[0];
      var q := Quotient(p, r);
      forall i | 0 <= i < |roots[1..]|
        ensures Eval(q, roots[1..][i]) == 0
      {
        var s := roots[i + 1];
        Division(p, r, s);
        AddZero(Mul(Add(s, r), Eval(q, s)));
        AddCancels(s, r);
        NoZeroDivisors(Add(s, r), Eval(q, s));
      }
      TooManyRoots(q, roots[1..]);
      ZeroQuotient(p, r);
    }
  }

  lemma {:induction false} EvalPlus(p: Vector, q: Vector, t: byte)
    requires |p| == |q|
    ensures Eval(Plus(p, q), t) == Add(Eval(p, t), Eval(q, t))
  {
    hide Mul, Add;
    if |p| == 0 {
      AddZero(0);
    } else {
      assert Plus(p, q)[1..] == Plus(p[1..], q[1..]);
      EvalPlus(p[1..], q[1..], t);
      MulAddRight(t, Eval(p[1..], t), Eval(q[1..], t));
      AddSwap(p[0], q[0], Mul(t, Eval(p[1..], t)), Mul(t, Eval(q[1..], t)));
    }
  }

  /** Two polynomials with k coefficients that agree at k distinct points are equal. */
  lemma AgreeAtPoints(p: Vector, q: Vector, points: seq<byte>)
    requires |p| == |q| == |points| && Distinct(points)
    requires forall i :: 0 <= i < |points| ==> Eval(p, points[i]) == Eval(q, points[i])
    ensures p == q
  {
    hide Mul, Add, Eval;
    forall i | 0 <= i < |points|
      ensures Eval(Plus(p, q), points[i]) == 0
    {
      EvalPlus(p, q, points[i]);
      AddCancels(Eval(p, points[i]), Eval(q, points[i]));
    }
    TooManyRoots(Plus(p, q), points);
    forall i | 0 <= i < |p|
      ensures p[i] == q[i]
    {
      assert Plus(p, q)[i] == 0;
      AddCancels(p[i], q[i]);
    }
  }

  // ---------------------------------------------------------------- Vandermonde rows

  function PowerOf(t: byte, c: nat): byte {
    if c == 0 then 1 else Mul(PowerOf(t, c - 1), t)
  }

  /** 1, t, t^2 and so on. */
  function PowerRow(t: byte, k: nat): Vector {
    seq(k, c requires 0 <= c < k => PowerOf(t, c))
  }

  /** Evaluation is a dot product with a row of powers. */
  lemma {:induction false} RowEvaluates(t: byte, p: Vector)
    ensures Dot(PowerRow(t, |p|), p) == Eval(p, t)
  {
    hide Mul, Add;
    if |p| > 0 {
      var row, rest := PowerRow(t, |p|), p[1..];
      assert row[1..] == Scaled(t, PowerRow(t, |rest|)) by {
        forall c | 0 <= c < |rest|
          ensures row[1..][c] == Mul(t, PowerOf(t, c))
        {
          MulCommutes(PowerOf(t, c), t);
        }
      }
      RowEvaluates(t, rest);
      DotScaled(t, PowerRow(t, |rest|), rest);
      MulCommutes(1, p[0]);
      MulOneRight(p[0]);
    }
  }
}
