/** Logarithms to the base x, inverses, and the absence of zero divisors. */
module Field {
  import opened Bytes
  import opened GF256
  import opened PrimitiveElement

  ghost function Powers(n: nat): set<byte> {
    set i | 0 <= i < n :: Pow(i)
  }

  ghost function NonZeroBelow(n: nat): (s: set<int>)
    ensures forall b :: b in s <==> 0 < b < n
  {
    if n <= 1 then {} else NonZeroBelow(n - 1) + {n - 1}
  }

  lemma {:induction false} PowersCount(n: nat)
    requires n <= 255
    ensures |Powers(n)| == n
  {
    if n > 0 {
      PowersCount(n - 1);
      assert Powers(n) == Powers(n - 1) + {Pow(n - 1)};
      forall i | 0 <= i < n - 1
        ensures Pow(i) != Pow(n - 1)
      {
        PowInjective(i, n - 1);
      }
    } else {
      assert Powers(0) == {};
    }
  }

  lemma {:induction false} NonZeroCount(n: nat)
    requires n > 0
    ensures |NonZeroBelow(n)| == n - 1
  {
    if n > 1 {
      NonZeroCount(n - 1);
    }
  }

  lemma SubsetOfSameSize(a: set<int>, b: set<int>)
    requires a <= b && |a| == |b|
    ensures a == b
  {
    assert b == a + (b - a);
  }

  /** Every non-zero byte is one of the first 255 powers of x. */
  lemma HasLog(a: byte) returns (i: nat)
    requires a != 0
    ensures i < 255 && Pow(i) == a
  {
    PowersCount(255);
    NonZeroCount(256);
    var image: set<int> := set i | 0 <= i < 255 :: Pow(i) as int;
    assert image == Powers(255) by {
      forall b | b in image ensures b in Powers(255) { }
      forall b | b in Powers(255) ensures b in image { }
    }
    forall b | b in image
      ensures b in NonZeroBelow(256)
    {
      var i :| 0 <= i < 255 && b == Pow(i);
      PowNonZero(i);
    }
    SubsetOfSameSize(image, NonZeroBelow(256));
    assert (a as int) in image;
    i :| 0 <= i < 255 && Pow(i) == a;
  }

  ghost function Log(a: byte): (i: nat)
    requires a != 0
    ensures i < 255 && Pow(i) == a
  {
    assert exists i :: 0 <= i < 255 && Pow(i) == a by { var w := HasLog(a); }
    var i :| 0 <= i < 255 && Pow(i) == a;
    i
  }

  /** The multiplicative inverse. */
  ghost function Inverse(a: byte): byte
    requires a != 0
  {
    Pow(255 - Log(a))
  }

  lemma MulInverse(a: byte)
    requires a != 0
    ensures Mul(a, Inverse(a)) == 1 && Mul(Inverse(a), a) == 1 && Inverse(a) != 0
  {
    hide Mul, Pow;
    PowAdd(Log(a), 255 - Log(a));
    Periods();
    MulCommutes(a, Inverse(a));
    PowNonZero(255 - Log(a));
  }

  lemma NoZeroDivisors(a: byte, b: byte)
    ensures Mul(a, b) == 0 <==> a == 0 || b == 0
  {
    hide Mul, Inverse;
    if a == 0 {
      MulOfZero(b);
    } else if b == 0 {
      MulZeroRight(a);
    } else if Mul(a, b) == 0 {
      MulInverse(a);
      MulAssociates(Inverse(a), a, b);
      MulCommutes(1, b);
      MulOneRight(b);
      MulZeroRight(Inverse(a));
    }
  }
}
