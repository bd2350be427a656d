/**
 The field of 256 elements used by the erasure coder: bytes are polynomials over GF(2) of degree
 below eight, bit k of the number being the coefficient of x^k. They are added by exclusive or and
 multiplied modulo x^8 + x^4 + x^3 + x^2 + 1, the number 0x11d. Nothing here mentions a table;
 `Tables` proves that the filled tables are this arithmetic.
 */
module GF256 {
  import opened Bytes

  function Bit(a: nat): nat {
    a % 2
  }

  function Half(a: nat): nat {
    a / 2
  }

  /** Exclusive or of two binary numbers. */
  function Xor(a: nat, b: nat): nat {
    if a == 0 && b == 0 then 0
    else (if Bit(a) == Bit(b) then 0 else 1) + 2 * Xor(Half(a), Half(b))
  }

  /** Addition, which is its own inverse. */
  function Add(a: byte, b: byte): byte {
    XorBound(a, b, 8);
    Xor(a, b)
  }

  /** Multiplication by x: shift, and subtract the modulus if the degree reached eight. */
  function Xtime(a: byte): byte {
    if 2 * a < 256 then 2 * a
    else
      XorBothTops(8, 2 * a - 256, 0x1d);
      XorBound(2 * a - 256, 0x1d, 8);
      Xor(2 * a, 0x11d)
  }

  /** The product, by shifting and adding. */
  function Mul(a: byte, b: byte): byte
    decreases a
  {
    if a == 0 then 0
    else Add(if a % 2 == 1 then b else 0, Mul(a / 2, Xtime(b)))
  }

  /** x^n. */
  function Pow(n: nat): byte {
    if n == 0 then 1 else Xtime(Pow(n - 1))
  }

  function Two(k: nat): nat {
    if k == 0 then 1 else 2 * Two(k - 1)
  }

  // ---------------------------------------------------------------- exclusive or

  lemma {:induction false} XorBound(a: nat, b: nat, k: nat)
    requires a < Two(k) && b < Two(k)
    ensures Xor(a, b) < Two(k)
    decreases k
  {
    if k == 0 {
      XorZero(0);
    } else {
      hide *;
      HalfSplit(k, a);
      HalfSplit(k, b);
      XorBound(Half(a), Half(b), k - 1);
      XorHalf(a, b);
      Digits(Xor(a, b));
      TwoStep(k);
    }
  }

  lemma {:induction false} XorCommutes(a: nat, b: nat)
    ensures Xor(a, b) == Xor(b, a)
  {
    if a != 0 || b != 0 {
      XorCommutes(Half(a), Half(b));
    }
  }

  /** Binary digits: a number is its low bit plus twice the rest, in one way only. */
  lemma Digits(a: nat)
    ensures a == Bit(a) + 2 * Half(a) && Bit(a) < 2
  {
  }

  lemma DigitsUnique(a: nat, bit: nat, rest: nat)
    requires a == bit + 2 * rest && bit < 2
    ensures Bit(a) == bit && Half(a) == rest
  {
  }

  /** The lowest bit of an exclusive or, and the others. */
  lemma XorHalf(a: nat, b: nat)
    ensures Bit(Xor(a, b)) == (if Bit(a) == Bit(b) then 0 else 1)
    ensures Half(Xor(a, b)) == Xor(Half(a), Half(b))
  {
    if a != 0 || b != 0 {
      assert Xor(a, b) == (if Bit(a) == Bit(b) then 0 else 1) + 2 * Xor(Half(a), Half(b));
      hide *;
      DigitsUnique(Xor(a, b), if Bit(a) == Bit(b) then 0 else 1, Xor(Half(a), Half(b)));
    }
  }

  /** Numbers with the same digits are equal. */
  lemma SameDigits(a: nat, b: nat)
    requires Bit(a) == Bit(b) && Half(a) == Half(b)
    ensures a == b
  {
    hide *;
    Digits(a);
    Digits(b);
  }

  lemma {:induction false} XorAssociates(a: nat, b: nat, c: nat)
    ensures Xor(Xor(a, b), c) == Xor(a, Xor(b, c))
    decreases a + b + c
  {
    if a != 0 || b != 0 || c != 0 {
      hide *;
      Digits(a);
      Digits(b);
      Digits(c);
      XorAssociates(Half(a), Half(b), Half(c));
      XorHalf(a, b);
      XorHalf(b, c);
      XorHalf(Xor(a, b), c);
      XorHalf(a, Xor(b, c));
      SameDigits(Xor(Xor(a, b), c), Xor(a, Xor(b, c)));
    }
  }

  lemma {:induction false} XorZero(a: nat)
    ensures Xor(a, 0) == a && Xor(0, a) == a && Xor(a, a) == 0
  {
    if a != 0 {
      XorZero(Half(a));
      XorHalf(a, 0);
      XorHalf(0, a);
      hide *;
      Digits(a);
    }
  }

  lemma HalfSplit(k: nat, a: nat)
    requires k > 0 && a < Two(k)
    ensures Half(Two(k) + a) == Two(k - 1) + Half(a) && Bit(Two(k) + a) == Bit(a) && Half(a) < Two(k - 1)
  {
    assert Two(k) == 2 * Two(k - 1);
    hide *;
    Digits(a);
    DigitsUnique(Two(k) + a, Bit(a), Two(k - 1) + Half(a));
  }

  /** Adding to a number with a set top bit a number without one leaves the bit. */
  lemma {:induction false} XorSplit(k: nat, a: nat, b: nat)
    requires a < Two(k) && b < Two(k)
    ensures Xor(Two(k) + a, b) == Two(k) + Xor(a, b)
  {
    if k == 0 {
      XorZero(1);
      XorZero(0);
    } else {
      hide *;
      HalfSplit(k, a);
      HalfSplit(k, b);
      XorSplit(k - 1, Half(a), Half(b));
      XorHalf(Two(k) + a, b);
      XorHalf(a, b);
      Digits(Xor(Two(k) + a, b));
      Digits(Xor(a, b));
      TwoStep(k);
    }
  }

  lemma TwoStep(k: nat)
    requires k > 0
    ensures Two(k) == 2 * Two(k - 1)
  {
  }

  /** Adding two numbers with the same set top bit clears it. */
  lemma {:induction false} XorBothTops(k: nat, a: nat, b: nat)
    requires a < Two(k) && b < Two(k)
    ensures Xor(Two(k) + a, Two(k) + b) == Xor(a, b)
  {
    if k == 0 {
      XorZero(1);
      XorZero(0);
    } else {
      hide *;
      HalfSplit(k, a);
      HalfSplit(k, b);
      XorBothTops(k - 1, Half(a), Half(b));
      XorHalf(Two(k) + a, Two(k) + b);
      XorHalf(a, b);
      SameDigits(Xor(Two(k) + a, Two(k) + b), Xor(a, b));
    }
  }

  // ---------------------------------------------------------------- the additive group

  lemma AddCommutes(a: byte, b: byte)
    ensures Add(a, b) == Add(b, a)
  {
    XorCommutes(a, b);
  }

  lemma AddAssociates(a: byte, b: byte, c: byte)
    ensures Add(Add(a, b), c) == Add(a, Add(b, c))
  {
    XorAssociates(a, b, c);
  }

  lemma AddZero(a: byte)
    ensures Add(a, 0) == a && Add(0, a) == a && Add(a, a) == 0
  {
    XorZero(a);
  }

  lemma AddSwap(a: byte, b: byte, c: byte, d: byte)
    ensures Add(Add(a, b), Add(c, d)) == Add(Add(a, c), Add(b, d))
  {
    hide *;
    AddAssociates(a, b, Add(c, d));
    AddAssociates(b, c, d);
    AddCommutes(b, c);
    AddAssociates(c, b, d);
    AddAssociates(a, c, Add(b, d));
  }

  /** Every element is its own negative, so a sum is zero only of equal elements. */
  lemma AddCancels(a: byte, b: byte)
    ensures Add(a, b) == 0 <==> a == b
    ensures Add(Add(a, b), b) == a
  {
    hide *;
    AddAssociates(a, b, b);
    AddZero(a);
    AddZero(b);
  }

  // ---------------------------------------------------------------- multiplication by x

  lemma XorDouble(a: nat, b: nat)
    ensures Xor(2 * a, 2 * b) == 2 * Xor(a, b)
  {
    hide *;
    DigitsUnique(2 * a, 0, a);
    DigitsUnique(2 * b, 0, b);
    XorHalf(2 * a, 2 * b);
    Digits(Xor(2 * a, 2 * b));
  }

  /** Whether the degree reaches eight after a shift; the sum has the exclusive or of the two answers. */
  lemma AddTop(a: byte, b: byte)
    ensures (Add(a, b) >= 128) == ((a >= 128) != (b >= 128))
  {
    hide Xor;
    assert Two(7) == 128;
    if a < 128 && b < 128 {
      XorBound(a, b, 7);
    } else if a >= 128 && b >= 128 {
      XorBothTops(7, a - 128, b - 128);
      XorBound(a - 128, b - 128, 7);
    } else if a >= 128 {
      XorSplit(7, a - 128, b);
    } else {
      XorSplit(7, b - 128, a);
      XorCommutes(a, b);
    }
  }

  lemma XtimeAdd(a: byte, b: byte)
    ensures Xtime(Add(a, b)) == Add(Xtime(a), Xtime(b))
  {
    hide Xor;
    XorDouble(a, b);
    AddTop(a, b);
    XorAssociates(2 * a, 2 * b, 0x11d);
    XtimeSwap(2 * a, 2 * b);
    XtimeTwice(2 * a, 2 * b);
  }

  lemma XtimeSwap(a: nat, b: nat)
    ensures Xor(Xor(a, b), 0x11d) == Xor(Xor(a, 0x11d), b)
  {
    hide *;
    XorAssociates(a, b, 0x11d);
    XorCommutes(b, 0x11d);
    XorAssociates(a, 0x11d, b);
  }

  lemma XtimeTwice(a: nat, b: nat)
    ensures Xor(a, b) == Xor(Xor(a, 0x11d), Xor(b, 0x11d))
  {
    hide *;
    XtimeSwap(a, b);
    XorAssociates(Xor(a, 0x11d), b, 0x11d);
    XorAssociates(Xor(a, b), 0x11d, 0x11d);
    XorZero(0x11d);
    XorZero(Xor(a, b));
  }

  lemma XtimeZero(a: byte)
    ensures Xtime(a) == 0 <==> a == 0
  {
    hide Xor;
    XorHalf(2 * a, 0x11d);
  }

  lemma XtimeInjective(a: byte, b: byte)
    requires Xtime(a) == Xtime(b)
    ensures a == b
  {
    hide *;
    XtimeAdd(a, b);
    AddCancels(Xtime(a), Xtime(b));
    XtimeZero(Add(a, b));
    AddCancels(a, b);
  }

  // ---------------------------------------------------------------- ring laws

  /** What one step of the product adds. */
  function Low(a: byte, b: byte): byte {
    if a % 2 == 1 then b else 0
  }

  /** One step of the product; it also holds of zero. */
  lemma MulStep(a: byte, b: byte)
    ensures Mul(a, b) == Add(Low(a, b), Mul(a / 2, Xtime(b)))
  {
    AddZero(0);
  }

  lemma MulOfZero(b: byte)
    ensures Mul(0, b) == 0
  {
  }

  lemma LowAdd(a: byte, b: byte, c: byte)
    ensures Low(a, Add(b, c)) == Add(Low(a, b), Low(a, c))
  {
    AddZero(0);
  }

  lemma LowXtime(a: byte, b: byte)
    ensures Low(a, Xtime(b)) == Xtime(Low(a, b))
  {
  }

  lemma {:induction false} MulAddRight(a: byte, b: byte, c: byte)
    ensures Mul(a, Add(b, c)) == Add(Mul(a, b), Mul(a, c))
    decreases a
  {
    hide *;
    if a == 0 {
      MulOfZero(Add(b, c));
      MulOfZero(b);
      MulOfZero(c);
      AddZero(0);
    } else {
      var h := a / 2;
      MulStep(a, b);
      MulStep(a, c);
      MulStep(a, Add(b, c));
      XtimeAdd(b, c);
      MulAddRight(h, Xtime(b), Xtime(c));
      LowAdd(a, b, c);
      AddSwap(Low(a, b), Low(a, c), Mul(h, Xtime(b)), Mul(h, Xtime(c)));
    }
  }

  lemma {:induction false} MulXtime(a: byte, b: byte)
    ensures Mul(a, Xtime(b)) == Xtime(Mul(a, b))
    decreases a
  {
    hide *;
    if a == 0 {
      MulOfZero(b);
      MulOfZero(Xtime(b));
      XtimeZero(0);
    } else {
      MulStep(a, b);
      MulStep(a, Xtime(b));
      MulXtime(a / 2, Xtime(b));
      LowXtime(a, b);
      XtimeAdd(Low(a, b), Mul(a / 2, Xtime(b)));
    }
  }

  /** A byte is its lowest bit plus x times its upper bits. */
  lemma Horner(a: byte)
    ensures Add(a % 2, Xtime(a / 2)) == a
  {
    assert Xtime(a / 2) == 2 * (a / 2);
    XorZero(a / 2);
    assert Xor(a % 2, 2 * (a / 2)) == a % 2 + 2 * Xor(0, a / 2);
  }

  lemma {:induction false} MulZeroRight(a: byte)
    ensures Mul(a, 0) == 0
  {
    AddCancels(Mul(a, 0), Mul(a, 0));
    MulAddRight(a, 0, 0);
    AddZero(0);
  }

  lemma {:induction false} MulOneRight(a: byte)
    ensures Mul(a, 1) == a
    decreases a
  {
    if a == 0 {
      MulOfZero(1);
    } else {
      MulStep(a, 1);
      MulXtime(a / 2, 1);
      MulOneRight(a / 2);
      Horner(a);
    }
  }

  /** The product by a byte's low bit. */
  lemma MulLow(a: byte, b: byte)
    ensures Mul(b, a % 2) == Low(a, b)
  {
    hide Mul;
    MulOneRight(b);
    MulZeroRight(b);
  }

  lemma {:induction false} MulCommutes(a: byte, b: byte)
    ensures Mul(a, b) == Mul(b, a)
    decreases a
  {
    hide *;
    if a == 0 {
      MulOfZero(b);
      MulZeroRight(b);
    } else {
      var h := a / 2;
      MulStep(a, b);
      MulXtime(h, b);
      MulCommutes(h, b);
      MulXtime(b, h);
      Horner(a);
      MulAddRight(b, a % 2, Xtime(h));
      MulLow(a, b);
    }
  }

  lemma MulAddLeft(a: byte, b: byte, c: byte)
    ensures Mul(Add(a, b), c) == Add(Mul(a, c), Mul(b, c))
  {
    hide *;
    MulCommutes(Add(a, b), c);
    MulCommutes(a, c);
    MulCommutes(b, c);
    MulAddRight(c, a, b);
  }

  lemma MulLowAssociates(a: byte, b: byte, c: byte)
    ensures Mul(Low(a, b), c) == Low(a, Mul(b, c))
  {
    hide Mul;
    MulOfZero(c);
  }

  lemma {:induction false} MulAssociates(a: byte, b: byte, c: byte)
    ensures Mul(Mul(a, b), c) == Mul(a, Mul(b, c))
    decreases a
  {
    hide *;
    if a == 0 {
      MulOfZero(b);
      MulOfZero(c);
      MulOfZero(Mul(b, c));
    } else {
      var h := a / 2;
      MulStep(a, b);
      MulStep(a, Mul(b, c));
      MulAssociates(h, Xtime(b), c);
      MulCommutes(Xtime(b), c);
      MulXtime(c, b);
      MulCommutes(c, b);
      MulLowAssociates(a, b, c);
      MulAddLeft(Low(a, b), Mul(h, Xtime(b)), c);
    }
  }
}
