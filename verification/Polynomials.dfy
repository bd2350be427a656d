/**
 Polynomials over GF(2) written as binary numbers, without any reduction: the reference for the
 product of two bytes.
 */
module Polynomials {
  import opened Bytes
  import opened GF256

  const MODULUS: nat := 0x11d

  /** The carry-less product of two binary numbers. */
  function Product(a: nat, b: nat): nat
    decreases a
  {
    if a == 0 then 0
    else Xor(if Bit(a) == 1 then b else 0, Product(Half(a), 2 * b))
  }

  lemma ProductStep(a: nat, b: nat)
    ensures Product(a, b) == Xor(if Bit(a) == 1 then b else 0, Product(Half(a), 2 * b))
  {
    XorZero(0);
  }

  lemma XorExchange(a: nat, b: nat, c: nat, d: nat)
    ensures Xor(Xor(a, b), Xor(c, d)) == Xor(Xor(a, c), Xor(b, d))
  {
    hide *;
    XorAssociates(a, b, Xor(c, d));
    XorAssociates(b, c, d);
    XorCommutes(b, c);
    XorAssociates(c, b, d);
    XorAssociates(a, c, Xor(b, d));
  }

  lemma {:induction false} ProductAddsRight(a: nat, b: nat, c: nat)
    ensures Product(a, Xor(b, c)) == Xor(Product(a, b), Product(a, c))
    decreases a
  {
    XorZero(0);
    if a != 0 {
      hide *;
      ProductStep(a, b);
      ProductStep(a, c);
      ProductStep(a, Xor(b, c));
      XorDouble(b, c);
      HalfLess(a);
      ProductAddsRight(Half(a), 2 * b, 2 * c);
      XorExchange(if Bit(a) == 1 then b else 0, if Bit(a) == 1 then c else 0,
                  Product(Half(a), 2 * b), Product(Half(a), 2 * c));
    }
  }

  lemma HalfLess(a: nat)
    requires a > 0
    ensures Half(a) < a
  {
  }

  lemma {:induction false} ProductAddsLeft(a: nat, b: nat, c: nat)
    ensures Product(Xor(a, b), c) == Xor(Product(a, c), Product(b, c))
    decreases a + b
  {
    XorZero(0);
    if a != 0 || b != 0 {
      XorZero(c);
      hide *;
      ProductStep(a, c);
      ProductStep(b, c);
      ProductStep(Xor(a, b), c);
      XorHalf(a, b);
      Digits(a);
      Digits(b);
      ProductAddsLeft(Half(a), Half(b), 2 * c);
      XorExchange(if Bit(a) == 1 then c else 0, if Bit(b) == 1 then c else 0,
                  Product(Half(a), 2 * c), Product(Half(b), 2 * c));
    }
  }

  lemma ProductOfZero(a: nat)
    ensures Product(0, a) == 0
  {
  }

  lemma {:induction false} ProductByZero(a: nat)
    ensures Product(a, 0) == 0
  {
    XorZero(0);
    if a != 0 {
      ProductByZero(Half(a));
    }
  }

  /** Doubling a byte is multiplying it by x, up to a multiple of the modulus. */
  lemma DoubleModulo(b: byte)
    ensures 2 * b == Xor(Xtime(b), if b >= 128 then MODULUS else 0)
  {
    hide Xor;
    XorZero(2 * b);
    XorAssociates(2 * b, MODULUS, MODULUS);
    XorZero(MODULUS);
  }

  /**
   The byte product is the remainder of the polynomial product: the two differ by a multiple of the
   modulus, and a byte has degree below the modulus's.
   */
  lemma {:induction false} MulIsRemainder(a: byte, b: byte) returns (q: nat)
    ensures Product(a, b) == Xor(Product(q, MODULUS), Mul(a, b))
    decreases a
  {
    if a == 0 {
      q := 0;
      XorZero(0);
    } else {
      var h: byte := a / 2;
      assert h == Half(a) && a % 2 == Bit(a);
      assert Mul(a, b) == Xor(Low(a, b), Mul(h, Xtime(b))) by { MulStep(a, b); }
      assert Low(a, b) == if Bit(a) == 1 then b else 0;
      var m := if b >= 128 then MODULUS else 0;
      var u := if b >= 128 then h else 0;
      assert Product(h, m) == Product(u, MODULUS) by { ProductByZero(h); ProductOfZero(MODULUS); }
      hide *;
      var q' := MulIsRemainder(h, Xtime(b));
      q := Xor(q', u);
      ProductStep(a, b);
      DoubleModulo(b);
      ProductAddsRight(h, Xtime(b), m);
      ProductAddsLeft(q', u, MODULUS);
      Regroup(Low(a, b), Product(q', MODULUS), Mul(h, Xtime(b)), Product(u, MODULUS));
    }
  }

  lemma Regroup(l: nat, p: nat, m: nat, u: nat)
    ensures Xor(l, Xor(Xor(p, m), u)) == Xor(Xor(p, u), Xor(l, m))
  {
    hide *;
    XorAssociates(p, m, u);
    XorCommutes(m, u);
    XorAssociates(p, u, m);
    XorAssociates(l, Xor(p, u), m);
    XorCommutes(l, Xor(p, u));
    XorAssociates(Xor(p, u), l, m);
  }

  // ---------------------------------------------------------------- the remainder is unique

  lemma {:induction false} XorKeepsTop(x: nat, y: nat, k: nat)
    requires x < Two(k) <= y
    ensures Xor(x, y) >= Two(k)
    decreases k
  {
    if k == 0 {
      XorZero(y);
    } else {
      hide *;
      TwoStep(k);
      Digits(x);
      Digits(y);
      XorKeepsTop(Half(x), Half(y), k - 1);
      XorHalf(x, y);
      Digits(Xor(x, y));
    }
  }

  /** A non-zero multiple of a polynomial has at least its degree. */
  lemma {:induction false} MultipleIsLarge(q: nat, m: nat, k: nat)
    requires q > 0 && Two(k) <= m < Two(k + 1)
    ensures Product(q, m) >= Two(k)
    decreases q
  {
    hide Xor, Half, Bit;
    ProductStep(q, m);
    Digits(q);
    HalfLess(q);
    if Half(q) == 0 {
      ProductOfZero(2 * m);
      XorZero(m);
    } else {
      MultipleIsLarge(Half(q), 2 * m, k + 1);
      XorKeepsTop(if Bit(q) == 1 then m else 0, Product(Half(q), 2 * m), k + 1);
    }
  }

  /** Whatever multiple of the modulus is taken away, the byte left is the same. */
  lemma RemainderUnique(q: nat, r: byte, q': nat, r': byte)
    requires Xor(Product(q, MODULUS), r) == Xor(Product(q', MODULUS), r')
    ensures r == r'
  {
    assert Two(8) == 256;
    XorBound(r, r', 8);
    hide Xor, Product;
    var p, p' := Product(q, MODULUS), Product(q', MODULUS);
    ProductAddsLeft(q, q', MODULUS);
    XorExchange(p, r, p', r');
    XorZero(Xor(p, r));
    XorSame(Xor(p, p'), Xor(r, r'));
    if Xor(q, q') != 0 {
      MultipleIsLarge(Xor(q, q'), MODULUS, 8);
    }
    XorSame(q, q');
    XorZero(p);
    XorSame(r, r');
  }

  lemma XorSame(a: nat, b: nat)
    ensures Xor(a, b) == 0 <==> a == b
  {
    hide *;
    XorAssociates(a, b, b);
    XorZero(a);
    XorZero(b);
  }
}
