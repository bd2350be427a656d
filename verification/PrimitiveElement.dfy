/**
 The powers of x run through every non-zero byte exactly once before they return to 1. This is what
 lets the coder take logarithms, and it makes every non-zero byte invertible.
 */
module PrimitiveElement {
  import opened Bytes
  import opened GF256

  lemma {:induction false} PowAdd(i: nat, j: nat)
    ensures Mul(Pow(i), Pow(j)) == Pow(i + j)
    decreases i
  {
    if i == 0 {
      MulOneRight(Pow(j));
      MulCommutes(1, Pow(j));
    } else {
      hide Mul, Xtime;
      PowAdd(i - 1, j);
      MulCommutes(Pow(i), Pow(j));
      MulXtime(Pow(j), Pow(i - 1));
      MulCommutes(Pow(j), Pow(i - 1));
    }
  }

  lemma Next(i: nat)
    ensures Pow(i + 1) == Xtime(Pow(i))
  {
  }

  /** From one power to the power of twice the exponent, or of twice the exponent and one more. */
  lemma Double(i: nat, v: byte, w: byte)
    requires Pow(i) == v && Mul(v, v) == w
    ensures Pow(2 * i) == w && Pow(2 * i + 1) == Xtime(w)
  {
    PowAdd(i, i);
    assert Pow(2 * i + 1) == Xtime(Pow(2 * i));
  }

  // ---------------------------------------------------------------- values of a few powers

  lemma XtimeHigh(a: byte)
    requires a >= 128
    ensures Xtime(a) == Xor(2 * a - 256, 0x1d)
  {
    hide Xor;
    XorBothTops(8, 2 * a - 256, 0x1d);
  }

  lemma XtimeLow(a: byte)
    requires a < 128
    ensures Xtime(a) == 2 * a
  {
  }

  /** One line of a long multiplication. */
  lemma Line(a: byte, b: byte, next: byte, rest: byte, sum: byte)
    requires Xtime(b) == next && Mul(a / 2, next) == rest
    requires sum == if a % 2 == 1 then Xor(b, rest) else rest
    ensures Mul(a, b) == sum
  {
    hide Mul, Xor, Xtime;
    MulStep(a, b);
    AddZero(rest);
  }

  lemma Sums8a()
    ensures Xor(154, 29) == 135
    ensures Xor(208, 29) == 205
    ensures Xor(232, 205) == 37
  {
  }

  lemma Sums8b()
    ensures Xor(116, 37) == 81
    ensures Xor(29, 81) == 76
  {
  }

  lemma Square8()
    ensures Mul(29, 29) == 76
  {
    hide *;
    Sums8a();
    Sums8b();
    MulOfZero(135);
    XorZero(205);
    XtimeHigh(205);
    Line(1, 205, 135, 0, 205);
    XtimeHigh(232);
    Line(3, 232, 205, 205, 37);
    XtimeLow(116);
    Line(7, 116, 232, 37, 81);
    XtimeLow(58);
    Line(14, 58, 116, 81, 81);
    XtimeLow(29);
    Line(29, 29, 58, 81, 76);
  }

  lemma Sums16a()
    ensures Xor(212, 29) == 201
    ensures Xor(104, 29) == 117
    ensures Xor(90, 234) == 176
  {
  }

  lemma Sums16b()
    ensures Xor(45, 176) == 157
    ensures Xor(48, 29) == 45
  {
  }

  lemma Square16()
    ensures Mul(76, 76) == 157
  {
    hide *;
    Sums16a();
    Sums16b();
    MulOfZero(201);
    XorZero(234);
    XtimeHigh(234);
    Line(1, 234, 201, 0, 234);
    XtimeLow(117);
    Line(2, 117, 234, 234, 234);
    XtimeHigh(180);
    Line(4, 180, 117, 234, 234);
    XtimeLow(90);
    Line(9, 90, 180, 234, 176);
    XtimeLow(45);
    Line(19, 45, 90, 176, 157);
    XtimeHigh(152);
    Line(38, 152, 45, 157, 157);
    XtimeLow(76);
    Line(76, 76, 152, 157, 157);
  }

  lemma Sums32a()
    ensures Xor(40, 29) == 53
    ensures Xor(37, 53) == 16
    ensures Xor(56, 29) == 37
    ensures Xor(156, 16) == 140
  {
  }

  lemma Sums32b()
    ensures Xor(78, 140) == 194
    ensures Xor(58, 29) == 39
    ensures Xor(157, 194) == 95
  {
  }

  lemma Square32()
    ensures Mul(157, 157) == 95
  {
    hide *;
    Sums32a();
    Sums32b();
    MulOfZero(106);
    XorZero(53);
    XtimeLow(53);
    Line(1, 53, 106, 0, 53);
    XtimeHigh(148);
    Line(2, 148, 53, 53, 53);
    XtimeLow(74);
    Line(4, 74, 148, 53, 53);
    XtimeLow(37);
    Line(9, 37, 74, 53, 16);
    XtimeHigh(156);
    Line(19, 156, 37, 16, 140);
    XtimeLow(78);
    Line(39, 78, 156, 140, 194);
    XtimeLow(39);
    Line(78, 39, 78, 194, 194);
    XtimeHigh(157);
    Line(157, 157, 39, 194, 95);
  }

  lemma Sums64a()
    ensures Xor(50, 29) == 47
    ensures Xor(153, 94) == 199
    ensures Xor(132, 29) == 153
    ensures Xor(194, 199) == 5
  {
  }

  lemma Sums64b()
    ensures Xor(97, 5) == 100
    ensures Xor(124, 29) == 97
    ensures Xor(190, 100) == 218
    ensures Xor(95, 218) == 133
  {
  }

  lemma Square64()
    ensures Mul(95, 95) == 133
  {
    hide *;
    Sums64a();
    Sums64b();
    MulOfZero(188);
    XorZero(94);
    XtimeLow(94);
    Line(1, 94, 188, 0, 94);
    XtimeLow(47);
    Line(2, 47, 94, 94, 94);
    XtimeHigh(153);
    Line(5, 153, 47, 94, 199);
    XtimeHigh(194);
    Line(11, 194, 153, 199, 5);
    XtimeLow(97);
    Line(23, 97, 194, 5, 100);
    XtimeHigh(190);
    Line(47, 190, 97, 100, 218);
    XtimeLow(95);
    Line(95, 95, 190, 218, 133);
  }

  lemma Sums128a()
    ensures Xor(82, 29) == 79
    ensures Xor(180, 29) == 169
    ensures Xor(112, 29) == 109
  {
  }

  lemma Sums128b()
    ensures Xor(46, 169) == 135
    ensures Xor(10, 29) == 23
    ensures Xor(133, 135) == 2
  {
  }

  lemma Square128()
    ensures Mul(133, 133) == 2
  {
    hide *;
    Sums128a();
    Sums128b();
    MulOfZero(79);
    XorZero(169);
    XtimeHigh(169);
    Line(1, 169, 79, 0, 169);
    XtimeHigh(218);
    Line(2, 218, 169, 169, 169);
    XtimeLow(109);
    Line(4, 109, 218, 169, 169);
    XtimeHigh(184);
    Line(8, 184, 109, 169, 169);
    XtimeLow(92);
    Line(16, 92, 184, 169, 169);
    XtimeLow(46);
    Line(33, 46, 92, 169, 135);
    XtimeLow(23);
    Line(66, 23, 46, 135, 135);
    XtimeHigh(133);
    Line(133, 133, 23, 135, 2);
  }

  lemma PowersTo13()
    ensures Pow(8) == 29 && Pow(13) == 135
  {
    assert Pow(7) == 128;
    hide *;
    XtimeHigh(128);
    XorZero(29);
    Next(7);
    Next(8);
    Next(9);
    Next(10);
    Next(11);
    Next(12);
    XtimeLow(29);
    XtimeLow(58);
    XtimeLow(116);
    XtimeHigh(232);
    XtimeHigh(205);
    Sums8a();
    Sums8b();
  }

  lemma PowersTo256()
    ensures Pow(16) == 76 && Pow(32) == 157 && Pow(64) == 95 && Pow(128) == 133 && Pow(256) == 2
  {
    hide *;
    PowersTo13();
    Square8();
    Double(8, 29, 76);
    Square16();
    Double(16, 76, 157);
    Square32();
    Double(32, 157, 95);
    Square64();
    Double(64, 95, 133);
    Square128();
    Double(128, 133, 2);
  }

  lemma Sums43()
    ensures Xor(58, 29) == 39 && Xor(56, 29) == 37 && Xor(40, 29) == 53 && Xor(168, 29) == 181
    ensures Xor(106, 29) == 119
  {
  }

  lemma PowersTo43()
    ensures Pow(43) == 119
  {
    hide *;
    PowersTo256();
    Sums43();
    Next(32);
    XtimeHigh(157);
    Next(33);
    XtimeLow(39);
    Next(34);
    XtimeLow(78);
    Next(35);
    XtimeHigh(156);
    Next(36);
    XtimeLow(37);
    Next(37);
    XtimeLow(74);
    Next(38);
    XtimeHigh(148);
    Next(39);
    XtimeLow(53);
    Next(40);
    XtimeLow(106);
    Next(41);
    XtimeHigh(212);
    Next(42);
    XtimeHigh(181);
  }

  // ---------------------------------------------------------------- the order of x

  /** x^255 is 1, and no maximal proper divisor of 255 is a period. */
  lemma Periods()
    ensures Pow(255) == 1 && Pow(15) != 1 && Pow(51) != 1 && Pow(85) != 1
  {
    hide *;
    PowersTo256();
    Next(255);
    Next(0);
    XtimeLow(1);
    PowZero();
    XtimeInjective(Pow(255), 1);
    Next(15);
    PowersTo13();
    PowAdd(51, 13);
    MulCommutes(1, 135);
    MulOneRight(135);
    PowersTo43();
    PowAdd(85, 43);
    MulCommutes(1, 119);
    MulOneRight(119);
  }

  lemma PowZero()
    ensures Pow(0) == 1
  {
  }

  lemma {:induction false} PowPeriod(m: nat, q: nat)
    requires Pow(m) == 1
    ensures Pow(m * q) == 1
  {
    hide *;
    if q == 0 {
      PowZero();
    } else {
      PowPeriod(m, q - 1);
      PowAdd(m, m * (q - 1));
      assert m + m * (q - 1) == m * q;
      MulOneRight(1);
    }
  }

  /** The least period. */
  lemma {:induction false} LeastPeriod(d: nat) returns (m: nat)
    requires 0 < d && Pow(d) == 1
    ensures 0 < m <= d && Pow(m) == 1 && forall i :: 0 < i < m ==> Pow(i) != 1
    decreases d
  {
    if i :| 0 < i < d && Pow(i) == 1 {
      m := LeastPeriod(i);
    } else {
      m := d;
    }
  }

  lemma DivisorsOf255(m: nat, q: nat) returns (k: nat)
    requires m * q == 255 && m < 255
    ensures m * k == 15 || m * k == 51 || m * k == 85
  {
    if q <= 16 {
      assert q == 3 || q == 5 || q == 15;
      k := if q == 3 then 1 else if q == 5 then 1 else 3;
    } else {
      assert m <= 15;
      assert m == 1 || m == 3 || m == 5 || m == 15;
      k := if m == 15 then 1 else if m == 5 then 3 else if m == 3 then 5 else 15;
    }
  }

  lemma Euclid(n: nat, m: nat) returns (q: nat, r: nat)
    requires m > 0
    ensures n == m * q + r && r < m
  {
    q, r := n / m, n % m;
  }

  /** The powers below the 255th differ from 1. */
  lemma NoShortPeriod(d: nat)
    requires 0 < d < 255
    ensures Pow(d) != 1
  {
    if Pow(d) == 1 {
      hide *;
      Periods();
      var m := LeastPeriod(d);
      var q, r := Euclid(255, m);
      PowPeriod(m, q);
      PowAdd(m * q, r);
      MulCommutes(1, Pow(r));
      MulOneRight(Pow(r));
      var k := DivisorsOf255(m, q);
      PowPeriod(m, k);
    }
  }

  lemma {:induction false} PowInjective(i: nat, j: nat)
    requires i < j < 255
    ensures Pow(i) != Pow(j)
  {
    if i == 0 {
      NoShortPeriod(j);
    } else {
      PowInjective(i - 1, j - 1);
      if Pow(i) == Pow(j) {
        XtimeInjective(Pow(i - 1), Pow(j - 1));
      }
    }
  }

  lemma {:induction false} PowNonZero(n: nat)
    ensures Pow(n) != 0
  {
    if n > 0 {
      PowNonZero(n - 1);
      XtimeZero(Pow(n - 1));
    }
  }
}
