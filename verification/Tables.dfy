/** The three lookup tables of the erasure coder and the loops that fill them. */
module Tables {
  import opened Bytes
  import opened GF256
  import opened PrimitiveElement
  import opened Field

  /** The entry at one index of the flat multiplication table. */
  function Entry(k: nat): byte
    requires k < 65536
  {
    Mul(k / 256, k % 256)
  }

  lemma PowRepeats(i: nat)
    ensures Pow(i + 255) == Pow(i)
  {
    hide *;
    PowAdd(255, i);
    Periods();
    MulCommutes(1, Pow(i));
    MulOneRight(Pow(i));
  }

  lemma EntryIs(a: byte, b: byte)
    ensures Entry(a * 256 + b) == Mul(a, b)
  {
    assert (a * 256 + b) / 256 == a && (a * 256 + b) % 256 == b;
  }

  /** The loop's shift and reduction are multiplication by x. */
  lemma ShiftAndReduce(value: byte)
    ensures Xtime(value) == if value * 2 >= 256 then Xor(value * 2, 0x11d) else value * 2
  {
  }

  class CodingTables {
    const EXP: array<byte>
    const LOG: array<nat>
    const MUL: array<byte>

    ghost predicate ExpFilled()
      reads EXP
    {
      EXP.Length == 510 && forall i :: 0 <= i < 510 ==> EXP[i] == Pow(i)
    }

    ghost predicate LogFilled()
      reads LOG
    {
      LOG.Length == 256 && LOG[0] == 0 && forall a: byte :: a != 0 ==> LOG[a] == Log(a)
    }

    ghost predicate Filled()
      reads EXP, LOG, MUL
    {
      && ExpFilled()
      && LogFilled()
      && MUL.Length == 65536
      && forall k :: 0 <= k < 65536 ==> MUL[k] == Entry(k)
    }

    constructor ()
      ensures Filled()
      ensures fresh(EXP) && fresh(LOG) && fresh(MUL)
    {
      EXP := new byte[510](_ => 0);
      LOG := new nat[256](_ => 0);
      MUL := new byte[65536](_ => 0);
      new;
      FillLogs();
      RepeatPowers();
      FillProducts();
    }

    /** Walks the powers of x once, recording each with its exponent. */
    method FillLogs()
      requires EXP.Length == 510 && LOG.Length == 256 && LOG[0] == 0
      modifies EXP, LOG
      ensures forall j :: 0 <= j < 255 ==> EXP[j] == Pow(j)
      ensures LogFilled()
    {
      hide Mul, Pow, Xtime, Xor, Log;
      PowZero();
      var value: nat := 1;
      for i := 0 to 255
        invariant value == Pow(i)
        invariant forall j :: 0 <= j < i ==> EXP[j] == Pow(j)
        invariant forall j :: 0 <= j < i ==> LOG[Pow(j)] == j
        invariant LOG[0] == 0
      {
        forall j | 0 <= j < i
          ensures Pow(j) != value
        {
          PowInjective(j, i);
        }
        PowNonZero(i);
        EXP[i] := value;
        LOG[value] := i;
        Next(i);
        ShiftAndReduce(value);
        value := value * 2;
        if value >= 256 {
          value := Xor(value, 0x11d);
        }
      }
      LogsMatch();
    }

    /** The second half repeats the first, so that a sum of two logarithms needs no reduction. */
    method RepeatPowers()
      requires EXP.Length == 510 && forall j :: 0 <= j < 255 ==> EXP[j] == Pow(j)
      modifies EXP
      ensures ExpFilled()
    {
      hide Pow;
      for i := 255 to 510
        invariant forall j :: 0 <= j < i ==> EXP[j] == Pow(j)
      {
        PowRepeats(i - 255);
        EXP[i] := EXP[i - 255];
      }
    }

    /** The first `n` entries of the product table are filled, and the others are still zero. */
    ghost predicate FilledTo(n: nat)
      reads MUL
    {
      && MUL.Length == 65536
      && (forall k :: 0 <= k < 65536 && k < n ==> MUL[k] == Entry(k))
      && (forall k :: n <= k < 65536 ==> MUL[k] == 0)
    }

    method FillProducts()
      requires ExpFilled() && LogFilled() && FilledTo(0) && MUL != EXP && MUL as object != LOG
      modifies MUL
      ensures Filled()
    {
      forall k | 0 <= k < 256
        ensures Entry(k) == 0
      {
        EntryIs(0, k);
        MulOfZero(k);
      }
      for a := 1 to 256
        invariant FilledTo(a * 256)
      {
        FillRow(a);
      }
    }

    method FillRow(a: byte)
      requires a != 0 && ExpFilled() && LogFilled() && FilledTo(a * 256) && MUL != EXP && MUL as object != LOG
      modifies MUL
      ensures FilledTo(a * 256 + 256)
    {
      hide Mul, Pow, Entry, Log;
      EntryIs(a, 0);
      MulZeroRight(a);
      for b := 1 to 256
        invariant FilledTo(a * 256 + b)
      {
        ProductByLogs(a, b);
        EntryIs(a, b);
        MUL[a * 256 + b] := EXP[LOG[a] + LOG[b]];
      }
    }

    lemma LogsMatch()
      requires LOG.Length == 256 && LOG[0] == 0
      requires forall j :: 0 <= j < 255 ==> LOG[Pow(j)] == j
      ensures LogFilled()
    {
      forall a: byte | a != 0
        ensures LOG[a] == Log(a)
      {
        assert LOG[Pow(Log(a))] == Log(a);
      }
    }

    /** The product the coder uses: one lookup, always in range. */
    function Times(a: byte, b: byte): (r: byte)
      requires Filled()
      reads EXP, LOG, MUL
      ensures r == Mul(a, b)
    {
      EntryIs(a, b);
      MUL[a * 256 + b]
    }

    /** The inverse the coder uses. */
    function Invert(a: byte): (r: byte)
      requires Filled()
      reads EXP, LOG, MUL
      ensures a != 0 ==> r == Inverse(a) && Mul(a, r) == 1
    {
      assert a != 0 ==> LOG[a] == Log(a) && Log(a) < 255;
      if a != 0 then MulInverse(a); EXP[255 - LOG[a]] else EXP[255 - LOG[0]]
    }
  }

  lemma ProductByLogs(a: byte, b: byte)
    requires a != 0 && b != 0
    ensures Pow(Log(a) + Log(b)) == Mul(a, b)
  {
    PowAdd(Log(a), Log(b));
  }
}
