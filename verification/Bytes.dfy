/** Bytes, and small arithmetic on them that several modules share. */
module Bytes {
  type byte = x: int | 0 <= x < 256

  type Blob = seq<byte>

  function Min(a: int, b: int): int {
    if a < b then a else b
  }

  /** The number that bytes write in base 256, the first the most significant. */
  function NumberOfBytes(bytes: Blob): nat {
    if |bytes| == 0 then 0 else NumberOfBytes(bytes[..|bytes| - 1]) * 256 + bytes[|bytes| - 1] as nat
  }

  lemma NumberOfOne(a: byte)
    ensures NumberOfBytes([a]) == a as nat
  {
    assert [a][..0] == [];
  }

  lemma {:induction false} NumberOfJoined(a: Blob, b: Blob)
    ensures NumberOfBytes(a + b) == NumberOfBytes(a) * PowerOf256(|b|) + NumberOfBytes(b)
  {
    if |b| == 0 {
      assert a + b == a;
    } else {
      var front, last := b[..|b| - 1], b[|b| - 1];
      NumberOfJoined(a, front);
      assert a + b == (a + front) + [last];
      assert (a + b)[..|a + b| - 1] == a + front;
      ScaledUp(NumberOfBytes(a), PowerOf256(|front|), NumberOfBytes(front), last as nat);
    }
  }

  function PowerOf256(n: nat): nat {
    if n == 0 then 1 else 256 * PowerOf256(n - 1)
  }

  lemma ScaledUp(x: nat, p: nat, y: nat, z: nat)
    ensures (x * p + y) * 256 + z == x * (256 * p) + (y * 256 + z)
  {
  }

  function CeilDiv(a: nat, b: nat): nat
    requires b > 0
  {
    (a + b - 1) / b
  }
}
