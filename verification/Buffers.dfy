/** Big-endian numbers, and writing into byte buffers. */
module Buffers {
  import opened Bytes

  const TWO_32: nat := 0x1_0000_0000

  /** Two big-endian bytes. */
  function U16(n: nat): (bytes: Blob)
    requires n < 0x1_0000
    ensures |bytes| == 2
  {
    [n / 0x100, n % 0x100]
  }

  function ReadU16(b: Blob, at: nat): (n: nat)
    requires at + 2 <= |b|
    ensures n < 0x1_0000
  {
    b[at] as nat * 0x100 + b[at + 1] as nat
  }

  lemma ReadsU16(b: Blob, at: nat, n: nat)
    requires at + 2 <= |b| && n < 0x1_0000
    ensures ReadU16(b, at) == n <==> b[at] == U16(n)[0] && b[at + 1] == U16(n)[1]
  {
  }

  /** Four big-endian bytes. */
  function U32(n: nat): (bytes: Blob)
    requires n < TWO_32
    ensures |bytes| == 4
  {
    U16(n / 0x1_0000) + U16(n % 0x1_0000)
  }

  function ReadU32(b: Blob, at: nat): (n: nat)
    requires at + 4 <= |b|
    ensures n < TWO_32
  {
    ReadU16(b, at) * 0x1_0000 + ReadU16(b, at + 2)
  }

  lemma ReadsU32(b: Blob, at: nat, n: nat)
    requires at + 4 <= |b| && n < TWO_32
    ensures ReadU32(b, at) == n <==> b[at..at + 4] == U32(n)
  {
    ReadsU16(b, at, n / 0x1_0000);
    ReadsU16(b, at + 2, n % 0x1_0000);
    hide U16, ReadU16;
    var slice := b[at..at + 4];
    assert slice[0] == b[at] && slice[1] == b[at + 1] && slice[2] == b[at + 2] && slice[3] == b[at + 3];
    assert U32(n)[0] == U16(n / 0x1_0000)[0] && U32(n)[1] == U16(n / 0x1_0000)[1];
    assert U32(n)[2] == U16(n % 0x1_0000)[0] && U32(n)[3] == U16(n % 0x1_0000)[1];
  }

  /** Big-endian: the four bytes write the number. */
  lemma U32Number(n: nat)
    requires n < TWO_32
    ensures NumberOfBytes(U32(n)) == n
  {
    U16Number(n / 0x1_0000);
    U16Number(n % 0x1_0000);
    hide U16;
    NumberOfJoined(U16(n / 0x1_0000), U16(n % 0x1_0000));
    assert PowerOf256(2) == 0x1_0000;
  }

  lemma U16Number(n: nat)
    requires n < 0x1_0000
    ensures NumberOfBytes(U16(n)) == n
  {
    NumberOfOne(n / 0x100);
    NumberOfOne(n % 0x100);
    NumberOfJoined([n / 0x100], [n % 0x100]);
    assert PowerOf256(1) == 0x100;
  }

  /** What is read is the number that the four bytes write. */
  lemma ReadU32Number(b: Blob, at: nat)
    requires at + 4 <= |b|
    ensures ReadU32(b, at) == NumberOfBytes(b[at..at + 4])
  {
    ReadsU32(b, at, ReadU32(b, at));
    U32Number(ReadU32(b, at));
  }

  method SetUint32(view: array<byte>, at: nat, value: nat)
    requires at + 4 <= view.Length && value < TWO_32
    modifies view
    ensures view[..] == old(view[..at]) + U32(value) + old(view[at + 4..])
  {
    var bytes := U32(value);
    hide U32;
    view[at], view[at + 1], view[at + 2], view[at + 3] := bytes[0], bytes[1], bytes[2], bytes[3];
  }

  method SetBytes(view: array<byte>, at: nat, bytes: Blob)
    requires at + |bytes| <= view.Length
    modifies view
    ensures view[..] == old(view[..at]) + bytes + old(view[at + |bytes|..])
  {
    for i := 0 to |bytes|
      invariant view[..] == old(view[..at]) + bytes[..i] + old(view[at + i..])
    {
      view[at + i] := bytes[i];
    }
    assert bytes[..|bytes|] == bytes;
  }
}
