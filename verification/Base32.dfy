/** Decoding the base32 of a version 3 onion address with an accumulator of 32 bits that is never masked. */
module Base32 {
  import opened Wrappers
  import opened Bytes

  const WORD: nat := 0x1_0000_0000

  const ADDRESS_BYTES: nat := 35

  /** The place of a character in "abcdefghijklmnopqrstuvwxyz234567". */
  function IndexOf(c: char): (index: Option<nat>)
    ensures index.Some? ==> index.value < 32
  {
    if 'a' <= c <= 'z' then Some(c as int - 'a' as int)
    else if '2' <= c <= '7' then Some(c as int - '2' as int + 26)
    else None
  }

  const ALPHABET := "abcdefghijklmnopqrstuvwxyz234567"

  /** A character stands for its place in the alphabet. */
  lemma IndexIsPlace(c: char, i: int)
    ensures |ALPHABET| == 32
    ensures IndexOf(c) == Some(i) <==> 0 <= i < 32 && ALPHABET[i] == c
  {
  }

  predicate IsBase32(text: string) {
    forall i :: 0 <= i < |text| ==> IndexOf(text[i]).Some?
  }

  /** The number the characters write in base 32, the first the most significant. */
  function Number(text: string): nat
    requires IsBase32(text)
  {
    if |text| == 0 then 0 else Shifted(Number(text[..|text| - 1]), IndexOf(text[|text| - 1]).value)
  }

  function Shifted(n: nat, index: nat): nat {
    n * 32 + index
  }

  /** 2 to the power of a small number of bits. */
  function Power(bits: nat): (p: nat)
    requires bits < 13
    ensures p > 0
  {
    if bits == 0 then 1 else if bits == 1 then 2 else if bits == 2 then 4 else if bits == 3 then 8
    else if bits == 4 then 16 else if bits == 5 then 32 else if bits == 6 then 64 else if bits == 7 then 128
    else if bits == 8 then 256 else if bits == 9 then 512 else if bits == 10 then 1024 else if bits == 11 then 2048
    else 4096
  }

  /** The number without its last bits. */
  function Above(n: nat, bits: nat): nat
    requires bits < 13
  {
    n / Power(bits)
  }

  /** A 32-bit shift left by five and or with an index: what overflows the word is lost. */
  function ShiftIn(accumulator: nat, index: nat): nat
    requires accumulator < WORD && index < 32
  {
    accumulator * 32 % WORD + index
  }

  /** An unsigned shift right, and the low byte. */
  function LowByte(accumulator: nat, bits: nat): byte
    requires bits < 13
  {
    Above(accumulator, bits) % 256
  }

  lemma Remainder(q: nat, r: nat)
    requires r < WORD
    ensures (q * WORD + r) % WORD == r
  {
  }

  lemma ShiftKeepsWord(n: nat, index: nat)
    requires index < 32
    ensures n % WORD < WORD
    ensures ShiftIn(n % WORD, index) == Shifted(n, index) % WORD
  {
    var q, low := n / WORD, n % WORD;
    assert n == q * WORD + low;
    var over, rest := low / 0x800_0000, low % 0x800_0000;
    assert low == over * 0x800_0000 + rest;
    Remainder(over, rest * 32);
    Remainder(q * 32 + over, rest * 32 + index);
  }

  lemma DropHigh(high: nat, low: nat)
    ensures (high * 256 + low) % 256 == low % 256
  {
  }

  /** What lies above the word reaches the byte only in multiples of 256. */
  lemma HighPart(q: nat, low: nat, bits: nat) returns (high: nat)
    requires bits < 5
    ensures Above(q * WORD + low, bits) == high * 256 + Above(low, bits)
  {
    if bits == 0 {
      high := q * 0x100_0000;
    } else if bits == 1 {
      high := q * 0x80_0000;
    } else if bits == 2 {
      high := q * 0x40_0000;
    } else if bits == 3 {
      high := q * 0x20_0000;
    } else {
      high := q * 0x10_0000;
    }
  }

  /** The byte pushed out is the next byte of the number, whatever the word has lost. */
  lemma ByteFromWord(n: nat, bits: nat)
    requires bits < 5
    ensures LowByte(n % WORD, bits) == Above(n, bits) % 256
  {
    var q, low := n / WORD, n % WORD;
    assert n == q * WORD + low;
    var high := HighPart(q, low, bits);
    hide Above;
    DropHigh(high, Above(low, bits));
  }

  /** Shifting in five bits leaves what was above five bits higher. */
  lemma AboveShifted(n: nat, index: nat, bits: nat)
    requires index < 32 && bits < 8
    ensures Above(Shifted(n, index), bits + 5) == Above(n, bits)
  {
    if bits == 0 {
    } else if bits == 1 {
    } else if bits == 2 {
    } else if bits == 3 {
    } else if bits == 4 {
    } else if bits == 5 {
    } else if bits == 6 {
    } else {
    }
  }

  lemma AboveByte(n: nat, bits: nat)
    requires bits < 5
    ensures Above(n, bits) == Above(n, bits + 8) * 256 + Above(n, bits) % 256
  {
    if bits == 0 {
    } else if bits == 1 {
    } else if bits == 2 {
    } else if bits == 3 {
    } else {
    }
  }

  lemma NextCharacter(text: string, n: nat)
    requires n < |text| && IsBase32(text[..n]) && IndexOf(text[n]).Some?
    ensures IsBase32(text[..n + 1])
    ensures Number(text[..n + 1]) == Shifted(Number(text[..n]), IndexOf(text[n]).value)
  {
    assert text[..n + 1][..n] == text[..n];
  }

  lemma NextByte(output: Blob, b: byte)
    ensures NumberOfBytes(output + [b]) == NumberOfBytes(output) * 256 + b as nat
  {
    assert (output + [b])[..|output|] == output;
  }

  /**
   Decodes exactly the 56-character addresses, to the 35 bytes that write the same number. The accumulator wraps, but
   each byte is taken from it before its bits are lost.
   */
  method DecodeBase32(text: string) returns (result: Result<Blob, ()>)
    ensures result.Ok? <==> IsBase32(text) && |text| == 56
    ensures result.Ok? ==> |result.value| == 35 && NumberOfBytes(result.value) == Number(text)
  {
    hide Number, Shifted, Above, Power, ShiftIn, LowByte, NumberOfBytes, IndexOf;
    var bits, accumulator := 0, 0;
    var output: Blob := [];
    StartsEmpty(text);
    for n := 0 to |text|
      invariant 0 <= bits < 8 && 5 * n == 8 * |output| + bits
      invariant IsBase32(text[..n]) && 0 <= accumulator == Number(text[..n]) % WORD
      invariant NumberOfBytes(output) == Above(Number(text[..n]), bits)
    {
      var index := IndexOf(text[n]);
      if index.None? {
        return Err(());
      }
      ghost var before := Number(text[..n]);
      NextCharacter(text, n);
      ShiftKeepsWord(before, index.value);
      AboveShifted(before, index.value, bits);
      accumulator := ShiftIn(accumulator, index.value);
      bits := bits + 5;
      if bits >= 8 {
        bits := bits - 8;
        var b := LowByte(accumulator, bits);
        ByteFromWord(Number(text[..n + 1]), bits);
        AboveByte(Number(text[..n + 1]), bits);
        NextByte(output, b);
        output := output + [b];
      }
    }
    assert text[..|text|] == text;
    if bits != 0 || |output| != ADDRESS_BYTES {
      return Err(());
    }
    NothingBelow(Number(text));
    result := Ok(output);
  }

  lemma StartsEmpty(text: string)
    ensures IsBase32(text[..0]) && Number(text[..0]) == 0 && NumberOfBytes([]) == 0 && Above(0, 0) == 0 % WORD == 0
  {
  }

  lemma NothingBelow(n: nat)
    ensures Above(n, 0) == n
  {
  }

  /** Bytes of one length that write one number are the same: the decoded address is the only one. */
  lemma {:induction false} BytesDetermined(a: Blob, b: Blob)
    requires |a| == |b| && NumberOfBytes(a) == NumberOfBytes(b)
    ensures a == b
  {
    if |a| > 0 {
      BytesDetermined(a[..|a| - 1], b[..|b| - 1]);
      assert a == a[..|a| - 1] + [a[|a| - 1]] && b == b[..|b| - 1] + [b[|b| - 1]];
    }
  }
}
