/** How long an envelope is: padding, records, and what both ends work out from the lengths alone. */
module EnvelopeSizes {
  import opened Bytes

  const CHUNK_BYTES: nat := 1_048_576
  const TAG_BYTES: nat := 16
  const HEADER_BYTES: nat := 24
  const HEADER_BYTES_V2: nat := 56
  const MIN_PADDING_BYTES: nat := 65_536
  const MAX_METADATA_BYTES: nat := 4096
  const MAX_FILE_BYTES: nat := 268_435_456
  const MAX_TRANSFER_BYTES: nat := 270_532_608
  const MAX_RECORDS: nat := CeilDiv(MAX_FILE_BYTES + 4 + MAX_METADATA_BYTES, CHUNK_BYTES)

  /** The least doubling of `p` that reaches `n`. */
  function DoubleUntil(p: nat, n: nat): (r: nat)
    requires p > 0
    ensures r >= n && r >= p
    decreases n - p
  {
    if n <= p then p else DoubleUntil(2 * p, n)
  }

  /** The least power of two that is at least `n`. */
  function LeastPower(n: nat): nat {
    DoubleUntil(1, n)
  }

  function PaddedPlaintextLength(length: nat): nat {
    if length <= MIN_PADDING_BYTES then MIN_PADDING_BYTES
    else if length <= CHUNK_BYTES then LeastPower(length)
    else CeilDiv(length, CHUNK_BYTES) * CHUNK_BYTES
  }

  function RecordCount(plaintextLength: nat): nat {
    CeilDiv(plaintextLength, CHUNK_BYTES)
  }

  /** The envelope of a source of this size behind a metadata prefix of this size. */
  function EnvelopeBytes(prefix: nat, source: nat): nat {
    var plaintextLength := PaddedPlaintextLength(prefix + source);
    HEADER_BYTES_V2 + plaintextLength + RecordCount(plaintextLength) * TAG_BYTES
  }

  function MinimumSize(header: nat, records: nat): int {
    header + (records - 1) * (CHUNK_BYTES + TAG_BYTES) + 1 + TAG_BYTES
  }

  function MaximumSize(header: nat, records: nat): nat {
    header + records * (CHUNK_BYTES + TAG_BYTES)
  }

  /** Where record `k` of a plaintext ends. */
  function RecordEnd(plaintextLength: nat, k: nat): nat {
    Min((k + 1) * CHUNK_BYTES, plaintextLength)
  }

  // ---------------------------------------------------------------- doubling

  lemma {:induction false} DoublingMonotone(p: nat, a: nat, b: nat)
    requires p > 0 && a <= b
    ensures DoubleUntil(p, a) <= DoubleUntil(p, b)
    decreases b - p
  {
    if a > p {
      DoublingMonotone(2 * p, a, b);
    }
  }

  lemma {:induction false} DoublingFixed(p: nat, n: nat)
    requires p > 0
    ensures DoubleUntil(p, DoubleUntil(p, n)) == DoubleUntil(p, n)
    ensures n > p ==> DoubleUntil(p, n) < 2 * n
    decreases n - p
  {
    if n > p {
      DoublingFixed(2 * p, n);
    }
  }

  /** On whole records: 2^20 is itself reached by doubling. */
  lemma ChunkIsPower()
    ensures LeastPower(CHUNK_BYTES) == CHUNK_BYTES && LeastPower(MIN_PADDING_BYTES) == MIN_PADDING_BYTES
  {
    DoublingSteps();
  }

  lemma DoublingSteps()
    ensures DoubleUntil(1, 0x10_0000) == 0x10_0000 && DoubleUntil(1, 0x1_0000) == 0x1_0000
  {
    var n, m := 0x10_0000, 0x1_0000;
    assert DoubleUntil(0x1_0000, n) == n && DoubleUntil(0x1_0000, m) == m;
    assert DoubleUntil(0x1000, n) == n && DoubleUntil(0x1000, m) == m;
    assert DoubleUntil(0x100, n) == n && DoubleUntil(0x100, m) == m;
    assert DoubleUntil(0x10, n) == n && DoubleUntil(0x10, m) == m;
  }

  // ---------------------------------------------------------------- padding

  /** Padding is at least what is needed, less than doubles it past 64 KiB, and never pads what is already padded. */
  lemma PaddingFits(length: nat)
    ensures var padded := PaddedPlaintextLength(length);
      && length <= padded && MIN_PADDING_BYTES <= padded
      && PaddedPlaintextLength(padded) == padded
      && (length > MIN_PADDING_BYTES ==> padded < 2 * length)
      && (length > CHUNK_BYTES ==> padded < length + CHUNK_BYTES)
  {
    if MIN_PADDING_BYTES < length <= CHUNK_BYTES {
      ChunkIsPower();
      DoublingMonotone(1, length, CHUNK_BYTES);
      DoublingFixed(1, length);
    }
  }

  /** The lengths that a plaintext may have: the powers of two from 64 KiB, and whole mebibytes. */
  predicate IsBucket(length: nat) {
    length in {0x1_0000, 0x2_0000, 0x4_0000, 0x8_0000} || (length > 0 && length % 0x10_0000 == 0)
  }

  lemma DoublingFrom(n: nat)
    requires 0x1_0000 < n <= 0x10_0000
    ensures DoubleUntil(0x1_0000, n)
         == if n <= 0x2_0000 then 0x2_0000 else if n <= 0x4_0000 then 0x4_0000 else if n <= 0x8_0000 then 0x8_0000 else 0x10_0000
  {
    assert DoubleUntil(0x8_0000, n) == if n <= 0x8_0000 then 0x8_0000 else 0x10_0000;
    assert n > 0x2_0000 ==> DoubleUntil(0x2_0000, n) == DoubleUntil(0x4_0000, n);
  }

  lemma LeastPowerFrom(n: nat)
    requires 0x1_0000 < n
    ensures LeastPower(n) == DoubleUntil(0x1_0000, n)
  {
    TwoDoublings(0x4000, n);
    TwoDoublings(0x1000, n);
    TwoDoublings(0x400, n);
    TwoDoublings(0x100, n);
    TwoDoublings(0x40, n);
    TwoDoublings(0x10, n);
    TwoDoublings(4, n);
    TwoDoublings(1, n);
  }

  lemma TwoDoublings(p: nat, n: nat)
    requires 0 < p && 2 * p < n
    ensures DoubleUntil(p, n) == DoubleUntil(4 * p, n)
  {
    assert DoubleUntil(2 * p, n) == DoubleUntil(4 * p, n);
  }

  /** A plaintext is padded to the least of these lengths that holds it. */
  lemma PaddingIsLeast(length: nat, other: nat)
    ensures IsBucket(PaddedPlaintextLength(length)) && PaddedPlaintextLength(length) >= length
    ensures IsBucket(other) && other >= length ==> PaddedPlaintextLength(length) <= other
  {
    if MIN_PADDING_BYTES < length <= CHUNK_BYTES {
      LeastPowerFrom(length);
      DoublingFrom(length);
      hide LeastPower, DoubleUntil;
    }
  }

  /** A longer plaintext is never padded to less. */
  lemma PaddingMonotone(a: nat, b: nat)
    requires a <= b
    ensures PaddedPlaintextLength(a) <= PaddedPlaintextLength(b)
  {
    PaddingFits(b);
    if MIN_PADDING_BYTES < a <= CHUNK_BYTES {
      ChunkIsPower();
      DoublingMonotone(1, a, CHUNK_BYTES);
      DoublingMonotone(1, a, b);
    }
  }

  /** Every legal source: few enough records, one of them holding the metadata, and a size both ends agree on. */
  lemma SizesAgree(prefix: nat, source: nat)
    requires 4 <= prefix <= 4 + MAX_METADATA_BYTES && source <= MAX_FILE_BYTES
    ensures
      var length := PaddedPlaintextLength(prefix + source);
      var records := RecordCount(length);
      var size := EnvelopeBytes(prefix, source);
      && 1 <= records <= MAX_RECORDS
      && MinimumSize(HEADER_BYTES_V2, records) <= size <= MaximumSize(HEADER_BYTES_V2, records)
      && size - HEADER_BYTES_V2 - records * TAG_BYTES == length
      && 0 < size <= MAX_TRANSFER_BYTES
      && prefix <= RecordEnd(length, 0)
  {
    PaddingFits(prefix + source);
    PaddingMonotone(prefix + source, 4 + MAX_METADATA_BYTES + MAX_FILE_BYTES);
    hide DoubleUntil;
  }

  lemma RecordsCover(length: nat)
    requires length > 0
    ensures RecordCount(length) > 0 && RecordEnd(length, RecordCount(length) - 1) == length
    ensures (RecordCount(length) - 1) * CHUNK_BYTES < length
  {
  }
}
