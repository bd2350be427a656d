/** The streaming encoder: one record at a time, so that a large source is never in memory whole. */
module EnvelopeWriter {
  import opened Wrappers
  import opened Bytes
  import opened Buffers
  import opened FileNames
  import opened EnvelopeSizes
  import opened Envelope

  /** Where an offset falls in a stretch that starts at `start` and is `length` long. */
  function Within(offset: int, start: nat, length: nat): (n: nat)
    ensures n <= length
  {
    if offset <= start then 0 else if offset >= start + length then length else offset - start
  }

  method RandomBytes(count: nat) returns (bytes: Blob)
    ensures |bytes| == count
  {
    assert |seq(count, _ => 0 as byte)| == count;
    bytes :| |bytes| == count;
  }

  method BuildHeader(records: nat, noncePrefix: Blob, salt: Blob) returns (header: Blob)
    requires records < TWO_32 && |noncePrefix| == 8 && |salt| == 32
    ensures header == HeaderV2(records, noncePrefix, salt)
  {
    hide U32;
    var bytes := new byte[HEADER_BYTES_V2](_ => 0);
    Append(bytes, 0, MAGIC_V2, []);
    SetUint32(bytes, 8, CHUNK_BYTES);
    ghost var sized := bytes[..12];
    assert sized == MAGIC_V2 + U32(CHUNK_BYTES);
    SetUint32(bytes, 12, records);
    ghost var counted := bytes[..16];
    assert counted == sized + U32(records);
    Append(bytes, 16, noncePrefix, counted);
    Append(bytes, 24, salt, counted + noncePrefix);
    header := bytes[..];
  }

  /** A record of one text is a record of a longer one that starts with it, if the record is full. */
  lemma {:induction false} RecordsOfPrefix(c: Crypto, key: Blob, header: Blob, noncePrefix: Blob, short: Blob, long: Blob, n: nat)
    requires short <= long && n * CHUNK_BYTES <= |short| && RecordCount(|long|) < TWO_32
    ensures n <= RecordCount(|short|) <= RecordCount(|long|)
    ensures SealedRecords(c, key, header, noncePrefix, short, n) == SealedRecords(c, key, header, noncePrefix, long, n)
  {
    if n > 0 {
      RecordsOfPrefix(c, key, header, noncePrefix, short, long, n - 1);
      assert Chunk(short, n - 1) == Chunk(long, n - 1);
    }
  }

  /** The part of a piece of text that stands at `start` which falls between two offsets. */
  function Cut(piece: Blob, start: nat, from: nat, to: nat): Blob
    requires from <= to
  {
    piece[Within(from, start, |piece|)..Within(to, start, |piece|)]
  }

  lemma CutSum(a: Blob, b: Blob, from: nat, to: nat)
    requires from <= to
    ensures Cut(a + b, 0, from, to) == Cut(a, 0, from, to) + Cut(b, |a|, from, to)
  {
  }

  /** What there is of a text after record `n - 1` is enough for record `n - 1`. */
  lemma ChunkOf(text: Blob, length: nat, index: nat)
    requires index < RecordCount(length) && RecordEnd(length, index) <= |text| <= length
    requires |text| < length ==> (index + 1) * CHUNK_BYTES <= length
    ensures index + 1 <= RecordCount(|text|) <= RecordCount(length)
    ensures Chunk(text, index) == text[index * CHUNK_BYTES..RecordEnd(length, index)]
  {
  }

  class Encoder {
    const crypto: Crypto
    const source: Blob
    const metadata: Metadata
    const prefix: Blob
    const header: Blob
    const noncePrefix: Blob
    const key: Blob
    const plaintextLength: nat
    const recordCount: nat
    var counter: nat
    var hashed: Blob
    var digest: Option<Blob>
    /** The padding asked for so far. */
    ghost var padding: Blob

    ghost predicate Shape()
    {
      && |source| <= MAX_FILE_BYTES && 4 <= |prefix| <= 4 + MAX_METADATA_BYTES
      && plaintextLength == PaddedPlaintextLength(|prefix| + |source|)
      && |prefix| + |source| <= plaintextLength && 0 < plaintextLength
      && recordCount == RecordCount(plaintextLength) && 0 < recordCount <= MAX_RECORDS
    }

    /** How much of the plaintext the first `n` records take. */
    function Offset(n: nat): nat
    {
      Min(n * CHUNK_BYTES, plaintextLength)
    }

    /** After `n` records the source has been hashed up to there, and padding asked for from its end, without a gap. */
    ghost predicate Progress(n: nat)
      reads `hashed, `padding
    {
      && hashed == source[..Within(Offset(n), |prefix|, |source|)]
      && |padding| == Within(Offset(n), |prefix| + |source|, plaintextLength)
    }

    ghost predicate Valid()
      reads this
    {
      && Shape() && counter <= recordCount && Progress(counter)
      && digest == if counter == recordCount then Some(crypto.sha256(source)) else None
    }

    /** Metadata, source, and the padding so far. */
    ghost function Plaintext(): Blob
      reads `padding
    {
      prefix + source + padding
    }

    ghost predicate Sealed(records: Blob, plaintext: Blob, n: nat) {
      && n <= RecordCount(|plaintext|) < TWO_32
      && records == SealedRecords(crypto, key, header, noncePrefix, plaintext, n)
    }

    ghost predicate Emitted(records: Blob)
      reads this
    {
      Sealed(records, Plaintext(), counter)
    }

    constructor (crypto: Crypto, source: Blob, metadata: Metadata, prefix: Blob, rawKey: Blob, noncePrefix: Blob, salt: Blob)
      requires |source| <= MAX_FILE_BYTES && 4 <= |prefix| <= 4 + MAX_METADATA_BYTES
      requires |noncePrefix| == 8 && |salt| == 32
      ensures Valid() && counter == 0 && fresh(this)
      ensures this.crypto == crypto && this.source == source && this.prefix == prefix && this.metadata == metadata
      ensures this.noncePrefix == noncePrefix && key == crypto.derive(rawKey, salt)
      ensures header == HeaderV2(recordCount, noncePrefix, salt)
      ensures Emitted([])
    {
      SizesAgree(|prefix|, |source|);
      PaddingFits(|prefix| + |source|);
      hide PaddedPlaintextLength, HeaderV2;
      var length := PaddedPlaintextLength(|prefix| + |source|);
      var built := BuildHeader(RecordCount(length), noncePrefix, salt);
      this.crypto, this.source, this.metadata, this.prefix := crypto, source, metadata, prefix;
      this.noncePrefix, key, header := noncePrefix, crypto.derive(rawKey, salt), built;
      plaintextLength, recordCount := length, RecordCount(length);
      counter, hashed, digest, padding := 0, [], None, [];
    }

    /** Writes what falls in the record of the metadata and of the source, hashing the source. */
    method FillGiven(buffer: array<byte>, offset: nat) returns (filled: nat)
      requires hashed == source[..Within(offset, |prefix|, |source|)]
      modifies buffer, `hashed
      ensures hashed == source[..Within(offset + buffer.Length, |prefix|, |source|)]
      ensures filled <= buffer.Length
      ensures buffer[..filled] == Cut(prefix, 0, offset, offset + buffer.Length)
                                + Cut(source, |prefix|, offset, offset + buffer.Length)
    {
      var length := buffer.Length;
      var fileStart, fileEnd := |prefix|, |prefix| + |source|;
      ghost var first, second := Cut(prefix, 0, offset, offset + length), Cut(source, fileStart, offset, offset + length);
      filled := 0;
      var prefixEnd := Min(offset + length, fileStart);
      if prefixEnd > offset {
        Append(buffer, 0, prefix[offset..prefixEnd], []);
        filled := prefixEnd - offset;
      }
      assert buffer[..filled] == first;
      var overlapStart, overlapEnd := if offset > fileStart then offset else fileStart, Min(offset + length, fileEnd);
      if overlapEnd > overlapStart {
        var slice := source[overlapStart - fileStart..overlapEnd - fileStart];
        assert slice == second;
        hashed := hashed + slice;
        Append(buffer, overlapStart - offset, slice, first);
        filled := overlapEnd - offset;
      }
    }

    /** Fills the next record: what falls in it of the metadata, of the source, and of the padding. */
    method PlaintextRecord(index: nat) returns (chunk: Blob)
      requires Shape() && index < recordCount && Progress(index)
      modifies `hashed, `padding
      ensures Progress(index + 1)
      ensures old(Plaintext()) <= Plaintext() && Offset(index + 1) <= |Plaintext()|
      ensures chunk == Plaintext()[Offset(index)..Offset(index + 1)]
    {
      hide PaddedPlaintextLength, Cut;
      var offset := index * CHUNK_BYTES;
      RecordsCover(plaintextLength);
      var length := Min(CHUNK_BYTES, plaintextLength - offset);
      assert offset == Offset(index) && offset + length == Offset(index + 1);
      var fileEnd := |prefix| + |source|;
      var buffer := new byte[length](_ => 0);
      var filled := FillGiven(buffer, offset);
      ghost var given := buffer[..filled];
      GivenLength(offset, length);
      var paddingStart := if offset > fileEnd then offset else fileEnd;
      var bytes: Blob := [];
      if paddingStart < offset + length {
        bytes := RandomBytes(offset + length - paddingStart);
        Append(buffer, paddingStart - offset, bytes, given);
      }
      PlaintextCut(offset, length, bytes);
      padding := padding + bytes;
      chunk := buffer[..];
      assert chunk == given + bytes;
    }

    /** The metadata and the source fill a record up to where the padding starts. */
    lemma GivenLength(offset: nat, length: nat)
      ensures |Cut(prefix, 0, offset, offset + length) + Cut(source, |prefix|, offset, offset + length)|
           == Within(|prefix| + |source|, offset, length)
    {
    }

    /** A record of the plaintext is made of a piece of the metadata, a piece of the source and new padding. */
    lemma PlaintextCut(offset: nat, length: nat, bytes: Blob)
      requires |padding| == Within(offset, |prefix| + |source|, plaintextLength)
      requires offset + length <= plaintextLength
      requires |bytes| == length - Within(|prefix| + |source|, offset, length)
      ensures offset + length <= |Plaintext() + bytes|
      ensures (Plaintext() + bytes)[offset..offset + length]
           == Cut(prefix, 0, offset, offset + length) + Cut(source, |prefix|, offset, offset + length) + bytes
      ensures Plaintext() + bytes == prefix + source + (padding + bytes)
    {
      var to := offset + length;
      CutSum(prefix, source, offset, to);
      CutSum(prefix + source, padding + bytes, offset, to);
      assert Plaintext() + bytes == prefix + source + (padding + bytes);
      assert Cut(padding + bytes, |prefix + source|, offset, to) == bytes;
    }

    /** The next record starts within the plaintext there is. */
    lemma StartsWithin(index: nat)
      requires Shape() && index < recordCount && Progress(index)
      ensures index * CHUNK_BYTES <= |Plaintext()|
    {
      RecordsCover(plaintextLength);
      hide PaddedPlaintextLength, CeilDiv;
    }

    /** After the last record all of the source has been hashed. */
    lemma AllHashed()
      requires Shape() && Progress(recordCount)
      ensures hashed == source
    {
      RecordsCover(plaintextLength);
      hide PaddedPlaintextLength, CeilDiv;
    }

    lemma EmitsNext(records: Blob, before: Blob, index: nat, chunk: Blob)
      requires Shape() && index < recordCount && Progress(index + 1) && before <= Plaintext()
      requires index * CHUNK_BYTES <= |before| && Offset(index + 1) <= |Plaintext()|
      requires chunk == Plaintext()[Offset(index)..Offset(index + 1)] && Sealed(records, before, index)
      ensures Sealed(records + SealRecord(crypto, key, header, noncePrefix, index, chunk), Plaintext(), index + 1)
    {
      RecordsCover(plaintextLength);
      ChunkOf(Plaintext(), plaintextLength, index);
      RecordsOfPrefix(crypto, key, header, noncePrefix, before, Plaintext(), index);
    }

    /** The next record, or nothing after the last. */
    method Next(ghost records: Blob) returns (record: Option<Blob>)
      requires Valid() && Emitted(records)
      modifies this
      ensures Valid() && old(Plaintext()) <= Plaintext()
      ensures record.None? <==> old(counter) == recordCount
      ensures record.None? ==> counter == old(counter) && Plaintext() == old(Plaintext())
      ensures record.Some? ==> counter == old(counter) + 1 && Emitted(records + record.value)
    {
      hide SealRecord, Shape, Progress, Offset, RecordCount;
      if counter >= recordCount {
        return None;
      }
      var index := counter;
      ghost var before := Plaintext();
      StartsWithin(index);
      var chunk := PlaintextRecord(index);
      var sealed := SealRecord(crypto, key, header, noncePrefix, index, chunk);
      EmitsNext(records, before, index, chunk);
      counter := counter + 1;
      if counter == recordCount {
        AllHashed();
        digest := Some(crypto.sha256(hashed));
      }
      record := Some(sealed);
    }
  }

  /** Writes bytes behind those a buffer already holds. */
  method Append(buffer: array<byte>, at: nat, bytes: Blob, ghost held: Blob)
    requires at + |bytes| <= buffer.Length && buffer[..at] == held
    modifies buffer
    ensures buffer[..at + |bytes|] == held + bytes
  {
    SetBytes(buffer, at, bytes);
  }

  /** Everything the encoder makes, one record after another. */
  method EncodeAll(encoder: Encoder) returns (envelope: Blob)
    requires encoder.Valid() && encoder.counter == 0 && encoder.Emitted([])
    modifies encoder
    ensures encoder.Valid() && encoder.counter == encoder.recordCount
    ensures |encoder.Plaintext()| == encoder.plaintextLength
    ensures encoder.prefix + encoder.source <= encoder.Plaintext()
    ensures envelope == encoder.header + SealedRecords(encoder.crypto, encoder.key, encoder.header, encoder.noncePrefix,
                                                       encoder.Plaintext(), encoder.recordCount)
  {
    hide SealedRecords;
    ghost var records: Blob := [];
    envelope := encoder.header;
    var record := encoder.Next(records);
    while record.Some?
      invariant encoder.Valid()
      invariant record.Some? ==> encoder.Emitted(records + record.value)
      invariant record.None? ==> encoder.Emitted(records) && encoder.counter == encoder.recordCount
      invariant envelope == encoder.header + records
      decreases encoder.recordCount - encoder.counter, record.Some?
    {
      envelope := envelope + record.value;
      records := records + record.value;
      record := encoder.Next(records);
    }
  }

  /**
   Encrypts a source. The result is the envelope of the metadata, the source and padding, its length is what could
   be told from the description, and the digest is the source's.
   */
  method CreateEnvelope(c: Crypto, t: Texts, source: Blob, name: Text, mime: Text, rawKey: Blob, noncePrefix: Blob, salt: Blob)
    returns (result: Result<Blob, EnvelopeError>, ghost padding: Blob, digest: Blob)
    requires Sound(c) && SoundTexts(t) && |noncePrefix| == 8 && |salt| == 32
    ensures result.Ok? <==> |source| <= MAX_FILE_BYTES && NormaliseMimeType(t, mime).Some?
    ensures result.Ok? ==>
      && Describe(t, name, |source|, mime).Ok?
      && IsEnvelope(c, t, result.value, Describe(t, name, |source|, mime).value, source, padding, rawKey, noncePrefix, salt)
      && digest == c.sha256(source)
  {
    digest, padding := [], [];
    if |source| > MAX_FILE_BYTES {
      return Err(BadSize), [], [];
    }
    Describes(t, name, |source|, mime);
    hide NormaliseMimeType, SoundTexts, Describe, U32, SealedRecords, Sound, PaddedPlaintextLength, RecordCount, Encoder.Progress, Encoder.Emitted;
    var described := Describe(t, name, |source|, mime);
    if described.Err? {
      return Err(described.error), [], [];
    }
    DescriptionFits(t, name, |source|, mime);
    var prefix := Prefix(t, described.value);
    result, padding, digest := EncodePrefix(c, t, source, described.value, prefix, rawKey, noncePrefix, salt);
  }

  method EncodePrefix(c: Crypto, t: Texts, source: Blob, metadata: Metadata, prefix: Blob, rawKey: Blob, noncePrefix: Blob, salt: Blob)
    returns (result: Result<Blob, EnvelopeError>, ghost padding: Blob, digest: Blob)
    requires |source| <= MAX_FILE_BYTES && |noncePrefix| == 8 && |salt| == 32
    requires |MetadataBytes(t, metadata)| <= MAX_METADATA_BYTES && prefix == Prefix(t, metadata)
    ensures result.Ok? && IsEnvelope(c, t, result.value, metadata, source, padding, rawKey, noncePrefix, salt)
    ensures digest == c.sha256(source)
  {
    hide U32, SealedRecords, PaddedPlaintextLength, RecordCount, Encoder.Progress, Encoder.Emitted;
    var encoder := new Encoder(c, source, metadata, prefix, rawKey, noncePrefix, salt);
    var envelope := EncodeAll(encoder);
    padding := encoder.padding;
    digest := encoder.digest.value;
    result := Ok(envelope);
  }

  lemma DescriptionFits(t: Texts, name: Text, size: nat, mime: Text)
    requires Describe(t, name, size, mime).Ok?
    ensures |MetadataBytes(t, Describe(t, name, size, mime).value)| <= MAX_METADATA_BYTES
  {
    hide SanitiseFileName;
  }

  /** The bytes are the envelope of this metadata, source and padding. */
  ghost predicate IsEnvelope(c: Crypto, t: Texts, envelope: Blob, metadata: Metadata, source: Blob, padding: Blob,
                             rawKey: Blob, noncePrefix: Blob, salt: Blob)
  {
    && |MetadataBytes(t, metadata)| <= MAX_METADATA_BYTES && |source| <= MAX_FILE_BYTES
    && var plaintext := Prefix(t, metadata) + source + padding;
    && |plaintext| == PaddedPlaintextLength(|Prefix(t, metadata)| + |source|)
    && RecordCount(|plaintext|) <= MAX_RECORDS
    && envelope == EnvelopeOf(c, rawKey, noncePrefix, salt, plaintext)
  }

  lemma SealLength(c: Crypto, key: Blob, header: Blob, noncePrefix: Blob, counter: nat, chunk: Blob)
    requires Sound(c) && counter < TWO_32
    ensures |SealRecord(c, key, header, noncePrefix, counter, chunk)| == |chunk| + TAG_BYTES
  {
  }

  lemma ChunkLength(plaintext: Blob, k: nat)
    requires k < RecordCount(|plaintext|)
    ensures k * CHUNK_BYTES <= |plaintext|
    ensures |Chunk(plaintext, k)| == Min((k + 1) * CHUNK_BYTES, |plaintext|) - Min(k * CHUNK_BYTES, |plaintext|)
  {
  }

  lemma SealedStep(c: Crypto, key: Blob, header: Blob, noncePrefix: Blob, plaintext: Blob, n: nat)
    requires 0 < n <= RecordCount(|plaintext|) < TWO_32
    ensures (n - 1) * CHUNK_BYTES <= |plaintext|
    ensures SealedRecords(c, key, header, noncePrefix, plaintext, n)
         == SealedRecords(c, key, header, noncePrefix, plaintext, n - 1)
            + SealRecord(c, key, header, noncePrefix, n - 1, Chunk(plaintext, n - 1))
  {
  }

  lemma SealedNone(c: Crypto, key: Blob, header: Blob, noncePrefix: Blob, plaintext: Blob)
    requires RecordCount(|plaintext|) < TWO_32
    ensures |SealedRecords(c, key, header, noncePrefix, plaintext, 0)| == Min(0 * CHUNK_BYTES, |plaintext|) + 0 * TAG_BYTES
  {
  }

  lemma {:induction false} SealedLength(c: Crypto, key: Blob, header: Blob, noncePrefix: Blob, plaintext: Blob, n: nat)
    requires Sound(c) && n <= RecordCount(|plaintext|) < TWO_32
    ensures |SealedRecords(c, key, header, noncePrefix, plaintext, n)| == Min(n * CHUNK_BYTES, |plaintext|) + n * TAG_BYTES
  {
    hide *;
    if n == 0 {
      SealedNone(c, key, header, noncePrefix, plaintext);
    } else {
      SealedStep(c, key, header, noncePrefix, plaintext, n);
      SealedLength(c, key, header, noncePrefix, plaintext, n - 1);
      ChunkLength(plaintext, n - 1);
      SealLength(c, key, header, noncePrefix, n - 1, Chunk(plaintext, n - 1));
    }
  }

  /** An envelope is exactly as long as can be told without making it. */
  lemma EnvelopeLength(c: Crypto, t: Texts, envelope: Blob, metadata: Metadata, source: Blob, padding: Blob,
                       rawKey: Blob, noncePrefix: Blob, salt: Blob)
    requires Sound(c) && |noncePrefix| == 8 && |salt| == 32
    requires IsEnvelope(c, t, envelope, metadata, source, padding, rawKey, noncePrefix, salt)
    ensures |envelope| == EnvelopeBytes(|Prefix(t, metadata)|, |source|)
  {
    var plaintext := Prefix(t, metadata) + source + padding;
    var records := RecordCount(|plaintext|);
    var header := HeaderV2(records, noncePrefix, salt);
    assert |header| == HEADER_BYTES_V2;
    PaddingFits(|Prefix(t, metadata)| + |source|);
    RecordsCover(|plaintext|);
    SealedLength(c, c.derive(rawKey, salt), header, noncePrefix, plaintext, records);
    hide *;
    EnvelopeParts(c, t, envelope, metadata, source, padding, rawKey, noncePrefix, salt);
  }

  lemma EnvelopeParts(c: Crypto, t: Texts, envelope: Blob, metadata: Metadata, source: Blob, padding: Blob,
                      rawKey: Blob, noncePrefix: Blob, salt: Blob)
    requires |noncePrefix| == 8 && |salt| == 32
    requires IsEnvelope(c, t, envelope, metadata, source, padding, rawKey, noncePrefix, salt)
    ensures
      var plaintext := Prefix(t, metadata) + source + padding;
      var records := RecordCount(|plaintext|);
      var header := HeaderV2(records, noncePrefix, salt);
      && |plaintext| == PaddedPlaintextLength(|Prefix(t, metadata)| + |source|)
      && |header| == HEADER_BYTES_V2 && records <= MAX_RECORDS < TWO_32
      && envelope == header + SealedRecords(c, c.derive(rawKey, salt), header, noncePrefix, plaintext, records)
  {
    hide SealedRecords, PaddedPlaintextLength, Prefix, U32;
  }
}
