/** What was encrypted opens, to the same bytes under the cleaned name and type. */
module EnvelopeRoundTrip {
  import opened Wrappers
  import opened Bytes
  import opened Buffers
  import opened FileNames
  import opened EnvelopeSizes
  import opened Envelope
  import opened EnvelopeWriter
  import opened EnvelopeReader

  /** Where record `k` stands among the sealed records. */
  lemma {:induction false} SealedSlice(c: Crypto, key: Blob, header: Blob, noncePrefix: Blob, text: Blob, n: nat, k: nat)
    requires Sound(c) && k < n <= RecordCount(|text|) < TWO_32
    ensures k * CHUNK_BYTES <= |text|
    ensures
      var records := SealedRecords(c, key, header, noncePrefix, text, n);
      var start := k * (CHUNK_BYTES + TAG_BYTES);
      var sealed := SealRecord(c, key, header, noncePrefix, k, Chunk(text, k));
      start + |sealed| <= |records| && records[start..start + |sealed|] == sealed
  {
    hide *;
    SealedStep(c, key, header, noncePrefix, text, n);
    ChunkLength(text, k);
    if k == n - 1 {
      LastSlice(c, key, header, noncePrefix, text, n);
    } else {
      SealedSlice(c, key, header, noncePrefix, text, n - 1, k);
      SliceOfPrefix(SealedRecords(c, key, header, noncePrefix, text, n - 1),
                    SealRecord(c, key, header, noncePrefix, n - 1, Chunk(text, n - 1)),
                    k * (CHUNK_BYTES + TAG_BYTES),
                    SealRecord(c, key, header, noncePrefix, k, Chunk(text, k)));
    }
  }

  /** The last record stands behind the others, which are all full. */
  lemma LastSlice(c: Crypto, key: Blob, header: Blob, noncePrefix: Blob, text: Blob, n: nat)
    requires Sound(c) && 0 < n <= RecordCount(|text|) < TWO_32
    ensures (n - 1) * CHUNK_BYTES <= |text|
    ensures
      var records := SealedRecords(c, key, header, noncePrefix, text, n);
      var start := (n - 1) * (CHUNK_BYTES + TAG_BYTES);
      var sealed := SealRecord(c, key, header, noncePrefix, n - 1, Chunk(text, n - 1));
      start + |sealed| <= |records| && records[start..start + |sealed|] == sealed
  {
    hide *;
    SealedStep(c, key, header, noncePrefix, text, n);
    ChunkLength(text, n - 1);
    SealedLength(c, key, header, noncePrefix, text, n - 1);
    FullBefore(text, n - 1);
    SliceOfEnd(SealedRecords(c, key, header, noncePrefix, text, n - 1),
               SealRecord(c, key, header, noncePrefix, n - 1, Chunk(text, n - 1)));
  }

  lemma SliceOfEnd(a: Blob, b: Blob)
    ensures (a + b)[|a|..|a| + |b|] == b
  {
  }

  lemma FullBefore(text: Blob, k: nat)
    requires k < RecordCount(|text|)
    ensures Min(k * CHUNK_BYTES, |text|) == k * CHUNK_BYTES
  {
  }

  lemma SliceOfPrefix(a: Blob, b: Blob, start: nat, piece: Blob)
    requires start + |piece| <= |a| && a[start..start + |piece|] == piece
    ensures start + |piece| <= |a + b| && (a + b)[start..start + |piece|] == piece
  {
  }

  /** Every record of an envelope opens to the record of the text that was sealed. */
  lemma EnvelopeRecordOpens(c: Crypto, h: Header, key: Blob, file: Blob, text: Blob, k: nat)
    requires Sound(c) && 0 < |text| && k < h.records == RecordCount(|text|) < TWO_32
    requires file == h.bytes + SealedRecords(c, key, h.bytes, h.noncePrefix, text, h.records)
    ensures k * CHUNK_BYTES <= |text| && RecordOpens(c, h, key, file, k, Chunk(text, k))
  {
    hide *;
    SealedBounds(c, h, key, file, text, k);
    var sealed := SealRecord(c, key, h.bytes, h.noncePrefix, k, Chunk(text, k));
    SealedSlice(c, key, h.bytes, h.noncePrefix, text, h.records, k);
    ShiftedSlice(h.bytes, SealedRecords(c, key, h.bytes, h.noncePrefix, text, h.records), file, k * (CHUNK_BYTES + TAG_BYTES), sealed);
    SealedOpens(c, h, key, file, k, Chunk(text, k));
  }

  /** The reader looks for record `k` where it is. */
  lemma SealedBounds(c: Crypto, h: Header, key: Blob, file: Blob, text: Blob, k: nat)
    requires Sound(c) && 0 < |text| && k < h.records == RecordCount(|text|) < TWO_32
    requires file == h.bytes + SealedRecords(c, key, h.bytes, h.noncePrefix, text, h.records)
    ensures k * CHUNK_BYTES <= |text|
    ensures
      var sealed := SealRecord(c, key, h.bytes, h.noncePrefix, k, Chunk(text, k));
      && CipherStart(|h.bytes|, k) == |h.bytes| + k * (CHUNK_BYTES + TAG_BYTES)
      && CipherEnd(|h.bytes|, k, h.records, |file|) == CipherStart(|h.bytes|, k) + |sealed| <= |file|
  {
    hide *;
    SealedLength(c, key, h.bytes, h.noncePrefix, text, h.records);
    TextLength(text);
    ChunkLength(text, k);
    SealLength(c, key, h.bytes, h.noncePrefix, k, Chunk(text, k));
    CipherBounds(h, |file|, |text|, k);
  }

  lemma TextLength(text: Blob)
    requires |text| > 0
    ensures Min(RecordCount(|text|) * CHUNK_BYTES, |text|) == |text|
  {
  }

  lemma SealedOpens(c: Crypto, h: Header, key: Blob, file: Blob, k: nat, chunk: Blob)
    requires Sound(c) && k < h.records < TWO_32
    requires CipherStart(|h.bytes|, k) <= CipherEnd(|h.bytes|, k, h.records, |file|) <= |file|
    requires file[CipherStart(|h.bytes|, k)..CipherEnd(|h.bytes|, k, h.records, |file|)]
          == SealRecord(c, key, h.bytes, h.noncePrefix, k, chunk)
    ensures RecordOpens(c, h, key, file, k, chunk)
  {
    hide CipherStart, CipherEnd, Nonce, AdditionalData;
  }

  lemma ShiftedSlice(a: Blob, b: Blob, file: Blob, at: nat, piece: Blob)
    requires at + |piece| <= |b| && b[at..at + |piece|] == piece && file == a + b
    ensures |a| + at + |piece| <= |file| && file[|a| + at..|a| + at + |piece|] == piece
  {
  }

  lemma CipherBounds(h: Header, size: nat, length: nat, k: nat)
    requires 0 < length && h.records == RecordCount(length) && k < h.records
    requires size == |h.bytes| + length + h.records * TAG_BYTES
    ensures CipherStart(|h.bytes|, k) == |h.bytes| + k * (CHUNK_BYTES + TAG_BYTES)
    ensures CipherEnd(|h.bytes|, k, h.records, size)
         == CipherStart(|h.bytes|, k) + Min((k + 1) * CHUNK_BYTES, length) - Min(k * CHUNK_BYTES, length) + TAG_BYTES
    ensures CipherEnd(|h.bytes|, k, h.records, size) <= size
  {
  }

  // ---------------------------------------------------------------- every record under its own nonce

  /** Piece `k` of the text is sealed as record `k` under this nonce, bound to the header and to its place. */
  ghost predicate SealedWith(c: Crypto, key: Blob, envelope: Blob, text: Blob, k: nat, nonce: Blob, data: Blob)
    requires 56 <= |envelope| && k * 1_048_576 <= |text|
  {
    var chunk := text[k * 1_048_576..Min((k + 1) * 1_048_576, |text|)];
    var start := 56 + k * 1_048_592;
    && |data| == 60 && data[..56] == envelope[..56] && ReadU32(data, 56) == k
    && start + |chunk| + 16 <= |envelope|
    && envelope[start..start + |chunk| + 16] == c.seal(key, nonce, data, chunk)
  }

  /** Record `k` of the envelope is the piece of the text at its place. Its nonce ends in the record's number. */
  ghost predicate SealedUnder(c: Crypto, key: Blob, envelope: Blob, text: Blob, noncePrefix: Blob, k: nat, nonce: Blob) {
    && |nonce| == 12 && nonce[..8] == noncePrefix && ReadU32(nonce, 8) == k
    && 56 <= |envelope| && k * 1_048_576 <= |text|
    && exists data :: SealedWith(c, key, envelope, text, k, nonce, data)
  }

  lemma RecordSealed(c: Crypto, h: Header, key: Blob, envelope: Blob, text: Blob, k: nat)
    requires Sound(c) && 0 < |text| && k < h.records == RecordCount(|text|) < TWO_32
    requires |h.bytes| == HEADER_BYTES_V2 && |h.noncePrefix| == 8
    requires envelope == h.bytes + SealedRecords(c, key, h.bytes, h.noncePrefix, text, h.records)
    ensures SealedUnder(c, key, envelope, text, h.noncePrefix, k, Nonce(h.noncePrefix, k))
  {
    hide *;
    SealedSlice(c, key, h.bytes, h.noncePrefix, text, h.records, k);
    var sealed := SealRecord(c, key, h.bytes, h.noncePrefix, k, Chunk(text, k));
    ShiftedSlice(h.bytes, SealedRecords(c, key, h.bytes, h.noncePrefix, text, h.records), envelope, k * (CHUNK_BYTES + TAG_BYTES), sealed);
    SealLength(c, key, h.bytes, h.noncePrefix, k, Chunk(text, k));
    NonceIs(Nonce(h.noncePrefix, k), h.noncePrefix, k);
    BindingIs(AdditionalData(h.bytes, k), h.bytes, k);
    SealedHow(c, h, key, envelope, text, k);
  }

  lemma SealedHow(c: Crypto, h: Header, key: Blob, envelope: Blob, text: Blob, k: nat)
    requires k < RecordCount(|text|) < TWO_32 && k * CHUNK_BYTES <= |text| && |h.bytes| == HEADER_BYTES_V2 && h.bytes <= envelope
    requires IsNonce(Nonce(h.noncePrefix, k), h.noncePrefix, k) && IsBinding(AdditionalData(h.bytes, k), h.bytes, k)
    requires
      var sealed := SealRecord(c, key, h.bytes, h.noncePrefix, k, Chunk(text, k));
      var start := |h.bytes| + k * (CHUNK_BYTES + TAG_BYTES);
      && |sealed| == |Chunk(text, k)| + TAG_BYTES && start + |sealed| <= |envelope|
      && envelope[start..start + |sealed|] == sealed
    ensures SealedUnder(c, key, envelope, text, h.noncePrefix, k, Nonce(h.noncePrefix, k))
  {
    hide Nonce, AdditionalData, ReadU32;
    assert SealedWith(c, key, envelope, text, k, Nonce(h.noncePrefix, k), AdditionalData(h.bytes, k));
  }

  lemma NonceNumber(c: Crypto, key: Blob, envelope: Blob, text: Blob, noncePrefix: Blob, k: nat, nonce: Blob)
    requires SealedUnder(c, key, envelope, text, noncePrefix, k, nonce)
    ensures |nonce| == 12 && ReadU32(nonce, 8) == k
  {
    hide SealedWith, ReadU32;
  }

  lemma RecordsOf(length: nat)
    ensures RecordCount(length) * CHUNK_BYTES >= length && (length > 0 ==> length > (RecordCount(length) - 1) * CHUNK_BYTES)
  {
  }

  /** The records are the pieces of the text, in order, each sealed under its own nonce. */
  ghost predicate SealedApart(c: Crypto, key: Blob, envelope: Blob, text: Blob, noncePrefix: Blob, nonces: seq<Blob>) {
    && |nonces| * 1_048_576 >= |text| > (|nonces| - 1) * 1_048_576
    && (forall j, k :: 0 <= j < k < |nonces| ==> nonces[j] != nonces[k])
    && (forall k :: 0 <= k < |nonces| ==> SealedUnder(c, key, envelope, text, noncePrefix, k, nonces[k]))
  }

  lemma SealedUnderOwn(c: Crypto, key: Blob, envelope: Blob, text: Blob, noncePrefix: Blob, nonces: seq<Blob>)
    requires |nonces| * CHUNK_BYTES >= |text| > (|nonces| - 1) * CHUNK_BYTES
    requires forall k :: 0 <= k < |nonces| ==> SealedUnder(c, key, envelope, text, noncePrefix, k, nonces[k])
    ensures SealedApart(c, key, envelope, text, noncePrefix, nonces)
  {
    hide SealedUnder;
    forall j, k | 0 <= j < k < |nonces|
      ensures nonces[j] != nonces[k]
    {
      NonceNumber(c, key, envelope, text, noncePrefix, j, nonces[j]);
      NonceNumber(c, key, envelope, text, noncePrefix, k, nonces[k]);
    }
  }

  lemma AllSealed(c: Crypto, h: Header, key: Blob, envelope: Blob, text: Blob)
    requires Sound(c) && 0 < |text| && h.records == RecordCount(|text|) < TWO_32
    requires |h.bytes| == HEADER_BYTES_V2 && |h.noncePrefix| == 8
    requires envelope == h.bytes + SealedRecords(c, key, h.bytes, h.noncePrefix, text, h.records)
    ensures exists nonces :: SealedApart(c, key, envelope, text, h.noncePrefix, nonces)
  {
    hide *;
    RecordsOf(|text|);
    var nonces := seq(h.records, k requires 0 <= k < h.records => Nonce(h.noncePrefix, k));
    forall k | 0 <= k < h.records
      ensures SealedUnder(c, key, envelope, text, h.noncePrefix, k, nonces[k])
    {
      RecordSealed(c, h, key, envelope, text, k);
    }
    SealedUnderOwn(c, key, envelope, text, h.noncePrefix, nonces);
  }

  /**
   An envelope's records are the pieces of its text, in order, each sealed under a nonce of its own and bound to the
   header and its place: no nonce is used for two records.
   */
  lemma NoncesDiffer(c: Crypto, t: Texts, envelope: Blob, metadata: Metadata, source: Blob, padding: Blob,
                     rawKey: Blob, noncePrefix: Blob, salt: Blob)
    requires Sound(c) && |noncePrefix| == 8 && |salt| == 32
    requires IsEnvelope(c, t, envelope, metadata, source, padding, rawKey, noncePrefix, salt)
    ensures exists nonces ::
              SealedApart(c, c.derive(rawKey, salt), envelope, Prefix(t, metadata) + source + padding, noncePrefix, nonces)
  {
    hide *;
    EnvelopeParts(c, t, envelope, metadata, source, padding, rawKey, noncePrefix, salt);
    TextNotEmpty(c, t, envelope, metadata, source, padding, rawKey, noncePrefix, salt);
    var text := Prefix(t, metadata) + source + padding;
    var records := RecordCount(|text|);
    AllSealed(c, Header(HeaderV2(records, noncePrefix, salt), records, noncePrefix, Some(salt)), c.derive(rawKey, salt), envelope, text);
  }

  lemma TextNotEmpty(c: Crypto, t: Texts, envelope: Blob, metadata: Metadata, source: Blob, padding: Blob,
                     rawKey: Blob, noncePrefix: Blob, salt: Blob)
    requires IsEnvelope(c, t, envelope, metadata, source, padding, rawKey, noncePrefix, salt)
    ensures |MetadataBytes(t, metadata)| <= MAX_METADATA_BYTES && |Prefix(t, metadata) + source + padding| > 0
  {
    hide EnvelopeOf, PaddedPlaintextLength, RecordCount;
  }

  /**
   What the reader takes for record `k` is what opens under a nonce that ends in the record's number, bound to the header
   and to its place.
   */
  lemma OpensUnderOwn(c: Crypto, h: Header, key: Blob, file: Blob, k: nat, chunk: Blob)
    requires |h.noncePrefix| == 8
    ensures RecordOpens(c, h, key, file, k, chunk) <==>
            exists nonce, data :: OpensWith(c, h, key, file, k, chunk, nonce, data)
  {
    hide Nonce, AdditionalData, ReadU32;
    if k < h.records < TWO_32 {
      NonceIs(Nonce(h.noncePrefix, k), h.noncePrefix, k);
      BindingIs(AdditionalData(h.bytes, k), h.bytes, k);
    }
    if RecordOpens(c, h, key, file, k, chunk) {
      assert OpensWith(c, h, key, file, k, chunk, Nonce(h.noncePrefix, k), AdditionalData(h.bytes, k));
    }
    if nonce, data :| OpensWith(c, h, key, file, k, chunk, nonce, data) {
      NonceIs(nonce, h.noncePrefix, k);
      BindingIs(data, h.bytes, k);
    }
  }

  /** The bytes from the record's place to the next record's, or to the end for the last, open to this text. */
  ghost predicate OpensWith(c: Crypto, h: Header, key: Blob, file: Blob, k: nat, chunk: Blob, nonce: Blob, data: Blob) {
    var start := |h.bytes| + k * 1_048_592;
    var end := if k + 1 == h.records then |file| else start + 1_048_592;
    && k < h.records < TWO_32 && start <= end <= |file|
    && |nonce| == 12 && nonce[..8] == h.noncePrefix && ReadU32(nonce, 8) == k
    && |data| == |h.bytes| + 4 && data[..|h.bytes|] == h.bytes && ReadU32(data, |h.bytes|) == k
    && c.open(key, nonce, data, file[start..end]) == Some(chunk)
  }

  /** An envelope's header passes, and every record opens. */
  lemma EnvelopeOpens(c: Crypto, t: Texts, envelope: Blob, metadata: Metadata, source: Blob, padding: Blob,
                      rawKey: Blob, noncePrefix: Blob, salt: Blob)
    requires Sound(c) && |noncePrefix| == 8 && |salt| == 32
    requires IsEnvelope(c, t, envelope, metadata, source, padding, rawKey, noncePrefix, salt)
    ensures 0 < |envelope| <= MAX_TRANSFER_BYTES && ParseHeader(envelope).Ok?
    ensures
      var h := ParseHeader(envelope).value;
      Opens(c, h, RecordKey(c, h, rawKey), envelope, Prefix(t, metadata) + source + padding)
  {
    var text := Prefix(t, metadata) + source + padding;
    var records := RecordCount(|text|);
    PrefixBounds(t, metadata);
    SizesAgree(|Prefix(t, metadata)|, |source|);
    PaddingFits(|Prefix(t, metadata)| + |source|);
    hide *;
    EnvelopeLength(c, t, envelope, metadata, source, padding, rawKey, noncePrefix, salt);
    EnvelopeParts(c, t, envelope, metadata, source, padding, rawKey, noncePrefix, salt);
    var header := HeaderV2(records, noncePrefix, salt);
    SourceBounded(c, t, envelope, metadata, source, padding, rawKey, noncePrefix, salt);
    HeaderReads(envelope, records, noncePrefix, salt);
    var h := Header(header, records, noncePrefix, Some(salt));
    AllOpen(c, h, c.derive(rawKey, salt), envelope, text, records);
    DerivedKey(c, h, rawKey, salt);
  }

  /** The key is derived with the header's salt; without one, in the old form, it is the raw key. */
  lemma DerivedKey(c: Crypto, h: Header, rawKey: Blob, salt: Blob)
    ensures h.salt == Some(salt) ==> RecordKey(c, h, rawKey) == c.derive(rawKey, salt)
    ensures h.salt.None? ==> RecordKey(c, h, rawKey) == rawKey
  {
  }

  lemma AllOpen(c: Crypto, h: Header, key: Blob, file: Blob, text: Blob, records: nat)
    requires Sound(c) && 0 < |text| && h.records == records == RecordCount(|text|) < TWO_32
    requires file == h.bytes + SealedRecords(c, key, h.bytes, h.noncePrefix, text, h.records)
    requires |file| == |h.bytes| + |text| + records * TAG_BYTES
    ensures Opens(c, h, key, file, text)
  {
    hide SealedRecords, RecordOpens, Sound;
    forall k | 0 <= k < h.records
      ensures k * CHUNK_BYTES <= |text| && RecordOpens(c, h, key, file, k, Chunk(text, k))
    {
      EnvelopeRecordOpens(c, h, key, file, text, k);
    }
  }

  lemma PrefixBounds(t: Texts, metadata: Metadata)
    requires |MetadataBytes(t, metadata)| <= MAX_METADATA_BYTES
    ensures 4 <= |Prefix(t, metadata)| <= 4 + MAX_METADATA_BYTES
  {
  }

  lemma SourceBounded(c: Crypto, t: Texts, envelope: Blob, metadata: Metadata, source: Blob, padding: Blob,
                      rawKey: Blob, noncePrefix: Blob, salt: Blob)
    requires IsEnvelope(c, t, envelope, metadata, source, padding, rawKey, noncePrefix, salt)
    ensures |source| <= MAX_FILE_BYTES
  {
  }

  /**
   The reader accepts what the encoder made of a source exactly when the source is not empty; it finds the source's
   bytes, the cleaned name and the normalised type, and nothing else.
   */
  lemma RoundTrip(c: Crypto, t: Texts, envelope: Blob, source: Blob, name: Text, mime: Text, padding: Blob,
                  rawKey: Blob, noncePrefix: Blob, salt: Blob, found: Opened)
    requires Sound(c) && SoundTexts(t) && |noncePrefix| == 8 && |salt| == 32
    requires |source| <= MAX_FILE_BYTES && Describe(t, name, |source|, mime).Ok?
    requires IsEnvelope(c, t, envelope, Describe(t, name, |source|, mime).value, source, padding, rawKey, noncePrefix, salt)
    ensures Accepts(c, t, envelope, rawKey, found) <==>
              |source| > 0 && found == Opened(SanitiseFileName(t.nfc, name), NormaliseMimeType(t, mime).value, source)
  {
    hide *;
    var m := Describe(t, name, |source|, mime).value;
    DescribedAs(t, name, |source|, mime);
    EnvelopeOpens(c, t, envelope, m, source, padding, rawKey, noncePrefix, salt);
    EnvelopeParts(c, t, envelope, m, source, padding, rawKey, noncePrefix, salt);
    var text := Prefix(t, m) + source + padding;
    EnvelopeCarries(t, name, source, mime, padding, found);
    OnlyReading(c, t, envelope, rawKey, text, found);
  }

  lemma DescribedAs(t: Texts, name: Text, size: nat, mime: Text)
    requires Describe(t, name, size, mime).Ok?
    ensures NormaliseMimeType(t, mime).Some?
    ensures Describe(t, name, size, mime).value == Metadata(SanitiseFileName(t.nfc, name), size, NormaliseMimeType(t, mime).value)
    ensures |MetadataBytes(t, Describe(t, name, size, mime).value)| <= MAX_METADATA_BYTES
  {
    hide SanitiseFileName, NormaliseMimeType;
  }

  /** A file that opens to a text is accepted as just what the text carries. */
  lemma OnlyReading(c: Crypto, t: Texts, file: Blob, rawKey: Blob, text: Blob, found: Opened)
    requires 0 < |file| <= MAX_TRANSFER_BYTES && ParseHeader(file).Ok?
    requires var h := ParseHeader(file).value; Opens(c, h, RecordKey(c, h, rawKey), file, text)
    ensures Accepts(c, t, file, rawKey, found) <==> Carries(t, text, found)
  {
    HeaderShape(file);
    hide ParseHeader, Opens, Carries;
    var h := ParseHeader(file).value;
    if Accepts(c, t, file, rawKey, found) {
      var p :| OpensAs(c, t, file, rawKey, found, p);
      OpenLength(c, h, RecordKey(c, h, rawKey), file, p);
      OneText(c, h, RecordKey(c, h, rawKey), file, p, text);
    }
    if Carries(t, text, found) {
      assert OpensAs(c, t, file, rawKey, found, text);
    }
  }

  lemma OpenLength(c: Crypto, h: Header, key: Blob, file: Blob, text: Blob)
    requires Opens(c, h, key, file, text)
    ensures |text| == PlaintextLength(h, file)
  {
  }

  /** What the text of an envelope carries. */
  lemma EnvelopeCarries(t: Texts, name: Text, source: Blob, mime: Text, padding: Blob, found: Opened)
    requires SoundTexts(t) && |source| <= MAX_FILE_BYTES && Describe(t, name, |source|, mime).Ok?
    requires |MetadataBytes(t, Describe(t, name, |source|, mime).value)| <= MAX_METADATA_BYTES
    requires var prefix := Prefix(t, Describe(t, name, |source|, mime).value);
      |prefix + source + padding| == PaddedPlaintextLength(|prefix| + |source|)
    ensures
      var m := Describe(t, name, |source|, mime).value;
      Carries(t, Prefix(t, m) + source + padding, found) <==> |source| > 0 && found == Opened(m.name, m.mime, source)
  {
    hide *;
    var m := Describe(t, name, |source|, mime).value;
    var text := Prefix(t, m) + source + padding;
    DescribedAs(t, name, |source|, mime);
    PrefixBounds(t, m);
    SizesAgree(|Prefix(t, m)|, |source|);
    FirstChunk(Prefix(t, m), text);
    DescriptionsParse(t, name, |source|, mime, Chunk(text, 0)[|Prefix(t, m)|..]);
    CarriesOnly(t, text, Prefix(t, m), source, padding, m, found);
  }

  lemma FirstChunk(prefix: Blob, text: Blob)
    requires prefix <= text && |prefix| <= RecordEnd(|text|, 0)
    ensures |prefix| <= |Chunk(text, 0)| && Chunk(text, 0) == prefix + Chunk(text, 0)[|prefix|..]
  {
  }

  lemma CarriesOnly(t: Texts, text: Blob, prefix: Blob, source: Blob, padding: Blob, m: Metadata, found: Opened)
    requires text == prefix + source + padding && |text| == PaddedPlaintextLength(|prefix| + |source|) && m.size == |source|
    requires ParseMetadata(t, Chunk(text, 0)) == if |source| == 0 then Err(BadSize) else Ok((m, |prefix|))
    ensures Carries(t, text, found) <==> |source| > 0 && found == Opened(m.name, m.mime, source)
  {
    hide ParseMetadata, PaddedPlaintextLength, Chunk;
    assert text[|prefix|..|prefix| + |source|] == source;
    if |source| > 0 && found == Opened(m.name, m.mime, source) {
      assert CarriesAs(t, text, found, m, |prefix|);
    }
  }
}
