/**
 The encrypted envelope: a header, then the plaintext - metadata, the file, random padding - sealed in records of
 one mebibyte. The ciphers, the key derivation, the digest and Unicode are parameters.
 */
module Envelope {
  import opened Wrappers
  import opened Bytes
  import opened Buffers
  import opened FileNames
  import opened EnvelopeSizes

  /** `seal` and `open` take a key, a nonce, additional data and the text. */
  datatype Crypto = Crypto(
    seal: (Blob, Blob, Blob, Blob) -> Blob,
    open: (Blob, Blob, Blob, Blob) -> Option<Blob>,
    derive: (Blob, Blob) -> Blob,
    sha256: Blob -> Blob)

  /** What is sealed is what opens, and sealing adds a tag. */
  ghost predicate Sound(c: Crypto) {
    && (forall key, nonce, data, text ::
          |c.seal(key, nonce, data, text)| == |text| + TAG_BYTES
          && c.open(key, nonce, data, c.seal(key, nonce, data, text)) == Some(text))
    && (forall key, nonce, data, sealed, text ::
          c.open(key, nonce, data, sealed) == Some(text) ==> |sealed| == |text| + TAG_BYTES)
  }

  datatype Metadata = Metadata(name: Text, size: nat, mime: Text)

  /**
   Normalisation form C, lower case, the metadata's canonical JSON text with its reader, and UTF-8 with a decoder that
   refuses what is not UTF-8.
   */
  datatype Texts = Texts(
    nfc: Text -> Text,
    lower: Text -> Text,
    json: Metadata -> Text,
    parse: Text -> Option<Metadata>,
    utf8: Text -> Blob,
    decode: Blob -> Option<Text>)

  /** The bytes of the metadata's canonical text. */
  function MetadataBytes(t: Texts, m: Metadata): Blob {
    t.utf8(t.json(m))
  }

  /** JSON starts with a brace, needs at most six bytes for a code unit, and reads back what it wrote. */
  ghost predicate SoundTexts(t: Texts) {
    && Normalises(t.nfc)
    && (forall s :: t.lower(t.lower(s)) == t.lower(s) && (s != [] ==> t.lower(s) != []))
    && (forall m: Metadata :: t.parse(t.json(m)) == Some(m) && t.decode(MetadataBytes(t, m)) == Some(t.json(m)))
    && (forall b: Blob, s :: t.decode(b) == Some(s) ==> t.utf8(s) == b)
    && (forall m: Metadata :: |MetadataBytes(t, m)| >= 2 && MetadataBytes(t, m)[0] == 0x7b)
    && (forall m: Metadata :: m.size <= MAX_FILE_BYTES ==> |MetadataBytes(t, m)| <= 6 * (|m.name| + |m.mime|) + 64)
  }

  datatype EnvelopeError =
    | NotEnvelope | BadHeader | BadLength | BadSize | CannotOpen | BadMetadata | BadPadding | Incomplete | BadMimeType | TooLarge

  // ---------------------------------------------------------------- metadata

  /** "application/octet-stream" */
  const OCTET_STREAM: Text := [0x61, 0x70, 0x70, 0x6c, 0x69, 0x63, 0x61, 0x74, 0x69, 0x6f, 0x6e, 0x2f,
                               0x6f, 0x63, 0x74, 0x65, 0x74, 0x2d, 0x73, 0x74, 0x72, 0x65, 0x61, 0x6d]

  predicate IsMimeType(mime: Text) {
    |mime| <= 255 && forall i :: 0 <= i < |mime| ==> !IsControl(mime[i])
  }

  function NormaliseMimeType(t: Texts, value: Text): Option<Text> {
    var mime := t.lower(if |value| == 0 then OCTET_STREAM else value);
    if IsMimeType(mime) then Some(mime) else None
  }

  /** The metadata of a source, or the reason it has none. */
  function Describe(t: Texts, name: Text, size: nat, mime: Text): Result<Metadata, EnvelopeError> {
    var normal := NormaliseMimeType(t, mime);
    if normal.None? then Err(BadMimeType)
    else
      var metadata := Metadata(SanitiseFileName(t.nfc, name), size, normal.value);
      if |MetadataBytes(t, metadata)| > MAX_METADATA_BYTES then Err(TooLarge) else Ok(metadata)
  }

  function Prefix(t: Texts, metadata: Metadata): Blob
    requires |MetadataBytes(t, metadata)| <= MAX_METADATA_BYTES
  {
    U32(|MetadataBytes(t, metadata)|) + MetadataBytes(t, metadata)
  }

  const BYTE_ORDER_MARK: Blob := [0xef, 0xbb, 0xbf]

  /** The text of some bytes, without the byte order mark they may start with. */
  function ReadText(t: Texts, bytes: Blob): Option<Text> {
    if BYTE_ORDER_MARK <= bytes then t.decode(bytes[3..]) else t.decode(bytes)
  }

  /** What the reader makes of the first record. */
  function ParseMetadata(t: Texts, plaintext: Blob): Result<(Metadata, nat), EnvelopeError> {
    if |plaintext| < 4 then Err(BadMetadata)
    else
      var length := ReadU32(plaintext, 0);
      if length < 2 || length > MAX_METADATA_BYTES || 4 + length > |plaintext| then Err(BadMetadata)
      else
        var text := ReadText(t, plaintext[4..4 + length]);
        if text.None? then Err(BadMetadata)
        else
          var m := CheckMetadata(t, text.value);
          if m.Err? then Err(m.error) else Ok((m.value, 4 + length))
  }

  function CheckMetadata(t: Texts, text: Text): Result<Metadata, EnvelopeError> {
    var parsed := t.parse(text);
    if parsed.None? then Err(BadMetadata)
    else
      var m := parsed.value;
      var mime := NormaliseMimeType(t, m.mime);
      if SanitiseFileName(t.nfc, m.name) != m.name then Err(BadMetadata)
      else if m.size == 0 || m.size > MAX_FILE_BYTES then Err(BadSize)
      else if mime.None? then Err(BadMimeType)
      else if text != t.json(Metadata(m.name, m.size, mime.value)) then Err(BadMetadata)
      else Ok(Metadata(m.name, m.size, mime.value))
  }

  /** The type in lower case, or the usual one if there is none, unless it is long or holds a control. */
  lemma MimeIs(t: Texts, value: Text, mime: Text)
    ensures NormaliseMimeType(t, value) == Some(mime) <==>
      && mime == t.lower(if value == [] then OCTET_STREAM else value)
      && |mime| <= 255 && forall i :: 0 <= i < |mime| ==> mime[i] > 0x1f && mime[i] != 0x7f
  {
  }

  lemma MimeIsFixed(t: Texts, value: Text)
    requires SoundTexts(t)
    ensures NormaliseMimeType(t, value).Some? ==>
      NormaliseMimeType(t, NormaliseMimeType(t, value).value) == NormaliseMimeType(t, value)
  {
    var from := if |value| == 0 then OCTET_STREAM else value;
    assert |OCTET_STREAM| > 0;
    assert from != [] && t.lower(t.lower(from)) == t.lower(from) && |t.lower(from)| > 0;
  }

  /** A description always fits, and is refused only for its type. */
  lemma Describes(t: Texts, name: Text, size: nat, mime: Text)
    requires SoundTexts(t) && size <= MAX_FILE_BYTES
    ensures Describe(t, name, size, mime).Ok? <==> NormaliseMimeType(t, mime).Some?
  {
    SanitisedIsClean(t.nfc, name);
    hide SanitiseFileName;
  }

  /** Metadata as the writer stores it. */
  predicate IsStored(t: Texts, m: Metadata) {
    SanitiseFileName(t.nfc, m.name) == m.name && 0 < m.size <= MAX_FILE_BYTES && NormaliseMimeType(t, m.mime) == Some(m.mime)
  }

  lemma ChecksExactly(t: Texts, text: Text, m: Metadata)
    requires SoundTexts(t)
    ensures CheckMetadata(t, text) == Ok(m) <==> IsStored(t, m) && text == t.json(m)
  {
    var parsed := t.parse(text);
    if parsed.Some? {
      MimeIsFixed(t, parsed.value.mime);
    }
    assert t.parse(t.json(m)) == Some(m);
    hide SanitiseFileName, NormaliseMimeType, Normalises;
  }

  /** The bytes whose text is a metadata's canonical text: its own, and those behind a byte order mark. */
  lemma TextsExactly(t: Texts, bytes: Blob, m: Metadata)
    requires SoundTexts(t)
    ensures ReadText(t, bytes) == Some(t.json(m)) <==>
            bytes == MetadataBytes(t, m) || bytes == BYTE_ORDER_MARK + MetadataBytes(t, m)
  {
    hide Normalises;
    var own := MetadataBytes(t, m);
    assert own[0] == 0x7b && BYTE_ORDER_MARK[0] == 0xef && |BYTE_ORDER_MARK| == 3;
    assert (BYTE_ORDER_MARK + own)[3..] == own;
    if BYTE_ORDER_MARK <= bytes {
      assert bytes == BYTE_ORDER_MARK + bytes[3..];
      assert bytes[0] == BYTE_ORDER_MARK[0];
    }
  }

  /** The bytes pass as this metadata. */
  predicate PassesAs(t: Texts, bytes: Blob, m: Metadata) {
    ReadText(t, bytes).Some? && CheckMetadata(t, ReadText(t, bytes).value) == Ok(m)
  }

  lemma PassesExactly(t: Texts, bytes: Blob, m: Metadata)
    requires SoundTexts(t)
    ensures PassesAs(t, bytes, m) <==>
            IsStored(t, m) && (bytes == MetadataBytes(t, m) || bytes == BYTE_ORDER_MARK + MetadataBytes(t, m))
  {
    TextsExactly(t, bytes, m);
    var text := ReadText(t, bytes);
    if text.Some? {
      ChecksExactly(t, text.value, m);
    }
    hide IsStored, CheckMetadata, ReadText, SoundTexts, MetadataBytes;
  }

  lemma ParsesWhen(t: Texts, plaintext: Blob, m: Metadata, end: nat)
    ensures ParseMetadata(t, plaintext) == Ok((m, end)) <==>
      && 4 <= end <= |plaintext| && 2 <= end - 4 <= 4096 && ReadU32(plaintext, 0) == end - 4
      && PassesAs(t, plaintext[4..end], m)
  {
    hide CheckMetadata, ReadText, ReadU32;
  }

  /**
   The canonical check is on the decoded text, and the decoder drops a byte order mark. So stored metadata has exactly
   two spellings in bytes that are accepted: the writer's, and the same behind a mark.
   */
  lemma MetadataSpellings(t: Texts, plaintext: Blob, m: Metadata, end: nat)
    requires SoundTexts(t)
    ensures ParseMetadata(t, plaintext) == Ok((m, end)) <==>
      && IsStored(t, m) && 4 <= end <= |plaintext| && end - 4 <= 4096 && ReadU32(plaintext, 0) == end - 4
      && (plaintext[4..end] == MetadataBytes(t, m) || plaintext[4..end] == BYTE_ORDER_MARK + MetadataBytes(t, m))
  {
    hide *;
    ParsesWhen(t, plaintext, m, end);
    ShortestMetadata(t, m);
    if 4 <= end <= |plaintext| {
      PassesExactly(t, plaintext[4..end], m);
    }
  }

  lemma ShortestMetadata(t: Texts, m: Metadata)
    requires SoundTexts(t)
    ensures |MetadataBytes(t, m)| >= 2 && |BYTE_ORDER_MARK + MetadataBytes(t, m)| >= 2
  {
  }

  lemma StoredBytes(t: Texts, m: Metadata, rest: Blob)
    requires |MetadataBytes(t, m)| <= MAX_METADATA_BYTES
    ensures var plaintext := Prefix(t, m) + rest;
      && |Prefix(t, m)| == 4 + |MetadataBytes(t, m)| && ReadU32(plaintext, 0) == |MetadataBytes(t, m)|
      && plaintext[4..|Prefix(t, m)|] == MetadataBytes(t, m)
  {
    var bytes := MetadataBytes(t, m);
    var plaintext := Prefix(t, m) + rest;
    hide U32, ReadU32, MetadataBytes;
    assert plaintext[0..4] == U32(|bytes|);
    ReadsU32(plaintext, 0, |bytes|);
  }

  lemma DescribedIsStored(t: Texts, name: Text, size: nat, mime: Text)
    requires SoundTexts(t) && size <= MAX_FILE_BYTES && Describe(t, name, size, mime).Ok?
    ensures
      var m := Describe(t, name, size, mime).value;
      && |MetadataBytes(t, m)| <= MAX_METADATA_BYTES && m.size == size
      && (size > 0 ==> IsStored(t, m)) && (size == 0 ==> CheckMetadata(t, t.json(m)) == Err(BadSize))
  {
    FixedPoints(t.nfc, name);
    MimeIsFixed(t, mime);
    var m := Describe(t, name, size, mime).value;
    assert t.parse(t.json(m)) == Some(m);
    hide SanitiseFileName, NormaliseMimeType, Normalises, MetadataBytes;
  }

  /** The reader's fixed-point checks accept every description the writer makes, unless the file is empty. */
  lemma DescriptionsParse(t: Texts, name: Text, size: nat, mime: Text, rest: Blob)
    requires SoundTexts(t) && size <= MAX_FILE_BYTES && Describe(t, name, size, mime).Ok?
    requires |MetadataBytes(t, Describe(t, name, size, mime).value)| <= MAX_METADATA_BYTES
    ensures
      var m := Describe(t, name, size, mime).value;
      ParseMetadata(t, Prefix(t, m) + rest) == if size == 0 then Err(BadSize) else Ok((m, |Prefix(t, m)|))
  {
    var m := Describe(t, name, size, mime).value;
    DescribedIsStored(t, name, size, mime);
    StoredBytes(t, m, rest);
    ShortestMetadata(t, m);
    if size > 0 {
      hide *;
      MetadataSpellings(t, Prefix(t, m) + rest, m, |Prefix(t, m)|);
    } else {
      TextsExactly(t, MetadataBytes(t, m), m);
      hide CheckMetadata, ReadText, SoundTexts, ReadU32, U32, Prefix, MetadataBytes, Describe;
    }
  }

  // ---------------------------------------------------------------- records

  /** "FSWNENC2", "FSWNENC1", "WBLMENC1" */
  const MAGIC_V2: Blob := [0x46, 0x53, 0x57, 0x4e, 0x45, 0x4e, 0x43, 0x32]
  const MAGIC: Blob := [0x46, 0x53, 0x57, 0x4e, 0x45, 0x4e, 0x43, 0x31]
  const MAGIC_LEGACY: Blob := [0x57, 0x42, 0x4c, 0x4d, 0x45, 0x4e, 0x43, 0x31]

  function Nonce(prefix: Blob, counter: nat): Blob
    requires counter < TWO_32
  {
    prefix + U32(counter)
  }

  function AdditionalData(header: Blob, counter: nat): Blob
    requires counter < TWO_32
  {
    header + U32(counter)
  }

  /** Twelve bytes for record `k`: the envelope's own eight, then the record's number, big-endian. */
  predicate IsNonce(n: Blob, prefix: Blob, k: nat) {
    |n| == 12 && n[..8] == prefix && ReadU32(n, 8) == k
  }

  /** What record `k` is bound to: the header and the record's number. */
  predicate IsBinding(d: Blob, header: Blob, k: nat) {
    |d| == |header| + 4 && d[..|header|] == header && ReadU32(d, |header|) == k
  }

  lemma NonceIs(n: Blob, prefix: Blob, k: nat)
    requires |prefix| == 8 && k < TWO_32
    ensures IsNonce(n, prefix, k) <==> n == Nonce(prefix, k)
  {
    NumberedIs(n, prefix, k);
    hide U32, ReadU32;
  }

  lemma BindingIs(d: Blob, header: Blob, k: nat)
    requires k < TWO_32
    ensures IsBinding(d, header, k) <==> d == AdditionalData(header, k)
  {
    NumberedIs(d, header, k);
    hide U32, ReadU32;
  }

  /** Some bytes and a number. */
  lemma NumberedIs(bytes: Blob, front: Blob, k: nat)
    requires k < TWO_32
    ensures |bytes| == |front| + 4 && bytes[..|front|] == front && ReadU32(bytes, |front|) == k <==> bytes == front + U32(k)
  {
    hide U32, ReadU32;
    if |bytes| == |front| + 4 {
      ReadsU32(bytes, |front|, k);
      assert bytes == bytes[..|front|] + bytes[|front|..|front| + 4];
    }
  }

  function HeaderV2(records: nat, noncePrefix: Blob, salt: Blob): Blob
    requires records < TWO_32
  {
    MAGIC_V2 + U32(CHUNK_BYTES) + U32(records) + noncePrefix + salt
  }

  /** Record `k` of a plaintext. */
  function Chunk(plaintext: Blob, k: nat): Blob
    requires k * CHUNK_BYTES <= |plaintext|
  {
    plaintext[k * CHUNK_BYTES..RecordEnd(|plaintext|, k)]
  }

  function SealRecord(c: Crypto, key: Blob, header: Blob, noncePrefix: Blob, counter: nat, chunk: Blob): Blob
    requires counter < TWO_32
  {
    c.seal(key, Nonce(noncePrefix, counter), AdditionalData(header, counter), chunk)
  }

  /** The first `n` records, one after another. */
  function SealedRecords(c: Crypto, key: Blob, header: Blob, noncePrefix: Blob, plaintext: Blob, n: nat): Blob
    requires n <= RecordCount(|plaintext|) < TWO_32
  {
    if n == 0 then []
    else
      SealedRecords(c, key, header, noncePrefix, plaintext, n - 1)
      + SealRecord(c, key, header, noncePrefix, n - 1, Chunk(plaintext, n - 1))
  }

  /** The whole envelope of a plaintext. */
  function EnvelopeOf(c: Crypto, key: Blob, noncePrefix: Blob, salt: Blob, plaintext: Blob): Blob
    requires RecordCount(|plaintext|) < TWO_32
  {
    var header := HeaderV2(RecordCount(|plaintext|), noncePrefix, salt);
    header + SealedRecords(c, c.derive(key, salt), header, noncePrefix, plaintext, RecordCount(|plaintext|))
  }

  /** The record between these offsets of an envelope. */
  function CipherStart(header: nat, k: nat): nat {
    header + k * (CHUNK_BYTES + TAG_BYTES)
  }

  function CipherEnd(header: nat, k: nat, records: nat, size: nat): nat {
    if k + 1 == records then size else CipherStart(header, k) + CHUNK_BYTES + TAG_BYTES
  }

  // ---------------------------------------------------------------- the header

  datatype Header = Header(bytes: Blob, records: nat, noncePrefix: Blob, salt: Option<Blob>)

  function ParseHeader(file: Blob): Result<Header, EnvelopeError> {
    var magic := if |file| < 8 then file else file[..8];
    var isV2 := magic == MAGIC_V2;
    if !isV2 && magic != MAGIC && magic != MAGIC_LEGACY then Err(NotEnvelope)
    else
      var length := if isV2 then HEADER_BYTES_V2 else HEADER_BYTES;
      if |file| < length then Err(NotEnvelope)
      else
        var header := file[..length];
        var records := ReadU32(header, 12);
        if ReadU32(header, 8) != CHUNK_BYTES || records < 1 || records > MAX_RECORDS then Err(BadHeader)
        else if |file| < MinimumSize(length, records) || |file| > MaximumSize(length, records) then Err(BadLength)
        else Ok(Header(header, records, header[16..24], if isV2 then Some(header[24..56]) else None))
  }

  function PlaintextLength(h: Header, file: Blob): int {
    |file| - |h.bytes| - h.records * TAG_BYTES
  }

  function RecordKey(c: Crypto, h: Header, rawKey: Blob): Blob {
    if h.salt.Some? then c.derive(rawKey, h.salt.value) else rawKey
  }

  /** What a header says that passed: every record but the last is full, and the last is not empty. */
  lemma HeaderShape(file: Blob)
    ensures
      var parsed := ParseHeader(file);
      parsed.Ok? ==>
        var h := parsed.value;
        && |h.bytes| <= |file| && 1 <= h.records <= MAX_RECORDS < TWO_32
        && 0 < PlaintextLength(h, file) && RecordCount(PlaintextLength(h, file)) == h.records
        && (forall k :: 0 <= k < h.records ==> CipherStart(|h.bytes|, k) <= CipherEnd(|h.bytes|, k, h.records, |file|) <= |file|)
  {
    hide ReadU32;
  }

  /** Where things stand in a header that passed: the old form is as the new without its salt. */
  lemma HeaderIs(file: Blob)
    ensures
      var parsed := ParseHeader(file);
      parsed.Ok? ==>
        var h := parsed.value;
        var isNew := |file| >= 8 && file[..8] == MAGIC_V2;
        && |h.bytes| == (if isNew then 56 else 24) && h.bytes <= file
        && ReadU32(file, 8) == 0x10_0000 && h.records == ReadU32(file, 12)
        && h.noncePrefix == file[16..24] && h.salt == if isNew then Some(file[24..56]) else None
  {
    hide ReadU32;
    if ParseHeader(file).Ok? {
      var n := |ParseHeader(file).value.bytes|;
      ReadU32Front(file, n, 8);
      ReadU32Front(file, n, 12);
      assert file[..n][16..24] == file[16..24];
      assert n == 56 ==> file[..n][24..56] == file[24..56];
    }
  }

  /**
   Which files have a header that passes: one of the three magic numbers, records of one mebibyte, 1 to 257 of them, and
   a length that leaves at least one byte, and at most all, for the last.
   */
  lemma HeaderPasses(file: Blob)
    ensures ParseHeader(file).Ok? <==>
      && |file| >= 24 && file[..8] in {MAGIC_V2, MAGIC, MAGIC_LEGACY}
      && var header := if file[..8] == MAGIC_V2 then 56 else 24;
      && |file| >= header && ReadU32(file, 8) == 0x10_0000 && 1 <= ReadU32(file, 12) <= 257
      && header + (ReadU32(file, 12) - 1) * 1_048_592 + 17 <= |file| <= header + ReadU32(file, 12) * 1_048_592
  {
    hide ReadU32;
    if |file| >= 24 {
      var n := if file[..8] == MAGIC_V2 then 56 else 24;
      if |file| >= n {
        ReadU32Front(file, n, 8);
        ReadU32Front(file, n, 12);
      }
    }
  }

  lemma ReadU32Front(file: Blob, n: nat, at: nat)
    requires at + 4 <= n <= |file|
    ensures ReadU32(file[..n], at) == ReadU32(file, at)
  {
  }

  /** An envelope's header is read back, whatever its nonce prefix and salt. */
  lemma HeaderReads(file: Blob, records: nat, noncePrefix: Blob, salt: Blob)
    requires |noncePrefix| == 8 && |salt| == 32 && 1 <= records <= MAX_RECORDS
    requires HEADER_BYTES_V2 <= |file| && file[..HEADER_BYTES_V2] == HeaderV2(records, noncePrefix, salt)
    requires MinimumSize(HEADER_BYTES_V2, records) <= |file| <= MaximumSize(HEADER_BYTES_V2, records)
    ensures ParseHeader(file) == Ok(Header(HeaderV2(records, noncePrefix, salt), records, noncePrefix, Some(salt)))
  {
    var header := file[..HEADER_BYTES_V2];
    HeaderParts(header, records, noncePrefix, salt);
    assert file[..8] == header[..8];
    hide ReadU32, U32;
  }

  lemma HeaderParts(header: Blob, records: nat, noncePrefix: Blob, salt: Blob)
    requires |noncePrefix| == 8 && |salt| == 32 && records <= MAX_RECORDS && header == HeaderV2(records, noncePrefix, salt)
    ensures |header| == HEADER_BYTES_V2 && header[..8] == MAGIC_V2
    ensures ReadU32(header, 8) == CHUNK_BYTES && ReadU32(header, 12) == records
    ensures header[16..24] == noncePrefix && header[24..56] == salt
  {
    hide ReadU32, U32;
    assert header[8..12] == U32(CHUNK_BYTES) && header[12..16] == U32(records);
    ReadsU32(header, 8, CHUNK_BYTES);
    ReadsU32(header, 12, records);
  }
}
