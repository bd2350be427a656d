/** Opening an envelope, and why what was encrypted comes back. */
module EnvelopeReader {
  import opened Wrappers
  import opened Bytes
  import opened Buffers
  import opened FileNames
  import opened EnvelopeSizes
  import opened Envelope

  datatype Opened = Opened(name: Text, mime: Text, bytes: Blob)

  /** Record `k` of the file opens to this text. */
  ghost predicate RecordOpens(c: Crypto, h: Header, key: Blob, file: Blob, k: nat, chunk: Blob) {
    && k < h.records < TWO_32 && CipherStart(|h.bytes|, k) <= CipherEnd(|h.bytes|, k, h.records, |file|) <= |file|
    && c.open(key, Nonce(h.noncePrefix, k), AdditionalData(h.bytes, k),
              file[CipherStart(|h.bytes|, k)..CipherEnd(|h.bytes|, k, h.records, |file|)]) == Some(chunk)
  }

  /** Every record of the file opens, to the text's records. */
  ghost predicate Opens(c: Crypto, h: Header, key: Blob, file: Blob, plaintext: Blob) {
    && |plaintext| == PlaintextLength(h, file)
    && forall k :: 0 <= k < h.records ==> k * CHUNK_BYTES <= |plaintext| && RecordOpens(c, h, key, file, k, Chunk(plaintext, k))
  }

  /** The text starts with metadata, is padded as the metadata says, and carries this file. */
  ghost predicate Carries(t: Texts, plaintext: Blob, content: Opened) {
    exists m, prefix :: CarriesAs(t, plaintext, content, m, prefix)
  }

  ghost predicate CarriesAs(t: Texts, plaintext: Blob, content: Opened, m: Metadata, prefix: nat) {
    && ParseMetadata(t, Chunk(plaintext, 0)) == Ok((m, prefix))
    && PaddedPlaintextLength(prefix + m.size) == |plaintext| && prefix + m.size <= |plaintext|
    && content == Opened(m.name, m.mime, plaintext[prefix..prefix + m.size])
  }

  /** What the reader accepts, and as what. */
  ghost predicate Accepts(c: Crypto, t: Texts, file: Blob, rawKey: Blob, content: Opened) {
    && 0 < |file| <= MAX_TRANSFER_BYTES && ParseHeader(file).Ok?
    && exists plaintext :: OpensAs(c, t, file, rawKey, content, plaintext)
  }

  ghost predicate OpensAs(c: Crypto, t: Texts, file: Blob, rawKey: Blob, content: Opened, plaintext: Blob)
    requires ParseHeader(file).Ok?
  {
    var h := ParseHeader(file).value;
    Opens(c, h, RecordKey(c, h, rawKey), file, plaintext) && Carries(t, plaintext, content)
  }

  // ---------------------------------------------------------------- one text at most

  lemma SameByte(a: Blob, b: Blob, i: nat)
    requires |a| == |b| && i < |a|
    requires forall k :: 0 <= k < RecordCount(|a|) ==> k * CHUNK_BYTES <= |a| && Chunk(a, k) == Chunk(b, k)
    ensures a[i] == b[i]
  {
    var k := i / CHUNK_BYTES;
    var at := i - k * CHUNK_BYTES;
    assert k < RecordCount(|a|) && k * CHUNK_BYTES <= |a|;
    assert Chunk(a, k)[at] == Chunk(b, k)[at];
  }

  /** A file opens to at most one text. */
  lemma OneText(c: Crypto, h: Header, key: Blob, file: Blob, a: Blob, b: Blob)
    requires Opens(c, h, key, file, a) && Opens(c, h, key, file, b) && RecordCount(|a|) == h.records
    ensures a == b
  {
    forall k | 0 <= k < RecordCount(|a|)
      ensures k * CHUNK_BYTES <= |a| && Chunk(a, k) == Chunk(b, k)
    {
      assert RecordOpens(c, h, key, file, k, Chunk(a, k)) && RecordOpens(c, h, key, file, k, Chunk(b, k));
    }
    forall i | 0 <= i < |a|
      ensures a[i] == b[i]
    {
      SameByte(a, b, i);
    }
  }

  /** Two ways of accepting a file agree. */
  lemma OneReading(c: Crypto, t: Texts, file: Blob, rawKey: Blob, a: Opened, b: Opened)
    requires Accepts(c, t, file, rawKey, a) && Accepts(c, t, file, rawKey, b)
    ensures a == b
  {
    HeaderShape(file);
    hide ParseHeader, ParseMetadata, PaddedPlaintextLength, PlaintextLength, RecordOpens, RecordCount;
    var h := ParseHeader(file).value;
    var p :| OpensAs(c, t, file, rawKey, a, p);
    var q :| OpensAs(c, t, file, rawKey, b, q);
    OneText(c, h, RecordKey(c, h, rawKey), file, p, q);
  }

  /** A record that does not open, or opens to something else, rules a reading out. */
  lemma RecordDecides(c: Crypto, t: Texts, file: Blob, rawKey: Blob, content: Opened, k: nat)
    requires ParseHeader(file).Ok? && k < ParseHeader(file).value.records && Accepts(c, t, file, rawKey, content)
    ensures
      var h := ParseHeader(file).value;
      exists chunk :: RecordOpens(c, h, RecordKey(c, h, rawKey), file, k, chunk) && (k == 0 ==> FirstRecord(t, h, file, chunk))
  {
    var p :| OpensAs(c, t, file, rawKey, content, p);
    hide *;
    TextDecides(c, t, file, rawKey, content, p, k);
  }

  lemma TextDecides(c: Crypto, t: Texts, file: Blob, rawKey: Blob, content: Opened, p: Blob, k: nat)
    requires ParseHeader(file).Ok? && k < ParseHeader(file).value.records && OpensAs(c, t, file, rawKey, content, p)
    ensures
      var h := ParseHeader(file).value;
      && k * CHUNK_BYTES <= |p| && RecordOpens(c, h, RecordKey(c, h, rawKey), file, k, Chunk(p, k))
      && (k == 0 ==> FirstRecord(t, h, file, Chunk(p, k)))
  {
    hide ParseHeader, ParseMetadata, PaddedPlaintextLength, Chunk, RecordOpens, PlaintextLength, RecordKey;
    var m, prefix :| CarriesAs(t, p, content, m, prefix);
  }

  /** The first record's metadata agree with the length of the file. */
  predicate FirstRecord(t: Texts, h: Header, file: Blob, chunk: Blob) {
    var parsed := ParseMetadata(t, chunk);
    parsed.Ok? && PaddedPlaintextLength(parsed.value.1 + parsed.value.0.size) == PlaintextLength(h, file)
  }

  // ---------------------------------------------------------------- the reader

  /** The records read so far open to this text. */
  ghost predicate OpensTo(c: Crypto, h: Header, key: Blob, file: Blob, text: Blob, n: nat) {
    && n <= h.records && |text| == Min(n * CHUNK_BYTES, PlaintextLength(h, file))
    && forall k :: 0 <= k < n ==> k * CHUNK_BYTES <= |text| && RecordOpens(c, h, key, file, k, Chunk(text, k))
  }

  lemma OpensNext(c: Crypto, h: Header, key: Blob, file: Blob, text: Blob, n: nat, chunk: Blob)
    requires Sound(c) && OpensTo(c, h, key, file, text, n) && RecordOpens(c, h, key, file, n, chunk)
    requires 0 < PlaintextLength(h, file) && RecordCount(PlaintextLength(h, file)) == h.records
    ensures OpensTo(c, h, key, file, text + chunk, n + 1)
    ensures |text| == n * CHUNK_BYTES && |chunk| == RecordEnd(PlaintextLength(h, file), n) - n * CHUNK_BYTES
  {
    RecordLength(c, h, key, file, n, chunk);
    hide PlaintextLength, RecordCount, CipherStart, CipherEnd, Sound;
    var next := text + chunk;
    forall k | 0 <= k < n + 1
      ensures k * CHUNK_BYTES <= |next| && RecordOpens(c, h, key, file, k, Chunk(next, k))
    {
      ChunkNext(text, chunk, n, k);
    }
  }

  lemma ChunkNext(text: Blob, chunk: Blob, n: nat, k: nat)
    requires |text| == n * CHUNK_BYTES && |chunk| <= CHUNK_BYTES && k <= n
    ensures k * CHUNK_BYTES <= |text + chunk| && (k < n ==> k * CHUNK_BYTES <= |text|)
    ensures Chunk(text + chunk, k) == if k < n then Chunk(text, k) else chunk
  {
  }

  lemma RecordLength(c: Crypto, h: Header, key: Blob, file: Blob, n: nat, chunk: Blob)
    requires Sound(c) && RecordOpens(c, h, key, file, n, chunk)
    requires 0 < PlaintextLength(h, file) && RecordCount(PlaintextLength(h, file)) == h.records
    ensures n * CHUNK_BYTES < PlaintextLength(h, file)
    ensures |chunk| == RecordEnd(PlaintextLength(h, file), n) - n * CHUNK_BYTES
  {
  }

  /**
   Opens an envelope. It succeeds on exactly the files the predicate accepts; the last check, that the declared file
   was there, never fails once the padding check has passed.
   */
  method DecryptPrivacyEnvelope(c: Crypto, t: Texts, file: Blob, rawKey: Blob) returns (result: Result<Opened, EnvelopeError>)
    requires Sound(c)
    ensures result.Ok? ==> Accepts(c, t, file, rawKey, result.value)
    ensures forall content :: Accepts(c, t, file, rawKey, content) ==> result == Ok(content)
    ensures result.Err? ==> result.error != Incomplete
  {
    hide ParseHeader, ParseMetadata, PaddedPlaintextLength, Opens, Carries, Sound, OpensAs;
    if |file| == 0 || |file| > MAX_TRANSFER_BYTES {
      return Err(BadSize);
    }
    var parsedHeader := ParseHeader(file);
    if parsedHeader.Err? {
      HeaderErrors(file);
      return Err(parsedHeader.error);
    }
    result := DecryptRecords(c, t, file, rawKey, parsedHeader.value);
  }

  lemma HeaderErrors(file: Blob)
    ensures ParseHeader(file).Err? ==> ParseHeader(file).error != Incomplete
  {
    hide ReadU32;
  }

  method DecryptRecords(c: Crypto, t: Texts, file: Blob, rawKey: Blob, h: Header) returns (result: Result<Opened, EnvelopeError>)
    requires Sound(c) && 0 < |file| <= MAX_TRANSFER_BYTES && ParseHeader(file) == Ok(h)
    ensures result.Ok? ==> Accepts(c, t, file, rawKey, result.value)
    ensures forall content :: Accepts(c, t, file, rawKey, content) ==> result == Ok(content)
    ensures result.Err? ==> result.error != Incomplete
  {
    HeaderShape(file);
    hide ParseHeader, ParseMetadata, PaddedPlaintextLength, Opens, Carries, Sound, OpensAs, Accepts, OpensTo, RecordOpens, CipherStart, CipherEnd;
    var key := RecordKey(c, h, rawKey);
    var plaintextLength := PlaintextLength(h, file);
    var metadata := Metadata([], 0, []);
    var prefixLength: nat := 0;
    var output: Blob := [];
    ghost var text: Blob := [];
    NothingOpened(c, h, key, file);
    for counter := 0 to h.records
      invariant OpensTo(c, h, key, file, text, counter)
      invariant counter == 0 ==> output == []
      invariant counter > 0 ==> prefixLength <= |text| && prefixLength + metadata.size <= plaintextLength
      invariant counter > 0 ==> output == text[prefixLength..Min(|text|, prefixLength + metadata.size)]
      invariant counter > 0 ==> Described(t, h, file, text, metadata, prefixLength)
    {
      var content := OpenRecord(c, h, key, file, counter);
      if content.None? {
        Undecidable(c, t, file, rawKey, counter, content);
        return Err(CannotOpen);
      }
      ghost var before := text;
      OpensNext(c, h, key, file, text, counter, content.value);
      text := text + content.value;
      if counter == 0 {
        var parsed := ParseMetadata(t, content.value);
        Undecidable(c, t, file, rawKey, counter, content);
        ParsedFits(t, content.value);
        if parsed.Err? {
          return Err(parsed.error);
        }
        metadata, prefixLength := parsed.value.0, parsed.value.1;
        if PaddedPlaintextLength(prefixLength + metadata.size) != plaintextLength {
          return Err(BadPadding);
        }
        PaddingFits(prefixLength + metadata.size);
      }
      DescribedNext(t, h, file, before, content.value, metadata, prefixLength, counter);
      output := CopyOverlap(output, content.value, before, metadata.size, prefixLength, counter);
    }
    EndOfText(c, h, key, file, text);
    if |output| != metadata.size {
      return Err(Incomplete);
    }
    result := Ok(Opened(metadata.name, metadata.mime, output));
    Accepted(c, t, file, rawKey, text, metadata, prefixLength, result.value);
  }

  lemma NothingOpened(c: Crypto, h: Header, key: Blob, file: Blob)
    requires 0 < PlaintextLength(h, file)
    ensures OpensTo(c, h, key, file, [], 0)
  {
  }

  method OpenRecord(c: Crypto, h: Header, key: Blob, file: Blob, k: nat) returns (content: Option<Blob>)
    requires k < h.records < TWO_32 && CipherStart(|h.bytes|, k) <= CipherEnd(|h.bytes|, k, h.records, |file|) <= |file|
    ensures forall chunk :: RecordOpens(c, h, key, file, k, chunk) <==> content == Some(chunk)
  {
    var start := |h.bytes| + k * (CHUNK_BYTES + TAG_BYTES);
    var end := if k == h.records - 1 then |file| else start + CHUNK_BYTES + TAG_BYTES;
    content := c.open(key, Nonce(h.noncePrefix, k), AdditionalData(h.bytes, k), file[start..end]);
  }

  /** No reading survives a record that does not open, or a first record that does not fit. */
  lemma Undecidable(c: Crypto, t: Texts, file: Blob, rawKey: Blob, k: nat, content: Option<Blob>)
    requires ParseHeader(file).Ok? && k < ParseHeader(file).value.records
    requires var h := ParseHeader(file).value;
      forall chunk :: RecordOpens(c, h, RecordKey(c, h, rawKey), file, k, chunk) <==> content == Some(chunk)
    ensures forall o :: Accepts(c, t, file, rawKey, o) ==>
      content.Some? && (k == 0 ==> FirstRecord(t, ParseHeader(file).value, file, content.value))
  {
    forall o | Accepts(c, t, file, rawKey, o)
      ensures content.Some? && (k == 0 ==> FirstRecord(t, ParseHeader(file).value, file, content.value))
    {
      RecordDecides(c, t, file, rawKey, o, k);
    }
  }

  lemma ParsedFits(t: Texts, plaintext: Blob)
    ensures ParseMetadata(t, plaintext).Ok? ==> ParseMetadata(t, plaintext).value.1 <= |plaintext|
    ensures ParseMetadata(t, plaintext).Err? ==> ParseMetadata(t, plaintext).error != Incomplete
  {
    hide ReadU32, SanitiseFileName, NormaliseMimeType;
  }

  /** The metadata found in the first record. */
  ghost predicate Described(t: Texts, h: Header, file: Blob, text: Blob, m: Metadata, prefix: nat) {
    && ParseMetadata(t, Chunk(text, 0)) == Ok((m, prefix))
    && PaddedPlaintextLength(prefix + m.size) == PlaintextLength(h, file)
  }

  lemma DescribedNext(t: Texts, h: Header, file: Blob, before: Blob, chunk: Blob, m: Metadata, prefix: nat, n: nat)
    requires n == 0 ==> before == [] && |chunk| <= CHUNK_BYTES && ParseMetadata(t, chunk) == Ok((m, prefix))
                        && PaddedPlaintextLength(prefix + m.size) == PlaintextLength(h, file)
    requires n > 0 ==> |before| >= CHUNK_BYTES && Described(t, h, file, before, m, prefix)
    ensures Described(t, h, file, before + chunk, m, prefix)
  {
    assert n == 0 ==> Chunk(before + chunk, 0) == chunk;
    assert n > 0 ==> Chunk(before + chunk, 0) == Chunk(before, 0);
  }

  /** Copies what of the record belongs to the file. */
  method CopyOverlap(output: Blob, plaintext: Blob, ghost before: Blob, size: nat, prefixLength: nat, counter: nat)
    returns (copied: Blob)
    requires |before| == counter * CHUNK_BYTES
    requires if counter == 0 then output == [] && prefixLength <= |plaintext|
             else prefixLength <= |before| && output == before[prefixLength..Min(|before|, prefixLength + size)]
    ensures copied == (before + plaintext)[prefixLength..Min(|before + plaintext|, prefixLength + size)]
  {
    var globalStart := counter * CHUNK_BYTES;
    var wantedEnd := prefixLength + size;
    var overlapStart := if globalStart > prefixLength then globalStart else prefixLength;
    var overlapEnd := Min(globalStart + |plaintext|, wantedEnd);
    copied := output;
    if overlapEnd > overlapStart {
      copied := output + plaintext[overlapStart - globalStart..overlapEnd - globalStart];
    }
    if counter > 0 {
      OverlapNext(before, plaintext, prefixLength, wantedEnd);
    }
  }

  /** The wanted part of a longer text: what was there of it, and what comes of it in the next piece. */
  lemma OverlapNext(before: Blob, piece: Blob, start: nat, end: nat)
    requires start <= |before| && start <= end
    ensures
      var upTo := Min(|before| + |piece|, end);
      (before + piece)[start..upTo] == before[start..Min(|before|, end)] + if upTo > |before| then piece[..upTo - |before|] else []
  {
  }

  lemma EndOfText(c: Crypto, h: Header, key: Blob, file: Blob, text: Blob)
    requires OpensTo(c, h, key, file, text, h.records)
    requires 0 < PlaintextLength(h, file) && RecordCount(PlaintextLength(h, file)) == h.records
    ensures |text| == PlaintextLength(h, file)
  {
  }

  lemma Accepted(c: Crypto, t: Texts, file: Blob, rawKey: Blob, text: Blob, m: Metadata, prefix: nat, content: Opened)
    requires 0 < |file| <= MAX_TRANSFER_BYTES && ParseHeader(file).Ok?
    requires var h := ParseHeader(file).value;
      && OpensTo(c, h, RecordKey(c, h, rawKey), file, text, h.records) && |text| == PlaintextLength(h, file)
      && Described(t, h, file, text, m, prefix) && prefix + m.size <= |text|
    requires content == Opened(m.name, m.mime, text[prefix..prefix + m.size])
    ensures Accepts(c, t, file, rawKey, content)
    ensures forall o :: Accepts(c, t, file, rawKey, o) ==> o == content
  {
    hide ParseHeader, ParseMetadata, PaddedPlaintextLength;
    assert CarriesAs(t, text, content, m, prefix);
    assert OpensAs(c, t, file, rawKey, content, text);
    assert Accepts(c, t, file, rawKey, content);
    forall o | Accepts(c, t, file, rawKey, o)
      ensures o == content
    {
      OneReading(c, t, file, rawKey, o, content);
    }
  }
}
