/** An encrypted file on a pool of nodes: what the encoder makes can be pooled, and what is fetched opens to the file. */
module StoredEnvelope {
  import opened Wrappers
  import opened Bytes
  import opened FileNames
  import opened EnvelopeSizes
  import opened Envelope
  import opened EnvelopeWriter
  import opened EnvelopeReader
  import opened EnvelopeRoundTrip
  import opened Tables
  import opened Generator
  import opened ErasureCode
  import PoolLayout
  import Pool
  import PoolPlacement
  import PoolRecovery

  /** An envelope passes every check the pool makes on what it is to store, so only the nodes and the layout can be wrong. */
  lemma EnvelopesCanBePooled(c: Crypto, t: Texts, envelope: Blob, metadata: Metadata, source: Blob, padding: Blob,
                             rawKey: Blob, noncePrefix: Blob, salt: Blob,
                             mode: PoolLayout.Mode, nodes: seq<PoolLayout.PoolNode>, required: nat, total: nat, copies: nat)
    requires Sound(c) && |noncePrefix| == 8 && |salt| == 32
    requires IsEnvelope(c, t, envelope, metadata, source, padding, rawKey, noncePrefix, salt)
    ensures Pool.CanPrepare(envelope, mode, nodes, required, total, copies) <==>
      && PoolLayout.ValidNodes(nodes)
      && (if mode == PoolLayout.Erasure then CodingBounds(required, total) && |PoolLayout.Groups(nodes)| >= total
          else 2 <= copies <= 3 && |PoolLayout.Groups(nodes)| >= copies)
  {
    hide *;
    LimitsAgree();
    EnvelopeOpens(c, t, envelope, metadata, source, padding, rawKey, noncePrefix, salt);
    StartsWithMagic(c, t, envelope, metadata, source, padding, rawKey, noncePrefix, salt);
    CanPrepareIf(envelope, mode, nodes, required, total, copies);
  }

  lemma StartsWithMagic(c: Crypto, t: Texts, envelope: Blob, metadata: Metadata, source: Blob, padding: Blob,
                        rawKey: Blob, noncePrefix: Blob, salt: Blob)
    requires |noncePrefix| == 8 && |salt| == 32
    requires IsEnvelope(c, t, envelope, metadata, source, padding, rawKey, noncePrefix, salt)
    ensures |envelope| >= HEADER_BYTES_V2 && Slice(envelope, 0, 8) == Pool.MAGIC
  {
    hide *;
    EnvelopeParts(c, t, envelope, metadata, source, padding, rawKey, noncePrefix, salt);
    TextNotEmpty(c, t, envelope, metadata, source, padding, rawKey, noncePrefix, salt);
    MagicFirst(envelope, RecordCount(|Prefix(t, metadata) + source + padding|), noncePrefix, salt);
  }

  lemma MagicFirst(envelope: Blob, records: nat, noncePrefix: Blob, salt: Blob)
    requires records <= MAX_RECORDS && |noncePrefix| == 8 && |salt| == 32 && HeaderV2(records, noncePrefix, salt) <= envelope
    ensures |envelope| >= HEADER_BYTES_V2 && Slice(envelope, 0, 8) == Pool.MAGIC
  {
    HeaderParts(HeaderV2(records, noncePrefix, salt), records, noncePrefix, salt);
    hide HeaderV2;
    assert envelope[..8] == HeaderV2(records, noncePrefix, salt)[..8];
  }

  /** The largest envelope the pool takes is the largest there may be. */
  lemma LimitsAgree()
    ensures PoolLayout.MAX_TRANSFER_BYTES == MAX_TRANSFER_BYTES == 258 * 1024 * 1024
  {
  }

  lemma CanPrepareIf(envelope: Blob, mode: PoolLayout.Mode, nodes: seq<PoolLayout.PoolNode>, required: nat, total: nat, copies: nat)
    requires HEADER_BYTES_V2 <= |envelope| <= MAX_TRANSFER_BYTES && Slice(envelope, 0, 8) == Pool.MAGIC
    ensures Pool.CanPrepare(envelope, mode, nodes, required, total, copies) <==>
      && PoolLayout.ValidNodes(nodes)
      && (if mode == PoolLayout.Erasure then CodingBounds(required, total) && |PoolLayout.Groups(nodes)| >= total
          else 2 <= copies <= 3 && |PoolLayout.Groups(nodes)| >= copies)
  {
    hide PoolLayout.ValidNodes, PoolLayout.Groups;
  }

  /**
   The whole way back: a file was encrypted and its envelope pooled, and enough parts are still served. Fetching and
   opening give the file's bytes under its cleaned name and normalised type, whatever else the nodes serve.
   */
  method FetchAndOpen(c: Crypto, t: Texts, tables: CodingTables, net: Pool.Network, m: PoolLayout.Manifest, rawKey: Blob,
                      ghost source: Blob, ghost name: Text, ghost mime: Text, ghost padding: Blob, ghost noncePrefix: Blob,
                      ghost salt: Blob, ghost envelope: Blob, ghost files: seq<Blob>)
    returns (found: Option<Opened>)
    requires Sound(c) && SoundTexts(t) && tables.Filled() && |noncePrefix| == 8 && |salt| == 32
    requires 0 < |source| <= MAX_FILE_BYTES && Describe(t, name, |source|, mime).Ok?
    requires IsEnvelope(c, t, envelope, Describe(t, name, |source|, mime).value, source, padding, rawKey, noncePrefix, salt)
    requires PoolPlacement.IsPool(m, envelope, files) && Pool.CountAvailable(net.served, m.parts) >= m.required
    ensures NormaliseMimeType(t, mime).Some?
    ensures found == Some(Opened(SanitiseFileName(t.nfc, name), NormaliseMimeType(t, mime).value, source))
  {
    hide *;
    DescribedAs(t, name, |source|, mime);
    var fetched := PoolRecovery.FetchPool(tables, net, m);
    ghost var content := Opened(SanitiseFileName(t.nfc, name), NormaliseMimeType(t, mime).value, source);
    RoundTrip(c, t, envelope, source, name, mime, padding, rawKey, noncePrefix, salt, content);
    var file := DecryptPrivacyEnvelope(c, t, fetched.value, rawKey);
    found := Some(file.value);
  }
}
