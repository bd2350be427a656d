/** A receiver's sink that holds the envelope in memory and opens it at the end. */
module MemorySink {
  import opened Wrappers
  import opened Bytes
  import opened FileNames
  import opened Envelope
  import opened EnvelopeWriter
  import opened EnvelopeReader
  import opened EnvelopeRoundTrip
  import opened EnvelopeSizes
  import opened Transfer

  /** What the sender said it would send. */
  datatype Announced = Announced(name: Text, size: nat, mime: Text)

  function Joined(parts: seq<Blob>): Blob {
    if |parts| == 0 then [] else Joined(parts[..|parts| - 1]) + parts[|parts| - 1]
  }

  /** The envelope opens to the file announced, of the size and digest that END gives. */
  ghost predicate Verified(c: Crypto, t: Texts, envelope: Blob, key: Blob, announced: Announced, sha256: Blob, size: nat, file: Opened) {
    && Accepts(c, t, envelope, key, file)
    && announced == Announced(file.name, |file.bytes|, file.mime)
    && |file.bytes| == size && c.sha256(file.bytes) == sha256
  }

  ghost predicate Verifies(c: Crypto, t: Texts, envelope: Blob, key: Blob, announced: Announced, sha256: Blob, size: nat) {
    exists file :: Verified(c, t, envelope, key, announced, sha256, size, file)
  }

  class Sink {
    const crypto: Crypto
    const texts: Texts
    const key: Blob
    const announced: Announced
    const envelopeBytes: nat
    var parts: Option<seq<Blob>>
    var held: nat
    var file: Option<Opened>

    ghost predicate Valid()
      reads this
    {
      && Sound(crypto) && held <= envelopeBytes
      && (parts.Some? ==> held == |Joined(parts.value)| && file.None?)
    }

    ghost function Contents(): Blob
      reads this
    {
      if parts.Some? then Joined(parts.value) else []
    }

    /** The sink is open, holds the whole envelope, and there is a file in it that verifies. */
    ghost predicate Passes(open: bool, contents: Blob, sha256: Blob, size: nat)
    {
      open && |contents| == envelopeBytes && Verifies(crypto, texts, contents, key, announced, sha256, size)
    }

    constructor (c: Crypto, t: Texts, key: Blob, announced: Announced, envelopeBytes: nat)
      requires Sound(c)
      ensures Valid() && parts.Some? && Contents() == [] && file.None?
      ensures crypto == c && texts == t && this.key == key && this.announced == announced && this.envelopeBytes == envelopeBytes
    {
      crypto, texts, this.key, this.announced, this.envelopeBytes := c, t, key, announced, envelopeBytes;
      parts, held, file := Some([]), 0, None;
    }

    method Write(bytes: Blob) returns (outcome: Outcome)
      requires Valid()
      modifies this
      ensures Valid() && file == old(file) && parts.Some? == old(parts.Some?)
      ensures outcome == Done <==> old(parts.Some?) && |old(Contents())| + |bytes| <= envelopeBytes
      ensures Contents() == if outcome == Done then old(Contents()) + bytes else old(Contents())
    {
      if parts.None? || held + |bytes| > envelopeBytes {
        return Refused;
      }
      ghost var before := parts.value;
      parts := Some(parts.value + [bytes]);
      assert parts.value[..|before|] == before;
      held := held + |bytes|;
      outcome := Done;
    }

    /** Opens what is held and checks it. Only then is there a file. */
    method Finish(sha256: Blob, size: nat) returns (outcome: Outcome)
      requires Valid()
      modifies this
      ensures Valid()
      ensures outcome == Done ==>
        file.Some? && Verified(crypto, texts, old(Contents()), key, announced, sha256, size, file.value)
      ensures outcome == Done <==> Passes(old(parts.Some?), old(Contents()), sha256, size)
      ensures outcome != Done ==> file == old(file)
      ensures parts == if old(parts.Some?) && |old(Contents())| == envelopeBytes then None else old(parts)
    {
      hide Verified, Verifies, Sound, Joined;
      if parts.None? || held != envelopeBytes {
        return Refused;
      }
      var envelope := JoinParts(parts.value);
      parts := None;
      var found := OpenVerified(crypto, texts, envelope, key, announced, sha256, size);
      if found.None? {
        return Refused;
      }
      file := found;
      outcome := Done;
    }

    method Abort()
      requires Valid()
      modifies this
      ensures Valid() && parts.None? && file.None?
    {
      parts := None;
      file := None;
    }
  }

  /** Opens the envelope and checks the file against what was announced and what END gave. */
  method OpenVerified(c: Crypto, t: Texts, envelope: Blob, key: Blob, announced: Announced, sha256: Blob, size: nat)
    returns (found: Option<Opened>)
    requires Sound(c)
    ensures found.Some? ==> Verified(c, t, envelope, key, announced, sha256, size, found.value)
    ensures found.Some? <==> Verifies(c, t, envelope, key, announced, sha256, size)
  {
    hide Accepts, Sound;
    var content := DecryptPrivacyEnvelope(c, t, envelope, key);
    if content.Err? {
      return None;
    }
    var file := content.value;
    if file.name != announced.name || file.mime != announced.mime || |file.bytes| != announced.size {
      return None;
    }
    if |file.bytes| != size {
      return None;
    }
    if c.sha256(file.bytes) != sha256 {
      return None;
    }
    found := Some(file);
  }

  method JoinParts(parts: seq<Blob>) returns (blob: Blob)
    ensures blob == Joined(parts)
  {
    blob := [];
    for i := 0 to |parts|
      invariant blob == Joined(parts[..i])
    {
      assert parts[..i + 1][..i] == parts[..i];
      blob := blob + parts[i];
    }
    assert parts[..|parts|] == parts;
  }

  /**
   A whole honest envelope passes, for one file: the source under its cleaned name and normalised type. So what a
   receiver keeps when its sender has heard KEPT is the source.
   */
  lemma HonestEnvelopePasses(c: Crypto, t: Texts, envelope: Blob, source: Blob, name: Text, mime: Text, padding: Blob,
                             key: Blob, noncePrefix: Blob, salt: Blob, announced: Announced, found: Opened)
    requires Sound(c) && SoundTexts(t) && |noncePrefix| == 8 && |salt| == 32
    requires 0 < |source| <= MAX_FILE_BYTES && Describe(t, name, |source|, mime).Ok?
    requires IsEnvelope(c, t, envelope, Describe(t, name, |source|, mime).value, source, padding, key, noncePrefix, salt)
    requires var m := Describe(t, name, |source|, mime).value; announced == Announced(m.name, m.size, m.mime)
    ensures |envelope| == EnvelopeBytes(|Prefix(t, Describe(t, name, |source|, mime).value)|, |source|)
    ensures Verified(c, t, envelope, key, announced, c.sha256(source), |source|, found) <==>
              found == Opened(SanitiseFileName(t.nfc, name), NormaliseMimeType(t, mime).value, source)
  {
    DescribedAs(t, name, |source|, mime);
    RoundTrip(c, t, envelope, source, name, mime, padding, key, noncePrefix, salt, found);
    EnvelopeLength(c, t, envelope, Describe(t, name, |source|, mime).value, source, padding, key, noncePrefix, salt);
    hide Accepts, SanitiseFileName, NormaliseMimeType, Describe, IsEnvelope, Sound, SoundTexts;
  }
}
