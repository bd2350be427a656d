/** Fetching a pooled payload, how many failures that survives, and repairing or extending a layout. */
module PoolRecovery {
  import opened Wrappers
  import opened Bytes
  import opened Tables
  import opened ErasureCode
  import opened PoolLayout
  import opened PoolPlacement
  import opened Pool

  // ---------------------------------------------------------------- fetching

  method FetchPart(net: Network, part: PoolPart) returns (blob: Option<Blob>)
    ensures blob.Some? <==> IsAvailable(net.served, part)
    ensures blob.Some? ==> |blob.value| == part.size && Sha256(blob.value) == part.sha256
  {
    for i := 0 to |part.targets|
      invariant forall j :: 0 <= j < i ==> !Verifies(net.served, part.targets[j].origin, part)
    {
      blob := net.FetchVerified(part.targets[i].origin, part);
      if blob.Some? {
        return;
      }
    }
    blob := None;
  }

  /** The parts collected so far: in order, each with the bytes the manifest names. */
  ghost predicate Fetched(available: seq<IndexedPart>, m: Manifest, n: nat)
    requires n <= |m.parts|
  {
    && (forall j :: 0 <= j < |available| ==>
          && available[j].index < n
          && Sha256(available[j].blob) == m.parts[available[j].index].sha256
          && |available[j].blob| == m.parts[available[j].index].size)
    && (forall i, j :: 0 <= i < j < |available| ==> available[i].index < available[j].index)
  }

  /** Collects the first `required` parts that some target serves. */
  method FetchParts(net: Network, m: Manifest) returns (available: seq<IndexedPart>)
    requires m.required > 0
    ensures Fetched(available, m, |m.parts|) && |available| <= m.required
    ensures |available| == m.required <==> CountAvailable(net.served, m.parts) >= m.required
  {
    hide IsAvailable, CountAvailable;
    available := [];
    var n := 0;
    EmptyCount(net.served, m.parts);
    while n < |m.parts| && |available| < m.required
      invariant n <= |m.parts| && |available| <= m.required
      invariant Fetched(available, m, n) && |available| == CountAvailable(net.served, m.parts[..n])
    {
      var blob := FetchPart(net, m.parts[n]);
      CountStep(net.served, m.parts, n);
      if blob.Some? {
        available := available + [IndexedPart(n, blob.value)];
      }
      n := n + 1;
    }
    CountGrows(net.served, m.parts, n);
    assert n == |m.parts| ==> m.parts[..n] == m.parts;
  }

  lemma EmptyCount(served: Served, parts: seq<PoolPart>)
    ensures CountAvailable(served, parts[..0]) == 0
  {
  }

  lemma FetchedIndices(available: seq<IndexedPart>, m: Manifest)
    requires ValidManifest(m) && Fetched(available, m, |m.parts|) && |available| == m.required
    ensures m.mode == Erasure ==> WellFormed(available, m.required, m.total, m.payload.size)
  {
    forall j | 0 <= j < |available|
      ensures |available[j].blob| == CeilDiv(m.payload.size, m.required)
    {
      assert ValidPart(m, available[j].index);
    }
  }

  lemma FetchedAreParts(available: seq<IndexedPart>, m: Manifest, payload: Blob, files: seq<Blob>)
    requires IsPool(m, payload, files) && Fetched(available, m, |m.parts|)
    ensures TakenFrom(available, files)
    ensures m.mode == Replicas && |available| == 1 ==> available[0].blob == payload
  {
    assert |m.parts| == m.total;
  }

  /**
   Fetches a pooled payload. For a layout that was prepared from a payload, it returns that payload exactly when
   enough parts are served, and the last check never fails.
   */
  method FetchPool(t: CodingTables, net: Network, m: Manifest) returns (result: Result<Blob, PoolError>)
    requires t.Filled()
    ensures !ValidManifest(m) ==> result == Err(BadManifest)
    ensures ValidManifest(m) && CountAvailable(net.served, m.parts) < m.required ==> result == Err(Unavailable)
    ensures result.Ok? ==> |result.value| == m.payload.size && Sha256(result.value) == m.payload.sha256
    ensures result.Err? ==> result.error in {BadManifest, Unavailable, FailedVerification}
    ensures forall payload, files :: IsPool(m, payload, files) && CountAvailable(net.served, m.parts) >= m.required
              ==> result == Ok(payload)
  {
    hide ValidManifest, Fetched, CountAvailable, Encodes, TakenFrom, IsDecoding, CodingTables.Filled, WellFormed;
    var valid := ValidateManifest(m);
    if !valid {
      PoolsAreValid(m);
      return Err(BadManifest);
    }
    RequiredPositive(m);
    var available := FetchParts(net, m);
    if |available| < m.required {
      return Err(Unavailable);
    }
    FetchedIndices(available, m);
    var payload := available[0].blob;
    if m.mode == Erasure {
      var decoded := DecodeParts(t, available, m.required, m.total, m.payload.size);
      payload := decoded.value;
    }
    forall original, files | IsPool(m, original, files)
      ensures payload == original
    {
      FetchedAreParts(available, m, original, files);
      ReplicaCount(m);
      if m.mode == Erasure {
        EncodedLength(m, original, files, payload);
      }
    }
    if |payload| != m.payload.size || Sha256(payload) != m.payload.sha256 {
      return Err(FailedVerification);
    }
    result := Ok(payload);
  }

  lemma PoolsAreValid(m: Manifest)
    ensures forall payload, files :: IsPool(m, payload, files) ==> ValidManifest(m)
  {
  }

  lemma RequiredPositive(m: Manifest)
    requires ValidManifest(m)
    ensures m.required > 0 && |m.parts| == m.total
  {
  }

  lemma ReplicaCount(m: Manifest)
    requires ValidManifest(m)
    ensures m.mode == Replicas ==> m.required == 1
  {
  }

  lemma EncodedLength(m: Manifest, original: Blob, files: seq<Blob>, payload: Blob)
    requires IsPool(m, original, files) && m.mode == Erasure
    ensures Encodes(original, files, m.required, m.total) && |original| == m.payload.size
  {
  }
}
