/**
 Storing a payload on a pool of nodes, fetching it back, and repairing it. Nodes may be offline, lose what they
 held or serve other bytes; whatever they serve is checked against the manifest.
 */
module Pool {
  import opened Wrappers
  import opened Bytes
  import opened Tables
  import opened Generator
  import opened ErasureCode
  import opened Sequences
  import opened PoolLayout
  import opened PoolPlacement

  datatype PreparedPool = PreparedPool(manifest: Manifest, files: seq<Blob>)

  /** The first eight bytes of an encrypted envelope, "FSWNENC2". */
  const MAGIC: Blob := [0x46, 0x53, 0x57, 0x4e, 0x45, 0x4e, 0x43, 0x32]

  // ---------------------------------------------------------------- preparing

  /** The layouts that can be prepared. */
  predicate CanPrepare(encrypted: Blob, mode: Mode, nodes: seq<PoolNode>, required: nat, total: nat, copies: nat) {
    && ValidNodes(nodes)
    && 0 < |encrypted| <= MAX_TRANSFER_BYTES
    && Slice(encrypted, 0, 8) == MAGIC
    && (if mode == Erasure then CodingBounds(required, total) && |Groups(nodes)| >= total && |encrypted| >= required
        else 2 <= copies <= 3 && |Groups(nodes)| >= copies)
  }

  /** `ranked` is the nodes in their placement order for this payload. */
  method PreparePool(t: CodingTables, encrypted: Blob, mode: Mode, nodes: seq<PoolNode>, ranked: seq<PoolNode>,
                     required: nat, total: nat, copies: nat)
    returns (result: Result<PreparedPool, PoolError>)
    requires t.Filled() && multiset(ranked) == multiset(nodes)
    ensures result.Ok? <==> CanPrepare(encrypted, mode, nodes, required, total, copies)
    ensures result.Ok? ==>
      var m := result.value.manifest;
      && IsPool(m, encrypted, result.value.files)
      && m.mode == mode && CarriesDealt(m.parts, ranked, FirstSeen(ranked))
      && (if mode == Erasure then m.required == required && m.total == total && m.copies == 1
          else m.required == 1 && m.total == 1 && m.copies == copies)
  {
    hide ValidNodes, Groups, CodingTables.Filled, Encodes, Dealt, FirstSeen, ValidManifest;
    if !ValidNodes(nodes) {
      return Err(BadNodes);
    }
    if |encrypted| == 0 || |encrypted| > MAX_TRANSFER_BYTES {
      return Err(BadSize);
    }
    if Slice(encrypted, 0, 8) != MAGIC {
      return Err(NotEncrypted);
    }
    if mode == Erasure && !CodingBounds(required, total) {
      return Err(Coding(BadParameters));
    }
    var k, n, c := if mode == Erasure then required else 1, if mode == Erasure then total else 1, if mode == Erasure then 1 else copies;
    if |Groups(nodes)| < n * c {
      return Err(TooFewGroups);
    }
    var names, lists := GroupRanked(ranked);
    var targets := Deal(ranked, names, lists, n);
    var files := [encrypted];
    if mode == Erasure {
      var encoded := EncodeParts(t, encrypted, k, n);
      if encoded.Err? {
        return Err(Coding(encoded.error));
      }
      files := encoded.value;
      EncodedShape(encrypted, files, k, n);
    }
    assert |files| == n;
    var parts := seq(n, i requires 0 <= i < n => PoolPart(i, Sha256(files[i]), |files[i]|, targets[i]));
    var manifest := Manifest(mode, Payload(Sha256(encrypted), |encrypted|), k, n, c, parts);
    var ok := ValidateManifest(manifest);
    if c > 0 {
      PreparedIsValid(manifest, nodes, ranked, names);
    } else {
      NeedsCopies(manifest);
    }
    if !ok {
      return Err(BadManifest);
    }
    result := Ok(PreparedPool(manifest, files));
  }

  lemma NeedsCopies(m: Manifest)
    ensures ValidManifest(m) ==> m.copies > 0
  {
  }

  lemma EncodedShape(blob: Blob, files: seq<Blob>, k: nat, n: nat)
    requires Encodes(blob, files, k, n)
    ensures |files| == n && forall i :: 0 <= i < n ==> |files[i]| == CeilDiv(|blob|, k)
  {
  }

  /** The manifest of a layout that passed the earlier guards is valid but for its number of copies. */
  lemma PreparedIsValid(m: Manifest, nodes: seq<PoolNode>, ranked: seq<PoolNode>, names: seq<Group>)
    requires 0 < m.payload.size <= MAX_TRANSFER_BYTES && m.copies > 0
    requires m.mode == Erasure ==> CodingBounds(m.required, m.total) && m.copies == 1 && m.payload.size >= m.required
    requires m.mode == Replicas ==> m.required == 1 && m.total == 1
    requires |m.parts| == m.total && CarriesDealt(m.parts, ranked, names) && names == FirstSeen(ranked)
    requires multiset(ranked) == multiset(nodes) && ValidNodes(nodes) && |Groups(nodes)| >= m.total * m.copies
    requires forall i :: 0 <= i < m.total ==> m.parts[i].index == i && m.parts[i].size == CeilDiv(m.payload.size, m.required)
    requires m.mode == Replicas ==> m.parts[0].sha256 == m.payload.sha256
    ensures ValidManifest(m) <==> m.copies <= 3 && (m.mode == Replicas ==> m.copies >= 2)
  {
    SameNodes(nodes, ranked);
    FirstSeenIsGroups(ranked);
    hide *;
    DealtPartsValid(m, ranked, names);
    ValidIf(m);
  }

  lemma DealtPartsValid(m: Manifest, ranked: seq<PoolNode>, names: seq<Group>)
    requires m.copies > 0 && m.total > 0 && m.required > 0
    requires |m.parts| == m.total && CarriesDealt(m.parts, ranked, names) && Names(names, ranked)
    requires ValidNodes(ranked) && |Groups(ranked)| >= m.total * m.copies
    requires forall i :: 0 <= i < m.total ==> m.parts[i].index == i && m.parts[i].size == CeilDiv(m.payload.size, m.required)
    requires m.mode == Replicas ==> m.total == 1 && m.parts[0].sha256 == m.payload.sha256
    ensures forall i :: 0 <= i < m.total ==> ValidPart(m, i)
    ensures GroupsApart(m.parts) && ValidNodes(AllTargets(m.parts))
  {
    hide ValidNodes, Groups, CarriesDealt, Names, CeilDiv, AllTargets, GroupsApart;
    DealtIsValid(m.parts, ranked, names, m.copies);
  }

  lemma ValidIf(m: Manifest)
    requires 0 < m.payload.size <= MAX_TRANSFER_BYTES && m.copies > 0 && |m.parts| == m.total && m.required > 0
    requires m.mode == Erasure ==> CodingBounds(m.required, m.total) && m.copies == 1 && m.payload.size >= m.required
    requires m.mode == Replicas ==> m.required == 1 && m.total == 1
    requires forall i :: 0 <= i < m.total ==> ValidPart(m, i)
    requires GroupsApart(m.parts) && ValidNodes(AllTargets(m.parts))
    ensures ValidManifest(m) <==> m.copies <= 3 && (m.mode == Replicas ==> m.copies >= 2)
  {
    hide ValidNodes, ValidPart, GroupsApart, AllTargets;
  }

  // ---------------------------------------------------------------- what nodes serve

  datatype Location = Location(origin: Origin, sha256: Digest)

  type Served = map<Location, Blob>

  /** A fetch of the part from this origin would pass the checks on its length and digest. */
  predicate Verifies(served: Served, origin: Origin, part: PoolPart) {
    var at := Location(origin, part.sha256);
    at in served && |served[at]| == part.size && Sha256(served[at]) == part.sha256
  }

  /** The node serves these bytes under their own digest. */
  predicate IsStored(served: Served, origin: Origin, blob: Blob) {
    Location(origin, Sha256(blob)) in served && served[Location(origin, Sha256(blob))] == blob
  }

  /** Only the given origins may have changed what they serve. */
  ghost predicate UnchangedElsewhere(before: Served, after: Served, origins: set<Origin>) {
    forall at: Location :: at.origin !in origins ==>
      (at in before <==> at in after) && (at in before ==> before[at] == after[at])
  }

  function OriginsOf(nodes: seq<PoolNode>): (s: set<Origin>)
    ensures forall i :: 0 <= i < |nodes| ==> nodes[i].origin in s
  {
    set i | 0 <= i < |nodes| :: nodes[i].origin
  }

  predicate IsAvailable(served: Served, part: PoolPart) {
    exists i :: 0 <= i < |part.targets| && Verifies(served, part.targets[i].origin, part)
  }

  /** How many of the parts some target serves. */
  function CountAvailable(served: Served, parts: seq<PoolPart>): nat {
    if |parts| == 0 then 0
    else CountAvailable(served, parts[..|parts| - 1]) + if IsAvailable(served, parts[|parts| - 1]) then 1 else 0
  }

  lemma CountStep(served: Served, parts: seq<PoolPart>, n: nat)
    requires n < |parts|
    ensures CountAvailable(served, parts[..n + 1])
         == CountAvailable(served, parts[..n]) + if IsAvailable(served, parts[n]) then 1 else 0
  {
    assert parts[..n + 1][..n] == parts[..n];
  }

  lemma {:induction false} CountGrows(served: Served, parts: seq<PoolPart>, n: nat)
    requires n <= |parts|
    ensures CountAvailable(served, parts[..n]) <= CountAvailable(served, parts)
    decreases |parts|
  {
    if n < |parts| {
      CountGrows(served, parts[..|parts| - 1], n);
      assert parts[..|parts| - 1][..n] == parts[..n];
    } else {
      assert parts[..n] == parts;
    }
  }

  class Network {
    /** The nodes that accept and store what they are handed. */
    const dependable: set<Origin>
    var served: Served

    /** Returns the part's bytes, or nothing if the node does not serve exactly them. */
    method FetchVerified(origin: Origin, part: PoolPart) returns (blob: Option<Blob>)
      ensures blob.Some? <==> Verifies(served, origin, part)
      ensures blob.Some? ==> |blob.value| == part.size && Sha256(blob.value) == part.sha256
    {
      var at := Location(origin, part.sha256);
      if at in served && |served[at]| == part.size && Sha256(served[at]) == part.sha256 {
        return Some(served[at]);
      }
      return None;
    }

    /**
     Hands a blob to a node. Unless the node is dependable it may refuse, or acknowledge without storing; any node may
     change whatever else it serves itself.
     */
    method Upload(origin: Origin, blob: Blob) returns (acknowledged: bool)
      modifies `served
      ensures UnchangedElsewhere(old(served), served, {origin})
      ensures origin in dependable ==> acknowledged && IsStored(served, origin, blob)
    {
      var answer: map<Digest, Blob> := *;
      if origin in dependable {
        answer := answer[Sha256(blob) := blob];
      }
      served := (map at | at in served && at.origin != origin :: served[at])
              + (map sha256 | sha256 in answer :: Location(origin, sha256) := answer[sha256]);
      acknowledged := *;
      acknowledged := acknowledged || origin in dependable;
    }
  }

  // ---------------------------------------------------------------- uploading

  /** Every group listed holds a node that serves the part. */
  ghost predicate BackedBy(served: Served, part: PoolPart, groups: set<Group>) {
    forall g :: g in groups ==> Holds(served, part, g)
  }

  ghost predicate Holds(served: Served, part: PoolPart, g: Group) {
    exists i :: 0 <= i < |part.targets| && part.targets[i].group == g && Verifies(served, part.targets[i].origin, part)
  }

  /** The node serves the part already, or would store it. */
  predicate IsReady(served: Served, dependable: set<Origin>, origin: Origin, part: PoolPart) {
    Verifies(served, origin, part) || origin in dependable
  }

  /** The groups that hold, for this part, a node that serves it already or would store it. */
  function ReadyGroups(served: Served, dependable: set<Origin>, part: PoolPart): set<Group> {
    set i | 0 <= i < |part.targets| && IsReady(served, dependable, part.targets[i].origin, part) :: part.targets[i].group
  }

  lemma BackedElsewhere(before: Served, after: Served, part: PoolPart, groups: set<Group>, origins: set<Origin>)
    requires BackedBy(before, part, groups) && UnchangedElsewhere(before, after, origins)
    requires forall i :: 0 <= i < |part.targets| ==> part.targets[i].origin !in origins
    ensures BackedBy(after, part, groups)
  {
    forall g | g in groups
      ensures Holds(after, part, g)
    {
      assert Holds(before, part, g);
      var i :| 0 <= i < |part.targets| && part.targets[i].group == g && Verifies(before, part.targets[i].origin, part);
      VerifiesElsewhere(before, after, origins, part.targets[i].origin, part);
    }
  }

  /**
   Part way through a part: every group collected holds, among the first `n` targets, a node that serves the
   part; and every one of those that was ready from the start is in a group collected.
   */
  ghost predicate Collected(start: Served, dependable: set<Origin>, served: Served, part: PoolPart, groups: set<Group>, n: nat)
    requires n <= |part.targets|
  {
    && AllHeld(served, part, groups, n)
    && AllCounted(start, dependable, part, groups, n)
    && UnchangedElsewhere(start, served, OriginsOf(part.targets[..n]))
  }

  ghost predicate HeldBelow(served: Served, part: PoolPart, g: Group, n: nat)
    requires n <= |part.targets|
  {
    exists i :: 0 <= i < n && part.targets[i].group == g && Verifies(served, part.targets[i].origin, part)
  }

  /** The targets' origins differ, so what one node does says nothing about the others. */
  lemma OtherOrigin(part: PoolPart, n: nat)
    requires n < |part.targets| && AllDifferent(Each(part.targets, OriginOf))
    ensures forall i :: 0 <= i < n ==> part.targets[i].origin != part.targets[n].origin
    ensures part.targets[n].origin !in OriginsOf(part.targets[..n])
    ensures OriginsOf(part.targets[..n + 1]) == OriginsOf(part.targets[..n]) + {part.targets[n].origin}
  {
    ElementsSize(Each(part.targets, OriginOf));
    forall i | 0 <= i < n
      ensures part.targets[i].origin != part.targets[n].origin
    {
      assert Each(part.targets, OriginOf)[i] != Each(part.targets, OriginOf)[n];
    }
    forall o | o in OriginsOf(part.targets[..n]) + {part.targets[n].origin}
      ensures o in OriginsOf(part.targets[..n + 1])
    {
      if o != part.targets[n].origin {
        var i :| 0 <= i < n && part.targets[..n][i].origin == o;
        assert part.targets[..n + 1][i].origin == o;
      } else {
        assert part.targets[..n + 1][n].origin == o;
      }
    }
  }

  /** Every group collected holds, among the first `n` targets, a node that serves the part. */
  ghost predicate AllHeld(served: Served, part: PoolPart, groups: set<Group>, n: nat)
    requires n <= |part.targets|
  {
    forall g :: g in groups ==> HeldBelow(served, part, g, n)
  }

  /** Every one of the first `n` targets that was ready from the start is in a group collected. */
  ghost predicate AllCounted(start: Served, dependable: set<Origin>, part: PoolPart, groups: set<Group>, n: nat)
    requires n <= |part.targets|
  {
    forall i :: 0 <= i < n && IsReady(start, dependable, part.targets[i].origin, part) ==> part.targets[i].group in groups
  }

  lemma HeldNext(before: Served, after: Served, part: PoolPart, groups: set<Group>, groups': set<Group>, n: nat)
    requires n < |part.targets| && AllHeld(before, part, groups, n)
    requires UnchangedElsewhere(before, after, {part.targets[n].origin})
    requires forall i :: 0 <= i < n ==> part.targets[i].origin != part.targets[n].origin
    requires groups' == groups || groups' == groups + {part.targets[n].group}
    requires groups' != groups ==> Verifies(after, part.targets[n].origin, part)
    ensures AllHeld(after, part, groups', n + 1)
  {
    hide HeldBelow, Verifies, UnchangedElsewhere;
    forall g | g in groups'
      ensures HeldBelow(after, part, g, n + 1)
    {
      if g in groups {
        HeldStays(before, after, part, g, n);
      } else {
        HeldHere(after, part, n);
      }
    }
  }

  lemma CountedNext(start: Served, dependable: set<Origin>, part: PoolPart, groups: set<Group>, groups': set<Group>, n: nat)
    requires n < |part.targets| && AllCounted(start, dependable, part, groups, n) && groups <= groups'
    requires IsReady(start, dependable, part.targets[n].origin, part) ==> part.targets[n].group in groups'
    ensures AllCounted(start, dependable, part, groups', n + 1)
  {
    hide IsReady;
  }

  /** Looking at the next target, and perhaps writing to it. */
  lemma CollectNext(start: Served, dependable: set<Origin>, before: Served, after: Served, part: PoolPart,
                    groups: set<Group>, groups': set<Group>, n: nat)
    requires n < |part.targets| && Collected(start, dependable, before, part, groups, n)
    requires AllDifferent(Each(part.targets, OriginOf))
    requires UnchangedElsewhere(before, after, {part.targets[n].origin})
    requires groups' == groups || groups' == groups + {part.targets[n].group}
    requires groups' != groups ==> Verifies(after, part.targets[n].origin, part)
    requires IsReady(before, dependable, part.targets[n].origin, part) ==> part.targets[n].group in groups'
    ensures Collected(start, dependable, after, part, groups', n + 1)
  {
    hide AllDifferent, Each, Verifies, UnchangedElsewhere, OriginsOf, AllHeld, AllCounted;
    OtherOrigin(part, n);
    UnchangedChain(start, before, after, OriginsOf(part.targets[..n]), {part.targets[n].origin});
    VerifiesElsewhere(start, before, OriginsOf(part.targets[..n]), part.targets[n].origin, part);
    HeldNext(before, after, part, groups, groups', n);
    CountedNext(start, dependable, part, groups, groups', n);
  }

  lemma HeldStays(before: Served, after: Served, part: PoolPart, g: Group, n: nat)
    requires n < |part.targets| && HeldBelow(before, part, g, n)
    requires UnchangedElsewhere(before, after, {part.targets[n].origin})
    requires forall i :: 0 <= i < n ==> part.targets[i].origin != part.targets[n].origin
    ensures HeldBelow(after, part, g, n + 1)
  {
    hide Verifies, UnchangedElsewhere;
    var i :| 0 <= i < n && part.targets[i].group == g && Verifies(before, part.targets[i].origin, part);
    VerifiesElsewhere(before, after, {part.targets[n].origin}, part.targets[i].origin, part);
  }

  lemma HeldHere(served: Served, part: PoolPart, n: nat)
    requires n < |part.targets| && Verifies(served, part.targets[n].origin, part)
    ensures HeldBelow(served, part, part.targets[n].group, n + 1)
  {
    hide Verifies;
  }

  lemma VerifiesElsewhere(before: Served, after: Served, origins: set<Origin>, origin: Origin, part: PoolPart)
    requires UnchangedElsewhere(before, after, origins) && origin !in origins
    ensures Verifies(before, origin, part) == Verifies(after, origin, part)
  {
    assert Location(origin, part.sha256).origin !in origins;
  }

  lemma UnchangedChain(a: Served, b: Served, c: Served, first: set<Origin>, second: set<Origin>)
    requires UnchangedElsewhere(a, b, first) && UnchangedElsewhere(b, c, second)
    ensures UnchangedElsewhere(a, c, first + second)
  {
  }

  lemma CollectedIsBacked(start: Served, dependable: set<Origin>, served: Served, part: PoolPart, groups: set<Group>, n: nat)
    requires n <= |part.targets| && Collected(start, dependable, served, part, groups, n)
    ensures BackedBy(served, part, groups)
    ensures UnchangedElsewhere(start, served, OriginsOf(part.targets))
    ensures n == |part.targets| ==> ReadyGroups(start, dependable, part) <= groups
  {
    hide Verifies, IsReady;
    forall g | g in groups
      ensures Holds(served, part, g)
    {
      assert HeldBelow(served, part, g, n);
    }
    forall o | o in OriginsOf(part.targets[..n])
      ensures o in OriginsOf(part.targets)
    {
      var i :| 0 <= i < n && part.targets[..n][i].origin == o;
      assert part.targets[i].origin == o;
    }
  }

  /**
   Puts one part on its targets until enough groups serve it. A group that already serves it counts, and short of
   enough no group is missed that holds a node that is ready.
   */
  method PlacePart(net: Network, part: PoolPart, file: Blob, copies: nat) returns (groups: set<Group>)
    requires AllDifferent(Each(part.targets, OriginOf)) && copies > 0
    requires Sha256(file) == part.sha256 && |file| == part.size
    modifies net`served
    ensures BackedBy(net.served, part, groups) && |groups| <= copies
    ensures |groups| < copies ==> ReadyGroups(old(net.served), net.dependable, part) <= groups
    ensures UnchangedElsewhere(old(net.served), net.served, OriginsOf(part.targets))
  {
    hide AllDifferent, Verifies, Collected, Each, UnchangedElsewhere, OriginsOf, BackedBy, ReadyGroups, IsStored;
    groups := {};
    ghost var start := net.served;
    StartCollected(start, net.dependable, part);
    var n := 0;
    while n < |part.targets| && |groups| < copies
      invariant 0 <= n <= |part.targets| && |groups| <= copies
      invariant Collected(start, net.dependable, net.served, part, groups, n)
    {
      var node := part.targets[n];
      ghost var before, collected := net.served, groups;
      Unchanged(before, node.origin);
      if node.group !in groups {
        var found := net.FetchVerified(node.origin, part);
        if found.None? {
          var acknowledged := net.Upload(node.origin, file);
          StoredVerifies(net.served, node.origin, part, file);
          if acknowledged {
            found := net.FetchVerified(node.origin, part);
          }
        }
        if found.Some? {
          groups := groups + {node.group};
        }
      }
      CollectNext(start, net.dependable, before, net.served, part, collected, groups, n);
      n := n + 1;
    }
    CollectedIsBacked(start, net.dependable, net.served, part, groups, n);
  }

  lemma Unchanged(served: Served, origin: Origin)
    ensures UnchangedElsewhere(served, served, {origin})
  {
  }

  lemma StoredVerifies(served: Served, origin: Origin, part: PoolPart, file: Blob)
    requires Sha256(file) == part.sha256 && |file| == part.size
    ensures IsStored(served, origin, file) ==> Verifies(served, origin, part)
  {
  }

  lemma StartCollected(start: Served, dependable: set<Origin>, part: PoolPart)
    ensures Collected(start, dependable, start, part, {}, 0)
  {
  }

  /** The files offered are the manifest's parts, by digest and length. */
  predicate Matches(files: seq<Blob>, m: Manifest) {
    && |files| == m.total == |m.parts|
    && forall i :: 0 <= i < m.total ==> Sha256(files[i]) == m.parts[i].sha256 && |files[i]| == m.parts[i].size
  }

  /** Part `p` is served by nodes of `counts[p]` groups. */
  ghost predicate PartBacked(served: Served, part: PoolPart, count: nat) {
    exists groups: set<Group> :: |groups| == count && BackedBy(served, part, groups)
  }

  ghost predicate AllBacked(served: Served, parts: seq<PoolPart>, counts: seq<nat>) {
    |counts| <= |parts| && forall p :: 0 <= p < |counts| ==> PartBacked(served, parts[p], counts[p])
  }

  datatype PoolReport = PoolReport(verified: seq<nat>, safe: bool, recoverable: bool)

  function Positive(counts: seq<nat>): nat {
    if |counts| == 0 then 0 else Positive(counts[..|counts| - 1]) + if counts[|counts| - 1] > 0 then 1 else 0
  }

  /** The parts that some group was counted for. */
  function Counted(counts: seq<nat>): set<nat> {
    set p | 0 <= p < |counts| && counts[p] > 0
  }

  lemma {:induction false} PositiveIsCounted(counts: seq<nat>)
    ensures Positive(counts) == |Counted(counts)|
  {
    if |counts| == 0 {
      assert Counted(counts) == {};
    } else {
      var last := |counts| - 1;
      PositiveIsCounted(counts[..last]);
      assert Counted(counts) == Counted(counts[..last]) + if counts[last] > 0 then {last} else {};
    }
  }

  lemma BackedIsAvailable(served: Served, part: PoolPart, count: nat)
    requires PartBacked(served, part, count) && count > 0
    ensures IsAvailable(served, part)
  {
    var groups: set<Group> :| |groups| == count && BackedBy(served, part, groups);
    var g :| g in groups;
    assert Holds(served, part, g);
  }

  /** What is counted can be fetched: at least as many parts are served as are counted. */
  lemma {:induction false} CountedAvailable(served: Served, parts: seq<PoolPart>, counts: seq<nat>)
    requires |counts| == |parts| && AllBacked(served, parts, counts)
    ensures Positive(counts) <= CountAvailable(served, parts)
  {
    hide IsAvailable, PartBacked;
    if |counts| > 0 {
      var last := |counts| - 1;
      forall p | 0 <= p < last
        ensures PartBacked(served, parts[..last][p], counts[..last][p])
      {
        assert PartBacked(served, parts[p], counts[p]);
      }
      CountedAvailable(served, parts[..last], counts[..last]);
      if counts[last] > 0 {
        assert PartBacked(served, parts[last], counts[last]);
        BackedIsAvailable(served, parts[last], counts[last]);
      }
    }
  }

  function Report(m: Manifest, verified: seq<nat>): PoolReport {
    PoolReport(verified, forall p :: 0 <= p < |verified| ==> verified[p] >= m.copies, Positive(verified) >= m.required)
  }

  /** The targets of the last part come behind those of the others. */
  lemma LastTargets(parts: seq<PoolPart>)
    requires |parts| > 0
    ensures multiset(AllTargets(parts)) == multiset(AllTargets(parts[..|parts| - 1])) + multiset(parts[|parts| - 1].targets)
  {
  }

  lemma TwoLists(a: seq<PoolNode>, b: seq<PoolNode>)
    ensures multiset(a + b) == multiset(a) + multiset(b)
  {
  }

  lemma {:induction false} TargetsWithin(parts: seq<PoolPart>, p: nat, q: nat)
    requires p < q < |parts|
    ensures multiset(parts[p].targets + parts[q].targets) <= multiset(AllTargets(parts))
    decreases |parts|
  {
    hide AllTargets;
    var n := |parts| - 1;
    var front := parts[..n];
    LastTargets(parts);
    assert front[p] == parts[p];
    if q < n {
      assert front[q] == parts[q];
      TargetsWithin(front, p, q);
    } else {
      OneWithin(front, p);
      TwoLists(parts[p].targets, parts[q].targets);
    }
  }

  lemma {:induction false} OneWithin(parts: seq<PoolPart>, p: nat)
    requires p < |parts|
    ensures multiset(parts[p].targets) <= multiset(AllTargets(parts))
    decreases |parts|
  {
    hide AllTargets;
    var n := |parts| - 1;
    LastTargets(parts);
    if p < n {
      assert parts[..n][p] == parts[p];
      OneWithin(parts[..n], p);
    }
  }

  lemma SumAt(a: seq<PoolNode>, b: seq<PoolNode>, i: nat, j: nat)
    requires i < |a| && j < |b| && NoRepeats(Each(a + b, OriginOf))
    ensures a[i].origin != b[j].origin
  {
    assert Each(a + b, OriginOf)[i] != Each(a + b, OriginOf)[|a| + j];
  }

  /** Two parts of a valid manifest have no endpoint in common. */
  lemma OriginsApart(m: Manifest, p: nat, q: nat)
    requires ValidManifest(m) && p < q < |m.parts|
    ensures forall i :: 0 <= i < |m.parts[p].targets| ==> m.parts[p].targets[i].origin !in OriginsOf(m.parts[q].targets)
  {
    var a, b := m.parts[p].targets, m.parts[q].targets;
    TargetsWithin(m.parts, p, q);
    KeysDiffer(a + b, AllTargets(m.parts), OriginOf);
    ElementsSize(Each(a + b, OriginOf));
    hide ValidManifest, AllTargets;
    forall i | 0 <= i < |a|
      ensures a[i].origin !in OriginsOf(b)
    {
      forall j | 0 <= j < |b|
        ensures a[i].origin != b[j].origin
      {
        SumAt(a, b, i, j);
      }
    }
  }

  /** What earlier parts are backed by is untouched by placing a later one. */
  lemma BackingKept(before: Served, after: Served, m: Manifest, counts: seq<nat>, q: nat)
    requires ValidManifest(m) && q < |m.parts| && |counts| == q && AllBacked(before, m.parts, counts)
    requires UnchangedElsewhere(before, after, OriginsOf(m.parts[q].targets))
    ensures AllBacked(after, m.parts, counts)
  {
    hide ValidManifest, UnchangedElsewhere, BackedBy, OriginsOf;
    forall p | 0 <= p < q
      ensures PartBacked(after, m.parts[p], counts[p])
    {
      assert PartBacked(before, m.parts[p], counts[p]);
      var groups: set<Group> :| |groups| == counts[p] && BackedBy(before, m.parts[p], groups);
      OriginsApart(m, p, q);
      BackedElsewhere(before, after, m.parts[p], groups, OriginsOf(m.parts[q].targets));
    }
  }

  /** Placing one part leaves the nodes of another as ready for it as they were. */
  lemma ReadyKept(before: Served, after: Served, dependable: set<Origin>, m: Manifest, p: nat, q: nat)
    requires ValidManifest(m) && p < q < |m.parts|
    requires UnchangedElsewhere(before, after, OriginsOf(m.parts[p].targets))
    ensures ReadyGroups(after, dependable, m.parts[q]) == ReadyGroups(before, dependable, m.parts[q])
  {
    var part, origins := m.parts[q], OriginsOf(m.parts[p].targets);
    OriginsApart(m, p, q);
    forall i | 0 <= i < |part.targets|
      ensures Verifies(before, part.targets[i].origin, part) == Verifies(after, part.targets[i].origin, part)
    {
      assert part.targets[i].origin in OriginsOf(part.targets);
      VerifiesElsewhere(before, after, origins, part.targets[i].origin, part);
    }
    hide Verifies, ValidManifest, UnchangedElsewhere;
  }

  /** The number of groups reported for each part: as many as are ready, up to as many as are wanted. */
  ghost predicate AllReadyCounted(start: Served, dependable: set<Origin>, m: Manifest, counts: seq<nat>) {
    |counts| <= |m.parts| && forall p :: 0 <= p < |counts| ==>
      counts[p] <= m.copies && (counts[p] < m.copies ==> counts[p] >= |ReadyGroups(start, dependable, m.parts[p])|)
  }

  /** Each part has as many groups that are ready as it is to have copies. */
  ghost predicate EnoughReady(start: Served, dependable: set<Origin>, m: Manifest) {
    forall p :: 0 <= p < |m.parts| ==> |ReadyGroups(start, dependable, m.parts[p])| >= m.copies
  }

  /** The nodes of the parts from `p` on are as ready as they were. */
  ghost predicate LaterReady(start: Served, served: Served, dependable: set<Origin>, m: Manifest, p: nat) {
    forall q :: p <= q < |m.parts| ==> ReadyGroups(served, dependable, m.parts[q]) == ReadyGroups(start, dependable, m.parts[q])
  }

  lemma LaterKept(start: Served, before: Served, after: Served, dependable: set<Origin>, m: Manifest, p: nat)
    requires ValidManifest(m) && p < |m.parts| && LaterReady(start, before, dependable, m, p)
    requires UnchangedElsewhere(before, after, OriginsOf(m.parts[p].targets))
    ensures LaterReady(start, after, dependable, m, p + 1)
  {
    hide ReadyGroups, ValidManifest, UnchangedElsewhere, OriginsOf;
    forall q | p + 1 <= q < |m.parts|
      ensures ReadyGroups(after, dependable, m.parts[q]) == ReadyGroups(start, dependable, m.parts[q])
    {
      ReadyKept(before, after, dependable, m, p, q);
    }
  }

  lemma ReadyNext(start: Served, before: Served, dependable: set<Origin>, m: Manifest, counts: seq<nat>, groups: set<Group>)
    requires |counts| < |m.parts| && AllReadyCounted(start, dependable, m, counts)
    requires LaterReady(start, before, dependable, m, |counts|)
    requires |groups| <= m.copies
    requires |groups| < m.copies ==> ReadyGroups(before, dependable, m.parts[|counts|]) <= groups
    ensures AllReadyCounted(start, dependable, m, counts + [|groups|])
  {
    hide ReadyGroups;
    if |groups| < m.copies {
      SubsetSize(ReadyGroups(before, dependable, m.parts[|counts|]), groups);
    }
  }

  lemma ReadyIsSafe(start: Served, dependable: set<Origin>, m: Manifest, counts: seq<nat>)
    requires |counts| == |m.parts| && AllReadyCounted(start, dependable, m, counts)
    ensures EnoughReady(start, dependable, m) ==> Report(m, counts).safe
  {
    hide ReadyGroups;
  }

  /** The parts for which some group is ready. */
  function ReadyParts(start: Served, dependable: set<Origin>, m: Manifest): set<nat> {
    set p | 0 <= p < |m.parts| && ReadyGroups(start, dependable, m.parts[p]) != {}
  }

  /** A part with a group that is ready is a part counted. */
  lemma ReadyIsCounted(start: Served, dependable: set<Origin>, m: Manifest, counts: seq<nat>)
    requires m.copies > 0 && |counts| == |m.parts| && AllReadyCounted(start, dependable, m, counts)
    ensures |ReadyParts(start, dependable, m)| <= |Counted(counts)|
  {
    hide ReadyGroups;
    SubsetSize(ReadyParts(start, dependable, m), Counted(counts));
  }

  /** What a report says, in terms of the parts counted and served. */
  lemma ReportMeans(start: Served, served: Served, dependable: set<Origin>, m: Manifest, counts: seq<nat>)
    requires m.copies > 0 && |counts| == |m.parts| && AllReadyCounted(start, dependable, m, counts)
    requires AllBacked(served, m.parts, counts)
    ensures Report(m, counts).verified == counts
    ensures Report(m, counts).safe <==> forall p :: 0 <= p < |counts| ==> counts[p] >= m.copies
    ensures Report(m, counts).recoverable <==> |set p | 0 <= p < |counts| && counts[p] > 0| >= m.required
    ensures Report(m, counts).recoverable ==> CountAvailable(served, m.parts) >= m.required
    ensures |ReadyParts(start, dependable, m)| >= m.required ==> Report(m, counts).recoverable
  {
    PositiveIsCounted(counts);
    CountedAvailable(served, m.parts, counts);
    ReadyIsCounted(start, dependable, m, counts);
    hide AllReadyCounted, AllBacked, CountAvailable, ReadyParts, Positive;
  }

  lemma PartOrigins(m: Manifest, p: nat)
    requires ValidManifest(m) && p < |m.parts|
    ensures AllDifferent(Each(m.parts[p].targets, OriginOf)) && m.copies > 0
  {
    assert ValidPart(m, p);
  }

  /**
   Uploads every part of a prepared pool. Nothing is written unless all the files are the manifest's parts; what
   is reported is what the nodes serve at the end. For each part that is no less than the groups that were ready, or
   the copies wanted: with enough ready groups for every part the payload is reported protected. It is reported
   recoverable exactly if groups were counted for enough of the parts. Then enough parts are served to fetch it.
   */
  method UploadPool(net: Network, prepared: PreparedPool, m: Manifest) returns (result: Result<PoolReport, PoolError>)
    modifies net`served
    ensures result.Ok? <==> ValidManifest(m) && prepared.manifest == m && Matches(prepared.files, m)
    ensures result.Err? ==> net.served == old(net.served) && result.error == if ValidManifest(m) then Mismatch else BadManifest
    ensures result.Ok? ==>
      && result.value == Report(m, result.value.verified)
      && |result.value.verified| == m.total
      && AllBacked(net.served, m.parts, result.value.verified)
      && AllReadyCounted(old(net.served), net.dependable, m, result.value.verified)
    ensures result.Ok? ==>
      var verified := result.value.verified;
      && (result.value.safe <==> forall p :: 0 <= p < |verified| ==> verified[p] >= m.copies)
      && (result.value.recoverable <==> |set p | 0 <= p < |verified| && verified[p] > 0| >= m.required)
      && (result.value.recoverable ==> CountAvailable(net.served, m.parts) >= m.required)
    ensures result.Ok? && EnoughReady(old(net.served), net.dependable, m) ==> result.value.safe
    ensures result.Ok? && |ReadyParts(old(net.served), net.dependable, m)| >= m.required ==> result.value.recoverable
  {
    hide EnoughReady, AllReadyCounted, LaterReady, ReadyGroups, ReadyParts, Report, CountAvailable;
    hide ValidManifest, UnchangedElsewhere, PartBacked, OriginsOf, AllDifferent, BackedBy, AllBacked;
    var valid := ValidateManifest(m);
    if !valid {
      return Err(BadManifest);
    }
    if prepared.manifest != m || !Matches(prepared.files, m) {
      return Err(Mismatch);
    }
    var counts: seq<nat> := [];
    ghost var start := net.served;
    NothingBacked(start, m.parts);
    NothingReady(start, net.dependable, m);
    for p := 0 to |m.parts|
      invariant |counts| == p && AllBacked(net.served, m.parts, counts)
      invariant AllReadyCounted(start, net.dependable, m, counts) && LaterReady(start, net.served, net.dependable, m, p)
    {
      PartOrigins(m, p);
      ghost var before := net.served;
      var groups := PlacePart(net, m.parts[p], prepared.files[p], m.copies);
      BackingKept(before, net.served, m, counts, p);
      BackedNext(net.served, m.parts, counts, groups);
      LaterKept(start, before, net.served, net.dependable, m, p);
      ReadyNext(start, before, net.dependable, m, counts, groups);
      counts := counts + [|groups|];
    }
    ReadyIsSafe(start, net.dependable, m, counts);
    NeedsCopies(m);
    ReportMeans(start, net.served, net.dependable, m, counts);
    result := Ok(Report(m, counts));
  }

  lemma NothingReady(start: Served, dependable: set<Origin>, m: Manifest)
    ensures AllReadyCounted(start, dependable, m, []) && LaterReady(start, start, dependable, m, 0)
  {
  }

  lemma NothingBacked(served: Served, parts: seq<PoolPart>)
    ensures AllBacked(served, parts, [])
  {
  }

  lemma BackedNext(served: Served, parts: seq<PoolPart>, counts: seq<nat>, groups: set<Group>)
    requires |counts| < |parts| && AllBacked(served, parts, counts)
    requires BackedBy(served, parts[|counts|], groups)
    ensures AllBacked(served, parts, counts + [|groups|])
  {
    hide BackedBy;
    var next := counts + [|groups|];
    forall p | 0 <= p < |next|
      ensures PartBacked(served, parts[p], next[p])
    {
      if p < |counts| {
        assert PartBacked(served, parts[p], counts[p]);
      }
    }
  }
}
