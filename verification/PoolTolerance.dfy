/** How many failure groups a protected pool can lose, and how a pool is repaired and extended. */
module PoolTolerance {
  import opened Wrappers
  import opened Bytes
  import opened Tables
  import opened Generator
  import Json
  import opened ErasureCode
  import opened Sequences
  import opened PoolLayout
  import opened PoolPlacement
  import opened Pool
  import opened PoolRecovery

  // ---------------------------------------------------------------- tolerance

  /** The part's nodes outside the lost groups still serve it if they did before. */
  ghost predicate SurvivesOutside(before: Served, after: Served, part: PoolPart, lost: set<Group>) {
    forall i :: 0 <= i < |part.targets| && part.targets[i].group !in lost && Verifies(before, part.targets[i].origin, part)
      ==> Verifies(after, part.targets[i].origin, part)
  }

  /** A part that is gone has lost every group that backed it. */
  lemma GoneMeansLost(before: Served, after: Served, part: PoolPart, lost: set<Group>, count: nat)
    requires PartBacked(before, part, count) && SurvivesOutside(before, after, part, lost)
    requires !IsAvailable(after, part)
    ensures |lost * Groups(part.targets)| >= count
  {
    hide Verifies;
    var groups: set<Group> :| |groups| == count && BackedBy(before, part, groups);
    forall g | g in groups
      ensures g in lost * Groups(part.targets)
    {
      assert Holds(before, part, g);
    }
    SubsetSize(groups, lost * Groups(part.targets));
  }

  /** The losses needed to make `gone` parts unavailable. */
  function Needed(copies: nat, gone: nat): nat {
    copies * gone
  }

  lemma NeededStep(copies: nat, gone: nat)
    ensures Needed(copies, gone + 1) == Needed(copies, gone) + copies
  {
  }

  lemma NeededMonotone(copies: nat, a: nat, b: nat)
    requires a <= b
    ensures Needed(copies, a) <= Needed(copies, b)
  {
  }

  lemma DisjointLosses(lost: set<Group>, a: set<Group>, b: set<Group>)
    requires a !! b
    ensures |lost * (a + b)| == |lost * a| + |lost * b|
  {
    assert lost * (a + b) == lost * a + lost * b;
  }

  lemma ManifestApart(m: Manifest, n: nat)
    requires ValidManifest(m) && n <= m.total
    ensures |m.parts| == m.total && GroupsApart(m.parts[..n])
  {
    hide GroupsApart, AllTargets;
    ApartPrefix(m.parts, n);
  }

  lemma NothingLost(served: Served, parts: seq<PoolPart>, copies: nat)
    ensures CountAvailable(served, parts[..0]) == 0 && Needed(copies, 0) == 0
  {
  }

  lemma {:induction false} LossesPerPart(m: Manifest, before: Served, after: Served, counts: seq<nat>, lost: set<Group>, n: nat)
    requires ValidManifest(m) && n <= m.total && |m.parts| == m.total
    requires |counts| == m.total && AllBacked(before, m.parts, counts)
    requires forall p :: 0 <= p < m.total ==> counts[p] >= m.copies && SurvivesOutside(before, after, m.parts[p], lost)
    ensures CountAvailable(after, m.parts[..n]) <= n
    ensures |lost * AssignedGroups(m.parts[..n])| >= Needed(m.copies, n - CountAvailable(after, m.parts[..n]))
  {
    hide *;
    if n > 0 {
      LossesPerPart(m, before, after, counts, lost, n - 1);
      ManifestApart(m, n - 1);
      ManifestApart(m, n);
      LossesStep(m, before, after, counts, lost, n - 1);
    } else {
      NothingLost(after, m.parts, m.copies);
    }
  }

  lemma LossesStep(m: Manifest, before: Served, after: Served, counts: seq<nat>, lost: set<Group>, n: nat)
    requires ValidManifest(m) && n < m.total && |counts| == m.total && AllBacked(before, m.parts, counts)
    requires counts[n] >= m.copies && SurvivesOutside(before, after, m.parts[n], lost)
    requires GroupsApart(m.parts[..n]) && GroupsApart(m.parts[..n + 1])
    requires CountAvailable(after, m.parts[..n]) <= n
    requires |lost * AssignedGroups(m.parts[..n])| >= Needed(m.copies, n - CountAvailable(after, m.parts[..n]))
    ensures CountAvailable(after, m.parts[..n + 1]) <= n + 1
    ensures |lost * AssignedGroups(m.parts[..n + 1])| >= Needed(m.copies, n + 1 - CountAvailable(after, m.parts[..n + 1]))
  {
    assert n < |m.parts| && PartBacked(before, m.parts[n], counts[n]);
    hide *;
    CountStep(after, m.parts, n);
    ApartStep(m.parts, n);
    PartsStep(m.parts, n);
    DisjointLosses(lost, AssignedGroups(m.parts[..n]), Groups(m.parts[n].targets));
    NeededStep(m.copies, n - CountAvailable(after, m.parts[..n]));
    if !IsAvailable(after, m.parts[n]) {
      GoneMeansLost(before, after, m.parts[n], lost, counts[n]);
    }
  }

  /**
   Once every part is backed by as many groups as the layout promises, losing fewer than
   copies * (total - required + 1) groups leaves enough parts to fetch the payload: up to `total - required` groups
   of a split payload, up to `copies - 1` of a replicated one. What the lost groups serve instead does not matter.
   */
  lemma Tolerance(m: Manifest, before: Served, after: Served, counts: seq<nat>, lost: set<Group>)
    requires ValidManifest(m) && |counts| == m.total && AllBacked(before, m.parts, counts) && Report(m, counts).safe
    requires forall p :: 0 <= p < m.total ==> SurvivesOutside(before, after, m.parts[p], lost)
    requires |lost| <= if m.mode == Erasure then m.total - m.required else m.copies - 1
    ensures CountAvailable(after, m.parts) >= m.required
  {
    SafeCounts(m, counts);
    hide *;
    TotalLosses(m, before, after, counts, lost);
    LayoutBounds(m);
    if CountAvailable(after, m.parts) < m.required {
      NeededMonotone(m.copies, m.total - m.required + 1, m.total - CountAvailable(after, m.parts));
    }
  }

  /**
   The whole promise: a payload was prepared, its upload reported protected, and then no more groups than the layout
   allows lost or corrupted what they held. Fetching still returns the payload.
   */
  method FetchAfterLosses(t: CodingTables, net: Network, m: Manifest, ghost payload: Blob, ghost files: seq<Blob>,
                          ghost before: Served, ghost counts: seq<nat>, ghost lost: set<Group>)
    returns (result: Result<Blob, PoolError>)
    requires t.Filled() && IsPool(m, payload, files)
    requires |counts| == m.total && AllBacked(before, m.parts, counts) && Report(m, counts).safe
    requires forall p :: 0 <= p < m.total && p < |m.parts| ==> SurvivesOutside(before, net.served, m.parts[p], lost)
    requires |lost| <= if m.mode == Erasure then m.total - m.required else m.copies - 1
    ensures result == Ok(payload)
  {
    hide *;
    PoolsMatch(m, payload, files);
    RequiredPositive(m);
    Tolerance(m, before, net.served, counts, lost);
    result := FetchPool(t, net, m);
  }

  lemma TotalLosses(m: Manifest, before: Served, after: Served, counts: seq<nat>, lost: set<Group>)
    requires ValidManifest(m) && |counts| == m.total && AllBacked(before, m.parts, counts)
    requires forall p :: 0 <= p < m.total ==> counts[p] >= m.copies && SurvivesOutside(before, after, m.parts[p], lost)
    ensures CountAvailable(after, m.parts) <= m.total
    ensures |lost| >= Needed(m.copies, m.total - CountAvailable(after, m.parts))
  {
    hide *;
    ManifestApart(m, m.total);
    LossesPerPart(m, before, after, counts, lost, m.total);
    assert m.parts[..m.total] == m.parts;
    SubsetSize(lost * AssignedGroups(m.parts), lost);
  }

  lemma SafeCounts(m: Manifest, counts: seq<nat>)
    requires Report(m, counts).safe
    ensures forall p :: 0 <= p < |counts| ==> counts[p] >= m.copies
  {
  }

  /** One group more than may be lost. */
  lemma LayoutBounds(m: Manifest)
    requires ValidManifest(m)
    ensures m.required <= m.total
    ensures Needed(m.copies, m.total - m.required + 1) == if m.mode == Erasure then m.total - m.required + 1 else m.copies
  {
    hide AllTargets, GroupsApart, ValidPart;
  }

  /** Parts that are gone are missing from the count. */
  lemma {:induction false} CountBound(served: Served, parts: seq<PoolPart>, gone: set<nat>)
    requires forall p :: p in gone ==> p < |parts| && !IsAvailable(served, parts[p])
    ensures CountAvailable(served, parts) + |gone| <= |parts|
  {
    if |parts| > 0 {
      var last := |parts| - 1;
      hide IsAvailable;
      CountBound(served, parts[..last], gone - {last});
    } else {
      assert gone == {};
    }
  }

  function Below(n: nat): (s: set<nat>)
    ensures |s| == n && forall p: nat :: p in s <==> p < n
  {
    if n == 0 then {}
    else
      var less := Below(n - 1);
      assert n - 1 !in less;
      less + {n - 1}
  }

  /** The groups that hold a node which serves the part. */
  function ServingGroups(served: Served, part: PoolPart): set<Group> {
    ReadyGroups(served, {}, part)
  }

  function ServingAny(served: Served, parts: seq<PoolPart>): set<Group> {
    if |parts| == 0 then {} else ServingAny(served, parts[..|parts| - 1]) + ServingGroups(served, parts[|parts| - 1])
  }

  /** Each part is served by nodes of just as many groups as the layout promises. */
  ghost predicate ServedJust(m: Manifest, served: Served) {
    forall p :: 0 <= p < |m.parts| ==> |ServingGroups(served, m.parts[p])| == m.copies
  }

  lemma ServingStep(served: Served, parts: seq<PoolPart>, n: nat)
    requires n < |parts|
    ensures ServingAny(served, parts[..n + 1]) == ServingAny(served, parts[..n]) + ServingGroups(served, parts[n])
    ensures ServingGroups(served, parts[n]) <= Groups(parts[n].targets)
  {
    assert parts[..n + 1][..n] == parts[..n];
    hide Verifies;
  }

  lemma NothingServing(served: Served, parts: seq<PoolPart>, copies: nat)
    ensures ServingAny(served, parts[..0]) == AssignedGroups(parts[..0]) == {} && Needed(copies, 0) == 0
  {
  }

  lemma DisjointSizes(a: set<Group>, b: set<Group>, within: set<Group>, apart: set<Group>)
    requires a <= within && b <= apart && within !! apart
    ensures |a + b| == |a| + |b| && a + b <= within + apart
  {
  }

  lemma {:induction false} ServingSize(m: Manifest, served: Served, n: nat)
    requires ValidManifest(m) && n <= m.total && |m.parts| == m.total && ServedJust(m, served)
    ensures |ServingAny(served, m.parts[..n])| == Needed(m.copies, n)
    ensures ServingAny(served, m.parts[..n]) <= AssignedGroups(m.parts[..n])
  {
    hide *;
    if n > 0 {
      ServingSize(m, served, n - 1);
      ManifestApart(m, n - 1);
      ManifestApart(m, n);
      ServingMore(m, served, n - 1);
    } else {
      NothingServing(served, m.parts, m.copies);
    }
  }

  lemma ServingMore(m: Manifest, served: Served, n: nat)
    requires n < |m.parts| && ServedJust(m, served)
    requires GroupsApart(m.parts[..n]) && GroupsApart(m.parts[..n + 1])
    requires |ServingAny(served, m.parts[..n])| == Needed(m.copies, n)
    requires ServingAny(served, m.parts[..n]) <= AssignedGroups(m.parts[..n])
    ensures |ServingAny(served, m.parts[..n + 1])| == Needed(m.copies, n + 1)
    ensures ServingAny(served, m.parts[..n + 1]) <= AssignedGroups(m.parts[..n + 1])
  {
    assert |ServingGroups(served, m.parts[n])| == m.copies;
    hide *;
    var taken, more := ServingAny(served, m.parts[..n]), ServingGroups(served, m.parts[n]);
    ServingStep(served, m.parts, n);
    ApartStep(m.parts, n);
    PartsStep(m.parts, n);
    NeededStep(m.copies, n);
    DisjointSizes(taken, more, AssignedGroups(m.parts[..n]), Groups(m.parts[n].targets));
  }

  lemma {:induction false} ServingContains(served: Served, parts: seq<PoolPart>, n: nat, p: nat)
    requires p < n <= |parts|
    ensures ServingGroups(served, parts[p]) <= ServingAny(served, parts[..n])
  {
    hide ServingGroups, ServingAny;
    ServingStep(served, parts, n - 1);
    if p < n - 1 {
      ServingContains(served, parts, n - 1, p);
    }
  }

  /** The nodes of the lost groups serve the part no more, and no other node serves it that did not. */
  ghost predicate LostFor(before: Served, after: Served, part: PoolPart, lost: set<Group>) {
    forall i :: 0 <= i < |part.targets| && Verifies(after, part.targets[i].origin, part) ==>
      part.targets[i].group !in lost && Verifies(before, part.targets[i].origin, part)
  }

  lemma LostIsGone(before: Served, after: Served, part: PoolPart, lost: set<Group>)
    requires ServingGroups(before, part) <= lost && LostFor(before, after, part, lost)
    ensures !IsAvailable(after, part)
  {
    hide Verifies;
    forall i | 0 <= i < |part.targets| && Verifies(before, part.targets[i].origin, part)
      ensures part.targets[i].group in lost
    {
      assert IsReady(before, {}, part.targets[i].origin, part);
      assert part.targets[i].group in ServingGroups(before, part);
    }
  }

  /**
   The groups whose loss cannot be borne: those that serve the first parts, one part more than a fetch can do without.
   */
  ghost function OneTooMany(m: Manifest, served: Served): set<Group>
    requires ValidManifest(m)
  {
    LayoutBounds(m);
    RequiredPositive(m);
    ServingAny(served, m.parts[..m.total - m.required + 1])
  }

  /**
   The bound of `Tolerance` is exact. When every part is served by just as many groups as the layout promises, there
   are groups, one more than may be lost, without whose nodes the payload cannot be fetched.
   */
  lemma BoundIsExact(m: Manifest, before: Served, after: Served)
    requires ValidManifest(m) && ServedJust(m, before)
    requires forall p :: 0 <= p < |m.parts| ==> LostFor(before, after, m.parts[p], OneTooMany(m, before))
    ensures |OneTooMany(m, before)| == 1 + if m.mode == Erasure then m.total - m.required else m.copies - 1
    ensures CountAvailable(after, m.parts) < m.required
  {
    hide *;
    LayoutBounds(m);
    RequiredPositive(m);
    var k := m.total - m.required + 1;
    var gone := Below(k);
    ServingSize(m, before, k);
    TheseGroups(m, before);
    forall p | p in gone
      ensures !IsAvailable(after, m.parts[p])
    {
      ServingContains(before, m.parts, k, p);
      LostIsGone(before, after, m.parts[p], OneTooMany(m, before));
    }
    CountBound(after, m.parts, gone);
  }

  lemma TheseGroups(m: Manifest, served: Served)
    requires ValidManifest(m) && m.required <= m.total == |m.parts| && m.required > 0
    ensures OneTooMany(m, served) == ServingAny(served, m.parts[..m.total - m.required + 1])
  {
  }

  /** What is left when every node of the lost groups loses all it served. */
  function Without(m: Manifest, before: Served, lost: set<Group>): Served {
    map at | at in before && at.origin !in OriginsIn(m, lost) :: before[at]
  }

  function OriginsIn(m: Manifest, lost: set<Group>): set<Origin> {
    set p, i | 0 <= p < |m.parts| && 0 <= i < |m.parts[p].targets| && m.parts[p].targets[i].group in lost
      :: m.parts[p].targets[i].origin
  }

  lemma OneTarget(m: Manifest, p: nat, i: nat, q: nat, j: nat)
    requires ValidManifest(m) && p < |m.parts| && q < |m.parts|
    requires i < |m.parts[p].targets| && j < |m.parts[q].targets|
    requires m.parts[p].targets[i].origin == m.parts[q].targets[j].origin
    ensures p == q && i == j
  {
    hide ValidManifest;
    if p < q {
      OriginsApart(m, p, q);
    } else if q < p {
      OriginsApart(m, q, p);
    } else {
      PartOrigins(m, p);
      if i < j {
        OtherOrigin(m.parts[p], j);
      } else if j < i {
        OtherOrigin(m.parts[p], i);
      }
    }
  }

  /** Such a loss does take the nodes of the groups given, and only those. */
  lemma WithoutLoses(m: Manifest, before: Served, lost: set<Group>, p: nat)
    requires ValidManifest(m) && p < |m.parts|
    ensures LostFor(before, Without(m, before, lost), m.parts[p], lost)
    ensures SurvivesOutside(before, Without(m, before, lost), m.parts[p], lost)
  {
    hide ValidManifest;
    var part := m.parts[p];
    forall i | 0 <= i < |part.targets|
      ensures part.targets[i].origin in OriginsIn(m, lost) <==> part.targets[i].group in lost
    {
      if part.targets[i].origin in OriginsIn(m, lost) {
        var q, j :| 0 <= q < |m.parts| && 0 <= j < |m.parts[q].targets| && m.parts[q].targets[j].group in lost
                    && m.parts[q].targets[j].origin == part.targets[i].origin;
        OneTarget(m, p, i, q, j);
      }
    }
    hide OriginsIn;
  }

  /** So a loss of one group more than `Tolerance` allows, with its other conditions met, can make a fetch fail. */
  lemma OneGroupMore(m: Manifest, before: Served) returns (after: Served, lost: set<Group>)
    requires ValidManifest(m) && ServedJust(m, before)
    ensures |lost| == 1 + if m.mode == Erasure then m.total - m.required else m.copies - 1
    ensures forall p :: 0 <= p < |m.parts| ==> SurvivesOutside(before, after, m.parts[p], lost)
    ensures CountAvailable(after, m.parts) < m.required
  {
    hide *;
    lost := OneTooMany(m, before);
    after := Without(m, before, lost);
    forall p | 0 <= p < |m.parts|
      ensures LostFor(before, after, m.parts[p], lost) && SurvivesOutside(before, after, m.parts[p], lost)
    {
      WithoutLoses(m, before, lost, p);
    }
    BoundIsExact(m, before, after);
  }

  // ---------------------------------------------------------------- repair

  /** Fetches the payload and makes every part again, for a new upload. */
  method PreparePoolRepair(t: CodingTables, net: Network, m: Manifest) returns (result: Result<PreparedPool, PoolError>)
    requires t.Filled()
    ensures result.Ok? ==>
      && result.value.manifest == m && ValidManifest(m)
      && exists payload :: Sha256(payload) == m.payload.sha256 && Regenerated(m, payload, result.value.files)
    ensures ValidManifest(m) && CountAvailable(net.served, m.parts) < m.required ==> result == Err(Unavailable)
    ensures forall payload, files :: IsPool(m, payload, files) && CountAvailable(net.served, m.parts) >= m.required
              ==> result == Ok(PreparedPool(m, files))
  {
    hide ValidManifest, CountAvailable, Encodes, CodingTables.Filled;
    var fetched := FetchPool(t, net, m);
    if fetched.Err? {
      PoolsAreValid(m);
      return Err(fetched.error);
    }
    var files := [fetched.value];
    CanEncode(m);
    if m.mode == Erasure {
      var encoded := EncodeParts(t, fetched.value, m.required, m.total);
      files := encoded.value;
    }
    assert Regenerated(m, fetched.value, files);
    forall payload, originals | IsPool(m, payload, originals) && CountAvailable(net.served, m.parts) >= m.required
      ensures files == originals
    {
      if m.mode == Erasure {
        EncodingUnique(payload, originals, files, m.required, m.total);
      }
    }
    result := Ok(PreparedPool(m, files));
  }

  ghost predicate Regenerated(m: Manifest, payload: Blob, files: seq<Blob>) {
    if m.mode == Erasure then Encodes(payload, files, m.required, m.total) else files == [payload]
  }

  lemma CanEncode(m: Manifest)
    requires ValidManifest(m)
    ensures m.mode == Erasure ==> CodingBounds(m.required, m.total) && m.payload.size >= m.required
  {
  }

  /** What was prepared, or made again from what was fetched, passes the upload's check on its bytes. */
  lemma PoolsMatch(m: Manifest, payload: Blob, files: seq<Blob>)
    requires IsPool(m, payload, files)
    ensures Matches(files, m) && ValidManifest(m)
  {
    hide Encodes;
  }

  // ---------------------------------------------------------------- replacements

  /** One line of a replacement list. The part number is missing if the line is malformed. */
  datatype Replacement = Replacement(number: Option<int>, origin: Origin, group: Group, weight: nat)

  predicate GoodLine(line: Replacement, total: nat) {
    line.number.Some? && 1 <= line.number.value <= total
  }

  function Decimal(n: nat): (text: string)
    ensures |text| == |Json.Digits(n)| && forall i :: 0 <= i < |text| ==> text[i] as int == Json.Digits(n)[i]
  {
    Json.DigitsRead(n);
    seq(|Json.Digits(n)|, i requires 0 <= i < |Json.Digits(n)| => Json.Digits(n)[i] as char)
  }

  lemma DecimalInjective(a: nat, b: nat)
    requires Decimal(a) == Decimal(b)
    ensures a == b
  {
    Json.DigitsRead(a);
    Json.DigitsRead(b);
    hide Json.Digits;
    assert forall i :: 0 <= i < |Json.Digits(a)| ==> Json.Digits(a)[i] == Decimal(a)[i] as int == Json.Digits(b)[i];
    assert Json.Digits(a) == Json.Digits(b);
  }

  function ReplacementId(i: nat): string {
    "replacement-" + Decimal(i)
  }

  /** The first few ids, which all differ. */
  function FirstIds(n: nat): (ids: seq<string>)
    ensures |ids| == n && forall i :: 0 <= i < n ==> ids[i] == ReplacementId(i + 1)
  {
    seq(n, i requires 0 <= i < n => ReplacementId(i + 1))
  }

  lemma FirstIdsDiffer(n: nat)
    ensures NoRepeats(FirstIds(n))
  {
    var ids := FirstIds(n);
    forall i, j | 0 <= i < j < n
      ensures ids[i] != ids[j]
    {
      assert ids[i][12..] == Decimal(i + 1) && ids[j][12..] == Decimal(j + 1);
      if ids[i] == ids[j] {
        DecimalInjective(i + 1, j + 1);
      }
    }
  }

  /** The first `i` ids that are all taken are no more than there are ids. */
  lemma TakenIds(ids: set<string>, i: nat)
    requires forall j :: 0 < j <= i ==> ReplacementId(j) in ids
    ensures i <= |ids|
  {
    hide ReplacementId;
    FirstIdsDiffer(i);
    ImageSize(FirstIds(i), ids);
  }

  /** The least number, `i` or above, whose id is not taken, when all below are. */
  function LeastFree(ids: set<string>, i: nat): (free: nat)
    requires i > 0 && forall j :: 0 < j < i ==> ReplacementId(j) in ids
    ensures free > 0 && ReplacementId(free) !in ids && forall j :: 0 < j < free ==> ReplacementId(j) in ids
    decreases |ids| + 1 - i
  {
    if ReplacementId(i) !in ids then i
    else
      TakenIds(ids, i);
      LeastFree(ids, i + 1)
  }

  /** The first replacement id that is not taken. */
  method FreshId(ids: set<string>) returns (id: string, i: nat)
    ensures i > 0 && id == ReplacementId(i) && id !in ids
    ensures forall j :: 0 < j < i ==> ReplacementId(j) in ids
    ensures i == LeastFree(ids, 1)
  {
    hide ReplacementId;
    i := 1;
    id := ReplacementId(i);
    while id in ids
      invariant 0 < i <= |ids| + 1 && id == ReplacementId(i)
      invariant forall j :: 0 < j < i ==> ReplacementId(j) in ids
      decreases |ids| + 1 - i
    {
      TakenIds(ids, i);
      i := i + 1;
      id := ReplacementId(i);
    }
    ghost var free := LeastFree(ids, 1);
    assert !(i < free) && !(free < i);
  }

  /** The replacements meant for part `p`, in order. */
  function ForPart(lines: seq<Replacement>, p: nat): seq<Replacement> {
    if |lines| == 0 then []
    else
      var last := lines[|lines| - 1];
      ForPart(lines[..|lines| - 1], p) + if last.number == Some(p + 1) then [last] else []
  }

  predicate Replaces(node: PoolNode, line: Replacement) {
    node.origin == line.origin && node.group == line.group && node.weight == line.weight
  }

  /** The part keeps what it had and gains one node for each of the lines, in order. */
  ghost predicate Gains(part: PoolPart, part': PoolPart, lines: seq<Replacement>) {
    && part' == part.(targets := part'.targets)
    && |part'.targets| == |part.targets| + |lines|
    && part'.targets[..|part.targets|] == part.targets
    && forall i :: 0 <= i < |lines| ==> Replaces(part'.targets[|part.targets| + i], lines[i])
  }

  ghost predicate AllGain(parts: seq<PoolPart>, parts': seq<PoolPart>, lines: seq<Replacement>) {
    |parts'| == |parts| && forall p :: 0 <= p < |parts| ==> Gains(parts[p], parts'[p], ForPart(lines, p))
  }

  lemma NoLines(parts: seq<PoolPart>, lines: seq<Replacement>)
    ensures AllGain(parts, parts, lines[..0])
  {
  }

  lemma OneMoreLine(parts: seq<PoolPart>, before: seq<PoolPart>, lines: seq<Replacement>, n: nat, node: PoolNode, p: nat)
    requires n < |lines| && AllGain(parts, before, lines[..n])
    requires p < |parts| && lines[n].number == Some(p + 1) && Replaces(node, lines[n])
    ensures AllGain(parts, before[p := before[p].(targets := before[p].targets + [node])], lines[..n + 1])
  {
    var front, next := lines[..n], lines[..n + 1];
    assert next[..n] == front && next[n] == lines[n];
    var after := before[p := before[p].(targets := before[p].targets + [node])];
    forall q | 0 <= q < |parts|
      ensures Gains(parts[q], after[q], ForPart(next, q))
    {
      assert Gains(parts[q], before[q], ForPart(front, q));
    }
  }

  function IdsOf(parts: seq<PoolPart>): set<string> {
    if |parts| == 0 then {} else IdsOf(parts[..|parts| - 1]) + Elements(Each(parts[|parts| - 1].targets, IdOf))
  }

  predicate AllGood(lines: seq<Replacement>, total: nat) {
    forall n :: 0 <= n < |lines| ==> GoodLine(lines[n], total)
  }

  /** The parts of a layout and the ids they use. */
  datatype Naming = Naming(parts: seq<PoolPart>, ids: set<string>)

  /** The line's node goes last in its part, under the first replacement id that is free. */
  function AddNode(names: Naming, line: Replacement): (r: Naming)
    requires GoodLine(line, |names.parts|)
    ensures |r.parts| == |names.parts|
  {
    var p, id := line.number.value - 1, ReplacementId(LeastFree(names.ids, 1));
    var node := PoolNode(id, line.origin, line.group, line.weight);
    Naming(names.parts[p := names.parts[p].(targets := names.parts[p].targets + [node])], names.ids + {id})
  }

  function AddNodes(names: Naming, lines: seq<Replacement>): (r: Naming)
    requires AllGood(lines, |names.parts|)
    ensures |r.parts| == |names.parts|
  {
    if |lines| == 0 then names
    else AddNode(AddNodes(names, lines[..|lines| - 1]), lines[|lines| - 1])
  }

  /** The manifest with every line's node added, one after another. */
  function Extended(m: Manifest, lines: seq<Replacement>): Manifest
    requires AllGood(lines, |m.parts|)
  {
    m.(parts := AddNodes(Naming(m.parts, IdsOf(m.parts)), lines).parts)
  }

  ghost predicate CanExtend(m: Manifest, lines: seq<Replacement>) {
    ValidManifest(m) && AllGood(lines, |m.parts|) && ValidManifest(Extended(m, lines))
  }

  /** Each of the lines adds just its own node. */
  lemma {:induction false} ExtendedGains(names: Naming, lines: seq<Replacement>)
    requires AllGood(lines, |names.parts|)
    ensures AllGain(names.parts, AddNodes(names, lines).parts, lines)
  {
    hide AllGain, ReplacementId, LeastFree;
    if |lines| == 0 {
      NoLines(names.parts, lines);
      assert lines[..0] == lines;
    } else {
      var n := |lines| - 1;
      var before := AddNodes(names, lines[..n]);
      ExtendedGains(names, lines[..n]);
      var node := PoolNode(ReplacementId(LeastFree(before.ids, 1)), lines[n].origin, lines[n].group, lines[n].weight);
      OneMoreLine(names.parts, before.parts, lines, n, node, lines[n].number.value - 1);
      assert lines[..n + 1] == lines;
    }
  }

  lemma AddNext(names: Naming, lines: seq<Replacement>, n: nat)
    requires n < |lines| && AllGood(lines[..n], |names.parts|) && GoodLine(lines[n], |names.parts|)
    ensures AllGood(lines[..n + 1], |names.parts|)
    ensures AddNodes(names, lines[..n + 1]) == AddNode(AddNodes(names, lines[..n]), lines[n])
  {
    hide AddNode;
    assert lines[..n + 1][..n] == lines[..n];
  }

  /**
   Adds replacement endpoints to the parts they are meant for. Earlier placements stay; the result is a valid
   manifest, so no group or endpoint of one part becomes another's. It succeeds whenever the manifest that the lines
   make is valid.
   */
  method ExtendPool(m: Manifest, lines: seq<Replacement>) returns (result: Result<Manifest, PoolError>)
    ensures result.Ok? <==> CanExtend(m, lines)
    ensures result.Ok? ==> result.value == Extended(m, lines) && AllGain(m.parts, result.value.parts, lines)
    ensures result == Err(BadReplacement) <==>
      ValidManifest(m) && exists n :: 0 <= n < |lines| && !(lines[n].number.Some? && 1 <= lines[n].number.value <= |m.parts|)
    ensures result.Err? ==> result.error in {BadManifest, BadReplacement}
  {
    hide ValidManifest, AllGain, IdsOf, ReplacementId, ForPart, LeastFree;
    var valid := ValidateManifest(m);
    if !valid {
      return Err(BadManifest);
    }
    RequiredPositive(m);
    var ids := IdsOf(m.parts);
    var parts := m.parts;
    ghost var start := Naming(m.parts, ids);
    for n := 0 to |lines|
      invariant |parts| == m.total && AllGood(lines[..n], m.total)
      invariant Naming(parts, ids) == AddNodes(start, lines[..n])
    {
      var line := lines[n];
      if !GoodLine(line, m.total) {
        return Err(BadReplacement);
      }
      AddNext(start, lines, n);
      var p := line.number.value - 1;
      var id, _ := FreshId(ids);
      ids := ids + {id};
      var node := PoolNode(id, line.origin, line.group, line.weight);
      parts := parts[p := parts[p].(targets := parts[p].targets + [node])];
    }
    assert lines[..|lines|] == lines;
    ExtendedGains(start, lines);
    var next := m.(parts := parts);
    valid := ValidateManifest(next);
    if !valid {
      return Err(BadManifest);
    }
    result := Ok(next);
  }

  /** Extending a layout keeps what it was prepared from and never makes a part harder to find. */
  lemma ExtendingKeeps(m: Manifest, m': Manifest, lines: seq<Replacement>, payload: Blob, files: seq<Blob>, served: Served)
    requires IsPool(m, payload, files) && ValidManifest(m')
    requires AllGain(m.parts, m'.parts, lines) && m' == m.(parts := m'.parts)
    ensures IsPool(m', payload, files)
    ensures CountAvailable(served, m'.parts) >= CountAvailable(served, m.parts)
  {
    hide Encodes, CountAvailable, ForPart;
    forall p | 0 <= p < |m.parts|
      ensures m'.parts[p].sha256 == m.parts[p].sha256 && m'.parts[p].size == m.parts[p].size
      ensures IsAvailable(served, m.parts[p]) ==> IsAvailable(served, m'.parts[p])
    {
      StaysAvailable(served, m.parts[p], m'.parts[p], ForPart(lines, p));
    }
    MoreAvailable(served, m.parts, m'.parts);
  }

  lemma StaysAvailable(served: Served, part: PoolPart, part': PoolPart, lines: seq<Replacement>)
    requires Gains(part, part', lines)
    ensures part'.sha256 == part.sha256 && part'.size == part.size
    ensures IsAvailable(served, part) ==> IsAvailable(served, part')
  {
    if IsAvailable(served, part) {
      var i :| 0 <= i < |part.targets| && Verifies(served, part.targets[i].origin, part);
      assert part'.targets[i] == part'.targets[..|part.targets|][i];
      assert Verifies(served, part'.targets[i].origin, part');
    }
  }

  lemma {:induction false} MoreAvailable(served: Served, parts: seq<PoolPart>, parts': seq<PoolPart>)
    requires |parts| == |parts'|
    requires forall p :: 0 <= p < |parts| && IsAvailable(served, parts[p]) ==> IsAvailable(served, parts'[p])
    ensures CountAvailable(served, parts') >= CountAvailable(served, parts)
  {
    if |parts| > 0 {
      hide IsAvailable;
      MoreAvailable(served, parts[..|parts| - 1], parts'[..|parts| - 1]);
    }
  }
}
