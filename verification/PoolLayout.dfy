/**
 The placement of a payload's parts on storage nodes: the manifest, what makes one valid, and how a new one
 spreads the nodes' failure groups over the parts.
 */
module PoolLayout {
  import opened Bytes
  import opened Generator
  import opened Sequences

  /** A collision-free digest: two blobs have the same digest only if they are the same. */
  datatype Digest = Sha256(preimage: Blob)

  /** A normalised endpoint. */
  datatype Origin = Origin(scheme: string, hostname: string, port: nat)

  datatype Group = Group(name: string)

  datatype PoolNode = PoolNode(id: string, origin: Origin, group: Group, weight: nat)

  datatype PoolPart = PoolPart(index: nat, sha256: Digest, size: nat, targets: seq<PoolNode>)

  datatype Mode = Replicas | Erasure

  datatype Payload = Payload(sha256: Digest, size: nat)

  datatype Manifest = Manifest(mode: Mode, payload: Payload, required: nat, total: nat, copies: nat, parts: seq<PoolPart>)

  datatype PoolError =
    | BadNodes | BadSize | NotEncrypted | TooFewGroups | BadManifest | BadReplacement
    | Mismatch | Unavailable | FailedVerification
    | Coding(error: CodingError)

  const MAX_TRANSFER_BYTES: nat := 258 * 1024 * 1024

  // ---------------------------------------------------------------- validation

  predicate NameCharacter(c: char) {
    'a' <= c <= 'z' || '0' <= c <= '9' || c == '_' || c == '-'
  }

  predicate ValidName(name: string) {
    1 <= |name| <= 40 && forall i :: 0 <= i < |name| ==> NameCharacter(name[i])
  }

  predicate ValidNode(node: PoolNode) {
    ValidName(node.id) && ValidName(node.group.name) && 1 <= node.weight <= 1000
  }

  const LETTERS := "abcdefghijklmnopqrstuvwxyz"
  const OTHERS := "0123456789_-"

  lemma NameCharacterIs(c: char)
    ensures NameCharacter(c) <==> c in LETTERS || c in OTHERS
  {
    assert forall i :: 0 <= i < 26 ==> LETTERS[i] as int == 'a' as int + i;
    assert forall i :: 0 <= i < 10 ==> OTHERS[i] as int == '0' as int + i;
    assert OTHERS[10] == '_' && OTHERS[11] == '-';
    if 'a' <= c <= 'z' {
      assert LETTERS[c as int - 'a' as int] == c;
    } else if '0' <= c <= '9' {
      assert OTHERS[c as int - '0' as int] == c;
    }
  }

  predicate IsNameOf(name: string) {
    1 <= |name| <= 40 && forall i :: 0 <= i < |name| ==> name[i] in LETTERS || name[i] in OTHERS
  }

  /** A node's names have 1 to 40 small letters, digits, underscores or hyphens, and its weight is 1 to 1000. */
  lemma NodeIs(node: PoolNode)
    ensures ValidNode(node) <==> IsNameOf(node.id) && IsNameOf(node.group.name) && 1 <= node.weight <= 1000
  {
    forall c: char
      ensures NameCharacter(c) <==> c in LETTERS || c in OTHERS
    {
      NameCharacterIs(c);
    }
    hide NameCharacter;
  }

  predicate IsLocal(hostname: string) {
    hostname == "127.0.0.1" || hostname == "localhost" || hostname == "[::1]"
  }

  /** What tells two nodes apart: the host name, or the whole origin on the local machine. */
  function HostKey(origin: Origin): Origin {
    if IsLocal(origin.hostname) then origin else Origin("", origin.hostname, 0)
  }

  /** Two endpoints count as one machine if they have a host name in common that is not the local one, or are the same. */
  lemma SameHost(a: Origin, b: Origin)
    ensures HostKey(a) == HostKey(b) <==> a == b || (a.hostname == b.hostname && a.hostname !in {"127.0.0.1", "localhost", "[::1]"})
  {
  }

  function IdOf(node: PoolNode): string {
    node.id
  }

  function OriginOf(node: PoolNode): Origin {
    node.origin
  }

  function HostOf(node: PoolNode): Origin {
    HostKey(node.origin)
  }

  function Groups(nodes: seq<PoolNode>): (g: set<Group>)
    ensures forall name :: name in g <==> exists i :: 0 <= i < |nodes| && nodes[i].group == name
  {
    set i | 0 <= i < |nodes| :: nodes[i].group
  }

  predicate ValidNodes(nodes: seq<PoolNode>) {
    && 1 <= |nodes| <= 16
    && (forall i :: 0 <= i < |nodes| ==> ValidNode(nodes[i]))
    && AllDifferent(Each(nodes, IdOf))
    && AllDifferent(Each(nodes, OriginOf))
    && AllDifferent(Each(nodes, HostOf))
  }

  function AllTargets(parts: seq<PoolPart>): seq<PoolNode> {
    if |parts| == 0 then [] else AllTargets(parts[..|parts| - 1]) + parts[|parts| - 1].targets
  }

  predicate ValidLayout(m: Manifest) {
    if m.mode == Erasure then CodingBounds(m.required, m.total) && m.copies == 1 && m.payload.size >= m.required
    else m.required == 1 && m.total == 1 && m.copies >= 2
  }

  predicate ValidPart(m: Manifest, index: nat)
    requires index < |m.parts| && m.required > 0
  {
    var part := m.parts[index];
    && part.index == index
    && part.size == CeilDiv(m.payload.size, m.required)
    && ValidNodes(part.targets)
    && |Groups(part.targets)| >= m.copies
    && (m.mode == Replicas ==> part.sha256 == m.payload.sha256)
  }

  /** No failure group holds two different parts. */
  ghost predicate GroupsApart(parts: seq<PoolPart>) {
    forall i, j :: 0 <= i < j < |parts| ==> Groups(parts[i].targets) !! Groups(parts[j].targets)
  }

  ghost predicate ValidManifest(m: Manifest) {
    && 0 < m.payload.size <= MAX_TRANSFER_BYTES
    && 1 <= m.copies <= 3
    && ValidLayout(m)
    && |m.parts| == m.total
    && (forall i :: 0 <= i < |m.parts| ==> ValidPart(m, i))
    && GroupsApart(m.parts)
    && ValidNodes(AllTargets(m.parts))
  }

  /** Everything taken to the first parts. */
  function AssignedGroups(parts: seq<PoolPart>): set<Group> {
    if |parts| == 0 then {} else AssignedGroups(parts[..|parts| - 1]) + Groups(parts[|parts| - 1].targets)
  }

  lemma {:induction false} AssignedContains(parts: seq<PoolPart>, name: Group)
    ensures name in AssignedGroups(parts) <==> exists i :: 0 <= i < |parts| && name in Groups(parts[i].targets)
  {
    if |parts| > 0 {
      AssignedContains(parts[..|parts| - 1], name);
    }
  }

  lemma ApartStep(parts: seq<PoolPart>, n: nat)
    requires n < |parts| && GroupsApart(parts[..n])
    ensures GroupsApart(parts[..n + 1]) <==> Groups(parts[n].targets) !! AssignedGroups(parts[..n])
  {
    hide Groups, AssignedGroups;
    var front, next, groups := parts[..n], parts[..n + 1], Groups(parts[n].targets);
    forall name
      ensures name in AssignedGroups(front) <==> exists i :: 0 <= i < n && name in Groups(front[i].targets)
    {
      AssignedContains(front, name);
    }
    if groups !! AssignedGroups(front) {
      forall i, j | 0 <= i < j < n + 1
        ensures Groups(next[i].targets) !! Groups(next[j].targets)
      {
        assert next[i] == front[i];
        if j < n {
          assert next[j] == front[j];
        }
      }
    } else {
      var name :| name in groups && name in AssignedGroups(front);
      var i :| 0 <= i < n && name in Groups(front[i].targets);
      assert next[i] == front[i] && next[n] == parts[n];
    }
  }

  /** The reader's validation, part by part with one growing set of assigned groups. */
  method ValidateManifest(m: Manifest) returns (ok: bool)
    ensures ok <==> ValidManifest(m)
  {
    hide Groups, ValidNodes, AllTargets, AssignedGroups, GroupsApart;
    if m.payload.size <= 0 || m.payload.size > MAX_TRANSFER_BYTES || m.copies < 1 || m.copies > 3 || !ValidLayout(m) {
      return false;
    }
    if |m.parts| != m.total {
      return false;
    }
    var allNodes: seq<PoolNode> := [];
    var taken: set<Group> := {};
    StartApart(m.parts);
    for index := 0 to m.total
      invariant forall i :: 0 <= i < index ==> ValidPart(m, i)
      invariant GroupsApart(m.parts[..index])
      invariant taken == AssignedGroups(m.parts[..index])
      invariant allNodes == AllTargets(m.parts[..index])
    {
      if !ValidPart(m, index) {
        return false;
      }
      var groups := Groups(m.parts[index].targets);
      ApartStep(m.parts, index);
      ApartPrefix(m.parts, index + 1);
      PartsStep(m.parts, index);
      if groups !! taken {
        taken := taken + groups;
      } else {
        return false;
      }
      allNodes := allNodes + m.parts[index].targets;
    }
    assert m.parts[..m.total] == m.parts;
    ok := ValidNodes(allNodes);
  }

  lemma StartApart(parts: seq<PoolPart>)
    ensures GroupsApart(parts[..0]) && AssignedGroups(parts[..0]) == {} && AllTargets(parts[..0]) == []
  {
  }

  lemma ApartPrefix(parts: seq<PoolPart>, n: nat)
    requires n <= |parts|
    ensures GroupsApart(parts) ==> GroupsApart(parts[..n])
  {
    hide Groups;
    if GroupsApart(parts) {
      var front := parts[..n];
      forall i, j | 0 <= i < j < n
        ensures Groups(front[i].targets) !! Groups(front[j].targets)
      {
        assert front[i] == parts[i] && front[j] == parts[j];
      }
    }
  }

  lemma PartsStep(parts: seq<PoolPart>, n: nat)
    requires n < |parts|
    ensures AssignedGroups(parts[..n + 1]) == AssignedGroups(parts[..n]) + Groups(parts[n].targets)
    ensures AllTargets(parts[..n + 1]) == AllTargets(parts[..n]) + parts[n].targets
  {
    assert parts[..n + 1][..n] == parts[..n];
  }
}
