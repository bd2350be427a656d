/** How a new layout spreads ranked nodes, grouped by failure group, over the parts. */
module PoolPlacement {
  import opened Bytes
  import opened ErasureCode
  import opened Sequences
  import opened PoolLayout

  /** The groups in the order in which they first appear. */
  function FirstSeen(nodes: seq<PoolNode>): seq<Group> {
    if |nodes| == 0 then []
    else
      var front, last := FirstSeen(nodes[..|nodes| - 1]), nodes[|nodes| - 1].group;
      if last in front then front else front + [last]
  }

  /** A group's nodes, in order. */
  function InGroup(nodes: seq<PoolNode>, name: Group): seq<PoolNode> {
    if |nodes| == 0 then []
    else
      var last := nodes[|nodes| - 1];
      InGroup(nodes[..|nodes| - 1], name) + if last.group == name then [last] else []
  }

  /** Whose turn the group at place `i` is. */
  function PartFor(i: nat, total: nat): (p: nat)
    requires total > 0
    ensures p < total
  {
    i % total
  }

  /** The targets of part `p` after dealing out the first `n` groups in turn. */
  function Dealt(nodes: seq<PoolNode>, names: seq<Group>, n: nat, total: nat, p: nat): seq<PoolNode>
    requires n <= |names| && total > 0
  {
    if n == 0 then []
    else Dealt(nodes, names, n - 1, total, p) + if PartFor(n - 1, total) == p then InGroup(nodes, names[n - 1]) else []
  }

  // ---------------------------------------------------------------- what dealing preserves

  lemma {:induction false} FirstSeenIsGroups(nodes: seq<PoolNode>)
    ensures NoRepeats(FirstSeen(nodes))
    ensures forall name :: name in FirstSeen(nodes) <==> name in Groups(nodes)
  {
    if |nodes| > 0 {
      var front := nodes[..|nodes| - 1];
      FirstSeenIsGroups(front);
      assert nodes == front + [nodes[|nodes| - 1]];
    }
  }

  /** How often a node occurs. */
  function Occurrences(nodes: seq<PoolNode>, x: PoolNode): nat {
    multiset(nodes)[x]
  }

  lemma {:induction false} InGroupCounts(nodes: seq<PoolNode>, name: Group, x: PoolNode)
    ensures Occurrences(InGroup(nodes, name), x) == if x.group == name then Occurrences(nodes, x) else 0
  {
    if |nodes| > 0 {
      var front := nodes[..|nodes| - 1];
      InGroupCounts(front, name, x);
      assert nodes == front + [nodes[|nodes| - 1]];
    }
  }

  lemma DealtStep(nodes: seq<PoolNode>, names: seq<Group>, n: nat, total: nat, p: nat, x: PoolNode)
    requires 0 < n <= |names| && total > 0
    ensures Occurrences(Dealt(nodes, names, n, total, p), x)
         == Occurrences(Dealt(nodes, names, n - 1, total, p), x)
            + if PartFor(n - 1, total) == p then Occurrences(InGroup(nodes, names[n - 1]), x) else 0
  {
    hide InGroup;
  }

  /** A node is dealt to the part whose turn its group's place is, and to no other. */
  ghost predicate DealtOnce(nodes: seq<PoolNode>, names: seq<Group>, n: nat, total: nat, p: nat, x: PoolNode, at: nat)
    requires n <= |names| && total > 0
  {
    Occurrences(Dealt(nodes, names, n, total, p), x) == if at < n && PartFor(at, total) == p then Occurrences(nodes, x) else 0
  }

  lemma DealtOnceStep(nodes: seq<PoolNode>, names: seq<Group>, n: nat, total: nat, p: nat, x: PoolNode, at: nat)
    requires 0 < n <= |names| && total > 0 && NoRepeats(names) && at < |names| && names[at] == x.group
    requires DealtOnce(nodes, names, n - 1, total, p, x, at)
    ensures DealtOnce(nodes, names, n, total, p, x, at)
  {
    assert at < n - 1 ==> names[at] != names[n - 1];
    assert n - 1 < at ==> names[at] != names[n - 1];
    hide Dealt, InGroup, Occurrences, PartFor;
    InGroupCounts(nodes, names[n - 1], x);
    DealtStep(nodes, names, n, total, p, x);
  }

  lemma {:induction false} DealtCounts(nodes: seq<PoolNode>, names: seq<Group>, n: nat, total: nat, p: nat, x: PoolNode, at: nat)
    requires n <= |names| && total > 0 && NoRepeats(names) && at < |names| && names[at] == x.group
    ensures DealtOnce(nodes, names, n, total, p, x, at)
    decreases n
  {
    if n == 0 {
      assert Dealt(nodes, names, 0, total, p) == [];
    } else {
      hide *;
      DealtCounts(nodes, names, n - 1, total, p, x, at);
      DealtOnceStep(nodes, names, n, total, p, x, at);
    }
  }

  /** Whether the groups named are those of the nodes. */
  ghost predicate Names(names: seq<Group>, nodes: seq<PoolNode>) {
    NoRepeats(names) && forall name :: name in names <==> name in Groups(nodes)
  }

  lemma PlaceOf(nodes: seq<PoolNode>, names: seq<Group>, x: PoolNode) returns (at: nat)
    requires Names(names, nodes) && x in nodes
    ensures at < |names| && names[at] == x.group
  {
    var i :| 0 <= i < |nodes| && nodes[i] == x;
    assert x.group in Groups(nodes);
    at :| 0 <= at < |names| && names[at] == x.group;
  }

  lemma {:induction false} DealtWithin(nodes: seq<PoolNode>, names: seq<Group>, n: nat, total: nat, p: nat, x: PoolNode)
    requires n <= |names| && total > 0 && x in Dealt(nodes, names, n, total, p)
    ensures x in nodes
  {
    var here := if PartFor(n - 1, total) == p then InGroup(nodes, names[n - 1]) else [];
    if x in here {
      InGroupCounts(nodes, names[n - 1], x);
      assert multiset(here)[x] > 0;
      assert multiset(nodes)[x] > 0;
    } else {
      DealtWithin(nodes, names, n - 1, total, p, x);
    }
  }

  /** Whatever a part receives is a selection from the nodes. */
  lemma DealtIsSelection(nodes: seq<PoolNode>, names: seq<Group>, total: nat, p: nat)
    requires Names(names, nodes) && total > 0
    ensures multiset(Dealt(nodes, names, |names|, total, p)) <= multiset(nodes)
  {
    var dealt := Dealt(nodes, names, |names|, total, p);
    forall x
      ensures multiset(dealt)[x] <= multiset(nodes)[x]
    {
      if x in dealt {
        DealtWithin(nodes, names, |names|, total, p, x);
        var at := PlaceOf(nodes, names, x);
        DealtCounts(nodes, names, |names|, total, p, x, at);
      } else {
        assert x !in multiset(dealt);
      }
    }
  }

  /** The groups of a part are the names dealt to it. */
  lemma DealtGroup(nodes: seq<PoolNode>, names: seq<Group>, total: nat, p: nat, at: nat)
    requires Names(names, nodes) && total > 0 && at < |names|
    ensures names[at] in Groups(Dealt(nodes, names, |names|, total, p)) <==> PartFor(at, total) == p
  {
    var dealt := Dealt(nodes, names, |names|, total, p);
    assert names[at] in Groups(nodes);
    var i :| 0 <= i < |nodes| && nodes[i].group == names[at];
    assert nodes[i] in multiset(nodes);
    DealtCounts(nodes, names, |names|, total, p, nodes[i], at);
    if PartFor(at, total) == p {
      assert nodes[i] in multiset(dealt);
      var k :| 0 <= k < |dealt| && dealt[k] == nodes[i];
    }
    if names[at] in Groups(dealt) {
      var k :| 0 <= k < |dealt| && dealt[k].group == names[at];
      assert multiset(dealt)[dealt[k]] > 0;
      DealtCounts(nodes, names, |names|, total, p, dealt[k], at);
    }
  }

  lemma DealtTurn(p: nat, total: nat, c: nat, copies: nat, count: nat)
    requires p < total && c < copies && total * copies <= count
    ensures Turn(p, total, c) < count && PartFor(Turn(p, total, c), total) == p
  {
    assert (c + 1) * total <= copies * total;
    ModUnique(p, total, c);
  }

  lemma ModUnique(p: nat, total: nat, c: nat)
    requires p < total
    ensures (p + c * total) % total == p
    decreases c
  {
    if c > 0 {
      ModUnique(p, total, c - 1);
      assert p + c * total == (p + (c - 1) * total) + total;
      ModAdd(p + (c - 1) * total, total);
    }
  }

  lemma ModAdd(a: nat, m: nat)
    requires m > 0
    ensures (a + m) % m == a % m
  {
    var q, r := a / m, a % m;
    assert a + m == (q + 1) * m + r;
    QuotientUnique(a + m, m, q + 1, r);
  }

  lemma QuotientUnique(n: nat, m: nat, q: nat, r: nat)
    requires r < m && n == q * m + r
    ensures n % m == r
  {
    var e := q - n / m;
    assert e * m == n % m - r;
    if e > 0 {
      AtLeast(e, m);
    } else if e < 0 {
      AtLeast(-e, m);
    }
  }

  lemma AtLeast(e: nat, m: nat)
    requires e > 0
    ensures e * m >= m
  {
  }

  /** The place of the `c`-th group dealt to part `p`. */
  function Turn(p: nat, total: nat, c: nat): nat {
    p + c * total
  }

  lemma TurnIncreases(p: nat, total: nat, c: nat, d: nat)
    requires c < d && total > 0
    ensures Turn(p, total, c) < Turn(p, total, d)
  {
    AtLeast(d - c, total);
    assert d * total == c * total + (d - c) * total;
  }

  /** With enough groups, every part receives at least `copies` of them. */
  lemma EnoughGroups(nodes: seq<PoolNode>, names: seq<Group>, total: nat, copies: nat, p: nat)
    requires Names(names, nodes) && p < total && total * copies <= |names|
    ensures |Groups(Dealt(nodes, names, |names|, total, p))| >= copies
  {
    hide Dealt, Groups, Turn;
    var groups := Groups(Dealt(nodes, names, |names|, total, p));
    forall c | 0 <= c < copies
      ensures Turn(p, total, c) < |names| && names[Turn(p, total, c)] in groups
    {
      DealtTurn(p, total, c, copies, |names|);
      DealtGroup(nodes, names, total, p, Turn(p, total, c));
    }
    var mine := seq(copies, c requires 0 <= c < copies => names[Turn(p, total, c)]);
    forall c, d | 0 <= c < d < copies
      ensures mine[c] != mine[d]
    {
      TurnIncreases(p, total, c, d);
    }
    ImageSize(mine, groups);
  }

  /** No group is dealt to two parts. */
  lemma DealtApart(nodes: seq<PoolNode>, names: seq<Group>, total: nat, p: nat, q: nat)
    requires Names(names, nodes) && p < total && q < total && p != q
    ensures Groups(Dealt(nodes, names, |names|, total, p)) !! Groups(Dealt(nodes, names, |names|, total, q))
  {
    var dealtP := Dealt(nodes, names, |names|, total, p);
    forall name | name in Groups(dealtP)
      ensures name !in Groups(Dealt(nodes, names, |names|, total, q))
    {
      var k :| 0 <= k < |dealtP| && dealtP[k].group == name;
      DealtWithin(nodes, names, |names|, total, p, dealtP[k]);
      var at := PlaceOf(nodes, names, dealtP[k]);
      DealtGroup(nodes, names, total, p, at);
      DealtGroup(nodes, names, total, q, at);
    }
  }

  // ---------------------------------------------------------------- the loops

  method GroupRanked(ranked: seq<PoolNode>) returns (names: seq<Group>, lists: seq<seq<PoolNode>>)
    ensures names == FirstSeen(ranked) && |lists| == |names|
    ensures forall k :: 0 <= k < |names| ==> lists[k] == InGroup(ranked, names[k])
  {
    names, lists := [], [];
    for i := 0 to |ranked|
      invariant names == FirstSeen(ranked[..i]) && |lists| == |names|
      invariant forall k :: 0 <= k < |names| ==> lists[k] == InGroup(ranked[..i], names[k])
    {
      var node := ranked[i];
      assert ranked[..i + 1][..i] == ranked[..i];
      FirstSeenIsGroups(ranked[..i]);
      var k := 0;
      while k < |names| && names[k] != node.group
        invariant 0 <= k <= |names|
        invariant forall j :: 0 <= j < k ==> names[j] != node.group
      {
        k := k + 1;
      }
      if k < |names| {
        assert forall j :: 0 <= j < |names| && j != k ==> names[j] != names[k];
        lists := lists[k := lists[k] + [node]];
      } else {
        InGroupOfOther(ranked[..i], node.group);
        names := names + [node.group];
        lists := lists + [[node]];
      }
    }
    assert ranked[..|ranked|] == ranked;
  }

  lemma {:induction false} InGroupOfOther(nodes: seq<PoolNode>, name: Group)
    requires name !in Groups(nodes)
    ensures InGroup(nodes, name) == []
  {
    if |nodes| > 0 {
      var front := nodes[..|nodes| - 1];
      assert nodes == front + [nodes[|nodes| - 1]];
      assert nodes[|nodes| - 1].group in Groups(nodes);
      forall g | g in Groups(front) ensures g in Groups(nodes) { }
      InGroupOfOther(front, name);
    }
  }

  method Deal(ranked: seq<PoolNode>, names: seq<Group>, lists: seq<seq<PoolNode>>, total: nat)
    returns (targets: seq<seq<PoolNode>>)
    requires total > 0 && |lists| == |names|
    requires forall k :: 0 <= k < |names| ==> lists[k] == InGroup(ranked, names[k])
    ensures |targets| == total
    ensures forall p :: 0 <= p < total ==> targets[p] == Dealt(ranked, names, |names|, total, p)
  {
    targets := seq(total, _ => []);
    for i := 0 to |names|
      invariant |targets| == total
      invariant forall p :: 0 <= p < total ==> targets[p] == Dealt(ranked, names, i, total, p)
    {
      var p := PartFor(i, total);
      targets := targets[p := targets[p] + lists[i]];
    }
  }

  // ---------------------------------------------------------------- a prepared pool is valid

  /** The files are the payload's parts, in order, and the manifest names their digests. */
  ghost predicate IsPool(m: Manifest, payload: Blob, files: seq<Blob>) {
    && ValidManifest(m)
    && m.payload == Payload(Sha256(payload), |payload|)
    && |files| == m.total
    && (forall i :: 0 <= i < m.total ==> m.parts[i].sha256 == Sha256(files[i]) && m.parts[i].size == |files[i]|)
    && (if m.mode == Erasure then Encodes(payload, files, m.required, m.total) else files == [payload])
  }

  /** The parts carry what was dealt to them. */
  ghost predicate CarriesDealt(parts: seq<PoolPart>, nodes: seq<PoolNode>, names: seq<Group>) {
    forall p :: 0 <= p < |parts| ==> parts[p].targets == Dealt(nodes, names, |names|, |parts|, p)
  }

  lemma {:induction false} AllTargetsCount(parts: seq<PoolPart>, nodes: seq<PoolNode>, names: seq<Group>, n: nat, x: PoolNode, at: nat)
    requires n <= |parts| && CarriesDealt(parts, nodes, names) && NoRepeats(names)
    requires at < |names| && names[at] == x.group
    ensures Occurrences(AllTargets(parts[..n]), x) == if |parts| > 0 && PartFor(at, |parts|) < n then Occurrences(nodes, x) else 0
    decreases n
  {
    if n == 0 {
      assert AllTargets(parts[..0]) == [];
    } else {
      assert parts[n - 1].targets == Dealt(nodes, names, |names|, |parts|, n - 1);
      AllTargetsStep(parts, n, x);
      DealtCounts(nodes, names, |names|, |parts|, n - 1, x, at);
      hide Dealt, AllTargets, Occurrences, PartFor, NoRepeats;
      AllTargetsCount(parts, nodes, names, n - 1, x, at);
    }
  }

  lemma AllTargetsStep(parts: seq<PoolPart>, n: nat, x: PoolNode)
    requires 0 < n <= |parts|
    ensures Occurrences(AllTargets(parts[..n]), x)
         == Occurrences(AllTargets(parts[..n - 1]), x) + Occurrences(parts[n - 1].targets, x)
  {
    PartsStep(parts, n - 1);
  }

  lemma {:induction false} AllTargetsWithin(parts: seq<PoolPart>, x: PoolNode) returns (p: nat)
    requires x in AllTargets(parts)
    ensures p < |parts| && x in parts[p].targets
    decreases |parts|
  {
    var n := |parts| - 1;
    if x in parts[n].targets {
      p := n;
    } else {
      p := AllTargetsWithin(parts[..n], x);
    }
  }

  /** Together the parts' targets are the nodes, each once. */
  lemma AllNodesDealt(parts: seq<PoolPart>, nodes: seq<PoolNode>, names: seq<Group>)
    requires |parts| > 0 && CarriesDealt(parts, nodes, names) && Names(names, nodes)
    ensures multiset(AllTargets(parts)) == multiset(nodes)
  {
    hide Dealt, AllTargets, PartFor, Groups;
    assert parts[..|parts|] == parts;
    forall x
      ensures multiset(AllTargets(parts))[x] == multiset(nodes)[x]
    {
      if x in AllTargets(parts) {
        var p := AllTargetsWithin(parts, x);
        DealtWithin(nodes, names, |names|, |parts|, p, x);
      }
      if x in nodes {
        var at := PlaceOf(nodes, names, x);
        AllTargetsCount(parts, nodes, names, |parts|, x, at);
      } else {
        assert x !in multiset(nodes) && x !in multiset(AllTargets(parts));
      }
    }
  }

  /** Any non-empty selection from valid nodes is valid. */
  lemma ValidSelection(a: seq<PoolNode>, b: seq<PoolNode>)
    requires ValidNodes(b) && multiset(a) <= multiset(b) && |a| > 0
    ensures ValidNodes(a)
  {
    KeysDiffer(a, b, IdOf);
    KeysDiffer(a, b, OriginOf);
    KeysDiffer(a, b, HostOf);
    assert multiset(b) == multiset(a) + (multiset(b) - multiset(a));
    assert |multiset(b)| == |multiset(a)| + |multiset(b) - multiset(a)|;
    forall i | 0 <= i < |a|
      ensures ValidNode(a[i])
    {
      assert a[i] in multiset(b);
    }
  }

  lemma SomeGroup(nodes: seq<PoolNode>)
    requires |Groups(nodes)| > 0
    ensures |nodes| > 0
  {
    assert |nodes| == 0 ==> Groups(nodes) == {};
  }

  lemma NamesCount(nodes: seq<PoolNode>, names: seq<Group>)
    requires Names(names, nodes)
    ensures |names| == |Groups(nodes)|
  {
    ElementsSize(names);
    assert Elements(names) == Groups(nodes);
  }

  /** Dealing leaves every part with valid nodes of enough groups, and no group in two parts. */
  lemma DealtIsValid(parts: seq<PoolPart>, nodes: seq<PoolNode>, names: seq<Group>, copies: nat)
    requires |parts| > 0 && CarriesDealt(parts, nodes, names) && Names(names, nodes)
    requires ValidNodes(nodes) && copies > 0 && |Groups(nodes)| >= |parts| * copies
    ensures forall p :: 0 <= p < |parts| ==> ValidNodes(parts[p].targets) && |Groups(parts[p].targets)| >= copies
    ensures GroupsApart(parts) && ValidNodes(AllTargets(parts))
  {
    hide Dealt, AllTargets, Groups, ValidNodes, Names;
    NamesCount(nodes, names);
    forall p | 0 <= p < |parts|
      ensures ValidNodes(parts[p].targets) && |Groups(parts[p].targets)| >= copies
    {
      EnoughGroups(nodes, names, |parts|, copies, p);
      DealtIsSelection(nodes, names, |parts|, p);
      SomeGroup(parts[p].targets);
      ValidSelection(parts[p].targets, nodes);
    }
    forall p, q | 0 <= p < q < |parts|
      ensures Groups(parts[p].targets) !! Groups(parts[q].targets)
    {
      DealtApart(nodes, names, |parts|, p, q);
    }
    AllNodesDealt(parts, nodes, names);
    ValidNonEmpty(nodes);
    assert |multiset(AllTargets(parts))| == |multiset(nodes)|;
    ValidSelection(AllTargets(parts), nodes);
  }

  lemma ValidNonEmpty(nodes: seq<PoolNode>)
    requires ValidNodes(nodes)
    ensures |nodes| > 0
  {
  }

  /** The same nodes in another order are as valid, and have the same groups. */
  lemma SameNodes(nodes: seq<PoolNode>, ranked: seq<PoolNode>)
    requires multiset(nodes) == multiset(ranked) && ValidNodes(nodes)
    ensures ValidNodes(ranked) && Groups(ranked) == Groups(nodes)
  {
    assert |multiset(nodes)| == |multiset(ranked)|;
    ValidSelection(ranked, nodes);
    forall g
      ensures g in Groups(ranked) <==> g in Groups(nodes)
    {
      if g in Groups(nodes) {
        var i :| 0 <= i < |nodes| && nodes[i].group == g;
        assert nodes[i] in multiset(ranked);
        var j :| 0 <= j < |ranked| && ranked[j] == nodes[i];
      }
      if g in Groups(ranked) {
        var i :| 0 <= i < |ranked| && ranked[i].group == g;
        assert ranked[i] in multiset(nodes);
        var j :| 0 <= j < |nodes| && nodes[j] == ranked[i];
      }
    }
  }
}
