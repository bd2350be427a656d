/** Whether a built page can reach the WebTorrent library through its imports. */
module BundleGraph {
  import opened Wrappers

  datatype Chunk = Chunk(
    fileName: string, name: string, isEntry: bool, moduleIds: seq<string>, imports: seq<string>, dynamicImports: seq<string>)

  const LIBRARY := "/node_modules/webtorrent/"

  /** Backslashes become slashes. */
  function Normalise(id: string): (path: string)
    ensures |path| == |id| && forall i :: 0 <= i < |id| ==> path[i] == if id[i] == '\\' then '/' else id[i]
  {
    seq(|id|, i requires 0 <= i < |id| => if id[i] == '\\' then '/' else id[i])
  }

  predicate Includes(text: string, part: string) {
    exists i :: 0 <= i <= |text| - |part| && text[i..][..|part|] == part
  }

  lemma IncludesIs(text: string, part: string)
    ensures Includes(text, part) <==> exists front, back :: text == front + part + back
  {
    if i :| 0 <= i <= |text| - |part| && text[i..][..|part|] == part {
      assert text == text[..i] + part + text[i..][|part|..];
    }
    if front, back :| text == front + part + back {
      assert text[|front|..][..|part|] == part;
    }
  }

  predicate HoldsLibrary(chunk: Chunk) {
    exists i :: 0 <= i < |chunk.moduleIds| && Includes(Normalise(chunk.moduleIds[i]), LIBRARY)
  }

  /** A bundle is keyed by file name. */
  ghost predicate Keyed(chunks: seq<Chunk>) {
    forall i, j :: 0 <= i < j < |chunks| ==> chunks[i].fileName != chunks[j].fileName
  }

  /** Static and dynamic imports both count. */
  function Imports(chunk: Chunk): (names: seq<string>)
    ensures forall name :: name in names <==> name in chunk.imports || name in chunk.dynamicImports
  {
    chunk.imports + chunk.dynamicImports
  }

  /** The chunk imports a chunk of the bundle. */
  predicate Imports?(chunks: seq<Chunk>, i: nat, j: nat) {
    i < |chunks| && j < |chunks| && chunks[j].fileName in Imports(chunks[i])
  }

  /** A chain of imports. */
  ghost predicate IsPath(chunks: seq<Chunk>, path: seq<nat>) {
    && |path| > 0 && (forall k :: 0 <= k < |path| ==> path[k] < |chunks|)
    && forall k :: 0 <= k < |path| - 1 ==> Imports?(chunks, path[k], path[k + 1])
  }

  ghost predicate Reaches(chunks: seq<Chunk>, from: nat, to: nat) {
    exists path :: IsPath(chunks, path) && path[0] == from && path[|path| - 1] == to
  }

  predicate IsEntry(chunk: Chunk, entryName: string) {
    chunk.isEntry && chunk.name == entryName
  }

  /** The first entry of the name, if there is one, reaches a chunk that holds the library. */
  ghost predicate EntryReaches(chunks: seq<Chunk>, entryName: string) {
    exists entry: nat, holder: nat :: FirstEntry(chunks, entryName, entry) && holder < |chunks|
      && Reaches(chunks, entry, holder) && HoldsLibrary(chunks[holder])
  }

  predicate FirstEntry(chunks: seq<Chunk>, entryName: string, entry: nat) {
    && entry < |chunks| && IsEntry(chunks[entry], entryName)
    && forall i :: 0 <= i < entry ==> !IsEntry(chunks[i], entryName)
  }

  /** A chain of imports from one chunk to the next, static or dynamic. */
  ghost predicate IsChain(chunks: seq<Chunk>, path: seq<nat>) {
    && |path| > 0 && (forall k :: 0 <= k < |path| ==> path[k] < |chunks|)
    && forall k :: 0 < k < |path| ==>
         chunks[path[k]].fileName in chunks[path[k - 1]].imports || chunks[path[k]].fileName in chunks[path[k - 1]].dynamicImports
  }

  /** The first chunk that is an entry of this name. */
  predicate IsFirst(chunks: seq<Chunk>, entryName: string, i: nat) {
    && i < |chunks| && chunks[i].isEntry && chunks[i].name == entryName
    && forall j :: 0 <= j < i ==> !(chunks[j].isEntry && chunks[j].name == entryName)
  }

  /** Some module of the chunk lies in the library, once backslashes are read as slashes. */
  ghost predicate HasLibraryModule(chunk: Chunk) {
    exists id, front, back :: id in chunk.moduleIds && Normalise(id) == front + LIBRARY + back
  }

  lemma HoldsMeans(chunk: Chunk)
    ensures HoldsLibrary(chunk) <==> HasLibraryModule(chunk)
  {
    forall i | 0 <= i < |chunk.moduleIds|
      ensures Includes(Normalise(chunk.moduleIds[i]), LIBRARY) <==>
              exists front, back :: Normalise(chunk.moduleIds[i]) == front + LIBRARY + back
    {
      IncludesIs(Normalise(chunk.moduleIds[i]), LIBRARY);
    }
    hide Includes, Normalise;
    if HasLibraryModule(chunk) {
      var id, front, back :| id in chunk.moduleIds && Normalise(id) == front + LIBRARY + back;
      var i :| 0 <= i < |chunk.moduleIds| && chunk.moduleIds[i] == id;
      assert Includes(Normalise(chunk.moduleIds[i]), LIBRARY);
    }
  }

  lemma ChainIsPath(chunks: seq<Chunk>, path: seq<nat>)
    ensures IsPath(chunks, path) <==> IsChain(chunks, path)
  {
    hide Imports;
    if IsPath(chunks, path) {
      forall k | 0 < k < |path|
        ensures Imports?(chunks, path[k - 1], path[k])
      {
        assert Imports?(chunks, path[k - 1], path[k - 1 + 1]);
      }
    }
    if IsChain(chunks, path) {
      forall k | 0 <= k < |path| - 1
        ensures Imports?(chunks, path[k], path[k + 1])
      {
        assert path[k + 1 - 1] == path[k];
      }
    }
  }

  /** A chain from the first entry of the name to a chunk with a module of the library. */
  ghost predicate Leads(chunks: seq<Chunk>, entryName: string, path: seq<nat>) {
    IsChain(chunks, path) && IsFirst(chunks, entryName, path[0]) && HasLibraryModule(chunks[path[|path| - 1]])
  }

  lemma FirstIs(chunks: seq<Chunk>, entryName: string, i: nat)
    ensures FirstEntry(chunks, entryName, i) <==> IsFirst(chunks, entryName, i)
  {
  }

  lemma LeadsThere(chunks: seq<Chunk>, entryName: string) returns (path: seq<nat>)
    requires EntryReaches(chunks, entryName)
    ensures Leads(chunks, entryName, path)
  {
    hide HoldsLibrary, HasLibraryModule, FirstEntry, IsFirst, IsChain;
    var entry: nat, holder: nat :| FirstEntry(chunks, entryName, entry) && holder < |chunks|
      && Reaches(chunks, entry, holder) && HoldsLibrary(chunks[holder]);
    path :| IsPath(chunks, path) && path[0] == entry && path[|path| - 1] == holder;
    ChainIsPath(chunks, path);
    HoldsMeans(chunks[holder]);
    FirstIs(chunks, entryName, entry);
  }

  lemma LeadsBack(chunks: seq<Chunk>, entryName: string, path: seq<nat>)
    requires Leads(chunks, entryName, path)
    ensures EntryReaches(chunks, entryName)
  {
    ChainIsPath(chunks, path);
    HoldsMeans(chunks[path[|path| - 1]]);
    FirstIs(chunks, entryName, path[0]);
    hide HoldsLibrary, HasLibraryModule, FirstEntry, IsFirst, IsPath;
    assert Reaches(chunks, path[0], path[|path| - 1]);
  }

  /** What is asked, in terms of the chunks alone. */
  lemma EntryReachesMeans(chunks: seq<Chunk>, entryName: string)
    ensures EntryReaches(chunks, entryName) <==> exists path :: Leads(chunks, entryName, path)
  {
    hide EntryReaches, Leads;
    if EntryReaches(chunks, entryName) {
      var path := LeadsThere(chunks, entryName);
    }
    if path :| Leads(chunks, entryName, path) {
      LeadsBack(chunks, entryName, path);
    }
  }

  method FindEntry(chunks: seq<Chunk>, entryName: string) returns (found: Option<nat>)
    ensures found.Some? ==> FirstEntry(chunks, entryName, found.value)
    ensures found.None? ==> forall i :: 0 <= i < |chunks| ==> !IsEntry(chunks[i], entryName)
  {
    for i := 0 to |chunks|
      invariant forall j :: 0 <= j < i ==> !IsEntry(chunks[j], entryName)
    {
      if IsEntry(chunks[i], entryName) {
        return Some(i);
      }
    }
    found := None;
  }

  method FindFile(chunks: seq<Chunk>, fileName: string) returns (found: Option<nat>)
    ensures found.Some? ==> found.value < |chunks| && chunks[found.value].fileName == fileName
    ensures found.None? ==> forall i :: 0 <= i < |chunks| ==> chunks[i].fileName != fileName
  {
    for i := 0 to |chunks|
      invariant forall j :: 0 <= j < i ==> chunks[j].fileName != fileName
    {
      if chunks[i].fileName == fileName {
        return Some(i);
      }
    }
    found := None;
  }

  // ---------------------------------------------------------------- reaching

  lemma ReachesItself(chunks: seq<Chunk>, i: nat)
    requires i < |chunks|
    ensures Reaches(chunks, i, i)
  {
    assert IsPath(chunks, [i]);
  }

  lemma ReachesNext(chunks: seq<Chunk>, from: nat, i: nat, j: nat)
    requires Reaches(chunks, from, i) && Imports?(chunks, i, j)
    ensures Reaches(chunks, from, j)
  {
    var path :| IsPath(chunks, path) && path[0] == from && path[|path| - 1] == i;
    var longer := path + [j];
    assert IsPath(chunks, longer);
  }

  /** Marks that contain the start and are closed under imports contain whatever is reached. */
  lemma {:induction false} ClosedContains(chunks: seq<Chunk>, marked: set<nat>, path: seq<nat>)
    requires IsPath(chunks, path) && path[0] in marked
    requires forall i, j :: i in marked && Imports?(chunks, i, j) ==> j in marked
    ensures path[|path| - 1] in marked
    decreases |path|
  {
    if |path| > 1 {
      assert Imports?(chunks, path[0], path[0 + 1]);
      var rest := path[1..];
      forall k | 0 <= k < |rest| - 1
        ensures Imports?(chunks, rest[k], rest[k + 1])
      {
        assert Imports?(chunks, path[k + 1], path[k + 1 + 1]);
      }
      ClosedContains(chunks, marked, rest);
    }
  }

  /** The names seen are those of the chunks marked. */
  ghost predicate Names(chunks: seq<Chunk>, seen: set<string>, marked: set<nat>) {
    && (forall i :: i in marked ==> i < |chunks| && chunks[i].fileName in seen)
    && (forall i :: 0 <= i < |chunks| && chunks[i].fileName in seen ==> i in marked)
  }

  /** Marked chunks are reached; those no longer queued hold no library, and what they import is marked. */
  ghost predicate Explored(chunks: seq<Chunk>, entry: nat, marked: set<nat>, queue: seq<nat>) {
    && entry in marked
    && (forall i :: i in marked ==> i < |chunks| && Reaches(chunks, entry, i))
    && (forall k :: 0 <= k < |queue| ==> queue[k] in marked)
    && (forall i :: i in marked && i !in queue ==> Done(chunks, marked, i))
  }

  ghost predicate Done(chunks: seq<Chunk>, marked: set<nat>, i: nat)
    requires i < |chunks|
  {
    !HoldsLibrary(chunks[i]) && forall j :: Imports?(chunks, i, j) ==> j in marked
  }

  lemma {:induction false} MarksBounded(marked: set<nat>, n: nat)
    requires forall i :: i in marked ==> i < n
    ensures |marked| <= n
  {
    if n == 0 {
      assert marked == {};
    } else {
      MarksBounded(marked - {n - 1}, n - 1);
    }
  }

  /** Queues what a chunk imports and has not been seen. */
  method QueueImports(chunks: seq<Chunk>, chunk: nat, seen: set<string>, queue: seq<nat>, ghost marked: set<nat>, ghost entry: nat)
    returns (seen': set<string>, queue': seq<nat>, ghost marked': set<nat>)
    requires Keyed(chunks) && chunk < |chunks| && Names(chunks, seen, marked)
    requires forall i :: i in marked ==> i < |chunks| && Reaches(chunks, entry, i)
    requires chunk in marked && forall k :: 0 <= k < |queue| ==> queue[k] in marked
    ensures Names(chunks, seen', marked') && marked <= marked'
    ensures forall i :: i in marked' ==> i < |chunks| && Reaches(chunks, entry, i)
    ensures forall j :: Imports?(chunks, chunk, j) ==> j in marked'
    ensures forall k :: 0 <= k < |queue'| ==> queue'[k] in marked'
    ensures forall i :: i in marked' && i !in queue' ==> i in marked && i !in queue
    ensures marked' == marked ==> queue' == queue
  {
    seen', queue', marked' := seen, queue, marked;
    var names := Imports(chunks[chunk]);
    for n := 0 to |names|
      invariant Names(chunks, seen', marked') && marked <= marked'
      invariant forall i :: i in marked' ==> i < |chunks| && Reaches(chunks, entry, i)
      invariant forall j :: 0 <= j < |chunks| && chunks[j].fileName in names[..n] ==> j in marked'
      invariant forall k :: 0 <= k < |queue'| ==> queue'[k] in marked'
      invariant forall i :: i in marked' && i !in queue' ==> i in marked && i !in queue
      invariant marked' == marked ==> queue' == queue
    {
      hide Reaches, Keyed;
      var next := FindFile(chunks, names[n]);
      SameFile(chunks, next, names[n]);
      ghost var before := queue';
      if next.Some? && names[n] !in seen' {
        assert Imports?(chunks, chunk, next.value);
        ReachesNext(chunks, entry, chunk, next.value);
        seen' := seen' + {names[n]};
        queue' := queue' + [next.value];
        marked' := marked' + {next.value};
        assert queue'[|before|] == next.value && forall i :: i in before ==> i in queue';
      }
    }
  }

  lemma SameFile(chunks: seq<Chunk>, found: Option<nat>, fileName: string)
    requires Keyed(chunks)
    requires found.Some? ==> found.value < |chunks| && chunks[found.value].fileName == fileName
    ensures found.Some? ==> forall i :: 0 <= i < |chunks| && chunks[i].fileName == fileName ==> i == found.value
  {
  }

  lemma ExploredAll(chunks: seq<Chunk>, entryName: string, entry: nat, marked: set<nat>)
    requires FirstEntry(chunks, entryName, entry) && Explored(chunks, entry, marked, [])
    ensures !EntryReaches(chunks, entryName)
  {
    hide HoldsLibrary, Imports?;
    forall holder: nat | holder < |chunks| && Reaches(chunks, entry, holder)
      ensures !HoldsLibrary(chunks[holder])
    {
      var path :| IsPath(chunks, path) && path[0] == entry && path[|path| - 1] == holder;
      ClosedContains(chunks, marked, path);
    }
  }

  /** Searches from the entry; every chunk is queued at most once, so cycles of imports do no harm. */
  method EntryReachesWebTorrent(chunks: seq<Chunk>, entryName: string) returns (reaches: bool)
    requires Keyed(chunks)
    ensures reaches <==> EntryReaches(chunks, entryName)
  {
    hide HoldsLibrary, Imports?, Reaches, Keyed;
    var entry := FindEntry(chunks, entryName);
    if entry.None? {
      return false;
    }
    var seen := {chunks[entry.value].fileName};
    var queue: seq<nat> := [entry.value];
    ghost var marked: set<nat> := {entry.value};
    StartExplored(chunks, entry.value);
    while |queue| > 0
      invariant Explored(chunks, entry.value, marked, queue) && Names(chunks, seen, marked)
      decreases |chunks| - |marked|, |queue|
    {
      ghost var before := queue;
      var chunk := queue[|queue| - 1];
      queue := queue[..|queue| - 1];
      assert before == queue + [chunk];
      if HoldsLibrary(chunks[chunk]) {
        return true;
      }
      ghost var earlier := marked;
      seen, queue, marked := QueueImports(chunks, chunk, seen, queue, marked, entry.value);
      MarksBounded(marked, |chunks|);
      MarksGrow(earlier, marked);
    }
    ExploredAll(chunks, entryName, entry.value, marked);
    reaches := false;
  }

  lemma MarksGrow(a: set<nat>, b: set<nat>)
    requires a <= b
    ensures |a| <= |b| && (a != b ==> |a| < |b|)
  {
    assert b == a + (b - a);
    if |b - a| == 0 {
      assert b - a == {};
    }
  }

  lemma StartExplored(chunks: seq<Chunk>, entry: nat)
    requires entry < |chunks| && Keyed(chunks)
    ensures Explored(chunks, entry, {entry}, [entry]) && Names(chunks, {chunks[entry].fileName}, {entry})
  {
    ReachesItself(chunks, entry);
  }
}
