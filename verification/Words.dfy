/** The distance between two words, and the one word a mistyped word may be corrected to. */
module Words {
  import opened Wrappers
  import opened FileNames

  // ---------------------------------------------------------------- what a distance is

  datatype Edit = Keep | Replace | Insert | Delete | Swap

  /** The edits, in order, turn `a` into `b`. Each acts on the ends, so no part is edited twice. */
  predicate Yields(edits: seq<Edit>, a: Text, b: Text)
    decreases |edits|
  {
    if |edits| == 0 then a == [] && b == []
    else
      var front, m, n := edits[..|edits| - 1], |a|, |b|;
      match edits[|edits| - 1]
      case Keep => m > 0 && n > 0 && a[m - 1] == b[n - 1] && Yields(front, a[..m - 1], b[..n - 1])
      case Replace => m > 0 && n > 0 && Yields(front, a[..m - 1], b[..n - 1])
      case Insert => n > 0 && Yields(front, a, b[..n - 1])
      case Delete => m > 0 && Yields(front, a[..m - 1], b)
      case Swap =>
        m > 1 && n > 1 && a[m - 1] == b[n - 2] && a[m - 2] == b[n - 1] && Yields(front, a[..m - 2], b[..n - 2])
  }

  function EditCost(e: Edit): nat {
    if e == Keep then 0 else 1
  }

  function Cost(edits: seq<Edit>): nat {
    if |edits| == 0 then 0 else Cost(edits[..|edits| - 1]) + EditCost(edits[|edits| - 1])
  }

  /** `d` is the cost of the cheapest edits that turn `a` into `b`. */
  ghost predicate IsDistance(a: Text, b: Text, d: nat) {
    && (exists edits :: Yields(edits, a, b) && Cost(edits) == d)
    && (forall edits :: Yields(edits, a, b) ==> d <= Cost(edits))
  }

  /** The distance, cell by cell as the table has it. */
  function Distance(a: Text, b: Text): nat
    decreases |a| + |b|
  {
    var m, n := |a|, |b|;
    if m == 0 then n
    else if n == 0 then m
    else
      var value := Cell(Distance(a[..m - 1], b), Distance(a, b[..n - 1]), Distance(a[..m - 1], b[..n - 1]), a[m - 1] == b[n - 1]);
      if CanSwap(a, b) then MinNat(value, Distance(a[..m - 2], b[..n - 2]) + 1) else value
  }

  function MinNat(a: nat, b: nat): nat {
    if a < b then a else b
  }

  function Cell(up: nat, left: nat, diagonal: nat, same: bool): nat {
    MinNat(MinNat(up + 1, left + 1), diagonal + if same then 0 else 1)
  }

  predicate CanSwap(a: Text, b: Text) {
    |a| > 1 && |b| > 1 && a[|a| - 1] == b[|b| - 2] && a[|a| - 2] == b[|b| - 1]
  }

  // ---------------------------------------------------------------- the recursion is the least cost

  lemma OneMore(front: seq<Edit>, e: Edit)
    ensures |front + [e]| > 0 && (front + [e])[..|front|] == front && (front + [e])[|front|] == e
    ensures Cost(front + [e]) == Cost(front) + EditCost(e)
  {
    assert (front + [e])[..|front|] == front;
  }

  /** A distance is one of the four ways a last edit may have been made. */
  lemma LastEdit(a: Text, b: Text)
    ensures |a| == 0 && |b| == 0 ==> Distance(a, b) == 0
    ensures |a| > 0 || |b| > 0 ==>
      || (|b| > 0 && Distance(a, b) == Distance(a, b[..|b| - 1]) + 1)
      || (|a| > 0 && Distance(a, b) == Distance(a[..|a| - 1], b) + 1)
      || (|a| > 0 && |b| > 0
          && Distance(a, b) == Distance(a[..|a| - 1], b[..|b| - 1]) + if a[|a| - 1] == b[|b| - 1] then 0 else 1)
      || (CanSwap(a, b) && Distance(a, b) == Distance(a[..|a| - 2], b[..|b| - 2]) + 1)
  {
  }

  lemma {:induction false} SomeEdits(a: Text, b: Text) returns (edits: seq<Edit>)
    ensures Yields(edits, a, b) && Cost(edits) == Distance(a, b)
    decreases |a| + |b|
  {
    LastEdit(a, b);
    hide Distance, Cost;
    var m, n := |a|, |b|;
    if m == 0 && n == 0 {
      edits := NoEdits();
    } else if n > 0 && Distance(a, b) == Distance(a, b[..n - 1]) + 1 {
      var front := SomeEdits(a, b[..n - 1]);
      edits := front + [Insert];
      OneMore(front, Insert);
    } else if m > 0 && Distance(a, b) == Distance(a[..m - 1], b) + 1 {
      var front := SomeEdits(a[..m - 1], b);
      edits := front + [Delete];
      OneMore(front, Delete);
    } else if m > 0 && n > 0 && Distance(a, b) == Distance(a[..m - 1], b[..n - 1]) + if a[m - 1] == b[n - 1] then 0 else 1 {
      var front := SomeEdits(a[..m - 1], b[..n - 1]);
      var e := if a[m - 1] == b[n - 1] then Keep else Replace;
      edits := front + [e];
      OneMore(front, e);
    } else {
      var front := SomeEdits(a[..m - 2], b[..n - 2]);
      edits := front + [Swap];
      OneMore(front, Swap);
    }
  }

  lemma NoEdits() returns (edits: seq<Edit>)
    ensures Yields(edits, [], []) && Cost(edits) == 0
  {
    edits := [];
  }

  lemma {:induction false} NoCheaper(edits: seq<Edit>, a: Text, b: Text)
    requires Yields(edits, a, b)
    ensures Distance(a, b) <= Cost(edits)
    decreases |edits|
  {
    if |edits| > 0 {
      var front, m, n := edits[..|edits| - 1], |a|, |b|;
      match edits[|edits| - 1]
      case Keep => NoCheaper(front, a[..m - 1], b[..n - 1]);
      case Replace => NoCheaper(front, a[..m - 1], b[..n - 1]);
      case Insert => NoCheaper(front, a, b[..n - 1]);
      case Delete => NoCheaper(front, a[..m - 1], b);
      case Swap => NoCheaper(front, a[..m - 2], b[..n - 2]);
    }
  }

  /** The recursion gives the least cost over all ways of editing. */
  lemma DistanceIsLeast(a: Text, b: Text)
    ensures IsDistance(a, b, Distance(a, b))
  {
    var edits := SomeEdits(a, b);
    forall other | Yields(other, a, b)
      ensures Distance(a, b) <= Cost(other)
    {
      NoCheaper(other, a, b);
    }
  }

  // ---------------------------------------------------------------- what the distance is like

  function Mirror(edits: seq<Edit>): seq<Edit> {
    if |edits| == 0 then []
    else
      var last := edits[|edits| - 1];
      Mirror(edits[..|edits| - 1]) + [if last == Insert then Delete else if last == Delete then Insert else last]
  }

  lemma {:induction false} MirrorYields(edits: seq<Edit>, a: Text, b: Text)
    requires Yields(edits, a, b)
    ensures Yields(Mirror(edits), b, a) && Cost(Mirror(edits)) == Cost(edits)
    decreases |edits|
  {
    if |edits| > 0 {
      var front, m, n := edits[..|edits| - 1], |a|, |b|;
      var last := edits[|edits| - 1];
      var mirrored := if last == Insert then Delete else if last == Delete then Insert else last;
      match last {
        case Keep => MirrorYields(front, a[..m - 1], b[..n - 1]);
        case Replace => MirrorYields(front, a[..m - 1], b[..n - 1]);
        case Insert => MirrorYields(front, a, b[..n - 1]);
        case Delete => MirrorYields(front, a[..m - 1], b);
        case Swap => MirrorYields(front, a[..m - 2], b[..n - 2]);
      }
      OneMore(Mirror(front), mirrored);
    }
  }

  /** It does not matter which word is edited. */
  lemma {:induction false} Symmetric(a: Text, b: Text)
    ensures Distance(a, b) == Distance(b, a)
  {
    var there := SomeEdits(a, b);
    var back := SomeEdits(b, a);
    MirrorYields(there, a, b);
    MirrorYields(back, b, a);
    NoCheaper(Mirror(there), b, a);
    NoCheaper(Mirror(back), a, b);
  }

  lemma {:induction false} FreeEditsKeep(edits: seq<Edit>, a: Text, b: Text)
    requires Yields(edits, a, b) && Cost(edits) == 0
    ensures a == b
    decreases |edits|
  {
    if |edits| > 0 {
      var front, m, n := edits[..|edits| - 1], |a|, |b|;
      FreeEditsKeep(front, a[..m - 1], b[..n - 1]);
      assert a == a[..m - 1] + [a[m - 1]] && b == b[..n - 1] + [b[n - 1]];
    }
  }

  lemma {:induction false} KeepsAll(a: Text)
    ensures Distance(a, a) == 0
  {
    if |a| > 0 {
      KeepsAll(a[..|a| - 1]);
    }
  }

  /** Only equal words are at distance zero. */
  lemma {:induction false} ZeroMeansEqual(a: Text, b: Text)
    ensures Distance(a, b) == 0 <==> a == b
  {
    KeepsAll(a);
    if Distance(a, b) == 0 {
      var edits := SomeEdits(a, b);
      FreeEditsKeep(edits, a, b);
    }
  }

  lemma {:induction false} EditsCoverLength(edits: seq<Edit>, a: Text, b: Text)
    requires Yields(edits, a, b)
    ensures Cost(edits) >= |a| - |b| && Cost(edits) >= |b| - |a|
    decreases |edits|
  {
    if |edits| > 0 {
      var front, m, n := edits[..|edits| - 1], |a|, |b|;
      match edits[|edits| - 1]
      case Keep => EditsCoverLength(front, a[..m - 1], b[..n - 1]);
      case Replace => EditsCoverLength(front, a[..m - 1], b[..n - 1]);
      case Insert => EditsCoverLength(front, a, b[..n - 1]);
      case Delete => EditsCoverLength(front, a[..m - 1], b);
      case Swap => EditsCoverLength(front, a[..m - 2], b[..n - 2]);
    }
  }

  function Apart(a: nat, b: nat): nat {
    if a < b then b - a else a - b
  }

  /** Words whose lengths differ by more are further apart than that. */
  lemma {:induction false} AtLeastLengths(a: Text, b: Text)
    ensures Distance(a, b) >= Apart(|a|, |b|)
  {
    var edits := SomeEdits(a, b);
    EditsCoverLength(edits, a, b);
  }

  // ---------------------------------------------------------------- the table

  lemma CellIsDistance(a: Text, b: Text, i: nat, j: nat)
    requires 0 < i <= |a| && 0 < j <= |b|
    ensures
      var value := Cell(Distance(a[..i - 1], b[..j]), Distance(a[..i], b[..j - 1]), Distance(a[..i - 1], b[..j - 1]), a[i - 1] == b[j - 1]);
      Distance(a[..i], b[..j]) ==
        if i > 1 && j > 1 && a[i - 1] == b[j - 2] && a[i - 2] == b[j - 1]
        then MinNat(value, Distance(a[..i - 2], b[..j - 2]) + 1) else value
  {
    var x, y := a[..i], b[..j];
    assert x[..i - 1] == a[..i - 1] && y[..j - 1] == b[..j - 1];
    if i > 1 && j > 1 {
      assert x[..i - 2] == a[..i - 2] && y[..j - 2] == b[..j - 2];
    }
  }

  /** The rows of the table that are filled, up to a place in the last one. */
  ghost predicate Filled(table: array2<nat>, a: Text, b: Text, rows: nat, cols: nat)
    requires table.Length0 == |a| + 1 && table.Length1 == |b| + 1
    reads table
  {
    && (forall i, j :: 0 <= i < rows && i <= |a| && 0 <= j <= |b| ==> table[i, j] == Distance(a[..i], b[..j]))
    && (rows <= |a| ==> forall j :: 0 <= j < cols && j <= |b| ==> table[rows, j] == Distance(a[..rows], b[..j]))
  }

  /** The optimal string alignment distance. */
  method EditDistance(a: Text, b: Text) returns (d: nat)
    ensures d == Distance(a, b) && IsDistance(a, b, d)
  {
    var rows, cols := |a| + 1, |b| + 1;
    var table := new nat[rows, cols]((_, _) => 0);
    for i := 0 to rows
      invariant forall k :: 0 <= k < i ==> table[k, 0] == k
    {
      table[i, 0] := i;
    }
    for j := 0 to cols
      invariant forall k :: 0 <= k < rows ==> table[k, 0] == k
      invariant forall k :: 0 <= k < j ==> table[0, k] == k
    {
      table[0, j] := j;
    }
    hide Distance, Cell, MinNat;
    EdgesAreDistances(a, b);
    for i := 1 to rows
      invariant Filled(table, a, b, i, 1)
      invariant forall k :: 0 <= k < rows ==> table[k, 0] == Distance(a[..k], b[..0])
    {
      FillTableRow(table, a, b, i);
    }
    d := table[|a|, |b|];
    assert a[..|a|] == a && b[..|b|] == b;
    DistanceIsLeast(a, b);
  }

  lemma EdgesAreDistances(a: Text, b: Text)
    ensures forall k :: 0 <= k <= |a| ==> Distance(a[..k], b[..0]) == k
    ensures forall k :: 0 <= k <= |b| ==> Distance(a[..0], b[..k]) == k
  {
  }

  method FillTableRow(table: array2<nat>, a: Text, b: Text, i: nat)
    requires table.Length0 == |a| + 1 && table.Length1 == |b| + 1 && 0 < i <= |a|
    requires Filled(table, a, b, i, 1)
    modifies table
    ensures Filled(table, a, b, i + 1, 0)
    ensures forall k :: 0 <= k < table.Length0 ==> table[k, 0] == old(table[k, 0])
  {
    hide Distance, Cell, MinNat;
    for j := 1 to |b| + 1
      invariant Filled(table, a, b, i, j)
      invariant forall k :: 0 <= k < table.Length0 ==> table[k, 0] == old(table[k, 0])
    {
      var value := Cell(table[i - 1, j], table[i, j - 1], table[i - 1, j - 1], a[i - 1] == b[j - 1]);
      if i > 1 && j > 1 && a[i - 1] == b[j - 2] && a[i - 2] == b[j - 1] {
        value := MinNat(value, table[i - 2, j - 2] + 1);
      }
      CellIsDistance(a, b, i, j);
      table[i, j] := value;
    }
  }

  // ---------------------------------------------------------------- suggesting a word

  /** The words of the list within a distance, in order. */
  function Near(words: seq<Text>, word: Text, limit: nat): seq<Text> {
    if |words| == 0 then []
    else
      var last := words[|words| - 1];
      Near(words[..|words| - 1], word, limit) + if Distance(word, last) <= limit then [last] else []
  }

  /** The only word at the nearest distance, one or two, at which there is any. */
  function Suggestion(words: seq<Text>, word: Text): Option<Text> {
    if |word| < 2 then None
    else if |Near(words, word, 1)| == 1 then Some(Near(words, word, 1)[0])
    else if |Near(words, word, 1)| > 1 then None
    else if |Near(words, word, 2)| == 1 then Some(Near(words, word, 2)[0])
    else None
  }

  /** Filtering by length first loses no word that is near enough. */
  method Matches(words: seq<Text>, word: Text, limit: nat) returns (matches: seq<Text>)
    ensures matches == Near(words, word, limit)
  {
    hide Distance;
    matches := [];
    for i := 0 to |words|
      invariant matches == Near(words[..i], word, limit)
    {
      var candidate := words[i];
      assert words[..i + 1][..i] == words[..i];
      AtLeastLengths(word, candidate);
      if Apart(|candidate|, |word|) <= limit {
        var d := EditDistance(word, candidate);
        if d <= limit {
          matches := matches + [candidate];
        }
      }
    }
    assert words[..|words|] == words;
  }

  method SuggestWord(words: seq<Text>, word: Text) returns (suggestion: Option<Text>)
    ensures suggestion == Suggestion(words, word)
  {
    if |word| < 2 {
      return None;
    }
    for limit := 1 to 3
      invariant limit > 1 ==> |Near(words, word, 1)| == 0
      invariant limit > 2 ==> |Near(words, word, 2)| == 0
    {
      var matches := Matches(words, word, limit);
      if |matches| == 1 {
        return Some(matches[0]);
      }
      if |matches| > 1 {
        return None;
      }
    }
    suggestion := None;
  }

  /** Places in the list are counted, so a word that is near is found there. */
  lemma {:induction false} NearCounts(words: seq<Text>, word: Text, limit: nat, w: Text)
    ensures w in Near(words, word, limit) <==> w in words && Distance(word, w) <= limit
  {
    hide Distance;
    if |words| > 0 {
      NearCounts(words[..|words| - 1], word, limit, w);
      assert words == words[..|words| - 1] + [words[|words| - 1]];
    }
  }

  /** A suggestion is in the list, near, and the only such word: any other is further off than it was looked for. */
  lemma SuggestionIsOnly(words: seq<Text>, word: Text, w: Text)
    requires Suggestion(words, word) == Some(w)
    ensures w in words && Distance(word, w) <= 2
    ensures forall v :: v in words && v != w ==> Distance(word, v) > if Distance(word, w) <= 1 then 1 else 2
  {
    hide Distance;
    var limit := if |Near(words, word, 1)| == 1 then 1 else 2;
    NearCounts(words, word, limit, w);
    NearCounts(words, word, 1, w);
    forall v | v in words && v != w
      ensures Distance(word, v) > limit
    {
      NearCounts(words, word, limit, v);
    }
  }

  /** The word at this place is within the limit, and no other place holds one that is. */
  ghost predicate OnlyNear(words: seq<Text>, word: Text, limit: nat, i: int) {
    && 0 <= i < |words| && Distance(word, words[i]) <= limit
    && forall j :: 0 <= j < |words| && j != i ==> Distance(word, words[j]) > limit
  }

  lemma {:induction false} NearNone(words: seq<Text>, word: Text, limit: nat)
    ensures |Near(words, word, limit)| == 0 <==> forall i :: 0 <= i < |words| ==> Distance(word, words[i]) > limit
  {
    hide Distance;
    if |words| > 0 {
      NearNone(words[..|words| - 1], word, limit);
    }
  }

  lemma {:induction false} NearOne(words: seq<Text>, word: Text, limit: nat, w: Text)
    ensures Near(words, word, limit) == [w] <==> exists i :: 0 <= i < |words| && OnlyNear(words, word, limit, i) && words[i] == w
  {
    hide Distance;
    if |words| > 0 {
      var front, last := words[..|words| - 1], words[|words| - 1];
      NearOne(front, word, limit, w);
      NearNone(front, word, limit);
      NearStep(words, word, limit, w);
      var near := Near(front, word, limit);
      assert near + [last] == [w] <==> |near| == 0 && last == w by {
        assert (near + [last])[|near|] == last;
      }
      assert near + [] == near;
    }
  }

  /** The last place is near, or another one is. */
  lemma NearStep(words: seq<Text>, word: Text, limit: nat, w: Text)
    requires |words| > 0
    ensures
      var front, last := words[..|words| - 1], words[|words| - 1];
      (exists i :: 0 <= i < |words| && OnlyNear(words, word, limit, i) && words[i] == w) <==>
      if Distance(word, last) <= limit then last == w && forall j :: 0 <= j < |front| ==> Distance(word, front[j]) > limit
      else exists i :: 0 <= i < |front| && OnlyNear(front, word, limit, i) && front[i] == w
  {
    hide Distance;
    var front, last := words[..|words| - 1], words[|words| - 1];
    if Distance(word, last) <= limit {
      if last == w && forall j :: 0 <= j < |front| ==> Distance(word, front[j]) > limit {
        assert OnlyNear(words, word, limit, |front|);
      }
    } else {
      forall i | 0 <= i < |front|
        ensures OnlyNear(words, word, limit, i) <==> OnlyNear(front, word, limit, i)
      {
        assert forall j :: 0 <= j < |words| ==> words[j] == if j < |front| then front[j] else last;
      }
    }
  }

  /** The only word within one edit, or the only one within two, at two. */
  ghost predicate IsSuggested(words: seq<Text>, word: Text, i: int) {
    OnlyNear(words, word, 1, i) || (OnlyNear(words, word, 2, i) && Distance(word, words[i]) == 2)
  }

  lemma TwoMeansNoneAtOne(words: seq<Text>, word: Text, i: int)
    requires OnlyNear(words, word, 2, i)
    ensures |Near(words, word, 1)| == 0 <==> Distance(word, words[i]) == 2
  {
    NearNone(words, word, 1);
    hide Distance, Near;
  }

  lemma OneMeansSome(words: seq<Text>, word: Text, i: int)
    requires OnlyNear(words, word, 1, i)
    ensures Near(words, word, 1) == [words[i]]
  {
    hide Near, Distance;
    NearOne(words, word, 1, words[i]);
  }

  /**
   Exactly when a word of at least two characters gets a suggestion, and which: the word at the one place in the list
   within one edit, or, when there is none within one, at the one place within two.
   */
  lemma SuggestionExactly(words: seq<Text>, word: Text, w: Text)
    ensures Suggestion(words, word) == Some(w) <==> |word| >= 2 && exists i :: 0 <= i < |words| && IsSuggested(words, word, i) && words[i] == w
  {
    hide Distance, Near, OnlyNear;
    NearOne(words, word, 1, w);
    NearOne(words, word, 2, w);
    if |Near(words, word, 1)| == 0 && Near(words, word, 2) == [w] {
      var i :| 0 <= i < |words| && OnlyNear(words, word, 2, i) && words[i] == w;
      TwoMeansNoneAtOne(words, word, i);
      assert IsSuggested(words, word, i);
    }
    if Near(words, word, 1) == [w] {
      var i :| 0 <= i < |words| && OnlyNear(words, word, 1, i) && words[i] == w;
      assert IsSuggested(words, word, i);
    }
    if i :| 0 <= i < |words| && IsSuggested(words, word, i) && words[i] == w {
      if OnlyNear(words, word, 1, i) {
        OneMeansSome(words, word, i);
      } else {
        TwoMeansNoneAtOne(words, word, i);
      }
    }
  }
}
