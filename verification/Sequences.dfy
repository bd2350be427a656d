/** Facts about repetition in sequences and the sets of their elements. */
module Sequences {
  ghost predicate NoRepeats<T(!new)>(s: seq<T>) {
    forall i, j :: 0 <= i < j < |s| ==> s[i] != s[j]
  }

  function Elements<T(!new)>(s: seq<T>): (e: set<T>)
    ensures forall x :: x in e <==> x in s
  {
    set x | x in s
  }

  /** The test `new Set(list).size === list.length`. */
  predicate AllDifferent<T(!new,==)>(s: seq<T>) {
    |Elements(s)| == |s|
  }

  lemma {:induction false} ElementsSize<T(!new)>(s: seq<T>)
    ensures |Elements(s)| <= |s|
    ensures NoRepeats(s) <==> |Elements(s)| == |s|
  {
    if |s| == 0 {
      assert Elements(s) == {};
    } else {
      var last, front := s[|s| - 1], s[..|s| - 1];
      ElementsSize(front);
      assert Elements(s) == Elements(front) + {last};
      if last in front {
        var i :| 0 <= i < |front| && front[i] == last;
        assert s[i] == s[|s| - 1];
      } else {
        assert NoRepeats(s) <==> NoRepeats(front) by {
          if NoRepeats(s) {
            forall i, j | 0 <= i < j < |front|
              ensures front[i] != front[j]
            {
              assert s[i] != s[j];
            }
          }
        }
      }
    }
  }

  /** A subset is no larger. */
  lemma SubsetSize<T(!new)>(a: set<T>, b: set<T>)
    requires a <= b
    ensures |a| <= |b|
  {
    assert b == a + (b - a);
  }

  /** Distinct values indexed by the numbers below `n` make a set of size `n`. */
  lemma ImageSize<T(!new)>(s: seq<T>, b: set<T>)
    requires NoRepeats(s) && forall i :: 0 <= i < |s| ==> s[i] in b
    ensures |s| <= |b|
  {
    ElementsSize(s);
    SubsetSize(Elements(s), b);
  }

  function Each<A, B>(s: seq<A>, f: A -> B): (t: seq<B>)
    ensures |t| == |s| && forall i :: 0 <= i < |s| ==> t[i] == f(s[i])
  {
    seq(|s|, i requires 0 <= i < |s| => f(s[i]))
  }

  /** An element counted twice sits at two places. */
  lemma {:induction false} TwoPlaces<T>(s: seq<T>, x: T) returns (i: nat, j: nat)
    requires multiset(s)[x] >= 2
    ensures i < j < |s| && s[i] == x && s[j] == x
  {
    var last, front := s[|s| - 1], s[..|s| - 1];
    assert s == front + [last];
    if last == x {
      assert x in front;
      i :| 0 <= i < |front| && front[i] == x;
      j := |s| - 1;
    } else {
      i, j := TwoPlaces(front, x);
    }
  }

  /** Two places holding the same element count it twice. */
  lemma CountedTwice<T>(s: seq<T>, i: nat, j: nat)
    requires i < j < |s| && s[i] == s[j]
    ensures multiset(s)[s[i]] >= 2
  {
    assert s == s[..j] + ([s[j]] + s[j + 1..]);
    assert s[i] in s[..j];
  }

  /** Two places of a selection come from two places of the list. */
  lemma TwoSources<T>(a: seq<T>, b: seq<T>, i: nat, j: nat) returns (k: nat, l: nat)
    requires multiset(a) <= multiset(b) && i < j < |a|
    ensures k < |b| && l < |b| && k != l && b[k] == a[i] && b[l] == a[j]
  {
    if a[i] == a[j] {
      CountedTwice(a, i, j);
      k, l := TwoPlaces(b, a[i]);
    } else {
      assert a[i] in multiset(b) && a[j] in multiset(b);
      k :| 0 <= k < |b| && b[k] == a[i];
      l :| 0 <= l < |b| && b[l] == a[j];
    }
  }

  /** Keys that differ in a list differ in any selection from it. */
  lemma KeysDiffer<A, B(!new)>(a: seq<A>, b: seq<A>, f: A -> B)
    requires multiset(a) <= multiset(b) && AllDifferent(Each(b, f))
    ensures AllDifferent(Each(a, f))
  {
    ElementsSize(Each(b, f));
    ElementsSize(Each(a, f));
    forall i, j | 0 <= i < j < |a|
      ensures Each(a, f)[i] != Each(a, f)[j]
    {
      var k, l := TwoSources(a, b, i, j);
      assert Each(b, f)[k] != Each(b, f)[l];
    }
  }
}
