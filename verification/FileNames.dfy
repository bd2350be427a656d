/** The file names a payload may carry: what cleaning a name does, and why a cleaned name is left alone. */
module FileNames {
  /** A UTF-16 code unit. */
  type CodeUnit = u: int | 0 <= u < 0x1_0000

  type Text = seq<CodeUnit>

  const MAX_NAME_UNITS: nat := 180

  /** "blob.bin" */
  const FALLBACK: Text := [0x62, 0x6c, 0x6f, 0x62, 0x2e, 0x62, 0x69, 0x6e]

  predicate IsSeparator(u: CodeUnit) {
    u == 0x2f || u == 0x5c
  }

  predicate IsControl(u: CodeUnit) {
    u <= 0x1f || u == 0x7f
  }

  /** One of < > : " | ? * */
  predicate IsReserved(u: CodeUnit) {
    u in {0x3c, 0x3e, 0x3a, 0x22, 0x7c, 0x3f, 0x2a}
  }

  predicate IsSpace(u: CodeUnit) {
    || 0x09 <= u <= 0x0d || u == 0x20 || u == 0xa0 || u == 0x1680 || 0x2000 <= u <= 0x200a
    || u == 0x2028 || u == 0x2029 || u == 0x202f || u == 0x205f || u == 0x3000 || u == 0xfeff
  }

  predicate IsLeading(u: CodeUnit) {
    IsSpace(u) || u == 0x2e
  }

  predicate IsHighSurrogate(u: CodeUnit) {
    0xd800 <= u <= 0xdbff
  }

  predicate IsLowSurrogate(u: CodeUnit) {
    0xdc00 <= u <= 0xdfff
  }

  /** Code units by what they are: slashes, controls, the characters that file systems reserve, and surrogates. */
  lemma UnitsAre(u: CodeUnit)
    ensures IsSeparator(u) <==> u == '/' as int || u == '\\' as int
    ensures IsControl(u) <==> u < 32 || u == 127
    ensures IsReserved(u) <==>
      u in {'<' as int, '>' as int, ':' as int, '"' as int, '|' as int, '?' as int, '*' as int}
    ensures IsSpace(u) <==>
      u in {9, 10, 11, 12, 13, 32, 0xa0, 0x1680, 0x2000, 0x2001, 0x2002, 0x2003, 0x2004, 0x2005, 0x2006, 0x2007, 0x2008, 0x2009,
            0x200a, 0x2028, 0x2029, 0x202f, 0x205f, 0x3000, 0xfeff}
    ensures IsLeading(u) <==> IsSpace(u) || u == '.' as int
    ensures IsHighSurrogate(u) <==> u / 0x400 == 0x36
    ensures IsLowSurrogate(u) <==> u / 0x400 == 0x37
  {
  }

  /** What follows the last separator. */
  function Leaf(value: Text): (leaf: Text)
    ensures forall i :: 0 <= i < |leaf| ==> !IsSeparator(leaf[i])
    ensures (forall i :: 0 <= i < |value| ==> !IsSeparator(value[i])) ==> leaf == value
  {
    if |value| == 0 || IsSeparator(value[|value| - 1]) then []
    else Leaf(value[..|value| - 1]) + [value[|value| - 1]]
  }

  function WithoutControls(value: Text): (clean: Text)
    ensures forall u :: u in clean <==> u in value && !IsControl(u)
    ensures (forall i :: 0 <= i < |value| ==> !IsControl(value[i])) ==> clean == value
  {
    if |value| == 0 then []
    else
      var last := value[|value| - 1];
      WithoutControls(value[..|value| - 1]) + if IsControl(last) then [] else [last]
  }

  function WithoutReserved(value: Text): (clean: Text)
    ensures |clean| == |value|
    ensures forall i :: 0 <= i < |value| ==> clean[i] == if IsReserved(value[i]) then 0x5f else value[i]
  {
    seq(|value|, i requires 0 <= i < |value| => if IsReserved(value[i]) then 0x5f else value[i])
  }

  function StripStart(value: Text): Text {
    if |value| > 0 && IsLeading(value[0]) then StripStart(value[1..]) else value
  }

  function TrimEnd(value: Text): Text {
    if |value| > 0 && IsSpace(value[|value| - 1]) then TrimEnd(value[..|value| - 1]) else value
  }

  /** A cut at the limit would come between the halves of a surrogate pair. */
  predicate SplitsPair(name: Text)
    requires |name| > MAX_NAME_UNITS
  {
    IsHighSurrogate(name[MAX_NAME_UNITS - 1]) && IsLowSurrogate(name[MAX_NAME_UNITS])
  }

  /** At most 180 code units, never cutting a surrogate pair in two. */
  function Shorten(name: Text): Text {
    if |name| <= MAX_NAME_UNITS then name
    else
      var end := if IsHighSurrogate(name[179]) && IsLowSurrogate(name[180]) then 179 else 180;
      TrimEnd(name[..end])
  }

  /** The leaf is a suffix without separators, and stands behind a separator unless it is the whole. */
  lemma {:induction false} LeafDoes(value: Text)
    ensures var leaf := Leaf(value);
      && |leaf| <= |value| && leaf == value[|value| - |leaf|..]
      && (|leaf| < |value| ==> IsSeparator(value[|value| - |leaf| - 1]))
  {
    if |value| > 0 && !IsSeparator(value[|value| - 1]) {
      LeafDoes(value[..|value| - 1]);
    }
  }

  lemma WithoutLast(a: Text, u: CodeUnit)
    ensures WithoutControls(a + [u]) == WithoutControls(a) + if IsControl(u) then [] else [u]
  {
    assert (a + [u])[..|a|] == a;
  }

  /** Controls are taken out one by one; the rest keeps its order. */
  lemma {:induction false} WithoutControlsDoes(a: Text, b: Text)
    ensures WithoutControls(a + b) == WithoutControls(a) + WithoutControls(b)
  {
    hide *;
    if |b| == 0 {
      assert a + b == a && b == [];
      NothingToRemove();
    } else {
      var front, last := b[..|b| - 1], b[|b| - 1];
      WithoutControlsDoes(a, front);
      assert a + b == (a + front) + [last] && b == front + [last];
      WithoutLast(a + front, last);
      WithoutLast(front, last);
    }
  }

  lemma NothingToRemove()
    ensures WithoutControls([]) == []
  {
  }

  /** A suffix that does not start with a space or a dot, behind nothing but those. */
  lemma {:induction false} StripStartDoes(value: Text)
    ensures var stripped := StripStart(value);
      && |stripped| <= |value| && stripped == value[|value| - |stripped|..]
      && (forall i :: 0 <= i < |value| - |stripped| ==> IsLeading(value[i]))
      && (|stripped| > 0 ==> !IsLeading(stripped[0]))
      && (|value| > 0 && !IsLeading(value[0]) ==> stripped == value)
  {
    if |value| > 0 && IsLeading(value[0]) {
      StripStartDoes(value[1..]);
      forall i | 0 <= i < |value| - |StripStart(value)|
        ensures IsLeading(value[i])
      {
        assert i > 0 ==> value[i] == value[1..][i - 1];
      }
    }
  }

  /** A prefix that does not end with a space; nothing but spaces is cut off. */
  lemma {:induction false} TrimEndDoes(value: Text)
    ensures var trimmed := TrimEnd(value);
      && |trimmed| <= |value| && trimmed == value[..|trimmed|]
      && (|trimmed| > 0 ==> !IsSpace(trimmed[|trimmed| - 1]))
      && (forall i :: |trimmed| <= i < |value| ==> IsSpace(value[i]))
      && (|value| > 0 && !IsSpace(value[0]) ==> |trimmed| > 0)
      && (|value| > 0 && !IsSpace(value[|value| - 1]) ==> trimmed == value)
  {
    if |value| > 0 && IsSpace(value[|value| - 1]) {
      TrimEndDoes(value[..|value| - 1]);
    }
  }

  lemma ShortenDoes(name: Text)
    ensures var short := Shorten(name);
      && |short| <= MAX_NAME_UNITS && |short| <= |name| && short == name[..|short|]
      && (|name| > 0 && !IsSpace(name[0]) && !IsSpace(name[|name| - 1]) ==> |short| > 0 && !IsSpace(short[|short| - 1]))
      && (0 < |short| < |name| ==> !(IsHighSurrogate(name[|short| - 1]) && IsLowSurrogate(name[|short|])))
      && (|name| <= MAX_NAME_UNITS ==> short == name)
      && (|name| > MAX_NAME_UNITS ==>
            && (forall i :: |short| <= i < MAX_NAME_UNITS - 1 ==> IsSpace(name[i]))
            && (|short| < MAX_NAME_UNITS ==> IsSpace(name[MAX_NAME_UNITS - 1]) || SplitsPair(name)))
  {
    if |name| > MAX_NAME_UNITS {
      var end := if IsHighSurrogate(name[179]) && IsLowSurrogate(name[180]) then 179 else 180;
      var cut := name[..end];
      TrimEndDoes(cut);
      hide TrimEnd;
      assert |TrimEnd(cut)| < end ==> IsSpace(cut[|TrimEnd(cut)|]);
    }
  }

  function SanitiseFileName(nfc: Text -> Text, value: Text): Text {
    var cleaned := TrimEnd(StripStart(WithoutReserved(nfc(WithoutControls(Leaf(value))))));
    Shorten(if cleaned == [] then FALLBACK else cleaned)
  }

  /** What is left of a name before its ends are cut. */
  function Inside(nfc: Text -> Text, value: Text): Text {
    WithoutReserved(nfc(WithoutControls(Leaf(value))))
  }

  /**
   What cleaning makes of any name: the fallback if nothing but spaces and dots is inside. Otherwise what is inside, from
   its first character that is neither to its last that is not a space, and of that as much as there is room for.
   */
  lemma SanitiseDoes(nfc: Text -> Text, value: Text)
    ensures
      var inside := Inside(nfc, value);
      if forall i :: 0 <= i < |inside| ==> IsLeading(inside[i]) then SanitiseFileName(nfc, value) == FALLBACK
      else exists from, to :: IsStretch(inside, from, to) && SanitiseFileName(nfc, value) == Shorten(inside[from..to])
  {
    var inside := Inside(nfc, value);
    var stripped := StripStart(inside);
    var cleaned := TrimEnd(stripped);
    hide WithoutReserved, WithoutControls, Leaf, StripStart, TrimEnd;
    StripStartDoes(inside);
    TrimEndDoes(stripped);
    if stripped == [] {
      FallbackIsShort();
    } else {
      var from := |inside| - |stripped|;
      assert inside[from] == stripped[0];
      SpacesLead(stripped[0]);
      assert |cleaned| > 0;
      StretchOf(inside, stripped, cleaned);
    }
  }

  lemma SpacesLead(u: CodeUnit)
    ensures IsSpace(u) ==> IsLeading(u)
  {
  }

  /** From the first character that is neither a space nor a dot to behind the last that is not a space. */
  predicate IsStretch(text: Text, from: int, to: int) {
    && 0 <= from < to <= |text| && !IsLeading(text[from]) && !IsSpace(text[to - 1])
    && (forall i :: 0 <= i < from ==> IsLeading(text[i])) && (forall i :: to <= i < |text| ==> IsSpace(text[i]))
  }

  lemma StretchOf(inside: Text, stripped: Text, cleaned: Text)
    requires 0 < |cleaned| <= |stripped| <= |inside| && stripped == inside[|inside| - |stripped|..] && cleaned == stripped[..|cleaned|]
    requires !IsLeading(stripped[0]) && !IsSpace(cleaned[|cleaned| - 1])
    requires forall i :: 0 <= i < |inside| - |stripped| ==> IsLeading(inside[i])
    requires forall i :: |cleaned| <= i < |stripped| ==> IsSpace(stripped[i])
    ensures var from := |inside| - |stripped|; var to := from + |cleaned|;
            IsStretch(inside, from, to) && inside[from..to] == cleaned
  {
    hide IsLeading, IsSpace;
    var from := |inside| - |stripped|;
    var to := from + |cleaned|;
    assert inside[from] == stripped[0] && inside[to - 1] == cleaned[|cleaned| - 1];
    forall i | to <= i < |inside|
      ensures IsSpace(inside[i])
    {
      assert inside[i] == stripped[i - from];
    }
  }

  /**
   What is taken of Unicode's normalisation form C: it is idempotent, closed under substrings, still holds once
   reserved characters are underscores, and introduces no control and no separator.
   */
  ghost predicate Normalises(nfc: Text -> Text) {
    && (forall s :: nfc(nfc(s)) == nfc(s))
    && (forall s, i, j :: 0 <= i <= j <= |s| && nfc(s) == s ==> nfc(s[i..j]) == s[i..j])
    && (forall s :: nfc(s) == s ==> nfc(WithoutReserved(s)) == WithoutReserved(s))
    && (forall s, u :: (IsControl(u) || IsSeparator(u)) && u !in s ==> u !in nfc(s))
    && nfc(FALLBACK) == FALLBACK
  }

  /** Without controls, separators and reserved characters. */
  predicate IsPlain(t: Text) {
    forall i :: 0 <= i < |t| ==> !IsControl(t[i]) && !IsSeparator(t[i]) && !IsReserved(t[i])
  }

  /** The names that need no cleaning. */
  ghost predicate IsClean(nfc: Text -> Text, name: Text) {
    && 0 < |name| <= MAX_NAME_UNITS && nfc(name) == name && IsPlain(name)
    && !IsLeading(name[0]) && !IsSpace(name[|name| - 1])
  }

  lemma FallbackIsClean(nfc: Text -> Text)
    requires Normalises(nfc)
    ensures IsClean(nfc, FALLBACK)
  {
  }

  /** After normalisation and replacement there is no control, separator or reserved character. */
  lemma ReplacedIsPlain(nfc: Text -> Text, value: Text)
    requires Normalises(nfc)
    ensures
      var replaced := WithoutReserved(nfc(WithoutControls(Leaf(value))));
      nfc(replaced) == replaced && IsPlain(replaced)
  {
    var leaf := Leaf(value);
    var plain := WithoutControls(leaf);
    var normal := nfc(plain);
    forall i | 0 <= i < |normal|
      ensures !IsControl(normal[i]) && !IsSeparator(normal[i])
    {
      var u := normal[i];
      assert u in normal && (IsControl(u) || IsSeparator(u) ==> u !in plain);
    }
    assert nfc(normal) == normal;
  }

  lemma SliceIsClean(nfc: Text -> Text, value: Text, i: nat, j: nat)
    requires Normalises(nfc) && nfc(value) == value && i < j <= |value| && j - i <= MAX_NAME_UNITS
    requires IsPlain(value)
    requires !IsLeading(value[i]) && !IsSpace(value[j - 1])
    ensures IsClean(nfc, value[i..j])
  {
  }

  lemma SanitisedIsClean(nfc: Text -> Text, value: Text)
    requires Normalises(nfc)
    ensures IsClean(nfc, SanitiseFileName(nfc, value))
  {
    ReplacedIsPlain(nfc, value);
    hide Leaf, WithoutControls, WithoutReserved, StripStart, TrimEnd, Shorten, IsClean, Normalises;
    var replaced := WithoutReserved(nfc(WithoutControls(Leaf(value))));
    if TrimEnd(StripStart(replaced)) == [] {
      FallbackIsClean(nfc);
      FallbackIsShort();
    } else {
      TrimmedIsClean(nfc, replaced);
    }
  }

  lemma FallbackIsShort()
    ensures Shorten(FALLBACK) == FALLBACK && FALLBACK != []
  {
  }

  lemma TrimmedIsClean(nfc: Text -> Text, replaced: Text)
    requires Normalises(nfc) && nfc(replaced) == replaced && TrimEnd(StripStart(replaced)) != []
    requires IsPlain(replaced)
    ensures IsClean(nfc, Shorten(TrimEnd(StripStart(replaced))))
  {
    hide *;
    var stripped := StripStart(replaced);
    var cleaned := TrimEnd(stripped);
    var short := Shorten(cleaned);
    StripStartDoes(replaced);
    TrimEndDoes(stripped);
    StartsThere(stripped, cleaned);
    ShortIsCut(cleaned, short);
    CutIsClean(nfc, replaced, stripped, cleaned, short);
  }

  lemma ShortIsCut(cleaned: Text, short: Text)
    requires short == Shorten(cleaned) && |cleaned| > 0 && !IsSpace(cleaned[0]) && !IsSpace(cleaned[|cleaned| - 1])
    ensures 0 < |short| <= MAX_NAME_UNITS && |short| <= |cleaned| && short == cleaned[..|short|] && !IsSpace(short[|short| - 1])
  {
    hide *;
    ShortenDoes(cleaned);
  }

  lemma StartsThere(stripped: Text, cleaned: Text)
    requires 0 < |cleaned| <= |stripped| && cleaned == stripped[..|cleaned|] && !IsLeading(stripped[0])
    ensures !IsLeading(cleaned[0]) && !IsSpace(cleaned[0])
  {
  }

  lemma CutIsClean(nfc: Text -> Text, replaced: Text, stripped: Text, cleaned: Text, short: Text)
    requires Normalises(nfc) && nfc(replaced) == replaced
    requires IsPlain(replaced)
    requires 0 < |short| <= |cleaned| <= |stripped| <= |replaced| && |short| <= MAX_NAME_UNITS
    requires stripped == replaced[|replaced| - |stripped|..] && cleaned == stripped[..|cleaned|] && short == cleaned[..|short|]
    requires !IsLeading(cleaned[0]) && !IsSpace(short[|short| - 1])
    ensures IsClean(nfc, short)
  {
    hide *;
    SliceOfSlice(replaced, stripped, cleaned, short);
    var start := |replaced| - |stripped|;
    assert short[0] == replaced[start] && short[|short| - 1] == replaced[start + |short| - 1];
    SliceIsClean(nfc, replaced, start, start + |short|);
  }

  lemma SliceOfSlice(a: Text, b: Text, c: Text, d: Text)
    requires |d| <= |c| <= |b| <= |a| && b == a[|a| - |b|..] && c == b[..|c|] && d == c[..|d|]
    ensures d == a[|a| - |b|..|a| - |b| + |d|]
  {
  }

  /** Cleaning changes nothing exactly when the name is clean. So cleaning is idempotent, and a stored name is a fixed point. */
  lemma FixedPoints(nfc: Text -> Text, name: Text)
    requires Normalises(nfc)
    ensures SanitiseFileName(nfc, name) == name <==> IsClean(nfc, name)
    ensures SanitiseFileName(nfc, SanitiseFileName(nfc, name)) == SanitiseFileName(nfc, name)
  {
    SanitisedIsClean(nfc, name);
    CleanIsFixed(nfc, name);
    CleanIsFixed(nfc, SanitiseFileName(nfc, name));
  }

  lemma CleanIsFixed(nfc: Text -> Text, name: Text)
    ensures IsClean(nfc, name) ==> SanitiseFileName(nfc, name) == name
  {
    if IsClean(nfc, name) {
      assert WithoutReserved(name) == name;
      StripStartDoes(name);
      TrimEndDoes(name);
    }
  }
}
