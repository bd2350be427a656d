/**
 The canonical text of a JSON value: no white space, members in ascending order of their names, whole numbers from 0
 to 2^53 - 1, no null. A text is canonical for at most one value.
 */
module Json {
  import opened Wrappers
  import opened FileNames

  /**
   A parsed value. An object is a finite map, held as its members in ascending order of name. `Other` is whatever the
   canonical form leaves out: null, and numbers that are not whole, negative or too large.
   */
  datatype Value =
    | Other
    | Str(text: Text)
    | Num(n: nat)
    | Bool(b: bool)
    | Arr(items: seq<Value>)
    | Obj(members: seq<Member>)

  datatype Member = Member(name: Text, value: Value)

  const MAX_SAFE_INTEGER: nat := 0x1f_ffff_ffff_ffff

  const QUOTE: CodeUnit := 0x22
  const BACKSLASH: CodeUnit := 0x5c
  const COMMA: CodeUnit := 0x2c
  const COLON: CodeUnit := 0x3a

  // ---------------------------------------------------------------- text

  /** The order of names: by UTF-16 code units. */
  predicate Below(a: Text, b: Text) {
    if |b| == 0 then false
    else if |a| == 0 then true
    else a[0] < b[0] || (a[0] == b[0] && Below(a[1..], b[1..]))
  }

  /** Neighbours in order, which is all a sorted list needs. */
  predicate InOrder(members: seq<Member>) {
    forall i :: 0 <= i < |members| - 1 ==> Below(members[i].name, members[i + 1].name)
  }

  /** No half of a surrogate pair stands alone. */
  predicate WellFormed(t: Text) {
    && (forall i :: 0 <= i < |t| && IsHighSurrogate(t[i]) ==> i + 1 < |t| && IsLowSurrogate(t[i + 1]))
    && (forall i :: 0 <= i < |t| && IsLowSurrogate(t[i]) ==> 0 < i && IsHighSurrogate(t[i - 1]))
  }

  function HexDigit(n: nat): CodeUnit
    requires n < 16
  {
    if n < 10 then 0x30 + n else 0x61 + n - 10
  }

  /** One code unit as JSON.stringify writes it. */
  function Escape(u: CodeUnit): (t: Text)
    ensures |t| > 0
  {
    if u == QUOTE || u == BACKSLASH then [BACKSLASH, u]
    else if u == 0x08 then [BACKSLASH, 0x62]
    else if u == 0x09 then [BACKSLASH, 0x74]
    else if u == 0x0a then [BACKSLASH, 0x6e]
    else if u == 0x0c then [BACKSLASH, 0x66]
    else if u == 0x0d then [BACKSLASH, 0x72]
    else if u < 0x20 then [BACKSLASH, 0x75, 0x30, 0x30, HexDigit(u / 16), HexDigit(u % 16)]
    else [u]
  }

  function Escapes(t: Text): Text {
    if |t| == 0 then [] else Escape(t[0]) + Escapes(t[1..])
  }

  function Quoted(t: Text): Text {
    [QUOTE] + Escapes(t) + [QUOTE]
  }

  function Digits(n: nat): (t: Text)
    ensures |t| > 0
  {
    (if n < 10 then [] else Digits(n / 10)) + [0x30 + n % 10]
  }

  /** "true", "false" */
  const TRUE: Text := [0x74, 0x72, 0x75, 0x65]
  const FALSE: Text := [0x66, 0x61, 0x6c, 0x73, 0x65]

  // ---------------------------------------------------------------- printing

  /** The canonical text, if the value has one. */
  function CanonicalJson(v: Value): Option<Text>
    decreases v
  {
    match v
    case Other => None
    case Str(text) => if WellFormed(text) then Some(Quoted(text)) else None
    case Num(n) => if n <= MAX_SAFE_INTEGER then Some(Digits(n)) else None
    case Bool(b) => Some(if b then TRUE else FALSE)
    case Arr(items) =>
      var inner := CanonicalItems(items);
      if inner.None? then None else Some([0x5b] + inner.value + [0x5d])
    case Obj(members) =>
      var inner := CanonicalMembers(members);
      if inner.None? || !InOrder(members) then None else Some([0x7b] + inner.value + [0x7d])
  }

  function CanonicalItems(items: seq<Value>): Option<Text>
    decreases items
  {
    if |items| == 0 then Some([])
    else
      var first, rest := CanonicalJson(items[0]), CanonicalItems(items[1..]);
      if first.None? || rest.None? then None
      else Some(first.value + (if |items| == 1 then [] else [COMMA] + rest.value))
  }

  function CanonicalMembers(members: seq<Member>): Option<Text>
    decreases members
  {
    if |members| == 0 then Some([])
    else
      var first, rest := CanonicalMember(members[0]), CanonicalMembers(members[1..]);
      if first.None? || rest.None? then None
      else Some(first.value + (if |members| == 1 then [] else [COMMA] + rest.value))
  }

  function CanonicalMember(m: Member): Option<Text>
    decreases m
  {
    var value := CanonicalJson(m.value);
    if !WellFormed(m.name) || value.None? then None else Some(Quoted(m.name) + [COLON] + value.value)
  }

  // ---------------------------------------------------------------- what can be printed, and as what

  /** Values of numbers up to 2^53 - 1, whole texts and objects with their names in order have a canonical text. */
  predicate IsPrintable(v: Value)
    decreases v
  {
    match v
    case Other => false
    case Str(text) => WellFormed(text)
    case Num(n) => n < 9_007_199_254_740_992
    case Bool(_) => true
    case Arr(items) => forall i :: 0 <= i < |items| ==> IsPrintable(items[i])
    case Obj(members) =>
      && (forall i :: 0 <= i < |members| ==> WellFormed(members[i].name) && IsPrintable(members[i].value))
      && forall i :: 0 < i < |members| ==> Below(members[i - 1].name, members[i].name)
  }

  lemma {:induction false} PrintsExactly(v: Value)
    ensures CanonicalJson(v).Some? <==> IsPrintable(v)
    decreases v
  {
    hide Quoted, Digits, WellFormed, Below;
    match v
    case Arr(items) => ItemsPrint(items);
    case Obj(members) =>
      MembersPrint(members);
      OrderIs(members);
    case _ =>
  }

  lemma OrderIs(members: seq<Member>)
    ensures InOrder(members) <==> forall i :: 0 < i < |members| ==> Below(members[i - 1].name, members[i].name)
  {
    hide Below;
    if forall i :: 0 < i < |members| ==> Below(members[i - 1].name, members[i].name) {
      forall i | 0 <= i < |members| - 1
        ensures Below(members[i].name, members[i + 1].name)
      {
        assert members[i + 1 - 1] == members[i];
      }
    }
  }

  lemma {:induction false} ItemsPrint(items: seq<Value>)
    ensures CanonicalItems(items).Some? <==> forall i :: 0 <= i < |items| ==> IsPrintable(items[i])
    decreases items
  {
    hide CanonicalJson, IsPrintable;
    if |items| > 0 {
      PrintsExactly(items[0]);
      ItemsPrint(items[1..]);
      assert items == [items[0]] + items[1..];
    }
  }

  lemma {:induction false} MembersPrint(members: seq<Member>)
    ensures CanonicalMembers(members).Some? <==>
            forall i :: 0 <= i < |members| ==> WellFormed(members[i].name) && IsPrintable(members[i].value)
    decreases members
  {
    hide CanonicalJson, IsPrintable, WellFormed, Quoted;
    if |members| > 0 {
      PrintsExactly(members[0].value);
      MembersPrint(members[1..]);
      assert members == [members[0]] + members[1..];
    }
  }

  /** Only quotes, backslashes and controls are escaped, and with a backslash. */
  lemma EscapedExactly(u: CodeUnit)
    ensures Escape(u) == [u] <==> u >= 0x20 && u != QUOTE && u != BACKSLASH
    ensures Escape(u) != [u] ==> Escape(u)[0] == BACKSLASH && |Escape(u)| in {2, 6}
    ensures u < 0x20 && u !in {0x08, 0x09, 0x0a, 0x0c, 0x0d} ==> |Escape(u)| == 6
  {
  }

  /** A text with nothing to escape stands between quotes as it is. */
  lemma {:induction false} PlainIsItself(t: Text)
    requires forall i :: 0 <= i < |t| ==> t[i] >= 0x20 && t[i] != QUOTE && t[i] != BACKSLASH
    ensures Escapes(t) == t && Quoted(t) == [0x22] + t + [0x22]
  {
    if |t| > 0 {
      PlainIsItself(t[1..]);
      assert Escape(t[0]) == [t[0]];
    }
  }

  // ---------------------------------------------------------------- reading what was printed

  predicate IsDigit(u: CodeUnit) {
    0x30 <= u <= 0x39
  }

  function HexValue(u: CodeUnit): (n: nat)
    ensures n < 16
  {
    if IsDigit(u) then u - 0x30 else if 0x61 <= u <= 0x66 then u - 0x61 + 10 else 0
  }

  /** One written code unit, and how many units it was written with. */
  function Unescape(t: Text): (CodeUnit, nat)
    requires |t| > 0
  {
    if t[0] != BACKSLASH || |t| == 1 then (t[0], 1)
    else if t[1] == 0x62 then (0x08, 2)
    else if t[1] == 0x74 then (0x09, 2)
    else if t[1] == 0x6e then (0x0a, 2)
    else if t[1] == 0x66 then (0x0c, 2)
    else if t[1] == 0x72 then (0x0d, 2)
    else if t[1] == 0x75 && |t| >= 6 then (HexValue(t[4]) * 16 + HexValue(t[5]), 6)
    else (t[1], 2)
  }

  /** The string up to its closing quote, and what follows. */
  function ReadString(t: Text): (r: Option<(Text, Text)>)
    ensures r.Some? ==> |r.value.1| < |t|
    decreases |t|
  {
    if |t| == 0 then None
    else if t[0] == QUOTE then Some(([], t[1..]))
    else
      var (u, n) := Unescape(t);
      var rest := ReadString(t[n..]);
      if rest.None? then None else Some(([u] + rest.value.0, rest.value.1))
  }

  function DigitRun(t: Text): (n: nat)
    ensures n <= |t|
  {
    if |t| > 0 && IsDigit(t[0]) then 1 + DigitRun(t[1..]) else 0
  }

  function NumberOf(digits: Text): nat {
    if |digits| == 0 then 0
    else NumberOf(digits[..|digits| - 1]) * 10 + (if IsDigit(digits[|digits| - 1]) then digits[|digits| - 1] - 0x30 else 0)
  }

  predicate StartsWith(t: Text, prefix: Text) {
    |prefix| <= |t| && t[..|prefix|] == prefix
  }

  function ReadValue(t: Text): (r: Option<(Value, Text)>)
    ensures r.Some? ==> |r.value.1| < |t|
    decreases |t|, 0
  {
    if |t| == 0 then None
    else if t[0] == QUOTE then
      var s := ReadString(t[1..]);
      if s.None? then None else Some((Str(s.value.0), s.value.1))
    else if IsDigit(t[0]) then
      Some((Num(NumberOf(t[..DigitRun(t)])), t[DigitRun(t)..]))
    else if StartsWith(t, TRUE) then Some((Bool(true), t[|TRUE|..]))
    else if StartsWith(t, FALSE) then Some((Bool(false), t[|FALSE|..]))
    else if t[0] == 0x5b then
      if |t| > 1 && t[1] == 0x5d then Some((Arr([]), t[2..]))
      else
        var items := ReadItems(t[1..]);
        if items.None? then None else Some((Arr(items.value.0), items.value.1))
    else if t[0] == 0x7b then
      if |t| > 1 && t[1] == 0x7d then Some((Obj([]), t[2..]))
      else
        var members := ReadMembers(t[1..]);
        if members.None? then None else Some((Obj(members.value.0), members.value.1))
    else None
  }

  function ReadItems(t: Text): (r: Option<(seq<Value>, Text)>)
    ensures r.Some? ==> |r.value.1| < |t|
    decreases |t|, 1
  {
    var first := ReadValue(t);
    if first.None? || |first.value.1| == 0 then None
    else
      var after := first.value.1;
      if after[0] == 0x5d then Some(([first.value.0], after[1..]))
      else
        var rest := ReadItems(after[1..]);
        if rest.None? then None else Some(([first.value.0] + rest.value.0, rest.value.1))
  }

  function ReadMember(t: Text): (r: Option<(Member, Text)>)
    ensures r.Some? ==> |r.value.1| < |t|
    decreases |t|, 1
  {
    if |t| == 0 then None
    else
      var name := ReadString(t[1..]);
      if name.None? || |name.value.1| == 0 then None
      else
        var value := ReadValue(name.value.1[1..]);
        if value.None? then None else Some((Member(name.value.0, value.value.0), value.value.1))
  }

  function ReadMembers(t: Text): (r: Option<(seq<Member>, Text)>)
    ensures r.Some? ==> |r.value.1| < |t|
    decreases |t|, 2
  {
    var first := ReadMember(t);
    if first.None? || |first.value.1| == 0 then None
    else
      var after := first.value.1;
      if after[0] == 0x7d then Some(([first.value.0], after[1..]))
      else
        var rest := ReadMembers(after[1..]);
        if rest.None? then None else Some(([first.value.0] + rest.value.0, rest.value.1))
  }

  // ---------------------------------------------------------------- strings and numbers read back

  lemma UnescapesOne(u: CodeUnit, rest: Text)
    ensures |Escape(u) + rest| > 0 && Unescape(Escape(u) + rest) == (u, |Escape(u)|) && (Escape(u) + rest)[0] != QUOTE
  {
  }

  lemma ReadsOne(u: CodeUnit, tail: Text, s: Text, rest: Text)
    requires ReadString(tail) == Some((s, rest))
    ensures ReadString(Escape(u) + tail) == Some(([u] + s, rest))
  {
    UnescapesOne(u, tail);
    assert (Escape(u) + tail)[|Escape(u)|..] == tail;
    hide Escape, Unescape;
  }

  lemma EscapesOne(s: Text)
    ensures Escapes(s) == if |s| == 0 then [] else Escape(s[0]) + Escapes(s[1..])
  {
  }

  lemma ReadsQuote(rest: Text)
    ensures ReadString([QUOTE] + rest) == Some(([], rest))
  {
  }

  lemma {:induction false} StringReads(s: Text, rest: Text)
    ensures ReadString(Escapes(s) + [QUOTE] + rest) == Some((s, rest))
    decreases |s|
  {
    hide *;
    EscapesOne(s);
    if |s| == 0 {
      ReadsQuote(rest);
      assert [] + [QUOTE] + rest == [QUOTE] + rest;
    } else {
      var head, tail := Escape(s[0]), Escapes(s[1..]);
      StringReads(s[1..], rest);
      ReadsOne(s[0], tail + [QUOTE] + rest, s[1..], rest);
      assert head + tail + [QUOTE] + rest == head + (tail + [QUOTE] + rest);
      assert [s[0]] + s[1..] == s;
    }
  }

  lemma NumberOfNext(front: Text, d: nat)
    requires d < 10
    ensures NumberOf(front + [0x30 + d]) == NumberOf(front) * 10 + d
  {
    assert (front + [0x30 + d])[..|front|] == front;
  }

  lemma DigitsNext(n: nat)
    ensures Digits(n) == (if n < 10 then [] else Digits(n / 10)) + [0x30 + n % 10]
  {
  }

  lemma {:induction false} DigitsRead(n: nat)
    ensures NumberOf(Digits(n)) == n && forall i :: 0 <= i < |Digits(n)| ==> IsDigit(Digits(n)[i])
  {
    DigitsNext(n);
    hide Digits;
    if n < 10 {
      NumberOfNext([], n);
    } else {
      DigitsRead(n / 10);
      hide NumberOf;
      NumberOfNext(Digits(n / 10), n % 10);
    }
  }

  lemma {:induction false} RunOfDigits(digits: Text, rest: Text)
    requires forall i :: 0 <= i < |digits| ==> IsDigit(digits[i])
    requires |rest| > 0 ==> !IsDigit(rest[0])
    ensures DigitRun(digits + rest) == |digits|
  {
    if |digits| > 0 {
      RunOfDigits(digits[1..], rest);
      assert (digits + rest)[1..] == digits[1..] + rest;
    } else {
      assert digits + rest == rest;
    }
  }

  // ---------------------------------------------------------------- every value read back

  /** What may follow a value in canonical text. */
  predicate Follows(rest: Text) {
    |rest| > 0 ==> !IsDigit(rest[0])
  }

  /** The value's text, and anything that may follow it, reads back as the value and what follows. */
  ghost predicate ReadsBack(v: Value, t: Text) {
    forall rest :: Follows(rest) ==> ReadValue(t + rest) == Some((v, rest))
  }

  lemma StringBack(s: Text)
    ensures ReadsBack(Str(s), Quoted(s))
  {
    hide ReadString, Escapes;
    forall rest | Follows(rest)
      ensures ReadValue(Quoted(s) + rest) == Some((Str(s), rest))
    {
      StringReads(s, rest);
      var t := Quoted(s) + rest;
      assert t[1..] == Escapes(s) + [QUOTE] + rest;
    }
  }

  lemma NumberBack(n: nat)
    ensures ReadsBack(Num(n), Digits(n))
  {
    DigitsRead(n);
    var digits := Digits(n);
    hide Digits, ReadString, NumberOf;
    forall rest | Follows(rest)
      ensures ReadValue(digits + rest) == Some((Num(n), rest))
    {
      RunOfDigits(digits, rest);
      var t := digits + rest;
      assert t[0] == digits[0] && IsDigit(t[0]);
      assert t[..|digits|] == digits && t[|digits|..] == rest;
    }
  }

  lemma BoolBack(b: bool)
    ensures ReadsBack(Bool(b), if b then TRUE else FALSE)
  {
    hide ReadString, ReadItems, ReadMembers;
    var word := if b then TRUE else FALSE;
    forall rest | Follows(rest)
      ensures ReadValue(word + rest) == Some((Bool(b), rest))
    {
      var t := word + rest;
      assert t[..|word|] == word && t[|word|..] == rest && t[0] == word[0];
    }
  }

  ghost predicate ItemsBack(items: seq<Value>, t: Text) {
    forall rest :: ReadItems(t + [0x5d] + rest) == Some((items, rest))
  }

  ghost predicate MembersBack(members: seq<Member>, t: Text) {
    forall rest :: ReadMembers(t + [0x7d] + rest) == Some((members, rest))
  }

  ghost predicate MemberBack(m: Member, t: Text) {
    forall rest :: Follows(rest) ==> ReadMember(t + rest) == Some((m, rest))
  }

  lemma OneItem(v: Value, t: Text)
    requires ReadsBack(v, t)
    ensures ItemsBack([v], t)
  {
    hide ReadValue;
    forall rest
      ensures ReadItems(t + [0x5d] + rest) == Some(([v], rest))
    {
      var after := [0x5d] + rest;
      assert t + [0x5d] + rest == t + after && after[1..] == rest;
      assert Follows(after);
    }
  }

  lemma MoreItems(v: Value, t: Text, items: seq<Value>, more: Text)
    requires ReadsBack(v, t) && ItemsBack(items, more)
    ensures ItemsBack([v] + items, t + ([COMMA] + more))
  {
    hide ReadValue;
    forall rest
      ensures ReadItems(t + ([COMMA] + more) + [0x5d] + rest) == Some(([v] + items, rest))
    {
      var after := [COMMA] + (more + [0x5d] + rest);
      assert t + ([COMMA] + more) + [0x5d] + rest == t + after && after[1..] == more + [0x5d] + rest;
      assert Follows(after);
    }
  }

  lemma NameBack(m: Member, value: Text)
    requires ReadsBack(m.value, value)
    ensures MemberBack(m, Quoted(m.name) + [COLON] + value)
  {
    hide ReadValue, Escapes;
    forall rest | Follows(rest)
      ensures ReadMember(Quoted(m.name) + [COLON] + value + rest) == Some((m, rest))
    {
      var after := [COLON] + (value + rest);
      StringReads(m.name, after);
      var t := Quoted(m.name) + [COLON] + value + rest;
      assert t[1..] == Escapes(m.name) + [QUOTE] + after;
      assert after[1..] == value + rest;
    }
  }

  lemma OneMember(m: Member, t: Text)
    requires MemberBack(m, t)
    ensures MembersBack([m], t)
  {
    hide ReadMember;
    forall rest
      ensures ReadMembers(t + [0x7d] + rest) == Some(([m], rest))
    {
      var after := [0x7d] + rest;
      assert t + [0x7d] + rest == t + after && after[1..] == rest;
      assert Follows(after);
    }
  }

  lemma MoreMembers(m: Member, t: Text, members: seq<Member>, more: Text)
    requires MemberBack(m, t) && MembersBack(members, more)
    ensures MembersBack([m] + members, t + ([COMMA] + more))
  {
    hide ReadMember;
    forall rest
      ensures ReadMembers(t + ([COMMA] + more) + [0x7d] + rest) == Some(([m] + members, rest))
    {
      var after := [COMMA] + (more + [0x7d] + rest);
      assert t + ([COMMA] + more) + [0x7d] + rest == t + after && after[1..] == more + [0x7d] + rest;
      assert Follows(after);
    }
  }

  /** No canonical value starts with a closing bracket. */
  lemma {:induction false} NoBracketFirst(v: Value)
    ensures CanonicalJson(v).Some? ==> |CanonicalJson(v).value| > 0 && CanonicalJson(v).value[0] != 0x5d
  {
    hide Escapes, CanonicalItems, CanonicalMembers;
    if v.Num? {
      DigitsRead(v.n);
      hide Digits;
    }
  }

  lemma ArrayBack(items: seq<Value>, t: Text)
    requires |items| > 0 ==> ItemsBack(items, t) && |t| > 0 && t[0] != 0x5d
    requires |items| == 0 ==> t == []
    ensures ReadsBack(Arr(items), [0x5b] + t + [0x5d])
  {
    hide ReadItems;
    forall rest | Follows(rest)
      ensures ReadValue([0x5b] + t + [0x5d] + rest) == Some((Arr(items), rest))
    {
      var whole := [0x5b] + t + [0x5d] + rest;
      assert whole[1..] == t + [0x5d] + rest;
      assert |items| == 0 ==> whole[2..] == rest;
    }
  }

  lemma ObjectBack(members: seq<Member>, t: Text)
    requires |members| > 0 ==> MembersBack(members, t) && |t| > 0 && t[0] == QUOTE
    requires |members| == 0 ==> t == []
    ensures ReadsBack(Obj(members), [0x7b] + t + [0x7d])
  {
    hide ReadMembers;
    forall rest | Follows(rest)
      ensures ReadValue([0x7b] + t + [0x7d] + rest) == Some((Obj(members), rest))
    {
      var whole := [0x7b] + t + [0x7d] + rest;
      assert whole[1..] == t + [0x7d] + rest;
      assert |members| == 0 ==> whole[2..] == rest;
    }
  }

  lemma {:induction false} CanonicalReadsBack(v: Value)
    requires CanonicalJson(v).Some?
    ensures ReadsBack(v, CanonicalJson(v).value)
    decreases v
  {
    hide ReadsBack, ItemsBack, MembersBack, Escapes, Digits, ReadValue;
    match v
    case Str(text) => StringBack(text);
    case Num(n) => NumberBack(n);
    case Bool(b) => BoolBack(b);
    case Arr(items) =>
      if |items| > 0 {
        ItemsReadBack(items);
      }
      ArrayBack(items, CanonicalItems(items).value);
    case Obj(members) =>
      if |members| > 0 {
        MembersReadBack(members);
      }
      ObjectBack(members, CanonicalMembers(members).value);
  }

  lemma {:induction false} ItemsReadBack(items: seq<Value>)
    requires CanonicalItems(items).Some? && |items| > 0
    ensures ItemsBack(items, CanonicalItems(items).value)
    ensures |CanonicalItems(items).value| > 0 && CanonicalItems(items).value[0] != 0x5d
    decreases items
  {
    hide ReadsBack, ItemsBack, CanonicalJson;
    CanonicalReadsBack(items[0]);
    NoBracketFirst(items[0]);
    var first := CanonicalJson(items[0]).value;
    if |items| == 1 {
      assert items == [items[0]];
      assert first + [] == first;
      OneItem(items[0], first);
    } else {
      ItemsReadBack(items[1..]);
      assert items == [items[0]] + items[1..];
      MoreItems(items[0], first, items[1..], CanonicalItems(items[1..]).value);
    }
  }

  lemma {:induction false} MembersReadBack(members: seq<Member>)
    requires CanonicalMembers(members).Some? && |members| > 0
    ensures MembersBack(members, CanonicalMembers(members).value)
    ensures |CanonicalMembers(members).value| > 0 && CanonicalMembers(members).value[0] == QUOTE
    decreases members
  {
    hide ReadsBack, MembersBack, CanonicalJson, MemberBack, Escapes;
    var m := members[0];
    CanonicalReadsBack(m.value);
    NameBack(m, CanonicalJson(m.value).value);
    var first := CanonicalMember(m).value;
    if |members| == 1 {
      assert members == [m];
      assert first + [] == first;
      OneMember(m, first);
    } else {
      MembersReadBack(members[1..]);
      assert members == [m] + members[1..];
      MoreMembers(m, first, members[1..], CanonicalMembers(members[1..]).value);
    }
  }

  /** A whole text read as one value. */
  function ReadJson(t: Text): Option<Value> {
    var r := ReadValue(t);
    if r.None? || r.value.1 != [] then None else Some(r.value.0)
  }

  /** No two values have the same canonical text: the text says which value it is. */
  lemma CanonicalIsUnambiguous(v: Value)
    requires CanonicalJson(v).Some?
    ensures ReadJson(CanonicalJson(v).value) == Some(v)
  {
    CanonicalReadsBack(v);
    var t := CanonicalJson(v).value;
    hide ReadValue, CanonicalJson;
    assert Follows([]);
    assert t + [] == t;
  }
}
