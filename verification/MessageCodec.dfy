/** Printing and reading a message undo each other, and no message has two spellings. */
module MessageCodec {
  import opened Wrappers
  import opened FileNames
  import opened Json
  import opened Messages

  // ---------------------------------------------------------------- canonical text is well formed

  lemma WellFormedSum(a: Text, b: Text)
    requires WellFormed(a) && WellFormed(b)
    ensures WellFormed(a + b)
  {
    var t := a + b;
    forall i | 0 <= i < |t|
      ensures IsHighSurrogate(t[i]) ==> i + 1 < |t| && IsLowSurrogate(t[i + 1])
      ensures IsLowSurrogate(t[i]) ==> 0 < i && IsHighSurrogate(t[i - 1])
    {
      if i < |a| {
        assert t[i] == a[i];
      } else {
        assert t[i] == b[i - |a|];
      }
    }
  }

  lemma EscapeIsPlain(u: CodeUnit)
    ensures if IsHighSurrogate(u) || IsLowSurrogate(u) then Escape(u) == [u] else WellFormed(Escape(u))
  {
  }

  lemma {:induction false} EscapesWellFormed(t: Text)
    requires WellFormed(t)
    ensures WellFormed(Escapes(t))
    decreases |t|
  {
    if |t| > 0 {
      EscapeIsPlain(t[0]);
      if IsHighSurrogate(t[0]) {
        EscapeIsPlain(t[1]);
        RestWellFormed(t, 2);
        EscapesWellFormed(t[2..]);
        assert t[1..][1..] == t[2..];
        assert Escapes(t) == [t[0], t[1]] + Escapes(t[2..]);
        hide Escapes, Escape;
        WellFormedSum([t[0], t[1]], Escapes(t[2..]));
      } else {
        RestWellFormed(t, 1);
        EscapesWellFormed(t[1..]);
        hide Escape;
        WellFormedSum(Escape(t[0]), Escapes(t[1..]));
      }
    }
  }

  lemma RestWellFormed(t: Text, n: nat)
    requires WellFormed(t) && n <= |t| && (n > 0 ==> !IsHighSurrogate(t[n - 1]))
    ensures WellFormed(t[n..])
  {
  }

  lemma QuotedWellFormed(t: Text)
    requires WellFormed(t)
    ensures WellFormed(Quoted(t))
  {
    EscapesWellFormed(t);
    hide Escapes;
    WellFormedSum([QUOTE], Escapes(t));
    WellFormedSum([QUOTE] + Escapes(t), [QUOTE]);
  }

  lemma DigitsWellFormed(n: nat)
    ensures WellFormed(Digits(n))
  {
    DigitsRead(n);
  }

  lemma WordsWellFormed()
    ensures WellFormed(TRUE) && WellFormed(FALSE) && WellFormed([])
  {
  }

  lemma BracketsWellFormed(open: CodeUnit, t: Text, close: CodeUnit)
    requires WellFormed(t) && open < 0x80 && close < 0x80
    ensures WellFormed([open] + t + [close])
  {
    WellFormedSum([open], t);
    WellFormedSum([open] + t, [close]);
  }

  lemma {:induction false} CanonicalWellFormed(v: Value)
    ensures CanonicalJson(v).Some? ==> WellFormed(CanonicalJson(v).value)
    decreases v
  {
    hide WellFormed, Quoted, Digits, InOrder;
    match v
    case Other =>
    case Str(text) =>
      if WellFormed(text) {
        QuotedWellFormed(text);
      }
    case Num(n) => DigitsWellFormed(n);
    case Bool(_) => WordsWellFormed();
    case Arr(items) =>
      ItemsWellFormed(items);
      if CanonicalItems(items).Some? {
        BracketsWellFormed(0x5b, CanonicalItems(items).value, 0x5d);
      }
    case Obj(members) =>
      MembersWellFormed(members);
      if CanonicalMembers(members).Some? {
        BracketsWellFormed(0x7b, CanonicalMembers(members).value, 0x7d);
      }
  }

  lemma JoinWellFormed(first: Text, separator: CodeUnit, rest: Text)
    requires WellFormed(first) && WellFormed(rest) && separator < 0x80
    ensures WellFormed(first + ([separator] + rest)) && WellFormed(first + [separator] + rest) && first + [] == first
  {
    WellFormedSum([separator], rest);
    WellFormedSum(first, [separator] + rest);
    assert first + [separator] + rest == first + ([separator] + rest);
  }

  lemma {:induction false} ItemsWellFormed(items: seq<Value>)
    ensures CanonicalItems(items).Some? ==> WellFormed(CanonicalItems(items).value)
    decreases items
  {
    hide WellFormed, CanonicalJson;
    if |items| == 0 {
      WordsWellFormed();
    } else {
      CanonicalWellFormed(items[0]);
      ItemsWellFormed(items[1..]);
      if CanonicalItems(items).Some? {
        JoinWellFormed(CanonicalJson(items[0]).value, COMMA, CanonicalItems(items[1..]).value);
      }
    }
  }

  lemma {:induction false} MembersWellFormed(members: seq<Member>)
    ensures CanonicalMembers(members).Some? ==> WellFormed(CanonicalMembers(members).value)
    decreases members
  {
    hide WellFormed, CanonicalJson, Quoted;
    if |members| == 0 {
      WordsWellFormed();
    } else {
      var m := members[0];
      CanonicalWellFormed(m.value);
      MembersWellFormed(members[1..]);
      if CanonicalMembers(members).Some? {
        assert CanonicalMember(m).Some?;
        QuotedWellFormed(m.name);
        JoinWellFormed(Quoted(m.name), COLON, CanonicalJson(m.value).value);
        JoinWellFormed(CanonicalMember(m).value, COMMA, CanonicalMembers(members[1..]).value);
      }
    }
  }

  // ---------------------------------------------------------------- the order of names

  lemma {:induction false} BelowIsStrict(a: Text, b: Text)
    ensures !(Below(a, b) && Below(b, a)) && !Below(a, a)
    decreases |a|
  {
    if |a| > 0 {
      BelowIsStrict(a[1..], if |b| > 0 then b[1..] else []);
    }
  }

  lemma {:induction false} BelowIsTransitive(a: Text, b: Text, c: Text)
    requires Below(a, b) && Below(b, c)
    ensures Below(a, c)
    decreases |a|
  {
    if |a| > 0 && a[0] == b[0] == c[0] {
      BelowIsTransitive(a[1..], b[1..], c[1..]);
    }
  }

  ghost predicate Increasing(names: seq<Text>) {
    forall i, j :: 0 <= i < j < |names| ==> Below(names[i], names[j])
  }

  predicate NamesInOrder(names: seq<Text>) {
    forall i :: 0 <= i < |names| - 1 ==> Below(names[i], names[i + 1])
  }

  lemma {:induction false} NeighboursSuffice(names: seq<Text>, i: nat, j: nat)
    requires NamesInOrder(names) && i < j < |names|
    ensures Below(names[i], names[j])
  {
    hide Below;
    assert Below(names[j - 1], names[j - 1 + 1]);
    if i < j - 1 {
      NeighboursSuffice(names, i, j - 1);
      BelowIsTransitive(names[i], names[j - 1], names[j]);
    }
  }

  lemma InOrderIncreasing(names: seq<Text>)
    requires NamesInOrder(names)
    ensures Increasing(names)
  {
    hide Below, NamesInOrder;
    forall i, j | 0 <= i < j < |names|
      ensures Below(names[i], names[j])
    {
      NeighboursSuffice(names, i, j);
    }
  }

  /** Of two increasing lists, each name of the second stands in the first no earlier than in the second. */
  lemma {:induction false} NoEarlier(a: seq<Text>, b: seq<Text>, i: nat) returns (k: nat)
    requires Increasing(a) && Increasing(b) && (forall j :: 0 <= j < |b| ==> b[j] in a) && i < |b|
    ensures i <= k < |a| && a[k] == b[i]
  {
    hide Below;
    assert b[i] in a;
    k :| 0 <= k < |a| && a[k] == b[i];
    if i > 0 {
      var before := NoEarlier(a, b, i - 1);
      assert Below(b[i - 1], b[i]);
      BelowIsStrict(a[before], a[k]);
      BelowIsStrict(a[k], a[k]);
    }
  }

  lemma {:induction false} NoLater(a: seq<Text>, b: seq<Text>, i: nat) returns (k: nat)
    requires Increasing(a) && Increasing(b) && (forall j :: 0 <= j < |b| ==> b[j] in a) && i < |b| && |a| == |b|
    ensures k <= i && a[k] == b[i]
    decreases |b| - i
  {
    hide Below;
    assert b[i] in a;
    k :| 0 <= k < |a| && a[k] == b[i];
    if i + 1 < |b| {
      var after := NoLater(a, b, i + 1);
      assert Below(b[i], b[i + 1]);
      BelowIsStrict(a[after], a[k]);
      BelowIsStrict(a[k], a[k]);
    }
  }

  lemma SameNames(a: seq<Text>, b: seq<Text>)
    requires Increasing(a) && Increasing(b) && (forall j :: 0 <= j < |b| ==> b[j] in a) && |a| == |b|
    ensures a == b
  {
    hide Below;
    forall i | 0 <= i < |a|
      ensures a[i] == b[i]
    {
      var k := NoEarlier(a, b, i);
      var l := NoLater(a, b, i);
      if l < k {
        BelowIsStrict(a[l], a[k]);
      }
    }
  }

  // ---------------------------------------------------------------- members by name

  function Names(members: seq<Member>): (names: seq<Text>)
    ensures |names| == |members| && forall i :: 0 <= i < |members| ==> names[i] == members[i].name
  {
    seq(|members|, i requires 0 <= i < |members| => members[i].name)
  }

  /** A canonical object has exactly these names only as just these members, in this order. */
  lemma ExactNames(members: seq<Member>, names: seq<Text>)
    requires InOrder(members) && NamesInOrder(names)
    ensures HasExactly(members, names) <==> Names(members) == names
  {
    hide Below;
    InOrderIncreasing(Names(members));
    InOrderIncreasing(names);
    if HasExactly(members, names) {
      forall j | 0 <= j < |names|
        ensures names[j] in Names(members)
      {
        assert HasName(members, names[j]);
        var i :| 0 <= i < |members| && members[i].name == names[j];
        assert Names(members)[i] == names[j];
      }
      SameNames(Names(members), names);
    }
    if Names(members) == names {
      forall i | 0 <= i < |names|
        ensures HasName(members, names[i])
      {
        assert members[i].name == names[i];
      }
    }
  }

  lemma {:induction false} LookupAt(members: seq<Member>, i: nat)
    requires InOrder(members) && i < |members|
    ensures Lookup(members, members[i].name) == Some(members[i].value)
  {
    hide Below;
    if i > 0 {
      InOrderIncreasing(Names(members));
      assert Below(Names(members)[0], Names(members)[i]);
      BelowIsStrict(members[0].name, members[0].name);
      LookupAt(members[1..], i - 1);
    }
  }

  // ---------------------------------------------------------------- the names of each message

  lemma FirstDiffers(a: Text, b: Text)
    requires |a| > 0 && |b| > 0 && a[0] < b[0]
    ensures Below(a, b)
  {
  }

  lemma SecondDiffers(a: Text, b: Text)
    requires |a| > 1 && |b| > 1 && a[0] == b[0] && a[1] < b[1]
    ensures Below(a, b)
  {
    FirstDiffers(a[1..], b[1..]);
  }

  function InviteNames(): seq<Text> {
    [Ascii("dir"), Ascii("event"), Ascii("hide"), Ascii("ice"), Ascii("id"), Ascii("max"), Ascii("v")]
  }

  function ManifestNames(): seq<Text> {
    [Ascii("event"), Ascii("name"), Ascii("size"), Ascii("type"), Ascii("v")]
  }

  function SdpNames(): seq<Text> {
    [Ascii("event"), Ascii("sdp"), Ascii("v")]
  }

  function AnswerNames(): seq<Text> {
    [Ascii("event"), Ascii("key"), Ascii("sdp"), Ascii("v")]
  }

  function DeclineNames(): seq<Text> {
    [Ascii("event"), Ascii("v")]
  }

  function StopNames(): seq<Text> {
    [Ascii("event"), Ascii("reason"), Ascii("v")]
  }

  function ServerNames(): seq<Text> {
    [Ascii("credential"), Ascii("urls"), Ascii("username")]
  }

  lemma InviteInOrder()
    ensures NamesInOrder(InviteNames())
  {
    FirstDiffers(Ascii("dir"), Ascii("event"));
    FirstDiffers(Ascii("event"), Ascii("hide"));
    FirstDiffers(Ascii("hide"), Ascii("ice"));
    SecondDiffers(Ascii("ice"), Ascii("id"));
    FirstDiffers(Ascii("id"), Ascii("max"));
    FirstDiffers(Ascii("max"), Ascii("v"));
    hide Below, Ascii;
  }

  lemma ManifestInOrder()
    ensures NamesInOrder(ManifestNames())
  {
    FirstDiffers(Ascii("event"), Ascii("name"));
    FirstDiffers(Ascii("name"), Ascii("size"));
    FirstDiffers(Ascii("size"), Ascii("type"));
    FirstDiffers(Ascii("type"), Ascii("v"));
    hide Below, Ascii;
  }

  lemma SdpInOrder()
    ensures NamesInOrder(SdpNames()) && NamesInOrder(DeclineNames())
  {
    FirstDiffers(Ascii("event"), Ascii("sdp"));
    FirstDiffers(Ascii("sdp"), Ascii("v"));
    FirstDiffers(Ascii("event"), Ascii("v"));
    hide Below, Ascii;
  }

  lemma AnswerInOrder()
    ensures NamesInOrder(AnswerNames())
  {
    FirstDiffers(Ascii("event"), Ascii("key"));
    FirstDiffers(Ascii("key"), Ascii("sdp"));
    FirstDiffers(Ascii("sdp"), Ascii("v"));
    hide Below, Ascii;
  }

  lemma StopInOrder()
    ensures NamesInOrder(StopNames())
  {
    FirstDiffers(Ascii("event"), Ascii("reason"));
    FirstDiffers(Ascii("reason"), Ascii("v"));
    hide Below, Ascii;
  }

  lemma ServerInOrder()
    ensures NamesInOrder(ServerNames())
  {
    FirstDiffers(Ascii("credential"), Ascii("urls"));
    SecondDiffers(Ascii("urls"), Ascii("username"));
    hide Below, Ascii;
  }
}
