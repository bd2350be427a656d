/** What the tests on the fields of a message come to. */
module MessageFields {
  import opened FileNames
  import opened Json
  import opened Messages
  import opened MessageCodec

  /** No white space, as JavaScript's `\s` has it. */
  predicate IsUnspaced(t: Text) {
    forall i :: 0 <= i < |t| ==> !IsSpace(t[i])
  }

  predicate IsUncontrolled(t: Text) {
    forall i :: 0 <= i < |t| ==> t[i] >= 0x20 && t[i] != 0x7f
  }

  /** A prefix and what is not empty behind it. */
  ghost predicate IsBehind(t: Text, prefix: Text) {
    exists rest :: rest != [] && t == prefix + rest
  }

  lemma BehindIs(t: Text, prefix: Text)
    ensures IsBehind(t, prefix) <==> StartsWith(t, prefix) && |t| > |prefix|
  {
    if StartsWith(t, prefix) && |t| > |prefix| {
      assert t == prefix + t[|prefix|..];
    }
    if rest :| rest != [] && t == prefix + rest {
      assert t[..|prefix|] == prefix;
    }
  }

  /** An ICE URL is one of three schemes, a colon and something without white space, in at most 256 bytes. */
  lemma IceUrlIs(e: Readers, url: Text)
    ensures IsIceUrl(e, url) <==>
      && |e.utf8(url)| <= 256 && IsUnspaced(url)
      && (IsBehind(url, Ascii("stun:")) || IsBehind(url, Ascii("turn:")) || IsBehind(url, Ascii("turns:")))
  {
    BehindIs(url, Ascii("stun:"));
    BehindIs(url, Ascii("turn:"));
    BehindIs(url, Ascii("turns:"));
    hide Ascii, IsBehind, IsSpace;
  }

  predicate IsPresent(e: Readers, secret: Text) {
    |secret| > 0 && |e.utf8(secret)| <= 256 && IsUncontrolled(secret)
  }

  predicate NeedsSecrets(s: IceServer) {
    exists i :: 0 <= i < |s.urls| && (StartsWith(s.urls[i], Ascii("turn:")) || StartsWith(s.urls[i], Ascii("turns:")))
  }

  /** A server has one to four URLs; with a TURN URL among them it has a username and a credential, otherwise neither. */
  lemma ServerIs(e: Readers, s: IceServer)
    ensures ValidServer(e, s) <==>
      && 1 <= |s.urls| <= 4 && (forall i :: 0 <= i < |s.urls| ==> IsIceUrl(e, s.urls[i]))
      && (if NeedsSecrets(s) then IsPresent(e, s.username) && IsPresent(e, s.credential) else s.username == s.credential == [])
  {
    hide Ascii, IsIceUrl;
    ControlIs(s.username);
    ControlIs(s.credential);
    assert HasRelay(s.urls) <==> NeedsSecrets(s);
  }

  lemma ControlIs(t: Text)
    ensures HasControl(t) <==> !IsUncontrolled(t)
  {
  }

  lemma AllowedIs(servers: seq<IceServer>, allowlist: seq<Text>)
    ensures Allowed(servers, allowlist) <==> forall s, url :: s in servers && url in s.urls ==> url in allowlist
  {
    if forall s, url :: s in servers && url in s.urls ==> url in allowlist {
      forall i, j | 0 <= i < |servers| && 0 <= j < |servers[i].urls|
        ensures servers[i].urls[j] in allowlist
      {
        assert servers[i] in servers && servers[i].urls[j] in servers[i].urls;
      }
    }
  }

  /** A name in a manifest is clean and disguised by nothing. */
  lemma ManifestNameIs(e: Readers, name: Text)
    requires Normalises(e.nfc)
    ensures IsManifestName(e, name) <==> IsClean(e.nfc, name) && !HoldsDisguise(name)
  {
    FixedPoints(e.nfc, name);
    hide SanitiseFileName, IsClean, HoldsDisguise;
  }

  /** A character that may disguise a name, by its code point. */
  predicate IsDisguising(point: int) {
    || point == 0x061c || point == 0x180e || 0x200b <= point <= 0x200f || 0x202a <= point <= 0x202e
    || 0x2060 <= point <= 0x2064 || 0x2066 <= point <= 0x206f || point == 0xfeff || 0xe0000 <= point <= 0xe007f
  }

  /** The code point of a surrogate pair. */
  function PairPoint(high: CodeUnit, low: CodeUnit): int {
    0x10000 + (high - 0xd800) * 0x400 + (low - 0xdc00)
  }

  /** A name is disguised exactly if a code unit of it, or a surrogate pair, is such a character. */
  lemma DisguisedExactly(t: Text)
    ensures HoldsDisguise(t) <==>
      || (exists i :: 0 <= i < |t| && IsDisguising(t[i]))
      || (exists i :: 0 <= i < |t| - 1 && IsHighSurrogate(t[i]) && IsLowSurrogate(t[i + 1]) && IsDisguising(PairPoint(t[i], t[i + 1])))
  {
    forall i | 0 <= i < |t|
      ensures IsDisguise(t[i]) <==> IsDisguising(t[i])
    {
    }
    forall i | 0 <= i < |t| - 1
      ensures IsHighSurrogate(t[i]) && IsLowSurrogate(t[i + 1]) && IsDisguising(PairPoint(t[i], t[i + 1])) <==>
              t[i] == 0xdb40 && 0xdc00 <= t[i + 1] <= 0xdc7f
    {
    }
    hide IsDisguise, IsDisguising, IsHighSurrogate, IsLowSurrogate, PairPoint;
  }

  /** A media type in a manifest is not empty, at most 255 units, without controls and in lower case. */
  lemma ManifestTypeIs(e: Readers, mime: Text)
    ensures IsManifestType(e, mime) <==> 1 <= |mime| <= 255 && IsUncontrolled(mime) && e.lower(mime) == mime
  {
    ControlIs(mime);
  }

  // ---------------------------------------------------------------- what can be written

  lemma AsciiIsWhole(s: string)
    requires forall i :: 0 <= i < |s| ==> s[i] < 128 as char
    ensures WellFormed(Ascii(s))
  {
  }

  predicate AllWhole(texts: seq<Text>) {
    forall i :: 0 <= i < |texts| ==> WellFormed(texts[i])
  }

  /** Every text in the message is whole, and every number small enough. */
  predicate IsWhole(m: Message) {
    match m
    case Invite(_, ice, id, max) =>
      && WellFormed(id) && max < 9_007_199_254_740_992
      && forall i :: 0 <= i < |ice| ==> WellFormed(ice[i].credential) && WellFormed(ice[i].username) && AllWhole(ice[i].urls)
    case Manifest(name, size, mime) => WellFormed(name) && size < 9_007_199_254_740_992 && WellFormed(mime)
    case Accept(sdp) => WellFormed(sdp)
    case Decline => true
    case Answer(key, sdp) => WellFormed(key) && WellFormed(sdp)
    case Restart(sdp) => WellFormed(sdp)
    case RestartAnswer(sdp) => WellFormed(sdp)
    case Stop(_) => true
  }

  /** An object whose names are in order and whole, with values that can be printed. */
  lemma OrderedPrints(body: seq<Member>, names: seq<Text>)
    requires Names(body) == names && NamesInOrder(names) && AllWhole(names)
    requires forall i :: 0 <= i < |body| ==> IsPrintable(body[i].value)
    ensures IsPrintable(Obj(body))
  {
    hide WellFormed, Below;
    forall i | 0 <= i < |body|
      ensures body[i].name == names[i]
    {
      assert Names(body)[i] == body[i].name;
    }
    forall i | 0 < i < |body|
      ensures Below(body[i - 1].name, body[i].name)
    {
      assert Below(names[i - 1], names[i - 1 + 1]);
    }
  }

  lemma NamesAreWhole()
    ensures AllWhole(InviteNames()) && AllWhole(ManifestNames()) && AllWhole(SdpNames()) && AllWhole(AnswerNames())
    ensures AllWhole(DeclineNames()) && AllWhole(StopNames()) && AllWhole(ServerNames())
  {
    hide WellFormed;
    AsciiIsWhole("dir"); AsciiIsWhole("event"); AsciiIsWhole("hide"); AsciiIsWhole("ice"); AsciiIsWhole("id"); AsciiIsWhole("max");
    AsciiIsWhole("v"); AsciiIsWhole("name"); AsciiIsWhole("size"); AsciiIsWhole("type"); AsciiIsWhole("sdp"); AsciiIsWhole("key");
    AsciiIsWhole("reason"); AsciiIsWhole("credential"); AsciiIsWhole("urls"); AsciiIsWhole("username");
  }

  lemma ServerPrints(s: IceServer)
    requires WellFormed(s.credential) && WellFormed(s.username) && AllWhole(s.urls)
    ensures IsPrintable(ServerValue(s))
  {
    hide WellFormed, Below, Ascii;
    ServerInOrder();
    NamesAreWhole();
    assert forall i :: 0 <= i < |s.urls| ==> IsPrintable(Strings(s.urls)[i]);
    OrderedPrints(ServerValue(s).members, ServerNames());
  }

  lemma EventsAreWhole(m: Message)
    ensures WellFormed(EventName(m)) && WellFormed(Ascii("to-drop"))
    ensures m.Stop? ==> WellFormed(ReasonText(m.reason))
  {
    hide WellFormed;
    AsciiIsWhole("invite"); AsciiIsWhole("manifest"); AsciiIsWhole("accept"); AsciiIsWhole("decline"); AsciiIsWhole("answer");
    AsciiIsWhole("restart"); AsciiIsWhole("restart-answer"); AsciiIsWhole("stop"); AsciiIsWhole("to-drop");
    AsciiIsWhole("cancelled"); AsciiIsWhole("unsupported"); AsciiIsWhole("failed");
  }

  lemma InvitePrints(m: Message)
    requires m.Invite? && IsWhole(m)
    ensures IsPrintable(Obj(Members(m)))
  {
    hide WellFormed, Below, Ascii, ServerValue;
    InviteInOrder();
    NamesAreWhole();
    EventsAreWhole(m);
    forall i | 0 <= i < |m.ice|
      ensures IsPrintable(ServerValues(m.ice)[i])
    {
      ServerPrints(m.ice[i]);
    }
    assert IsPrintable(Arr(ServerValues(m.ice)));
    OrderedPrints(Members(m), InviteNames());
  }

  lemma MessagePrints(m: Message)
    requires IsWhole(m) && !m.Invite?
    ensures IsPrintable(Obj(Members(m)))
  {
    hide WellFormed, Below, Ascii;
    ManifestInOrder();
    SdpInOrder();
    AnswerInOrder();
    StopInOrder();
    NamesAreWhole();
    EventsAreWhole(m);
    var names := match m
                 case Manifest(_, _, _) => ManifestNames()
                 case Decline => DeclineNames()
                 case Answer(_, _) => AnswerNames()
                 case Stop(_) => StopNames()
                 case _ => SdpNames();
    assert Names(Members(m)) == names;
    OrderedPrints(Members(m), names);
  }

  /** A message of whole texts and small numbers has bytes exactly if they are no more than the exchange carries. */
  lemma WrittenExactly(e: Readers, m: Message)
    requires IsWhole(m)
    ensures CanonicalJson(Obj(Members(m))).Some?
    ensures EncodeMessage(e, m).Some? <==> |e.utf8(CanonicalJson(Obj(Members(m))).value)| <= 16_379
  {
    if m.Invite? {
      InvitePrints(m);
    } else {
      MessagePrints(m);
    }
    hide IsPrintable, Members, CanonicalJson;
    PrintsExactly(Obj(Members(m)));
  }
}
