/** Which bytes the reader of messages refuses as unsupported, and so which as malformed. */
module MessageRefusals {
  import opened Wrappers
  import opened Bytes
  import opened FileNames
  import opened Json
  import opened Messages
  import opened MessageCodec
  import opened MessageRoundTrip

  // ---------------------------------------------------------------- what cannot be used

  /** The bytes are the canonical text of an object with these members, within the limit. */
  ghost predicate IsCanonicalObject(e: Readers, bytes: Blob, body: seq<Member>) {
    && |bytes| <= 16_379 && CanonicalJson(Obj(body)).Some? && bytes == e.utf8(CanonicalJson(Obj(body)).value)
  }

  /** An object of another version than the first, whatever else it holds. */
  predicate OtherVersion(body: seq<Member>) {
    exists i :: 0 <= i < |body| && body[i].name == Ascii("v") && body[i].value.Num? && body[i].value.n != 1
  }

  /** An invitation in either direction. */
  function InviteBody(direction: Text, m: Message): seq<Member>
    requires m.Invite?
  {
    [Member(Ascii("dir"), Str(direction)), Member(Ascii("event"), Str(Ascii("invite"))), Member(Ascii("hide"), Bool(m.hideAddress)),
     Member(Ascii("ice"), Arr(ServerValues(m.ice))), Member(Ascii("id"), Str(m.id)), Member(Ascii("max"), Num(m.max)), VERSION]
  }

  /** Nothing is malformed in the invitation. */
  predicate ProperInvite(e: Readers, m: Message) {
    m.Invite? && IsCanonicalId(m.id) && 1 <= m.max && 1 <= |m.ice| <= 4 && AllValid(e, m.ice)
  }

  /** Some server the page was not built with, the wrong direction, or more bytes than the page can send. */
  predicate CannotServe(direction: Text, m: Message, allowlist: seq<Text>)
    requires m.Invite?
  {
    !Allowed(m.ice, allowlist) || direction == Ascii("from-drop") || m.max > 250_000_000
  }

  ghost predicate UnusableInvite(e: Readers, body: seq<Member>, context: Context) {
    exists direction: Text, m: Message ::
      && ProperInvite(e, m) && (direction == Ascii("to-drop") || direction == Ascii("from-drop"))
      && body == InviteBody(direction, m) && CannotServe(direction, m, context.allowlist)
  }

  /** A manifest with nothing malformed in it, of a file larger than was offered. */
  ghost predicate UnusableManifest(e: Readers, body: seq<Member>, context: Context) {
    exists name: Text, size: nat, mime: Text ::
      && body == Members(Manifest(name, size, mime))
      && IsManifestName(e, name) && IsManifestType(e, mime) && context.max.Some? && size > context.max.value
  }

  ghost predicate IsUnusable(e: Readers, body: seq<Member>, context: Context) {
    || OtherVersion(body)
    || (context.from == Drop && context.index == 0 && UnusableInvite(e, body, context))
    || (context.from == Page && context.index == 0 && UnusableManifest(e, body, context))
  }

  // ---------------------------------------------------------------- what the readers of one event say

  lemma IceUnsupported(e: Readers, value: Value, allowlist: seq<Text>)
    requires CanonicalJson(value).Some?
    ensures ReadIce(e, value, allowlist) == Err(Unsupported) <==>
      exists ice :: 1 <= |ice| <= ICE_SERVERS && AllValid(e, ice) && !Allowed(ice, allowlist) && value == Arr(ServerValues(ice))
  {
    hide ReadServers, AllValid, Allowed;
    if value.Arr? {
      CanonicalArray(value.items);
      var servers := ReadServers(e, value.items);
      if servers.Ok? {
        ServersExact(e, value.items, servers.value);
      }
      forall ice
        ensures value.items == ServerValues(ice) && AllValid(e, ice) ==> servers == Ok(ice)
      {
        ServersExact(e, value.items, ice);
      }
      ServersFail(e, value.items);
    }
  }

  lemma {:induction false} ServersFail(e: Readers, entries: seq<Value>)
    ensures ReadServers(e, entries).Err? ==> ReadServers(e, entries).error == Failed
  {
  }

  /** What the reader says of the list of servers an invitation holds. */
  lemma IceOfProper(e: Readers, m: Message, allowlist: seq<Text>)
    requires ProperInvite(e, m) && CanonicalJson(Arr(ServerValues(m.ice))).Some?
    ensures ReadIce(e, Arr(ServerValues(m.ice)), allowlist) == if Allowed(m.ice, allowlist) then Ok(m.ice) else Err(Unsupported)
  {
    hide ReadIce, AllValid, Allowed, CanonicalJson, IsCanonicalId;
    IceExact(e, Arr(ServerValues(m.ice)), allowlist, m.ice);
    IceUnsupported(e, Arr(ServerValues(m.ice)), allowlist);
  }

  /** If the list of servers is the only thing that may be wrong, the list is one that can be written. */
  lemma IceListed(e: Readers, value: Value, allowlist: seq<Text>) returns (ice: seq<IceServer>)
    requires CanonicalJson(value).Some? && (ReadIce(e, value, allowlist).Ok? || ReadIce(e, value, allowlist) == Err(Unsupported))
    ensures 1 <= |ice| <= ICE_SERVERS && AllValid(e, ice) && value == Arr(ServerValues(ice))
  {
    var read := ReadIce(e, value, allowlist);
    hide ReadIce, AllValid, Allowed, CanonicalJson;
    if read.Ok? {
      ice := read.value;
      IceExact(e, value, allowlist, ice);
    } else {
      IceUnsupported(e, value, allowlist);
      ice :| 1 <= |ice| <= ICE_SERVERS && AllValid(e, ice) && !Allowed(ice, allowlist) && value == Arr(ServerValues(ice));
    }
  }

  /** Each name is read by position. */
  lemma InviteLookups(body: seq<Member>)
    requires ByPosition(body, InviteNames()) && Names(body) == InviteNames()
    ensures |body| == 7 && HasExactly(body, InviteNames())
    ensures Lookup(body, Ascii("dir")) == Some(body[0].value) && Lookup(body, Ascii("event")) == Some(body[1].value)
    ensures Lookup(body, Ascii("hide")) == Some(body[2].value) && Lookup(body, Ascii("ice")) == Some(body[3].value)
    ensures Lookup(body, Ascii("id")) == Some(body[4].value) && Lookup(body, Ascii("max")) == Some(body[5].value)
    ensures Lookup(body, Ascii("v")) == Some(body[6].value)
    ensures forall i :: 0 <= i < 7 ==> body[i].name == InviteNames()[i]
  {
    hide HasExactly, Lookup, Ascii;
    var names := InviteNames();
    assert |Names(body)| == |body|;
    assert Lookup(body, names[0]) == Some(body[0].value) && Lookup(body, names[1]) == Some(body[1].value)
        && Lookup(body, names[2]) == Some(body[2].value) && Lookup(body, names[3]) == Some(body[3].value)
        && Lookup(body, names[4]) == Some(body[4].value) && Lookup(body, names[5]) == Some(body[5].value)
        && Lookup(body, names[6]) == Some(body[6].value);
  }

  lemma InviteRefused(e: Readers, body: seq<Member>, context: Context)
    requires ByPosition(body, InviteNames()) && Headed(body, Ascii("invite"))
    requires forall i :: 0 <= i < |body| ==> CanonicalJson(body[i].value).Some?
    requires ReadInvite(e, body, context) == Err(Unsupported)
    ensures UnusableInvite(e, body, context)
  {
    hide Lookup, Ascii, ReadIce, IsCanonicalId, CanonicalJson, AllValid, Allowed, HasExactly;
    InviteLookups(body);
    var ice := IceListed(e, body[3].value, context.allowlist);
    var m := Invite(body[2].value.b, ice, body[4].value.text, body[5].value.n);
    IceExact(e, body[3].value, context.allowlist, ice);
    assert body == InviteBody(body[0].value.text, m);
  }

  lemma InviteUnusable(e: Readers, body: seq<Member>, context: Context, direction: Text, m: Message)
    requires ByPosition(body, InviteNames())
    requires ProperInvite(e, m) && (direction == Ascii("to-drop") || direction == Ascii("from-drop"))
    requires body == InviteBody(direction, m) && CannotServe(direction, m, context.allowlist)
    requires CanonicalJson(Arr(ServerValues(m.ice))).Some?
    ensures ReadInvite(e, body, context) == Err(Unsupported)
  {
    hide Lookup, Ascii, ReadIce, IsCanonicalId, CanonicalJson, AllValid, Allowed, HasExactly;
    DirectionsDiffer();
    assert Names(body) == InviteNames();
    InviteLookups(body);
    IceOfProper(e, m, context.allowlist);
  }

  lemma UnusableRefused(e: Readers, body: seq<Member>, context: Context)
    requires ByPosition(body, InviteNames()) && UnusableInvite(e, body, context)
    requires forall i :: 0 <= i < |body| ==> CanonicalJson(body[i].value).Some?
    ensures ReadInvite(e, body, context) == Err(Unsupported)
  {
    hide ReadInvite, CanonicalJson, ByPosition, Ascii, Allowed, AllValid, IsCanonicalId;
    var direction, m :|
      && ProperInvite(e, m) && (direction == Ascii("to-drop") || direction == Ascii("from-drop"))
      && body == InviteBody(direction, m) && CannotServe(direction, m, context.allowlist);
    assert body[3].value == Arr(ServerValues(m.ice));
    InviteUnusable(e, body, context, direction, m);
  }

  lemma InviteUnsupported(e: Readers, body: seq<Member>, context: Context)
    requires ByPosition(body, InviteNames()) && Headed(body, Ascii("invite"))
    requires forall i :: 0 <= i < |body| ==> CanonicalJson(body[i].value).Some?
    ensures ReadInvite(e, body, context) == Err(Unsupported) <==> UnusableInvite(e, body, context)
  {
    hide *;
    if ReadInvite(e, body, context) == Err(Unsupported) {
      InviteRefused(e, body, context);
    }
    if UnusableInvite(e, body, context) {
      UnusableRefused(e, body, context);
    }
  }

  lemma ManifestUnsupported(e: Readers, body: seq<Member>, context: Context)
    requires ByPosition(body, ManifestNames()) && Headed(body, Ascii("manifest"))
    ensures ReadManifest(e, body, context) == Err(Unsupported) <==> UnusableManifest(e, body, context)
  {
    hide HasExactly, Lookup, Ascii, IsManifestName, IsManifestType;
    var names := ManifestNames();
    if Names(body) == names {
      assert Lookup(body, names[0]) == Some(body[0].value) && Lookup(body, names[1]) == Some(body[1].value)
          && Lookup(body, names[2]) == Some(body[2].value) && Lookup(body, names[3]) == Some(body[3].value)
          && Lookup(body, names[4]) == Some(body[4].value);
      assert body == [Member(names[0], body[0].value), Member(names[1], body[1].value), Member(names[2], body[2].value),
                      Member(names[3], body[3].value), Member(names[4], body[4].value)];
      if body[1].value.Str? && body[2].value.Num? && body[3].value.Str? {
        assert body == Members(Manifest(body[1].value.text, body[2].value.n, body[3].value.text));
      }
    } else {
      forall name: Text, size: nat, mime: Text
        ensures body != Members(Manifest(name, size, mime))
      {
        assert Names(Members(Manifest(name, size, mime))) == names;
      }
    }
  }

  /** The other events are either read or malformed. */
  lemma OthersFail(e: Readers, event: Text, body: seq<Member>, context: Context)
    requires event != Ascii("invite") && event != Ascii("manifest") && ReadBody(e, event, body, context).Err?
    ensures ReadBody(e, event, body, context).error == Failed
  {
    hide Ascii, HasExactly, Lookup, CheckSdp, IsCanonicalKey;
  }

  // ---------------------------------------------------------------- the whole message

  /** The version that is read is the one that stands in the object. */
  lemma VersionRead(body: seq<Member>)
    requires InOrder(body)
    ensures OtherVersion(body) <==> NumberAt(body, Ascii("v")).Some? && NumberAt(body, Ascii("v")).value != 1
  {
    hide Ascii, InOrder;
    var v := Ascii("v");
    forall i | 0 <= i < |body| && body[i].name == v
      ensures Lookup(body, v) == Some(body[i].value)
    {
      LookupAt(body, i);
    }
    if Lookup(body, v).Some? {
      var i := Found(body, v);
    }
  }

  lemma {:induction false} Found(body: seq<Member>, name: Text) returns (i: nat)
    requires Lookup(body, name).Some?
    ensures i < |body| && body[i].name == name && Lookup(body, name) == Some(body[i].value)
  {
    if body[0].name == name {
      i := 0;
    } else {
      i := Found(body[1..], name);
      i := i + 1;
    }
  }

  /** Invitations and manifests each have one place. */
  lemma FirstEvents(context: Context)
    ensures Ascii("invite") in AllowedEvents(context.from, context.index) <==> context.from == Drop && context.index == 0
    ensures Ascii("manifest") in AllowedEvents(context.from, context.index) <==> context.from == Page && context.index == 0
  {
    EventsDiffer();
    hide Ascii;
  }

  /** An unusable invitation says that it is one. */
  lemma InviteHeaded(e: Readers, body: seq<Member>, context: Context)
    requires InOrder(body) && UnusableInvite(e, body, context)
    ensures Headed(body, Ascii("invite"))
  {
    hide Ascii, InOrder, AllValid, Allowed, IsCanonicalId, Lookup;
    LookupAt(body, 6);
    LookupAt(body, 1);
  }

  lemma ManifestHeaded(e: Readers, body: seq<Member>, context: Context)
    requires InOrder(body) && UnusableManifest(e, body, context)
    ensures Headed(body, Ascii("manifest"))
  {
    hide Ascii, InOrder, IsManifestName, IsManifestType, Lookup;
    LookupAt(body, 4);
    LookupAt(body, 0);
  }

  lemma BodyUnsupported(e: Readers, event: Text, body: seq<Member>, context: Context)
    requires InOrder(body) && Headed(body, event)
    requires forall i :: 0 <= i < |body| ==> CanonicalJson(body[i].value).Some?
    ensures ReadBody(e, event, body, context) == Err(Unsupported) <==>
      (event == Ascii("invite") && UnusableInvite(e, body, context)) || (event == Ascii("manifest") && UnusableManifest(e, body, context))
  {
    hide *;
    EventsDiffer();
    AllByPosition(body);
    if event == Ascii("invite") {
      InviteUnsupported(e, body, context);
      BodyOfFirst(e, body, context);
    } else if event == Ascii("manifest") {
      ManifestUnsupported(e, body, context);
      BodyOfFirst(e, body, context);
    } else if ReadBody(e, event, body, context).Err? {
      OthersFail(e, event, body, context);
    }
  }

  lemma BodyOfFirst(e: Readers, body: seq<Member>, context: Context)
    ensures ReadBody(e, Ascii("invite"), body, context) == ReadInvite(e, body, context)
    ensures ReadBody(e, Ascii("manifest"), body, context) == ReadManifest(e, body, context)
  {
    EventsDiffer();
    hide Ascii, ReadInvite, ReadManifest;
  }

  lemma CanonicalInside(body: seq<Member>)
    requires CanonicalJson(Obj(body)).Some?
    ensures InOrder(body) && forall i :: 0 <= i < |body| ==> CanonicalJson(body[i].value).Some?
  {
    CanonicalObject(body);
    hide *;
    forall i | 0 <= i < |body|
      ensures CanonicalJson(body[i].value).Some?
    {
      CanonicalMemberInside(body, i);
    }
  }

  lemma ObjectUnsupported(e: Readers, body: seq<Member>, context: Context)
    requires CanonicalJson(Obj(body)).Some?
    ensures ReadObject(e, body, context) == Err(Unsupported) <==> IsUnusable(e, body, context)
  {
    hide *;
    CanonicalInside(body);
    VersionRead(body);
    FirstEvents(context);
    if UnusableInvite(e, body, context) {
      InviteHeaded(e, body, context);
    }
    if UnusableManifest(e, body, context) {
      ManifestHeaded(e, body, context);
    }
    var event := StringAt(body, Ascii("event"));
    if event.Some? && Headed(body, event.value) {
      BodyUnsupported(e, event.value, body, context);
    }
    HeadRefuses(e, body, context);
  }

  lemma HeadRefuses(e: Readers, body: seq<Member>, context: Context)
    requires OtherVersion(body) <==> NumberAt(body, Ascii("v")).Some? && NumberAt(body, Ascii("v")).value != 1
    requires Ascii("invite") in AllowedEvents(context.from, context.index) <==> context.from == Drop && context.index == 0
    requires Ascii("manifest") in AllowedEvents(context.from, context.index) <==> context.from == Page && context.index == 0
    requires UnusableInvite(e, body, context) ==> Headed(body, Ascii("invite"))
    requires UnusableManifest(e, body, context) ==> Headed(body, Ascii("manifest"))
    requires var event := StringAt(body, Ascii("event"));
      event.Some? && Headed(body, event.value) ==>
        (ReadBody(e, event.value, body, context) == Err(Unsupported) <==>
           (event.value == Ascii("invite") && UnusableInvite(e, body, context))
           || (event.value == Ascii("manifest") && UnusableManifest(e, body, context)))
    ensures ReadObject(e, body, context) == Err(Unsupported) <==> IsUnusable(e, body, context)
  {
    hide Ascii, ReadBody, AllowedEvents, StringAt, NumberAt, UnusableInvite, UnusableManifest, OtherVersion;
  }

  /**
   When a message is refused as unsupported: exactly if it is a canonical object, within the limit, of another version,
   or an invitation or manifest in its place that is proper but cannot be used here. Every other refusal is a failure.
   */
  lemma RefusedExactly(e: Readers, bytes: Blob, context: Context)
    requires Sound(e)
    ensures DecodeMessage(e, bytes, context) == Err(Unsupported) <==>
            exists body :: IsCanonicalObject(e, bytes, body) && IsUnusable(e, body, context)
    ensures DecodeMessage(e, bytes, context) == Err(Failed) <==>
            && (forall body :: IsCanonicalObject(e, bytes, body) ==> !IsUnusable(e, body, context))
            && (forall m :: !(Admissible(e, context, m) && EncodeMessage(e, m) == Some(bytes)))
  {
    hide CanonicalJson, IsUnusable, ReadObject, Admissible, EncodeMessage;
    forall body | IsCanonicalObject(e, bytes, body)
      ensures IsUnusable(e, body, context) <==> DecodeMessage(e, bytes, context) == Err(Unsupported)
    {
      CanonicalWellFormed(Obj(body));
      ObjectUnsupported(e, body, context);
    }
    var decoded := DecodeMessage(e, bytes, context);
    if decoded == Err(Unsupported) {
      var text := e.fromUtf8(bytes).value;
      assert e.utf8(text) == bytes;
      assert IsCanonicalObject(e, bytes, e.parse(text).value.members);
    }
    forall m
      ensures decoded == Ok(m) <==> Admissible(e, context, m) && EncodeMessage(e, m) == Some(bytes)
    {
      DecodesExactly(e, bytes, context, m);
    }
  }
}
