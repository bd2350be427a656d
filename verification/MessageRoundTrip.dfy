/** The reader accepts exactly what the writer makes of the messages allowed at that point. */
module MessageRoundTrip {
  import opened Wrappers
  import opened Bytes
  import opened FileNames
  import opened Json
  import opened Messages
  import opened MessageCodec

  /** What a message's fields must satisfy where it is read. */
  predicate Fits(e: Readers, context: Context, m: Message) {
    match m
    case Invite(_, ice, id, max) =>
      && IsCanonicalId(id) && 1 <= max <= MAX_PLAINTEXT_BYTES
      && 1 <= |ice| <= ICE_SERVERS && AllValid(e, ice) && Allowed(ice, context.allowlist)
    case Manifest(name, size, mime) =>
      && IsManifestName(e, name) && IsManifestType(e, mime)
      && (context.max.Some? ==> size <= context.max.value)
    case Accept(sdp) => CheckSdp(e, sdp)
    case Decline => true
    case Answer(key, sdp) => IsCanonicalKey(key) && CheckSdp(e, sdp)
    case Restart(sdp) => CheckSdp(e, sdp)
    case RestartAnswer(sdp) => CheckSdp(e, sdp)
    case Stop(_) => true
  }

  predicate AllValid(e: Readers, servers: seq<IceServer>) {
    forall i :: 0 <= i < |servers| ==> ValidServer(e, servers[i])
  }

  predicate Admissible(e: Readers, context: Context, m: Message) {
    Fits(e, context, m) && EventName(m) in AllowedEvents(context.from, context.index)
  }

  // ---------------------------------------------------------------- values inside a canonical object

  lemma {:induction false} CanonicalItemInside(items: seq<Value>, i: nat)
    requires CanonicalItems(items).Some? && i < |items|
    ensures CanonicalJson(items[i]).Some?
    decreases i
  {
    hide CanonicalJson;
    if i > 0 {
      CanonicalItemInside(items[1..], i - 1);
    }
  }

  lemma {:induction false} CanonicalMemberInside(members: seq<Member>, i: nat)
    requires CanonicalMembers(members).Some? && i < |members|
    ensures CanonicalJson(members[i].value).Some?
    decreases i
  {
    hide CanonicalJson;
    if i > 0 {
      CanonicalMemberInside(members[1..], i - 1);
    } else {
      assert CanonicalMember(members[0]).Some?;
    }
  }

  lemma CanonicalObject(members: seq<Member>)
    requires CanonicalJson(Obj(members)).Some?
    ensures InOrder(members) && CanonicalMembers(members).Some?
  {
  }

  lemma CanonicalArray(items: seq<Value>)
    requires CanonicalJson(Arr(items)).Some?
    ensures CanonicalItems(items).Some?
  {
  }

  /** An object whose names are these is read by position. */
  lemma ReadByPosition(body: seq<Member>, names: seq<Text>)
    requires InOrder(body) && NamesInOrder(names)
    ensures HasExactly(body, names) <==> Names(body) == names
    ensures Names(body) == names ==> forall i :: 0 <= i < |names| ==> Lookup(body, names[i]) == Some(body[i].value)
  {
    ExactNames(body, names);
    hide HasExactly, InOrder, NamesInOrder, Lookup;
    forall i | 0 <= i < |body|
      ensures Lookup(body, body[i].name) == Some(body[i].value)
    {
      LookupAt(body, i);
    }
  }

  // ---------------------------------------------------------------- ICE servers

  lemma {:induction false} TextsExact(values: seq<Value>, texts: seq<Text>)
    ensures Texts(values) == Some(texts) <==> values == Strings(texts)
  {
    if |values| > 0 && |texts| > 0 {
      TextsExact(values[1..], texts[1..]);
      assert texts == [texts[0]] + texts[1..];
      assert values == [values[0]] + values[1..];
      assert Strings(texts) == [Str(texts[0])] + Strings(texts[1..]);
    }
  }

  lemma ServerExact(e: Readers, entry: Value, s: IceServer)
    requires CanonicalJson(entry).Some?
    ensures ReadServer(e, entry) == Ok(s) <==> ValidServer(e, s) && entry == ServerValue(s)
  {
    if entry.Obj? {
      var body := entry.members;
      CanonicalObject(body);
      ServerInOrder();
      ReadByPosition(body, ServerNames());
      ServerFields(e, body, s);
    }
  }

  lemma ServerFields(e: Readers, body: seq<Member>, s: IceServer)
    requires HasExactly(body, ServerNames()) <==> Names(body) == ServerNames()
    requires Names(body) == ServerNames() ==>
      forall i :: 0 <= i < |ServerNames()| ==> Lookup(body, ServerNames()[i]) == Some(body[i].value)
    ensures ReadServer(e, Obj(body)) == Ok(s) <==> ValidServer(e, s) && Obj(body) == ServerValue(s)
  {
    hide HasExactly, Lookup, ValidServer, Ascii, Texts, Strings;
    var names := ServerNames();
    if Names(body) == names {
      assert Lookup(body, names[0]) == Some(body[0].value) && Lookup(body, names[1]) == Some(body[1].value)
          && Lookup(body, names[2]) == Some(body[2].value);
      assert body == [Member(names[0], body[0].value), Member(names[1], body[1].value), Member(names[2], body[2].value)];
      if body[1].value.Arr? {
        TextsExact(body[1].value.items, s.urls);
      }
    } else {
      assert Names(ServerValue(s).members) == names;
    }
  }

  lemma CanonicalTail(entries: seq<Value>)
    requires CanonicalItems(entries).Some? && |entries| > 0
    ensures CanonicalItems(entries[1..]).Some?
  {
    hide CanonicalJson;
  }

  /** The head and the tail of a list of servers. */
  lemma ServersSplit(e: Readers, entries: seq<Value>, servers: seq<IceServer>)
    requires |entries| > 0 && |servers| > 0
    ensures ReadServers(e, entries) == Ok(servers) <==>
      ReadServer(e, entries[0]) == Ok(servers[0]) && ReadServers(e, entries[1..]) == Ok(servers[1..])
    ensures entries == ServerValues(servers) <==> entries[0] == ServerValue(servers[0]) && entries[1..] == ServerValues(servers[1..])
  {
    hide ReadServer, ServerValue;
    assert servers == [servers[0]] + servers[1..];
    assert entries == [entries[0]] + entries[1..];
    assert ServerValues(servers) == [ServerValue(servers[0])] + ServerValues(servers[1..]);
  }

  lemma NoServers(e: Readers, entries: seq<Value>, servers: seq<IceServer>)
    requires |entries| == 0 || |servers| == 0
    ensures ReadServers(e, entries) == Ok(servers) <==> AllValid(e, servers) && entries == ServerValues(servers)
  {
    hide ReadServer, ServerValue, ValidServer;
  }

  lemma {:induction false} ServersExact(e: Readers, entries: seq<Value>, servers: seq<IceServer>)
    requires CanonicalItems(entries).Some?
    ensures ReadServers(e, entries) == Ok(servers) <==> AllValid(e, servers) && entries == ServerValues(servers)
  {
    hide *;
    if |entries| == 0 || |servers| == 0 {
      NoServers(e, entries, servers);
    } else {
      CanonicalItemInside(entries, 0);
      CanonicalTail(entries);
      ServerExact(e, entries[0], servers[0]);
      ServersExact(e, entries[1..], servers[1..]);
      ServersSplit(e, entries, servers);
      ValidTail(e, servers);
    }
  }

  lemma ValidTail(e: Readers, servers: seq<IceServer>)
    requires |servers| > 0
    ensures AllValid(e, servers) <==> ValidServer(e, servers[0]) && AllValid(e, servers[1..])
  {
    hide ValidServer;
    if ValidServer(e, servers[0]) && AllValid(e, servers[1..]) {
      forall i | 0 <= i < |servers|
        ensures ValidServer(e, servers[i])
      {
        assert i > 0 ==> servers[i] == servers[1..][i - 1];
      }
    }
  }

  lemma IceExact(e: Readers, value: Value, allowlist: seq<Text>, ice: seq<IceServer>)
    requires CanonicalJson(value).Some?
    ensures ReadIce(e, value, allowlist) == Ok(ice) <==>
      1 <= |ice| <= ICE_SERVERS && AllValid(e, ice) && Allowed(ice, allowlist) && value == Arr(ServerValues(ice))
  {
    hide ReadServers, AllValid, Allowed;
    if value.Arr? {
      CanonicalArray(value.items);
      ServersExact(e, value.items, ice);
    }
  }

  // ---------------------------------------------------------------- each event

  /** The members common to all messages are the ones the event calls for. */
  predicate Headed(body: seq<Member>, event: Text) {
    NumberAt(body, Ascii("v")) == Some(1) && StringAt(body, Ascii("event")) == Some(event)
  }

  /** The body has exactly these names, and each is read by position. */
  ghost predicate ByPosition(body: seq<Member>, names: seq<Text>) {
    && (HasExactly(body, names) <==> Names(body) == names)
    && (Names(body) == names ==> forall i :: 0 <= i < |names| ==> Lookup(body, names[i]) == Some(body[i].value))
  }

  lemma ManifestExact(e: Readers, body: seq<Member>, context: Context, m: Message)
    requires ByPosition(body, ManifestNames()) && Headed(body, Ascii("manifest"))
    ensures ReadManifest(e, body, context) == Ok(m) <==> m.Manifest? && Fits(e, context, m) && body == Members(m)
  {
    hide HasExactly, Lookup, Ascii, IsManifestName, IsManifestType;
    var names := ManifestNames();
    if Names(body) == names {
      assert Lookup(body, names[0]) == Some(body[0].value) && Lookup(body, names[1]) == Some(body[1].value)
          && Lookup(body, names[2]) == Some(body[2].value) && Lookup(body, names[3]) == Some(body[3].value)
          && Lookup(body, names[4]) == Some(body[4].value);
      assert body == [Member(names[0], body[0].value), Member(names[1], body[1].value), Member(names[2], body[2].value),
                      Member(names[3], body[3].value), Member(names[4], body[4].value)];
    } else if m.Manifest? {
      assert Names(Members(m)) == names;
    }
  }

  lemma SdpExact(e: Readers, body: seq<Member>, event: Text, sdp: Text)
    requires ByPosition(body, SdpNames()) && Headed(body, event)
    ensures ReadSdp(e, body) == Some(sdp) <==>
      CheckSdp(e, sdp) && body == [Member(Ascii("event"), Str(event)), Member(Ascii("sdp"), Str(sdp)), VERSION]
  {
    hide HasExactly, Lookup, Ascii, CheckSdp;
    var names := SdpNames();
    if Names(body) == names {
      assert Lookup(body, names[0]) == Some(body[0].value) && Lookup(body, names[1]) == Some(body[1].value)
          && Lookup(body, names[2]) == Some(body[2].value);
      assert body == [Member(names[0], body[0].value), Member(names[1], body[1].value), Member(names[2], body[2].value)];
    } else {
      assert Names([Member(Ascii("event"), Str(event)), Member(Ascii("sdp"), Str(sdp)), VERSION]) == names;
    }
  }

  lemma AnswerExact(e: Readers, body: seq<Member>, context: Context, m: Message)
    requires ByPosition(body, AnswerNames()) && Headed(body, Ascii("answer"))
    ensures ReadAnswer(e, body) == Ok(m) <==> m.Answer? && Fits(e, context, m) && body == Members(m)
  {
    hide HasExactly, Lookup, Ascii, CheckSdp, IsCanonicalKey;
    var names := AnswerNames();
    if Names(body) == names {
      assert Lookup(body, names[0]) == Some(body[0].value) && Lookup(body, names[1]) == Some(body[1].value)
          && Lookup(body, names[2]) == Some(body[2].value) && Lookup(body, names[3]) == Some(body[3].value);
      assert body == [Member(names[0], body[0].value), Member(names[1], body[1].value), Member(names[2], body[2].value),
                      Member(names[3], body[3].value)];
    } else if m.Answer? {
      assert Names(Members(m)) == names;
    }
  }

  lemma DeclineExact(body: seq<Member>)
    requires ByPosition(body, DeclineNames()) && Headed(body, Ascii("decline"))
    ensures HasExactly(body, DeclineNames()) <==> body == Members(Decline)
  {
    hide HasExactly, Lookup, Ascii;
    var names := DeclineNames();
    if Names(body) == names {
      assert Lookup(body, names[0]) == Some(body[0].value) && Lookup(body, names[1]) == Some(body[1].value);
      assert body == [Member(names[0], body[0].value), Member(names[1], body[1].value)];
    } else {
      assert Names(Members(Decline)) == names;
    }
  }

  lemma ReasonsDiffer()
    ensures Ascii("cancelled") != Ascii("unsupported") && Ascii("cancelled") != Ascii("failed")
    ensures Ascii("unsupported") != Ascii("failed")
  {
    assert |Ascii("cancelled")| == 9 && |Ascii("unsupported")| == 11 && |Ascii("failed")| == 6;
  }

  lemma StopExact(body: seq<Member>, m: Message)
    requires ByPosition(body, StopNames()) && Headed(body, Ascii("stop"))
    ensures ReadStop(body) == Ok(m) <==> m.Stop? && body == Members(m)
  {
    ReasonsDiffer();
    hide HasExactly, Lookup, Ascii;
    var names := StopNames();
    if Names(body) == names {
      assert Lookup(body, names[0]) == Some(body[0].value) && Lookup(body, names[1]) == Some(body[1].value)
          && Lookup(body, names[2]) == Some(body[2].value);
      assert body == [Member(names[0], body[0].value), Member(names[1], body[1].value), Member(names[2], body[2].value)];
    } else if m.Stop? {
      assert Names(Members(m)) == names;
    }
  }

  lemma InviteExact(e: Readers, body: seq<Member>, context: Context, m: Message)
    requires ByPosition(body, InviteNames()) && Headed(body, Ascii("invite"))
    requires forall i :: 0 <= i < |body| ==> CanonicalJson(body[i].value).Some?
    ensures ReadInvite(e, body, context) == Ok(m) <==> m.Invite? && Fits(e, context, m) && body == Members(m)
  {
    DirectionsDiffer();
    hide HasExactly, Lookup, Ascii, ReadIce, IsCanonicalId, CanonicalJson, AllValid, Allowed;
    var names := InviteNames();
    if Names(body) == names {
      assert Lookup(body, names[0]) == Some(body[0].value) && Lookup(body, names[1]) == Some(body[1].value)
          && Lookup(body, names[2]) == Some(body[2].value) && Lookup(body, names[3]) == Some(body[3].value)
          && Lookup(body, names[4]) == Some(body[4].value) && Lookup(body, names[5]) == Some(body[5].value)
          && Lookup(body, names[6]) == Some(body[6].value);
      assert body == [Member(names[0], body[0].value), Member(names[1], body[1].value), Member(names[2], body[2].value),
                      Member(names[3], body[3].value), Member(names[4], body[4].value), Member(names[5], body[5].value),
                      Member(names[6], body[6].value)];
      if m.Invite? {
        IceExact(e, body[3].value, context.allowlist, m.ice);
      }
    } else if m.Invite? {
      assert Names(Members(m)) == names;
    }
  }

  lemma DirectionsDiffer()
    ensures Ascii("to-drop") != Ascii("from-drop")
  {
    assert |Ascii("to-drop")| == 7 && |Ascii("from-drop")| == 9;
  }

  // ---------------------------------------------------------------- all events

  /** The eight names of events all differ. */
  lemma EventsDiffer()
    ensures Ascii("invite") != Ascii("accept") && Ascii("invite") != Ascii("answer") && Ascii("accept") != Ascii("answer")
    ensures Ascii("restart") != Ascii("decline")
    ensures |Ascii("invite")| == 6 && |Ascii("accept")| == 6 && |Ascii("answer")| == 6
    ensures |Ascii("restart")| == 7 && |Ascii("decline")| == 7
    ensures |Ascii("manifest")| == 8 && |Ascii("restart-answer")| == 14 && |Ascii("stop")| == 4
  {
    assert Ascii("invite")[0] == 'i' as int && Ascii("accept")[0] == 'a' as int && Ascii("answer")[0] == 'a' as int;
    assert Ascii("accept")[1] == 'c' as int && Ascii("answer")[1] == 'n' as int;
    assert Ascii("restart")[0] == 'r' as int && Ascii("decline")[0] == 'd' as int;
  }

  lemma AllByPosition(body: seq<Member>)
    requires InOrder(body)
    ensures ByPosition(body, InviteNames()) && ByPosition(body, ManifestNames()) && ByPosition(body, SdpNames())
    ensures ByPosition(body, DeclineNames()) && ByPosition(body, AnswerNames()) && ByPosition(body, StopNames())
  {
    hide InOrder, HasExactly, Lookup, Ascii, NamesInOrder, InviteNames, ManifestNames, SdpNames, DeclineNames, AnswerNames, StopNames;
    InviteInOrder();
    ReadByPosition(body, InviteNames());
    ManifestInOrder();
    ReadByPosition(body, ManifestNames());
    SdpInOrder();
    ReadByPosition(body, SdpNames());
    ReadByPosition(body, DeclineNames());
    AnswerInOrder();
    ReadByPosition(body, AnswerNames());
    StopInOrder();
    ReadByPosition(body, StopNames());
  }

  /** The event's name says which kind of message it is. */
  lemma EventKinds(m: Message)
    ensures m.Invite? <==> EventName(m) == Ascii("invite")
    ensures m.Manifest? <==> EventName(m) == Ascii("manifest")
    ensures m.Accept? <==> EventName(m) == Ascii("accept")
    ensures m.Decline? <==> EventName(m) == Ascii("decline")
    ensures m.Answer? <==> EventName(m) == Ascii("answer")
    ensures m.Restart? <==> EventName(m) == Ascii("restart")
    ensures m.RestartAnswer? <==> EventName(m) == Ascii("restart-answer")
    ensures m.Stop? <==> EventName(m) == Ascii("stop")
  {
    EventsDiffer();
    hide Ascii;
  }

  /** What the reader of one event accepts. */
  ghost predicate BodyIsExact(e: Readers, event: Text, body: seq<Member>, context: Context, m: Message) {
    ReadBody(e, event, body, context) == Ok(m) <==> event == EventName(m) && Fits(e, context, m) && body == Members(m)
  }

  lemma InviteCase(e: Readers, body: seq<Member>, context: Context, m: Message)
    requires ByPosition(body, InviteNames()) && Headed(body, Ascii("invite"))
    requires forall i :: 0 <= i < |body| ==> CanonicalJson(body[i].value).Some?
    ensures BodyIsExact(e, Ascii("invite"), body, context, m)
  {
    EventKinds(m);
    InviteExact(e, body, context, m);
    hide Ascii, EventName, Members, Fits, ReadInvite, CanonicalJson;
  }

  lemma ManifestCase(e: Readers, body: seq<Member>, context: Context, m: Message)
    requires ByPosition(body, ManifestNames()) && Headed(body, Ascii("manifest"))
    ensures BodyIsExact(e, Ascii("manifest"), body, context, m)
  {
    EventsDiffer();
    EventKinds(m);
    ManifestExact(e, body, context, m);
    hide Ascii, EventName, Members, Fits, ReadManifest;
  }

  lemma AnswerCase(e: Readers, body: seq<Member>, context: Context, m: Message)
    requires ByPosition(body, AnswerNames()) && Headed(body, Ascii("answer"))
    ensures BodyIsExact(e, Ascii("answer"), body, context, m)
  {
    EventsDiffer();
    EventKinds(m);
    AnswerExact(e, body, context, m);
    hide Ascii, EventName, Members, Fits, ReadAnswer;
  }

  lemma DeclineCase(e: Readers, body: seq<Member>, context: Context, m: Message)
    requires ByPosition(body, DeclineNames()) && Headed(body, Ascii("decline"))
    ensures BodyIsExact(e, Ascii("decline"), body, context, m)
  {
    EventsDiffer();
    EventKinds(m);
    DeclineExact(body);
    hide Ascii, EventName, Members, HasExactly;
  }

  lemma StopCase(e: Readers, body: seq<Member>, context: Context, m: Message)
    requires ByPosition(body, StopNames()) && Headed(body, Ascii("stop"))
    ensures BodyIsExact(e, Ascii("stop"), body, context, m)
  {
    EventsDiffer();
    EventKinds(m);
    StopExact(body, m);
    hide Ascii, EventName, Members, ReadStop;
  }

  lemma SdpCase(e: Readers, event: Text, body: seq<Member>, context: Context, m: Message)
    requires ByPosition(body, SdpNames()) && Headed(body, event)
    requires event == Ascii("accept") || event == Ascii("restart") || event == Ascii("restart-answer")
    ensures BodyIsExact(e, event, body, context, m)
  {
    hide Ascii, EventName, ReadSdp, CheckSdp, Headed, ByPosition;
    EventsDiffer();
    EventKinds(m);
    if m.Accept? || m.Restart? || m.RestartAnswer? {
      SdpExact(e, body, event, m.sdp);
    }
  }

  lemma UnknownCase(e: Readers, event: Text, body: seq<Member>, context: Context, m: Message)
    requires event !in [Ascii("invite"), Ascii("manifest"), Ascii("accept"), Ascii("restart"), Ascii("restart-answer"),
                        Ascii("decline"), Ascii("answer"), Ascii("stop")]
    ensures BodyIsExact(e, event, body, context, m)
  {
    hide Ascii, Fits, Members;
  }

  lemma BodyExact(e: Readers, event: Text, body: seq<Member>, context: Context, m: Message)
    requires InOrder(body) && Headed(body, event)
    requires forall i :: 0 <= i < |body| ==> CanonicalJson(body[i].value).Some?
    ensures BodyIsExact(e, event, body, context, m)
  {
    hide *;
    AllByPosition(body);
    if event == Ascii("invite") {
      InviteCase(e, body, context, m);
    } else if event == Ascii("manifest") {
      ManifestCase(e, body, context, m);
    } else if event == Ascii("accept") || event == Ascii("restart") || event == Ascii("restart-answer") {
      SdpCase(e, event, body, context, m);
    } else if event == Ascii("decline") {
      DeclineCase(e, body, context, m);
    } else if event == Ascii("answer") {
      AnswerCase(e, body, context, m);
    } else if event == Ascii("stop") {
      StopCase(e, body, context, m);
    } else {
      UnknownCase(e, event, body, context, m);
    }
  }

  /** A message's own object has its version and event. */
  lemma MembersHeaded(m: Message)
    requires InOrder(Members(m))
    ensures Headed(Members(m), EventName(m))
  {
    var body := Members(m);
    LookupAt(body, |body| - 1);
    LookupAt(body, if m.Invite? then 1 else 0);
    hide Lookup, Ascii, InOrder;
  }

  lemma ObjectExact(e: Readers, body: seq<Member>, context: Context, m: Message)
    requires CanonicalJson(Obj(body)).Some?
    ensures ReadObject(e, body, context) == Ok(m) <==> Admissible(e, context, m) && body == Members(m)
  {
    CanonicalObject(body);
    forall i | 0 <= i < |body|
      ensures CanonicalJson(body[i].value).Some?
    {
      CanonicalMemberInside(body, i);
    }
    hide *;
    if body == Members(m) {
      MembersHeaded(m);
    }
    var event := StringAt(body, Ascii("event"));
    if event.Some? && Headed(body, event.value) {
      BodyExact(e, event.value, body, context, m);
    }
    HeadDecides(e, body, context, m);
  }

  lemma HeadDecides(e: Readers, body: seq<Member>, context: Context, m: Message)
    requires body == Members(m) ==> Headed(body, EventName(m))
    requires var event := StringAt(body, Ascii("event"));
      event.Some? && Headed(body, event.value) ==> BodyIsExact(e, event.value, body, context, m)
    ensures ReadObject(e, body, context) == Ok(m) <==> Admissible(e, context, m) && body == Members(m)
  {
    hide Ascii, Fits, Members, EventName, ReadBody, AllowedEvents, StringAt, NumberAt;
  }

  /**
   The codec is exact: a message is read from these bytes exactly when it may come here and these are the bytes it is
   written as. So what is written is read back, and a message accepted has no other spelling.
   */
  lemma DecodesExactly(e: Readers, bytes: Blob, context: Context, m: Message)
    requires Sound(e)
    ensures DecodeMessage(e, bytes, context) == Ok(m) <==> Admissible(e, context, m) && EncodeMessage(e, m) == Some(bytes)
  {
    hide CanonicalJson, Admissible, ReadObject, Members;
    if EncodeMessage(e, m) == Some(bytes) {
      var text := CanonicalJson(Obj(Members(m))).value;
      CanonicalWellFormed(Obj(Members(m)));
      assert e.fromUtf8(bytes) == Some(text) && e.parse(text) == Some(Obj(Members(m)));
      ObjectExact(e, Members(m), context, m);
    }
    if DecodeMessage(e, bytes, context) == Ok(m) {
      var text := e.fromUtf8(bytes).value;
      assert e.utf8(text) == bytes;
      var parsed := e.parse(text).value;
      ObjectExact(e, parsed.members, context, m);
    }
  }
}
