/** The messages of a direct-send session: one canonical JSON object each, read, checked and printed again. */
module Messages {
  import opened Wrappers
  import opened Bytes
  import opened FileNames
  import opened Json

  datatype Side = Drop | Page

  datatype StopReason = Cancelled | Unsupported | Failed

  datatype IceServer = IceServer(credential: Text, urls: seq<Text>, username: Text)

  datatype Message =
    | Invite(hideAddress: bool, ice: seq<IceServer>, id: Text, max: nat)
    | Manifest(name: Text, size: nat, mime: Text)
    | Accept(sdp: Text)
    | Decline
    | Answer(key: Text, sdp: Text)
    | Restart(sdp: Text)
    | RestartAnswer(sdp: Text)
    | Stop(reason: StopReason)

  /** Who sent it, which of that side's messages it is, the allowed ICE servers, and the size Drop offered. */
  datatype Context = Context(from: Side, index: int, allowlist: seq<Text>, max: Option<nat>)

  /** What is foreign to the codec: UTF-8, the JSON reader, normalisation form C and lower case. */
  datatype Readers = Readers(
    utf8: Text -> Blob,
    fromUtf8: Blob -> Option<Text>,
    parse: Text -> Option<Value>,
    nfc: Text -> Text,
    lower: Text -> Text)

  /** A fatal UTF-8 reader undoes the writer and accepts nothing else; the JSON reader reads canonical text back. */
  ghost predicate Sound(e: Readers) {
    && (forall t :: WellFormed(t) ==> e.fromUtf8(e.utf8(t)) == Some(t))
    && (forall b, t :: e.fromUtf8(b) == Some(t) ==> e.utf8(t) == b)
    && (forall v :: CanonicalJson(v).Some? ==> e.parse(CanonicalJson(v).value) == Some(v))
  }

  const MESSAGE_BYTES: nat := 16_379
  const MESSAGES_PER_SIDE: nat := 8
  const RESTARTS: nat := 5
  const SDP_BYTES: nat := 8_000
  const ICE_SERVERS: nat := 4
  const URLS_PER_SERVER: nat := 4
  const URL_BYTES: nat := 256
  const CREDENTIAL_BYTES: nat := 256
  const MAX_PLAINTEXT_BYTES: nat := 250_000_000

  function Ascii(s: string): (t: Text)
    requires forall i :: 0 <= i < |s| ==> s[i] < 128 as char
    ensures |t| == |s| && forall i :: 0 <= i < |s| ==> t[i] == s[i] as int
  {
    seq(|s|, i requires 0 <= i < |s| => s[i] as int)
  }

  // ---------------------------------------------------------------- printing

  function ReasonText(reason: StopReason): Text {
    match reason
    case Cancelled => Ascii("cancelled")
    case Unsupported => Ascii("unsupported")
    case Failed => Ascii("failed")
  }

  function Strings(texts: seq<Text>): (values: seq<Value>)
    ensures |values| == |texts| && forall i :: 0 <= i < |texts| ==> values[i] == Str(texts[i])
  {
    seq(|texts|, i requires 0 <= i < |texts| => Str(texts[i]))
  }

  function ServerValue(s: IceServer): Value {
    Obj([Member(Ascii("credential"), Str(s.credential)), Member(Ascii("urls"), Arr(Strings(s.urls))),
         Member(Ascii("username"), Str(s.username))])
  }

  function ServerValues(servers: seq<IceServer>): (values: seq<Value>)
    ensures |values| == |servers| && forall i :: 0 <= i < |servers| ==> values[i] == ServerValue(servers[i])
  {
    seq(|servers|, i requires 0 <= i < |servers| => ServerValue(servers[i]))
  }

  function EventName(m: Message): Text {
    match m
    case Invite(_, _, _, _) => Ascii("invite")
    case Manifest(_, _, _) => Ascii("manifest")
    case Accept(_) => Ascii("accept")
    case Decline => Ascii("decline")
    case Answer(_, _) => Ascii("answer")
    case Restart(_) => Ascii("restart")
    case RestartAnswer(_) => Ascii("restart-answer")
    case Stop(_) => Ascii("stop")
  }

  function EventMember(m: Message): Member {
    Member(Ascii("event"), Str(EventName(m)))
  }

  const VERSION: Member := Member(Ascii("v"), Num(1))

  /** The message and its version, members in ascending order of name. */
  function Members(m: Message): seq<Member> {
    match m
    case Invite(hideAddress, ice, id, max) =>
      [Member(Ascii("dir"), Str(Ascii("to-drop"))), EventMember(m), Member(Ascii("hide"), Bool(hideAddress)),
       Member(Ascii("ice"), Arr(ServerValues(ice))), Member(Ascii("id"), Str(id)), Member(Ascii("max"), Num(max)), VERSION]
    case Manifest(name, size, mime) =>
      [EventMember(m), Member(Ascii("name"), Str(name)), Member(Ascii("size"), Num(size)), Member(Ascii("type"), Str(mime)), VERSION]
    case Accept(sdp) => [EventMember(m), Member(Ascii("sdp"), Str(sdp)), VERSION]
    case Decline => [EventMember(m), VERSION]
    case Answer(key, sdp) => [EventMember(m), Member(Ascii("key"), Str(key)), Member(Ascii("sdp"), Str(sdp)), VERSION]
    case Restart(sdp) => [EventMember(m), Member(Ascii("sdp"), Str(sdp)), VERSION]
    case RestartAnswer(sdp) => [EventMember(m), Member(Ascii("sdp"), Str(sdp)), VERSION]
    case Stop(reason) => [EventMember(m), Member(Ascii("reason"), Str(ReasonText(reason))), VERSION]
  }

  /** The bytes a sender puts on the exchange, unless the message has none or is too large. */
  function EncodeMessage(e: Readers, m: Message): Option<Blob> {
    var text := CanonicalJson(Obj(Members(m)));
    if text.None? || |e.utf8(text.value)| > MESSAGE_BYTES then None else Some(e.utf8(text.value))
  }

  // ---------------------------------------------------------------- checking

  /** What a reader refuses with: Failed or Unsupported. */
  type Refusal = r: StopReason | r != Cancelled witness Failed

  function HasName(members: seq<Member>, name: Text): bool {
    exists i :: 0 <= i < |members| && members[i].name == name
  }

  predicate HasExactly(members: seq<Member>, names: seq<Text>) {
    |members| == |names| && forall i :: 0 <= i < |names| ==> HasName(members, names[i])
  }

  /** The value of a member, if there is one of the name. */
  function Lookup(members: seq<Member>, name: Text): Option<Value> {
    if |members| == 0 then None
    else if members[0].name == name then Some(members[0].value)
    else Lookup(members[1..], name)
  }

  function StringAt(members: seq<Member>, name: Text): Option<Text> {
    var v := Lookup(members, name);
    if v.Some? && v.value.Str? then Some(v.value.text) else None
  }

  function NumberAt(members: seq<Member>, name: Text): Option<nat> {
    var v := Lookup(members, name);
    if v.Some? && v.value.Num? then Some(v.value.n) else None
  }

  predicate HasControl(t: Text) {
    exists i :: 0 <= i < |t| && IsControl(t[i])
  }

  predicate IsBase64Url(u: CodeUnit) {
    0x41 <= u <= 0x5a || 0x61 <= u <= 0x7a || 0x30 <= u <= 0x39 || u == 0x5f || u == 0x2d
  }

  predicate AllBase64Url(t: Text) {
    forall i :: 0 <= i < |t| ==> IsBase64Url(t[i])
  }

  /** Sixteen bytes in unpadded base64url: four bits of the last character are padding. */
  predicate IsCanonicalId(t: Text) {
    |t| == 22 && AllBase64Url(t) && t[21] in Ascii("AQgw")
  }

  /** "wbk1_" and 32 bytes in unpadded base64url: two bits of the last character are padding. */
  predicate IsCanonicalKey(t: Text) {
    StartsWith(t, Ascii("wbk1_")) && |t| == 48 && AllBase64Url(t[5..]) && t[47] in Ascii("AEIMQUYcgkosw048")
  }

  // ---------------------------------------------------------------- session descriptions

  const CR: CodeUnit := 0x0d
  const LF: CodeUnit := 0x0a

  predicate EndsWith(t: Text, suffix: Text) {
    |suffix| <= |t| && t[|t| - |suffix|..] == suffix
  }

  /** The text cut at each CRLF. */
  function Lines(t: Text): seq<Text> {
    LinesFrom(t, 0)
  }

  function LinesFrom(t: Text, n: nat): seq<Text>
    requires n <= |t|
    decreases |t|, |t| - n
  {
    if n + 1 >= |t| then [t]
    else if t[n] == CR && t[n + 1] == LF then [t[..n]] + LinesFrom(t[n + 2..], 0)
    else LinesFrom(t, n + 1)
  }

  predicate AllDigits(t: Text) {
    |t| > 0 && forall i :: 0 <= i < |t| ==> IsDigit(t[i])
  }

  predicate IsMedia(line: Text) {
    StartsWith(line, Ascii("m="))
  }

  /** The one media line: a data channel on some port. */
  predicate IsDataChannel(line: Text) {
    var start, end := Ascii("m=application "), Ascii(" UDP/DTLS/SCTP webrtc-datachannel");
    StartsWith(line, start) && EndsWith(line, end) && |start| + |end| <= |line| && AllDigits(line[|start|..|line| - |end|])
  }

  function MediaLines(lines: seq<Text>): seq<Text> {
    if |lines| == 0 then []
    else (if IsMedia(lines[0]) then [lines[0]] else []) + MediaLines(lines[1..])
  }

  predicate CheckSdp(e: Readers, sdp: Text) {
    && |sdp| > 0 && |e.utf8(sdp)| <= SDP_BYTES
    && (forall i :: 0 <= i < |sdp| ==> sdp[i] == CR || sdp[i] == LF || 0x20 <= sdp[i] <= 0x7e)
    && StartsWith(sdp, Ascii("v=0") + [CR, LF]) && EndsWith(sdp, [CR, LF])
    && (forall i :: 0 <= i < |sdp| && sdp[i] == LF ==> 0 < i && sdp[i - 1] == CR)
    && (forall i :: 0 <= i < |sdp| && sdp[i] == CR ==> i + 1 < |sdp| && sdp[i + 1] == LF)
    && var lines := Lines(sdp[..|sdp| - 2]);
    && |MediaLines(lines)| == 1 && IsDataChannel(MediaLines(lines)[0])
    && exists i :: 0 <= i < |lines| && StartsWith(lines[i], Ascii("a=fingerprint:sha-256 "))
  }

  // ---------------------------------------------------------------- ICE servers

  predicate HasSpace(t: Text) {
    exists i :: 0 <= i < |t| && IsSpace(t[i])
  }

  predicate IsRelayUrl(url: Text) {
    StartsWith(url, Ascii("turn:")) || StartsWith(url, Ascii("turns:"))
  }

  predicate IsIceUrl(e: Readers, url: Text) {
    && |e.utf8(url)| <= URL_BYTES && !HasSpace(url)
    && ((StartsWith(url, Ascii("stun:")) && |url| > 5) || (StartsWith(url, Ascii("turn:")) && |url| > 5)
        || (StartsWith(url, Ascii("turns:")) && |url| > 6))
  }

  /** A TURN entry needs both a username and a credential; a STUN entry has neither. */
  predicate IsSecret(e: Readers, secret: Text, relay: bool) {
    if relay then |secret| > 0 && |e.utf8(secret)| <= CREDENTIAL_BYTES && !HasControl(secret) else secret == []
  }

  predicate HasRelay(urls: seq<Text>) {
    exists i :: 0 <= i < |urls| && IsRelayUrl(urls[i])
  }

  predicate ValidServer(e: Readers, s: IceServer) {
    && 1 <= |s.urls| <= URLS_PER_SERVER
    && (forall i :: 0 <= i < |s.urls| ==> IsIceUrl(e, s.urls[i]))
    && IsSecret(e, s.username, HasRelay(s.urls)) && IsSecret(e, s.credential, HasRelay(s.urls))
  }

  /** The strings of an array, if it holds nothing else. */
  function Texts(values: seq<Value>): Option<seq<Text>> {
    if |values| == 0 then Some([])
    else
      var rest := Texts(values[1..]);
      if !values[0].Str? || rest.None? then None else Some([values[0].text] + rest.value)
  }

  function ReadServer(e: Readers, entry: Value): Result<IceServer, Refusal> {
    if !entry.Obj? || !HasExactly(entry.members, [Ascii("credential"), Ascii("urls"), Ascii("username")]) then Err(Failed)
    else
      var credential, username := StringAt(entry.members, Ascii("credential")), StringAt(entry.members, Ascii("username"));
      var urls := Lookup(entry.members, Ascii("urls"));
      if urls.None? || !urls.value.Arr? then Err(Failed)
      else
        var texts := Texts(urls.value.items);
        if texts.None? || credential.None? || username.None? then Err(Failed)
        else
          var server := IceServer(credential.value, texts.value, username.value);
          if ValidServer(e, server) then Ok(server) else Err(Failed)
  }

  function ReadServers(e: Readers, entries: seq<Value>): Result<seq<IceServer>, Refusal> {
    if |entries| == 0 then Ok([])
    else
      var first, rest := ReadServer(e, entries[0]), ReadServers(e, entries[1..]);
      if first.Err? || rest.Err? then Err(Failed) else Ok([first.value] + rest.value)
  }

  predicate Allowed(servers: seq<IceServer>, allowlist: seq<Text>) {
    forall i, j :: 0 <= i < |servers| && 0 <= j < |servers[i].urls| ==> servers[i].urls[j] in allowlist
  }

  /** Syntax first; only then the page's own policy. */
  function ReadIce(e: Readers, value: Value, allowlist: seq<Text>): Result<seq<IceServer>, Refusal> {
    if !value.Arr? || |value.items| < 1 || |value.items| > ICE_SERVERS then Err(Failed)
    else
      var servers := ReadServers(e, value.items);
      if servers.Err? then Err(Failed)
      else if !Allowed(servers.value, allowlist) then Err(Unsupported)
      else servers
  }

  // ---------------------------------------------------------------- one reader an event

  function ReadInvite(e: Readers, body: seq<Member>, context: Context): Result<Message, Refusal> {
    if !HasExactly(body, [Ascii("dir"), Ascii("event"), Ascii("hide"), Ascii("ice"), Ascii("id"), Ascii("max"), Ascii("v")]) then Err(Failed)
    else
      var dir, hideAddress := StringAt(body, Ascii("dir")), Lookup(body, Ascii("hide"));
      var id, max := StringAt(body, Ascii("id")), NumberAt(body, Ascii("max"));
      if dir.None? || (dir.value != Ascii("to-drop") && dir.value != Ascii("from-drop")) then Err(Failed)
      else if hideAddress.None? || !hideAddress.value.Bool? then Err(Failed)
      else if id.None? || !IsCanonicalId(id.value) then Err(Failed)
      else if max.None? || max.value < 1 then Err(Failed)
      else
        var list := Lookup(body, Ascii("ice"));
        var ice := if list.None? then Err(Failed) else ReadIce(e, list.value, context.allowlist);
        if ice.Err? then Err(ice.error)
        else if dir.value == Ascii("from-drop") then Err(Unsupported)
        else if max.value > MAX_PLAINTEXT_BYTES then Err(Unsupported)
        else Ok(Invite(hideAddress.value.b, ice.value, id.value, max.value))
  }

  /** A character that changes how a name is drawn or cannot be seen; those past U+FFFF are surrogate pairs. */
  predicate IsDisguise(u: CodeUnit) {
    || u == 0x061c || u == 0x180e || 0x200b <= u <= 0x200f || 0x202a <= u <= 0x202e
    || 0x2060 <= u <= 0x2064 || 0x2066 <= u <= 0x206f || u == 0xfeff
  }

  predicate HoldsDisguise(t: Text) {
    || (exists i :: 0 <= i < |t| && IsDisguise(t[i]))
    || (exists i :: 0 <= i < |t| - 1 && t[i] == 0xdb40 && 0xdc00 <= t[i + 1] <= 0xdc7f)
  }

  predicate IsManifestName(e: Readers, name: Text) {
    SanitiseFileName(e.nfc, name) == name && !HoldsDisguise(name)
  }

  predicate IsManifestType(e: Readers, mime: Text) {
    1 <= |mime| <= 255 && !HasControl(mime) && e.lower(mime) == mime
  }

  function ReadManifest(e: Readers, body: seq<Member>, context: Context): Result<Message, Refusal> {
    if !HasExactly(body, [Ascii("event"), Ascii("name"), Ascii("size"), Ascii("type"), Ascii("v")]) then Err(Failed)
    else
      var name, size, mime := StringAt(body, Ascii("name")), NumberAt(body, Ascii("size")), StringAt(body, Ascii("type"));
      if name.None? || !IsManifestName(e, name.value) then Err(Failed)
      else if mime.None? || !IsManifestType(e, mime.value) then Err(Failed)
      else if size.None? then Err(Failed)
      else if context.max.Some? && size.value > context.max.value then Err(Unsupported)
      else Ok(Manifest(name.value, size.value, mime.value))
  }

  function ReadSdp(e: Readers, body: seq<Member>): Option<Text> {
    if !HasExactly(body, [Ascii("event"), Ascii("sdp"), Ascii("v")]) then None
    else
      var sdp := StringAt(body, Ascii("sdp"));
      if sdp.None? || !CheckSdp(e, sdp.value) then None else sdp
  }

  function ReadAnswer(e: Readers, body: seq<Member>): Result<Message, Refusal> {
    if !HasExactly(body, [Ascii("event"), Ascii("key"), Ascii("sdp"), Ascii("v")]) then Err(Failed)
    else
      var key, sdp := StringAt(body, Ascii("key")), StringAt(body, Ascii("sdp"));
      if key.None? || !IsCanonicalKey(key.value) || sdp.None? || !CheckSdp(e, sdp.value) then Err(Failed)
      else Ok(Answer(key.value, sdp.value))
  }

  function ReadStop(body: seq<Member>): Result<Message, Refusal> {
    if !HasExactly(body, [Ascii("event"), Ascii("reason"), Ascii("v")]) then Err(Failed)
    else
      var reason := StringAt(body, Ascii("reason"));
      if reason == Some(Ascii("cancelled")) then Ok(Stop(Cancelled))
      else if reason == Some(Ascii("unsupported")) then Ok(Stop(Unsupported))
      else if reason == Some(Ascii("failed")) then Ok(Stop(Failed))
      else Err(Failed)
  }

  /** The events each side may send as its message `index`. */
  function AllowedEvents(from: Side, index: int): seq<Text> {
    if index < 0 || index >= MESSAGES_PER_SIDE then []
    else if from == Drop then
      if index == 0 then [Ascii("invite")]
      else if index == 1 then [Ascii("accept"), Ascii("decline"), Ascii("stop")]
      else if index <= 1 + RESTARTS then [Ascii("restart"), Ascii("stop")]
      else [Ascii("stop")]
    else
      if index == 0 then [Ascii("manifest"), Ascii("stop")]
      else if index == 1 then [Ascii("answer"), Ascii("stop")]
      else if index <= 1 + RESTARTS then [Ascii("restart-answer"), Ascii("stop")]
      else [Ascii("stop")]
  }

  function ReadBody(e: Readers, event: Text, body: seq<Member>, context: Context): Result<Message, Refusal> {
    if event == Ascii("invite") then ReadInvite(e, body, context)
    else if event == Ascii("manifest") then ReadManifest(e, body, context)
    else if event == Ascii("accept") then
      var sdp := ReadSdp(e, body);
      if sdp.None? then Err(Failed) else Ok(Accept(sdp.value))
    else if event == Ascii("restart") then
      var sdp := ReadSdp(e, body);
      if sdp.None? then Err(Failed) else Ok(Restart(sdp.value))
    else if event == Ascii("restart-answer") then
      var sdp := ReadSdp(e, body);
      if sdp.None? then Err(Failed) else Ok(RestartAnswer(sdp.value))
    else if event == Ascii("decline") then
      if HasExactly(body, [Ascii("event"), Ascii("v")]) then Ok(Decline) else Err(Failed)
    else if event == Ascii("answer") then ReadAnswer(e, body)
    else if event == Ascii("stop") then ReadStop(body)
    else Err(Failed)
  }

  /** Checks a parsed object: its version, whether the event may come here, and its members. */
  function ReadObject(e: Readers, body: seq<Member>, context: Context): Result<Message, Refusal> {
    var version, event := NumberAt(body, Ascii("v")), StringAt(body, Ascii("event"));
    if version.None? then Err(Failed)
    else if version.value != 1 then Err(Unsupported)
    else if event.None? || event.value !in AllowedEvents(context.from, context.index) then Err(Failed)
    else ReadBody(e, event.value, body, context)
  }

  /** Reads one message. A refusal is the reason to stop with. */
  function DecodeMessage(e: Readers, bytes: Blob, context: Context): Result<Message, Refusal> {
    if |bytes| > MESSAGE_BYTES then Err(Failed)
    else
      var text := e.fromUtf8(bytes);
      if text.None? then Err(Failed)
      else
        var parsed := e.parse(text.value);
        if parsed.None? || !parsed.value.Obj? then Err(Failed)
        else if CanonicalJson(parsed.value) != text then Err(Failed)
        else ReadObject(e, parsed.value.members, context)
  }
}
