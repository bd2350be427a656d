/** Which session descriptions are accepted, in terms of their lines. */
module SessionDescriptions {
  import opened FileNames
  import opened Json
  import opened Messages

  // ---------------------------------------------------------------- lines

  predicate IsPrintableAscii(u: CodeUnit) {
    0x20 <= u <= 0x7e
  }

  predicate IsLine(t: Text) {
    forall i :: 0 <= i < |t| ==> IsPrintableAscii(t[i])
  }

  /** Each line and its end. */
  function Joined(lines: seq<Text>): Text {
    if |lines| == 0 then [] else lines[0] + [0x0d, 0x0a] + Joined(lines[1..])
  }

  /** Printable but for line ends, which stand whole. */
  predicate IsClean(t: Text) {
    && (forall i :: 0 <= i < |t| ==> t[i] == CR || t[i] == LF || IsPrintableAscii(t[i]))
    && (forall i :: 0 <= i < |t| && t[i] == LF ==> 0 < i && t[i - 1] == CR)
    && (forall i :: 0 <= i < |t| && t[i] == CR ==> i + 1 < |t| && t[i + 1] == LF)
  }

  ghost predicate AllLines(lines: seq<Text>) {
    forall i :: 0 <= i < |lines| ==> IsLine(lines[i])
  }

  lemma RestIsClean(t: Text, n: nat)
    requires IsClean(t) && n + 1 < |t| && t[n] == CR && t[n + 1] == LF
    ensures IsClean(t[n + 2..])
  {
  }

  /** What is cut at the line ends of a clean text are its lines. */
  lemma {:induction false} CutsIntoLines(t: Text, n: nat)
    requires IsClean(t) && n <= |t| && IsLine(t[..n])
    ensures |LinesFrom(t, n)| > 0 && AllLines(LinesFrom(t, n)) && Joined(LinesFrom(t, n)) == t + [CR, LF]
    decreases |t|, |t| - n
  {
    assert n > 0 ==> t[n - 1] == t[..n][n - 1] && IsPrintableAscii(t[..n][n - 1]);
    if n + 1 >= |t| {
      assert n < |t| ==> t == t[..n] + [t[n]] && IsPrintableAscii(t[n]);
      assert n == |t| ==> t == t[..n];
      assert IsLine(t);
      assert Joined([t]) == t + [CR, LF] + Joined([]);
    } else if t[n] == CR && t[n + 1] == LF {
      RestIsClean(t, n);
      var rest := LinesFrom(t[n + 2..], 0);
      CutsIntoLines(t[n + 2..], 0);
      assert ([t[..n]] + rest)[1..] == rest;
      assert t == t[..n] + [CR, LF] + t[n + 2..];
    } else {
      assert t[..n + 1] == t[..n] + [t[n]] && IsPrintableAscii(t[n]);
      CutsIntoLines(t, n + 1);
    }
  }

  lemma LastLine(line: Text, n: nat)
    requires IsLine(line) && n <= |line|
    ensures LinesFrom(line, n) == [line]
    decreases |line| - n
  {
    if n + 1 < |line| {
      LastLine(line, n + 1);
    }
  }

  lemma FirstLine(line: Text, rest: Text, n: nat)
    requires IsLine(line) && n <= |line|
    ensures LinesFrom(line + [CR, LF] + rest, n) == [line] + LinesFrom(rest, 0)
    decreases |line| - n
  {
    var t := line + [CR, LF] + rest;
    assert t[|line|] == CR && t[|line| + 1] == LF;
    if n < |line| {
      assert t[n] == line[n];
      FirstLine(line, rest, n + 1);
    } else {
      assert t[..n] == line && t[n + 2..] == rest;
    }
  }

  /** Lines put together are cut where they were joined. */
  lemma {:induction false} CutsWhereJoined(lines: seq<Text>)
    requires |lines| > 0 && AllLines(lines)
    ensures |Joined(lines)| >= 2 && Lines(Joined(lines)[..|Joined(lines)| - 2]) == lines
  {
    var line, t := lines[0], Joined(lines);
    if |lines| == 1 {
      assert Joined(lines[1..]) == [];
      assert t == line + [CR, LF] && t[..|t| - 2] == line && lines == [line];
      LastLine(line, 0);
    } else {
      CutsWhereJoined(lines[1..]);
      var rest := Joined(lines[1..]);
      assert t[..|t| - 2] == line + [CR, LF] + rest[..|rest| - 2];
      FirstLine(line, rest[..|rest| - 2], 0);
      assert lines == [line] + lines[1..];
    }
  }

  lemma {:induction false} JoinedIsClean(lines: seq<Text>)
    requires AllLines(lines)
    ensures IsClean(Joined(lines))
  {
    if |lines| > 0 {
      JoinedIsClean(lines[1..]);
      OneMoreLine(lines[0], Joined(lines[1..]));
    }
  }

  lemma OneMoreLine(line: Text, rest: Text)
    requires IsLine(line) && IsClean(rest)
    ensures IsClean(line + [CR, LF] + rest)
  {
    var t := line + [CR, LF] + rest;
    forall i | 0 <= i < |t|
      ensures t[i] == CR || t[i] == LF || IsPrintableAscii(t[i])
      ensures t[i] == LF ==> 0 < i && t[i - 1] == CR
      ensures t[i] == CR ==> i + 1 < |t| && t[i + 1] == LF
    {
      if i < |line| {
        assert t[i] == line[i];
      } else if i >= |line| + 2 {
        assert t[i] == rest[i - |line| - 2];
        assert i > |line| + 2 ==> t[i - 1] == rest[i - 1 - |line| - 2];
        assert i + 1 < |t| ==> t[i + 1] == rest[i + 1 - |line| - 2];
      }
    }
  }

  // ---------------------------------------------------------------- the lines that matter

  /** A data channel over SCTP on some port. */
  ghost predicate IsChannelLine(line: Text) {
    exists port :: IsPort(port) && line == Ascii("m=application ") + port + Ascii(" UDP/DTLS/SCTP webrtc-datachannel")
  }

  predicate IsPort(port: Text) {
    |port| > 0 && forall i :: 0 <= i < |port| ==> 0x30 <= port[i] <= 0x39
  }

  lemma ChannelLineIs(line: Text)
    ensures IsDataChannel(line) <==> IsChannelLine(line)
  {
    hide Ascii;
    var start, end := Ascii("m=application "), Ascii(" UDP/DTLS/SCTP webrtc-datachannel");
    if IsDataChannel(line) {
      var port := line[|start|..|line| - |end|];
      assert line == start + port + end;
      assert IsPort(port);
    }
    if port :| IsPort(port) && line == start + port + end {
      assert line[..|start|] == start && line[|line| - |end|..] == end && line[|start|..|line| - |end|] == port;
    }
  }

  predicate StartsMedia(line: Text) {
    |line| >= 2 && line[0] == 'm' as int && line[1] == '=' as int
  }

  lemma MediaIs(line: Text)
    ensures IsMedia(line) <==> StartsMedia(line)
  {
    var start := Ascii("m=");
    assert start[0] == 'm' as int && start[1] == '=' as int;
    hide Ascii;
    assert start == [start[0], start[1]];
    if |line| >= 2 {
      assert line[..2] == [line[0], line[1]];
    }
  }

  /** The one line that starts a media section. */
  ghost predicate IsOnlyMedia(lines: seq<Text>, i: int) {
    0 <= i < |lines| && StartsMedia(lines[i]) && forall j :: 0 <= j < |lines| && j != i ==> !StartsMedia(lines[j])
  }

  lemma {:induction false} NoMedia(lines: seq<Text>)
    ensures |MediaLines(lines)| == 0 <==> forall i :: 0 <= i < |lines| ==> !StartsMedia(lines[i])
  {
    hide StartsMedia, IsMedia;
    if |lines| > 0 {
      MediaIs(lines[0]);
      NoMedia(lines[1..]);
      assert lines == [lines[0]] + lines[1..];
    }
  }

  lemma {:induction false} OneMedia(lines: seq<Text>)
    ensures |MediaLines(lines)| == 1 ==> exists i :: IsOnlyMedia(lines, i) && lines[i] == MediaLines(lines)[0]
    ensures (exists i :: IsOnlyMedia(lines, i)) ==> |MediaLines(lines)| == 1
  {
    hide StartsMedia, IsMedia;
    if |lines| > 0 {
      var rest := lines[1..];
      MediaIs(lines[0]);
      NoMedia(rest);
      OneMedia(rest);
      if StartsMedia(lines[0]) {
        if |MediaLines(lines)| == 1 {
          assert IsOnlyMedia(lines, 0);
        }
        if i :| IsOnlyMedia(lines, i) {
          assert i == 0 && forall j :: 0 <= j < |rest| ==> rest[j] == lines[j + 1];
        }
      } else {
        if |MediaLines(lines)| == 1 {
          var i :| IsOnlyMedia(rest, i) && rest[i] == MediaLines(rest)[0];
          assert forall j :: 0 < j < |lines| ==> lines[j] == rest[j - 1];
          assert IsOnlyMedia(lines, i + 1);
        }
        if i :| IsOnlyMedia(lines, i) {
          assert forall j :: 0 <= j < |rest| ==> rest[j] == lines[j + 1];
          assert IsOnlyMedia(rest, i - 1);
        }
      }
    }
  }

  // ---------------------------------------------------------------- the whole description

  predicate NamesFingerprint(line: Text) {
    StartsWith(line, Ascii("a=fingerprint:sha-256 "))
  }

  /**
   A description of at most 8,000 bytes whose lines are printable, each with its end; the first is the version, just one
   starts a media section, and that is a data channel; and a SHA-256 fingerprint is named.
   */
  ghost predicate IsDescription(e: Readers, sdp: Text, lines: seq<Text>) {
    && |lines| > 0 && sdp == Joined(lines) && AllLines(lines) && |e.utf8(sdp)| <= 8_000
    && lines[0] == Ascii("v=0")
    && (exists i :: IsOnlyMedia(lines, i) && IsChannelLine(lines[i]))
    && (exists i :: 0 <= i < |lines| && NamesFingerprint(lines[i]))
  }

  lemma MediaDecides(lines: seq<Text>)
    ensures |MediaLines(lines)| == 1 && IsDataChannel(MediaLines(lines)[0]) <==> exists i :: IsOnlyMedia(lines, i) && IsChannelLine(lines[i])
  {
    hide IsDataChannel, IsChannelLine, StartsMedia;
    OneMedia(lines);
    if |MediaLines(lines)| == 1 {
      var i :| IsOnlyMedia(lines, i) && lines[i] == MediaLines(lines)[0];
      ChannelLineIs(lines[i]);
      if j :| IsOnlyMedia(lines, j) && IsChannelLine(lines[j]) {
        assert j == i;
      }
    }
  }

  lemma Version(line: Text, rest: Text)
    requires IsLine(line)
    ensures StartsWith(line + [CR, LF] + rest, Ascii("v=0") + [CR, LF]) <==> line == Ascii("v=0")
  {
    var v, t := Ascii("v=0"), line + [CR, LF] + rest;
    assert v[0] == 'v' as int && v[1] == '=' as int && v[2] == '0' as int;
    hide Ascii;
    if StartsWith(t, v + [CR, LF]) {
      assert t[..5] == v + [CR, LF];
      assert t[0] == v[0] && t[1] == v[1] && t[2] == v[2] && t[3] == CR;
      assert t[|line|] == CR && |line| == 3;
      assert line == t[..3];
    }
    if line == v {
      assert t[..5] == v + [CR, LF];
    }
  }

  /** What is accepted is made of such lines. */
  lemma AcceptedHasLines(e: Readers, sdp: Text)
    requires CheckSdp(e, sdp)
    ensures IsDescription(e, sdp, Lines(sdp[..|sdp| - 2]))
  {
    hide Ascii, IsDataChannel, MediaLines, IsChannelLine, StartsMedia;
    var body := sdp[..|sdp| - 2];
    assert sdp == body + [CR, LF] && sdp[|body|] == CR;
    assert forall i :: 0 <= i < |body| ==> body[i] == sdp[i];
    assert IsClean(body);
    CutsIntoLines(body, 0);
    var lines := Lines(body);
    MediaDecides(lines);
    assert sdp == lines[0] + [CR, LF] + Joined(lines[1..]);
    Version(lines[0], Joined(lines[1..]));
    var i :| 0 <= i < |lines| && StartsWith(lines[i], Ascii("a=fingerprint:sha-256 "));
    assert NamesFingerprint(lines[i]);
  }

  lemma LinesAreAccepted(e: Readers, sdp: Text, lines: seq<Text>)
    requires IsDescription(e, sdp, lines)
    ensures CheckSdp(e, sdp)
  {
    hide Ascii, IsDataChannel, MediaLines, IsChannelLine, StartsMedia;
    CutsWhereJoined(lines);
    JoinedIsClean(lines);
    EndsInLineEnd(lines);
    MediaDecides(lines);
    assert sdp == lines[0] + [CR, LF] + Joined(lines[1..]);
    Version(lines[0], Joined(lines[1..]));
    var i :| 0 <= i < |lines| && NamesFingerprint(lines[i]);
    assert StartsWith(lines[i], Ascii("a=fingerprint:sha-256 "));
  }

  lemma {:induction false} EndsInLineEnd(lines: seq<Text>)
    requires |lines| > 0
    ensures |Joined(lines)| >= 2 && EndsWith(Joined(lines), [CR, LF])
  {
    if |lines| > 1 {
      EndsInLineEnd(lines[1..]);
      var rest := Joined(lines[1..]);
      assert Joined(lines)[|Joined(lines)| - 2..] == rest[|rest| - 2..];
    } else {
      assert Joined(lines[1..]) == [];
      assert Joined(lines) == lines[0] + [CR, LF];
    }
  }

  /** The test accepts exactly the descriptions. */
  lemma SdpExactly(e: Readers, sdp: Text)
    ensures CheckSdp(e, sdp) <==> exists lines :: IsDescription(e, sdp, lines)
  {
    hide CheckSdp, IsDescription;
    if CheckSdp(e, sdp) {
      AcceptedHasLines(e, sdp);
    }
    if lines :| IsDescription(e, sdp, lines) {
      LinesAreAccepted(e, sdp, lines);
    }
  }
}
