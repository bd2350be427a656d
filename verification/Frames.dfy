/** The binary frames on the data channel: big-endian, the first byte the type. */
module Frames {
  import opened Wrappers
  import opened Bytes
  import opened Buffers

  datatype Role = Sender | Receiver

  /** Why an end stops: 1 if someone cancelled it, 3 if the receiver is out of room, 2 for everything that went wrong. */
  type StopCode = c: int | 1 <= c <= 3 witness 1

  datatype Frame =
    | Data(offset: nat, bytes: Blob)
    | Ack(next: nat)
    | End(sha256: Blob, size: nat)
    | Kept
    | Stop(code: StopCode)

  datatype FrameError = Empty | WrongRole | WrongLength | BeyondSafe | UnknownType | NotEncodable

  const DATA_HEADER_BYTES: nat := 9
  const END_FRAME_BYTES: nat := 41
  const FRAME_BYTES: nat := 65536
  const MAX_SAFE: nat := 0x1f_ffff_ffff_ffff

  // ---------------------------------------------------------------- whole numbers

  function High(n: nat): nat {
    n / TWO_32
  }

  function Low(n: nat): (low: nat)
    ensures low < TWO_32
  {
    n % TWO_32
  }

  function Whole(high: nat, low: nat): nat {
    high * TWO_32 + low
  }

  lemma Halves(n: nat, high: nat, low: nat)
    requires low < TWO_32
    ensures n == Whole(high, low) <==> high == High(n) && low == Low(n)
  {
  }

  function U64(n: nat): (bytes: Blob)
    requires n <= MAX_SAFE
    ensures |bytes| == 8
  {
    U32(High(n)) + U32(Low(n))
  }

  /** Refuses numbers beyond 2^53 - 1, which the sender's arithmetic cannot hold exactly. */
  function ReadU64(b: Blob, at: nat): Result<nat, FrameError>
    requires at + 8 <= |b|
  {
    var high := ReadU32(b, at);
    if high > 0x1f_ffff then Err(BeyondSafe) else Ok(Whole(high, ReadU32(b, at + 4)))
  }

  lemma SafeHalves(n: nat)
    ensures n <= MAX_SAFE <==> High(n) <= 0x1f_ffff
  {
  }

  lemma ReadsU64(b: Blob, at: nat, n: nat)
    requires at + 8 <= |b|
    ensures ReadU64(b, at) == Ok(n) <==> n <= MAX_SAFE && b[at..at + 8] == U64(n)
  {
    hide U32, ReadU32, High, Low, Whole;
    SafeHalves(n);
    Halves(n, ReadU32(b, at), ReadU32(b, at + 4));
    if n <= MAX_SAFE {
      ReadsU32(b, at, High(n));
      ReadsU32(b, at + 4, Low(n));
      var first, second, whole := b[at..at + 4], b[at + 4..at + 8], b[at..at + 8];
      assert whole == first + second;
      assert whole[..4] == first && whole[4..] == second;
      assert U64(n)[..4] == U32(High(n)) && U64(n)[4..] == U32(Low(n));
    }
  }

  /** Big-endian: the eight bytes write the number. */
  lemma U64Number(n: nat)
    requires n <= MAX_SAFE
    ensures NumberOfBytes(U64(n)) == n
  {
    U32Number(High(n));
    U32Number(Low(n));
    hide U32;
    NumberOfJoined(U32(High(n)), U32(Low(n)));
    assert PowerOf256(4) == TWO_32 by {
      assert PowerOf256(2) == 0x1_0000;
    }
  }

  // ---------------------------------------------------------------- frames

  /** The frames that can be written. */
  predicate ValidFrame(f: Frame) {
    match f
    case Data(offset, bytes) => offset <= MAX_SAFE && 0 < |bytes| && DATA_HEADER_BYTES + |bytes| <= FRAME_BYTES
    case Ack(next) => next <= MAX_SAFE
    case End(sha256, size) => |sha256| == 32 && size <= MAX_SAFE
    case Kept => true
    case Stop(_) => true
  }

  /** A frame carries at least one byte, and with its nine bytes of header at most 64 KiB; numbers stay below 2^53. */
  lemma ValidIs(f: Frame)
    ensures ValidFrame(f) <==>
      match f
      case Data(offset, bytes) => offset < 9_007_199_254_740_992 && 1 <= |bytes| <= 65_527
      case Ack(next) => next < 9_007_199_254_740_992
      case End(sha256, size) => |sha256| == 32 && size < 9_007_199_254_740_992
      case _ => true
  {
  }

  /** Which end may send it. */
  predicate SentBy(f: Frame, from: Role) {
    match f
    case Data(_, _) => from == Sender
    case Ack(_) => from == Receiver
    case End(_, _) => from == Sender
    case Kept => from == Receiver
    case Stop(_) => true
  }

  /** A frame's bytes. */
  function Layout(f: Frame): Blob
    requires ValidFrame(f)
  {
    match f
    case Data(offset, bytes) => [1] + U64(offset) + bytes
    case Ack(next) => [2] + U64(next)
    case End(sha256, size) => [3] + sha256 + U64(size)
    case Kept => [4]
    case Stop(code) => [5 as byte, code as byte]
  }

  /** The first byte is the type, 1 to 5 in this order; a number is eight bytes, the most significant first. */
  lemma LayoutIs(f: Frame)
    requires ValidFrame(f)
    ensures
      var b := Layout(f);
      match f
      case Data(offset, bytes) => |b| == 9 + |bytes| && b[0] == 1 && NumberOfBytes(b[1..9]) == offset && b[9..] == bytes
      case Ack(next) => |b| == 9 && b[0] == 2 && NumberOfBytes(b[1..9]) == next
      case End(sha256, size) => |b| == 41 && b[0] == 3 && b[1..33] == sha256 && NumberOfBytes(b[33..41]) == size
      case Kept => b == [4]
      case Stop(code) => b == [5, code as byte]
  {
    hide U64;
    match f
    case Data(offset, bytes) =>
      U64Number(offset);
      assert Layout(f)[1..9] == U64(offset);
    case Ack(next) =>
      U64Number(next);
      assert Layout(f)[1..9] == U64(next);
    case End(sha256, size) =>
      U64Number(size);
      assert Layout(f)[33..41] == U64(size);
    case _ =>
  }

  function DecodeFrame(from: Role, b: Blob): Result<Frame, FrameError> {
    if |b| == 0 then Err(Empty)
    else if b[0] == 1 then
      if from != Sender then Err(WrongRole)
      else if |b| <= DATA_HEADER_BYTES || |b| > FRAME_BYTES then Err(WrongLength)
      else
        var offset := ReadU64(b, 1);
        if offset.Err? then Err(offset.error) else Ok(Data(offset.value, b[DATA_HEADER_BYTES..]))
    else if b[0] == 2 then
      if from != Receiver then Err(WrongRole)
      else if |b| != 9 then Err(WrongLength)
      else
        var next := ReadU64(b, 1);
        if next.Err? then Err(next.error) else Ok(Ack(next.value))
    else if b[0] == 3 then
      if from != Sender then Err(WrongRole)
      else if |b| != END_FRAME_BYTES then Err(WrongLength)
      else
        var size := ReadU64(b, 33);
        if size.Err? then Err(size.error) else Ok(End(b[1..33], size.value))
    else if b[0] == 4 then
      if from != Receiver then Err(WrongRole)
      else if |b| != 1 then Err(WrongLength)
      else Ok(Kept)
    else if b[0] == 5 then
      if |b| != 2 then Err(WrongLength)
      else Ok(Stop(if b[1] == 1 || b[1] == 3 then b[1] else 2))
    else Err(UnknownType)
  }

  /** A stop whose reason this version does not know. */
  predicate UnknownStop(b: Blob) {
    |b| == 2 && b[0] == 5 && b[1] !in {1, 2, 3}
  }

  /**
   The reader accepts exactly the bytes the writers make for that role, plus stops with an unknown reason, which
   read as 2. So every frame written is read back, and no frame but Stop(2) has two spellings.
   */
  lemma DecodesExactly(from: Role, b: Blob, f: Frame)
    ensures DecodeFrame(from, b) == Ok(f) <==>
            SentBy(f, from) && ((ValidFrame(f) && b == Layout(f)) || (f == Stop(2) && UnknownStop(b)))
  {
    match f
    case Data(offset, bytes) => DecodesData(from, b, offset, bytes);
    case Ack(next) => DecodesAck(from, b, next);
    case End(sha256, size) => DecodesEnd(from, b, sha256, size);
    case Kept =>
    case Stop(_) =>
  }

  lemma DecodesData(from: Role, b: Blob, offset: nat, bytes: Blob)
    ensures DecodeFrame(from, b) == Ok(Data(offset, bytes)) <==>
            from == Sender && ValidFrame(Data(offset, bytes)) && b == Layout(Data(offset, bytes))
  {
    if |b| > 9 {
      ReadsU64(b, 1, offset);
      hide ReadU64, U64;
      if b[0] == 1 && offset <= MAX_SAFE && b[1..9] == U64(offset) {
        assert b == [b[0]] + b[1..9] + b[9..];
      }
      if ValidFrame(Data(offset, bytes)) && b == Layout(Data(offset, bytes)) {
        assert b[1..9] == U64(offset) && b[9..] == bytes;
      }
    }
  }

  lemma DecodesAck(from: Role, b: Blob, next: nat)
    ensures DecodeFrame(from, b) == Ok(Ack(next)) <==> from == Receiver && ValidFrame(Ack(next)) && b == Layout(Ack(next))
  {
    if |b| == 9 {
      ReadsU64(b, 1, next);
      hide ReadU64, U64;
      if next <= MAX_SAFE && b == Layout(Ack(next)) {
        assert b[1..9] == U64(next);
      }
      if b[0] == 2 && next <= MAX_SAFE && b[1..9] == U64(next) {
        assert b == [b[0]] + b[1..9];
      }
    }
  }

  lemma DecodesEnd(from: Role, b: Blob, sha256: Blob, size: nat)
    ensures DecodeFrame(from, b) == Ok(End(sha256, size)) <==>
            from == Sender && ValidFrame(End(sha256, size)) && b == Layout(End(sha256, size))
  {
    if |b| == END_FRAME_BYTES {
      ReadsU64(b, 33, size);
      hide ReadU64, U64;
      if b[0] == 3 && size <= MAX_SAFE && b[33..41] == U64(size) {
        assert b == [b[0]] + b[1..33] + b[33..41];
      }
      if ValidFrame(End(sha256, size)) && b == Layout(End(sha256, size)) {
        assert b[1..33] == sha256 && b[33..41] == U64(size);
      }
    }
  }

  // ---------------------------------------------------------------- writing

  method WriteU64(view: array<byte>, at: nat, value: nat) returns (ok: bool)
    requires at + 8 <= view.Length
    modifies view
    ensures ok <==> value <= MAX_SAFE
    ensures view[..] == if ok then old(view[..at]) + U64(value) + old(view[at + 8..]) else old(view[..])
  {
    if value > MAX_SAFE {
      return false;
    }
    hide U32;
    SetUint32(view, at, value / TWO_32);
    ghost var half := view[..];
    SetUint32(view, at + 4, value % TWO_32);
    assert half[..at + 4] == old(view[..at]) + U32(High(value));
    ok := true;
  }

  method EncodeData(offset: nat, bytes: Blob) returns (result: Result<Blob, FrameError>)
    ensures result == if ValidFrame(Data(offset, bytes)) then Ok(Layout(Data(offset, bytes))) else Err(NotEncodable)
  {
    hide U64;
    if |bytes| == 0 || DATA_HEADER_BYTES + |bytes| > FRAME_BYTES {
      return Err(NotEncodable);
    }
    var frame := new byte[DATA_HEADER_BYTES + |bytes|];
    frame[0] := 1;
    var ok := WriteU64(frame, 1, offset);
    if !ok {
      return Err(NotEncodable);
    }
    ghost var header := frame[..9];
    assert header == [1] + U64(offset);
    SetBytes(frame, DATA_HEADER_BYTES, bytes);
    assert frame[..] == header + bytes;
    result := Ok(frame[..]);
  }

  method EncodeAck(next: nat) returns (result: Result<Blob, FrameError>)
    ensures result == if ValidFrame(Ack(next)) then Ok(Layout(Ack(next))) else Err(NotEncodable)
  {
    hide U64;
    var frame := new byte[9];
    frame[0] := 2;
    var ok := WriteU64(frame, 1, next);
    if !ok {
      return Err(NotEncodable);
    }
    assert frame[..] == [2] + U64(next);
    result := Ok(frame[..]);
  }

  method EncodeEnd(sha256: Blob, size: nat) returns (result: Result<Blob, FrameError>)
    ensures result == if ValidFrame(End(sha256, size)) then Ok(Layout(End(sha256, size))) else Err(NotEncodable)
  {
    hide U64;
    if |sha256| != 32 {
      return Err(NotEncodable);
    }
    var frame := new byte[END_FRAME_BYTES];
    frame[0] := 3;
    SetBytes(frame, 1, sha256);
    ghost var start := frame[..33];
    assert start == [3] + sha256;
    var ok := WriteU64(frame, 33, size);
    if !ok {
      return Err(NotEncodable);
    }
    assert frame[..] == start + U64(size);
    result := Ok(frame[..]);
  }
}
