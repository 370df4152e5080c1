/** The firmware's byte-at-a-time parser and the host's buffering decoder, the two encoders, and their agreement. */
module FrameMachines {
  import opened Bytes
  import opened Crc
  import opened Frames

  datatype Phase = AtIdle | AtMagic | AtHeader | AtPayload | AtCrcLow | AtCrcHigh | AtResync | AtResyncMagic

  datatype FeedResult =
    | Text | Consumed | FrameReady(frame: Frame) | SyncErrorText | SyncErrorConsumed | CrcFailed | LengthFailed

  function Reported(r: FeedResult): seq<Output> {
    match r
    case FrameReady(f) => [Ready(f)]
    case SyncErrorText => [SyncError]
    case SyncErrorConsumed => [SyncError]
    case CrcFailed => [CrcError]
    case LengthFailed => [LengthError]
    case _ => []
  }

  /** The mode a machine is in, given its phase and what its buffers hold. */
  function ModeOf(phase: Phase, header: seq<byte>, payload: seq<byte>, low: byte): Mode {
    match phase
    case AtIdle => Idle
    case AtMagic => Magic
    case AtResync => Resync
    case AtResyncMagic => ResyncMagic
    case AtHeader => Header(header)
    case AtPayload => Payload(header, payload)
    case AtCrcLow => CrcLow(header, payload)
    case AtCrcHigh => CrcHigh(header, payload, low)
  }

  class Parser {
    var phase: Phase
    const header: array<byte>
    const payload: array<byte>
    var headerIndex: nat
    var payloadIndex: nat
    var payloadLength: nat
    var crc: bv16
    var receivedCrcLow: byte

    /** The CRC register always covers exactly the bytes buffered since the magic. */
    ghost predicate Valid()
      reads this, header, payload
    {
      && header.Length == 8 && payload.Length == MAX_PAYLOAD
      && headerIndex <= 8 && payloadIndex <= MAX_PAYLOAD
      && (phase == AtHeader ==> headerIndex < 8 && payloadIndex == 0 && crc == Run16(0xFFFF, header[..headerIndex]))
      && (phase == AtPayload || phase == AtCrcLow || phase == AtCrcHigh ==>
            headerIndex == 8 && payloadLength == Length(header[..8]) <= MAX_PAYLOAD
            && crc == Run16(0xFFFF, header[..8] + payload[..payloadIndex]))
      && (phase == AtPayload ==> payloadIndex < payloadLength)
      && (phase == AtCrcLow || phase == AtCrcHigh ==> payloadIndex == payloadLength)
    }

    ghost function Abs(): (m: Mode)
      requires Valid()
      reads this, header, payload
      ensures Sane(m)
    {
      ModeOf(phase, header[..headerIndex], payload[..payloadIndex], receivedCrcLow)
    }

    constructor ()
      ensures Valid() && Abs() == Idle && fresh(header) && fresh(payload)
    {
      phase, headerIndex, payloadIndex, payloadLength, crc, receivedCrcLow := AtIdle, 0, 0, 0, 0xFFFF, 0;
      header := new byte[8](_ => 0);
      payload := new byte[MAX_PAYLOAD](_ => 0);
    }

    method Feed(b: byte) returns (result: FeedResult)
      requires Valid()
      modifies this, header, payload
      ensures Valid()
      ensures Abs() == Next(old(Abs()), b)
      ensures Reported(result) == Emit(old(Abs()), b)
      ensures result == Text <==> old(Abs()) == Idle && b != MAGIC0
    {
      hide Length, FrameOf, Crc16, Run16;
      match phase {
        case AtIdle =>
          if b == MAGIC0 {
            phase := AtMagic;
            return Consumed;
          }
          return Text;
        case AtMagic =>
          if b == MAGIC1 {
            Open();
            return Consumed;
          }
          if b == MAGIC0 {
            return SyncErrorConsumed;
          }
          Reset();
          return SyncErrorText;
        case AtHeader =>
          result := FeedHeaderByte(b);
        case AtPayload =>
          FeedPayloadByte(b);
          return Consumed;
        case AtCrcLow =>
          receivedCrcLow := b;
          phase := AtCrcHigh;
          return Consumed;
        case AtCrcHigh =>
          result := FinishFrame(b);
        case AtResync =>
          if b == MAGIC0 {
            phase := AtResyncMagic;
          }
          return Consumed;
        case AtResyncMagic =>
          if b == MAGIC1 {
            Open();
          } else if b != MAGIC0 {
            phase := AtResync;
          }
          return Consumed;
      }
    }

    method Reset()
      requires Valid()
      modifies this
      ensures Valid() && Abs() == Idle
    {
      phase, headerIndex, payloadIndex, payloadLength, crc, receivedCrcLow := AtIdle, 0, 0, 0, 0xFFFF, 0;
    }

    method Open()
      requires Valid()
      modifies this
      ensures Valid() && Abs() == Header([])
    {
      phase, headerIndex, payloadIndex, payloadLength, crc := AtHeader, 0, 0, 0, 0xFFFF;
      assert header[..0] == [];
    }

    method FeedHeaderByte(b: byte) returns (result: FeedResult)
      requires Valid() && phase == AtHeader
      modifies this, header
      ensures Valid() && Abs() == Next(old(Abs()), b) && Reported(result) == Emit(old(Abs()), b) && result != Text
    {
      hide Run16, Update16, Next, Emit, FromLe16;
      ghost var h := header[..headerIndex];
      HeaderStep(h, b);
      Run16Step(0xFFFF, h, b);
      header[headerIndex] := b;
      crc := ComputeUpdate16(crc, b);
      headerIndex := headerIndex + 1;
      assert header[..headerIndex] == h + [b];
      if headerIndex == 8 {
        assert header[..8][6..] == [header[6], header[7]];
        payloadLength := FromLe16([header[6], header[7]]);
        assert payload[..0] == [] && header[..8] + [] == header[..8];
        if payloadLength > MAX_PAYLOAD {
          phase := AtResync;
          return LengthFailed;
        } else if payloadLength == 0 {
          phase := AtCrcLow;
        } else {
          phase := AtPayload;
        }
      }
      return Consumed;
    }

    method FeedPayloadByte(b: byte)
      requires Valid() && phase == AtPayload
      modifies this, payload
      ensures Valid() && Abs() == Next(old(Abs()), b)
    {
      hide Run16, Update16, Length;
      ghost var p := payload[..payloadIndex];
      Run16Step(0xFFFF, header[..8] + p, b);
      payload[payloadIndex] := b;
      crc := ComputeUpdate16(crc, b);
      payloadIndex := payloadIndex + 1;
      assert payload[..payloadIndex] == p + [b];
      assert header[..8] + p + [b] == header[..8] + (p + [b]);
      if payloadIndex == payloadLength {
        phase := AtCrcLow;
      }
    }

    method FinishFrame(b: byte) returns (result: FeedResult)
      requires Valid() && phase == AtCrcHigh
      modifies this
      ensures Valid() && Abs() == Next(old(Abs()), b) && Reported(result) == Emit(old(Abs()), b) && result != Text
    {
      var received := FromLe16([receivedCrcLow, b]);
      if received != crc as int {
        Reset();
        return CrcFailed;
      }
      var id := FromLe16([header[4], header[5]]);
      assert header[..8][4..6] == [header[4], header[5]];
      var frame := Frame(header[0], header[1], header[2], header[3], id, payload[..payloadLength]);
      Reset();
      return FrameReady(frame);
    }
  }

  datatype ErrorKind = Sync | Crc | TooLong

  function FramesOf(outputs: seq<Output>): seq<Frame> {
    if outputs == [] then []
    else FramesOf(outputs[..|outputs| - 1]) + (match outputs[|outputs| - 1] case Ready(f) => [f] case _ => [])
  }

  function ErrorsOf(outputs: seq<Output>): seq<ErrorKind> {
    if outputs == [] then []
    else ErrorsOf(outputs[..|outputs| - 1]) +
         (match outputs[|outputs| - 1] case Ready(_) => [] case SyncError => [Sync] case LengthError => [TooLong] case CrcError => [ErrorKind.Crc])
  }

  class Decoder {
    var phase: Phase
    const header: array<byte>
    const payload: array<byte>
    var headerIndex: nat
    var payloadIndex: nat
    var payloadLength: nat
    var receivedCrcLow: byte

    ghost predicate Valid()
      reads this, header
    {
      && header.Length == 8 && payload.Length == MAX_PAYLOAD
      && headerIndex <= 8 && payloadIndex <= MAX_PAYLOAD
      && (phase == AtHeader ==> headerIndex < 8)
      && (phase == AtPayload || phase == AtCrcLow || phase == AtCrcHigh ==>
            headerIndex == 8 && payloadLength == Length(header[..8]) <= MAX_PAYLOAD)
      && (phase == AtPayload ==> payloadIndex < payloadLength)
      && (phase == AtCrcLow || phase == AtCrcHigh ==> payloadIndex == payloadLength)
    }

    ghost function Abs(): (m: Mode)
      requires Valid()
      reads this, header, payload
      ensures Sane(m)
    {
      ModeOf(phase, header[..headerIndex], payload[..payloadIndex], receivedCrcLow)
    }

    constructor ()
      ensures Valid() && Abs() == Idle && fresh(header) && fresh(payload)
    {
      phase, headerIndex, payloadIndex, payloadLength, receivedCrcLow := AtIdle, 0, 0, 0, 0;
      header := new byte[8](_ => 0);
      payload := new byte[MAX_PAYLOAD](_ => 0);
    }

    /** One read's worth of bytes: the frames and the errors in it, each in order. */
    method Feed(bytes: seq<byte>) returns (frames: seq<Frame>, errors: seq<ErrorKind>)
      requires Valid()
      modifies this, header, payload
      ensures Valid() && Abs() == After(old(Abs()), bytes)
      ensures frames == FramesOf(EmitAll(old(Abs()), bytes)) && errors == ErrorsOf(EmitAll(old(Abs()), bytes))
    {
      hide Next, Emit;
      frames, errors := [], [];
      ghost var start := Abs();
      for i := 0 to |bytes|
        invariant Valid() && Abs() == After(start, bytes[..i])
        invariant frames == FramesOf(EmitAll(start, bytes[..i])) && errors == ErrorsOf(EmitAll(start, bytes[..i]))
      {
        FeedStep(start, bytes, i);
        ghost var before := EmitAll(start, bytes[..i]);
        OutputsAppend(before, Emit(Abs(), bytes[i]));
        var newFrames, newErrors := FeedByte(bytes[i]);
        frames, errors := frames + newFrames, errors + newErrors;
      }
      assert bytes[..|bytes|] == bytes;
    }

    method FeedByte(b: byte) returns (frames: seq<Frame>, errors: seq<ErrorKind>)
      requires Valid()
      modifies this, header, payload
      ensures Valid() && Abs() == Next(old(Abs()), b)
      ensures frames == FramesOf(Emit(old(Abs()), b)) && errors == ErrorsOf(Emit(old(Abs()), b))
    {
      hide Length, FrameOf, Crc16, FramesOf, ErrorsOf;
      SingleOutputs();
      frames, errors := [], [];
      match phase {
        case AtIdle =>
          if b == MAGIC0 {
            phase := AtMagic;
          }
        case AtMagic =>
          if b == MAGIC1 {
            Open();
          } else {
            errors := [Sync];
            phase := if b == MAGIC0 then AtMagic else AtIdle;
          }
        case AtHeader =>
          errors := FeedHeaderByte(b);
        case AtPayload =>
          payload[payloadIndex] := b;
          payloadIndex := payloadIndex + 1;
          assert payload[..payloadIndex] == old(payload[..payloadIndex]) + [b];
          if payloadIndex == payloadLength {
            phase := AtCrcLow;
          }
        case AtCrcLow =>
          receivedCrcLow := b;
          phase := AtCrcHigh;
        case AtCrcHigh =>
          frames, errors := CompleteFrame(b);
        case AtResync =>
          if b == MAGIC0 {
            phase := AtResyncMagic;
          }
        case AtResyncMagic =>
          if b == MAGIC1 {
            Open();
          } else if b != MAGIC0 {
            phase := AtResync;
          }
      }
    }

    method Open()
      requires Valid()
      modifies this
      ensures Valid() && Abs() == Header([])
    {
      phase, headerIndex, payloadIndex, payloadLength := AtHeader, 0, 0, 0;
      assert header[..0] == [];
    }

    method FeedHeaderByte(b: byte) returns (errors: seq<ErrorKind>)
      requires Valid() && phase == AtHeader
      modifies this, header
      ensures Valid() && Abs() == Next(old(Abs()), b)
      ensures errors == (if Emit(old(Abs()), b) == [] then [] else [TooLong])
    {
      hide Next, Emit, FromLe16;
      errors := [];
      ghost var h := header[..headerIndex];
      HeaderStep(h, b);
      header[headerIndex] := b;
      headerIndex := headerIndex + 1;
      assert header[..headerIndex] == h + [b];
      if headerIndex == 8 {
        assert header[..8][6..] == [header[6], header[7]];
        payloadLength := FromLe16([header[6], header[7]]);
        if payloadLength > MAX_PAYLOAD {
          errors := [TooLong];
          phase := AtResync;
        } else if payloadLength == 0 {
          payloadIndex := 0;
          phase := AtCrcLow;
        } else {
          payloadIndex := 0;
          phase := AtPayload;
        }
        assert payload[..0] == [];
      }
    }

    /** The host recomputes the CRC over its copy of header and payload. */
    method CompleteFrame(b: byte) returns (frames: seq<Frame>, errors: seq<ErrorKind>)
      requires Valid() && phase == AtCrcHigh
      modifies this
      ensures Valid() && Abs() == Idle
      ensures match old(Abs()) case CrcHigh(h, p, low) =>
                if FromLe16([low, b]) == Crc16(h + p) then frames == [FrameOf(h, p)] && errors == []
                else frames == [] && errors == [ErrorKind.Crc]
    {
      hide Run16;
      frames, errors := [], [];
      var expected := ComputeCrc16(header[..] + payload[..payloadLength]);
      assert header[..8] == header[..];
      var received := FromLe16([receivedCrcLow, b]);
      if received != expected {
        errors := [ErrorKind.Crc];
      } else {
        assert header[..8][4..6] == [header[4], header[5]];
        frames := [Frame(header[0], header[1], header[2], header[3], FromLe16([header[4], header[5]]), payload[..payloadLength])];
      }
      phase, headerIndex, payloadIndex, payloadLength, receivedCrcLow := AtIdle, 0, 0, 0, 0;
    }
  }

  /** What the abstract decoder does with a header byte. */
  lemma HeaderStep(h: seq<byte>, b: byte)
    requires |h| < 8
    ensures var h' := h + [b];
            && Next(Header(h), b) == (if |h'| < 8 then Header(h') else if Length(h') > MAX_PAYLOAD then Resync
                                      else if Length(h') == 0 then CrcLow(h', []) else Payload(h', []))
            && Emit(Header(h), b) == (if |h'| == 8 && Length(h') > MAX_PAYLOAD then [LengthError] else [])
  {
  }

  lemma SingleOutputs()
    ensures FramesOf([]) == [] && ErrorsOf([]) == []
    ensures forall f: Frame {:trigger Ready(f)} :: FramesOf([Ready(f)]) == [f] && ErrorsOf([Ready(f)]) == []
    ensures FramesOf([SyncError]) == [] && ErrorsOf([SyncError]) == [Sync]
    ensures FramesOf([LengthError]) == [] && ErrorsOf([LengthError]) == [TooLong]
    ensures FramesOf([CrcError]) == [] && ErrorsOf([CrcError]) == [ErrorKind.Crc]
  {
    forall o: Output ensures [o][..0] == [] {
    }
  }

  lemma OutputsAppend(a: seq<Output>, b: seq<Output>)
    requires |b| <= 1
    ensures FramesOf(a + b) == FramesOf(a) + FramesOf(b) && ErrorsOf(a + b) == ErrorsOf(a) + ErrorsOf(b)
  {
    if b == [] {
      assert a + b == a;
    } else {
      assert (a + b)[..|a + b| - 1] == a && b[..0] == [];
    }
  }

  lemma FeedStep(m: Mode, s: seq<byte>, i: nat)
    requires Sane(m) && i < |s|
    ensures After(m, s[..i + 1]) == Next(After(m, s[..i]), s[i])
    ensures EmitAll(m, s[..i + 1]) == EmitAll(m, s[..i]) + Emit(After(m, s[..i]), s[i])
  {
    hide Next, Emit;
    assert s[..i + 1] == s[..i] + [s[i]];
    FeedAppend(m, s[..i], [s[i]]);
    FeedOne(After(m, s[..i]), s[i]);
  }

  /** Whatever arrives, and however the host's reads cut it, both ends report the same frames and the same errors. */
  method DecodersAgree(pieces: seq<seq<byte>>)
    returns (deviceFrames: seq<Frame>, deviceErrors: seq<ErrorKind>, hostFrames: seq<Frame>, hostErrors: seq<ErrorKind>)
    ensures deviceFrames == hostFrames == FramesOf(EmitAll(Idle, Joined(pieces)))
    ensures deviceErrors == hostErrors == ErrorsOf(EmitAll(Idle, Joined(pieces)))
  {
    hide Next, Emit, FramesOf, ErrorsOf;
    var device := new Parser();
    var host := new Decoder();
    deviceFrames, deviceErrors, hostFrames, hostErrors := [], [], [], [];
    SingleOutputs();
    for i := 0 to |pieces|
      invariant device.Valid() && fresh(device) && fresh(device.header) && fresh(device.payload)
      invariant host.Valid() && fresh(host) && fresh(host.header) && fresh(host.payload)
      invariant {device.header, device.payload} !! {host.header, host.payload}
      invariant device.Abs() == host.Abs() == After(Idle, Joined(pieces[..i]))
      invariant deviceFrames == hostFrames == FramesOf(EmitAll(Idle, Joined(pieces[..i])))
      invariant deviceErrors == hostErrors == ErrorsOf(EmitAll(Idle, Joined(pieces[..i])))
    {
      ghost var outputs := EmitAll(Idle, Joined(pieces[..i]));
      var frames, errors := host.Feed(pieces[i]);
      hostFrames, hostErrors := hostFrames + frames, hostErrors + errors;
      frames, errors := FeedEach(device, pieces[i]);
      deviceFrames, deviceErrors := deviceFrames + frames, deviceErrors + errors;
      JoinedStep(pieces, i);
      FeedAppend(Idle, Joined(pieces[..i]), pieces[i]);
      OutputsConcat(outputs, EmitAll(After(Idle, Joined(pieces[..i])), pieces[i]));
    }
    assert pieces[..|pieces|] == pieces;
  }

  /** The firmware takes its bytes one at a time. */
  method FeedEach(device: Parser, bytes: seq<byte>) returns (frames: seq<Frame>, errors: seq<ErrorKind>)
    requires device.Valid()
    modifies device, device.header, device.payload
    ensures device.Valid() && device.Abs() == After(old(device.Abs()), bytes)
    ensures frames == FramesOf(EmitAll(old(device.Abs()), bytes))
    ensures errors == ErrorsOf(EmitAll(old(device.Abs()), bytes))
  {
    hide Next, Emit;
    frames, errors := [], [];
    ghost var start := device.Abs();
    for i := 0 to |bytes|
      invariant device.Valid() && device.Abs() == After(start, bytes[..i])
      invariant frames == FramesOf(EmitAll(start, bytes[..i])) && errors == ErrorsOf(EmitAll(start, bytes[..i]))
    {
      FeedStep(start, bytes, i);
      OutputsAppend(EmitAll(start, bytes[..i]), Emit(device.Abs(), bytes[i]));
      var result := device.Feed(bytes[i]);
      frames, errors := frames + FramesOf(Reported(result)), errors + ErrorsOf(Reported(result));
    }
    assert bytes[..|bytes|] == bytes;
  }

  lemma {:induction false} OutputsConcat(a: seq<Output>, b: seq<Output>)
    ensures FramesOf(a + b) == FramesOf(a) + FramesOf(b) && ErrorsOf(a + b) == ErrorsOf(a) + ErrorsOf(b)
    decreases |b|
  {
    if b == [] {
      assert a + b == a;
    } else {
      assert (a + b)[..|a + b| - 1] == a + b[..|b| - 1];
      OutputsConcat(a, b[..|b| - 1]);
    }
  }

  function Outgoing(frameType: byte, flags: byte, requestId: u16, payload: seq<byte>): Frame {
    Frame(VERSION, frameType, flags, 0, requestId, payload)
  }

  /** `binary_frame_encode`: copies the payload, then finalizes in place; 0 means nothing was written. */
  method FirmwareEncode(frameType: byte, flags: byte, requestId: u16, payload: seq<byte>, wire: array<byte>) returns (n: nat)
    modifies wire
    ensures if |payload| > MAX_PAYLOAD || wire.Length < 12 + |payload| then n == 0 && wire[..] == old(wire[..])
            else n == 12 + |payload| && wire[..n] == Wire(Outgoing(frameType, flags, requestId, payload)) && wire[n..] == old(wire[n..])
  {
    if |payload| > MAX_PAYLOAD || wire.Length < 12 + |payload| {
      return 0;
    }
    for i := 0 to |payload|
      invariant wire[10..10 + i] == payload[..i] && wire[10 + |payload|..] == old(wire[10 + |payload|..])
    {
      wire[10 + i] := payload[i];
      assert payload[..i + 1] == payload[..i] + [payload[i]];
      assert wire[10..10 + i + 1] == wire[10..10 + i] + [wire[10 + i]];
    }
    assert payload[..|payload|] == payload;
    n := FinalizeInPlace(frameType, flags, requestId, |payload|, wire);
  }

  method FinalizeInPlace(frameType: byte, flags: byte, requestId: u16, length: nat, wire: array<byte>) returns (n: nat)
    requires length <= MAX_PAYLOAD && 12 + length <= wire.Length
    modifies wire
    ensures n == 12 + length && wire[n..] == old(wire[n..])
    ensures wire[..n] == Wire(Outgoing(frameType, flags, requestId, old(wire[10..10 + length])))
  {
    hide Crc16, HeaderOf, Covered, Wire;
    ghost var payload := wire[10..10 + length];
    var f := Outgoing(frameType, flags, requestId, wire[10..10 + length]);
    n := 12 + length;
    WriteHeader(f, wire);
    assert wire[..][10..10 + length] == payload;
    PayloadInPlace(wire[..], f);
    var crc := ComputeCrc16(wire[2..10 + length]);
    ghost var body := wire[..10 + length];
    wire[10 + length], wire[11 + length] := crc % 0x100, crc / 0x100;
    assert wire[..][..10 + length] == body && wire[..][10 + length..n] == Le16(crc);
    ChecksumInPlace(wire[..], f);
  }

  lemma PayloadInPlace(wire: seq<byte>, f: Frame)
    requires |f.payload| <= MAX_PAYLOAD && 12 + |f.payload| <= |wire|
    requires wire[..10] == [MAGIC0, MAGIC1] + HeaderOf(f) && wire[10..10 + |f.payload|] == f.payload
    ensures wire[..10 + |f.payload|] == [MAGIC0, MAGIC1] + Covered(f) && wire[2..10 + |f.payload|] == Covered(f)
  {
    hide HeaderOf;
    var n := 10 + |f.payload|;
    assert wire[..n] == wire[..10] + wire[10..n];
    assert wire[2..n] == wire[..n][2..];
  }

  lemma ChecksumInPlace(wire: seq<byte>, f: Frame)
    requires |f.payload| <= MAX_PAYLOAD && 12 + |f.payload| <= |wire|
    requires wire[..10 + |f.payload|] == [MAGIC0, MAGIC1] + Covered(f)
    requires wire[10 + |f.payload|..12 + |f.payload|] == Le16(Crc16(Covered(f)))
    ensures wire[..12 + |f.payload|] == Wire(f)
  {
    hide Covered, Crc16, Le16;
    var n := 10 + |f.payload|;
    assert wire[..n + 2] == wire[..n] + wire[n..n + 2];
  }

  method WriteHeader(f: Frame, wire: array<byte>)
    requires |f.payload| <= MAX_PAYLOAD && 12 + |f.payload| <= wire.Length
    modifies wire
    ensures wire[..10] == [MAGIC0, MAGIC1] + HeaderOf(f) && wire[10..] == old(wire[10..])
  {
    hide Le16;
    var id, length := Le16(f.requestId), Le16(|f.payload|);
    wire[0] := MAGIC0;
    wire[1] := MAGIC1;
    wire[2] := f.version;
    wire[3] := f.frameType;
    wire[4] := f.flags;
    wire[5] := f.reserved;
    wire[6] := id[0];
    wire[7] := id[1];
    wire[8] := length[0];
    wire[9] := length[1];
    assert wire[..10] == [MAGIC0, MAGIC1, f.version, f.frameType, f.flags, f.reserved, id[0], id[1], length[0], length[1]];
  }

  /** `BinaryFrameCodec.Encode`: refuses what the firmware refuses and writes what the firmware writes. */
  method HostEncode(frameType: byte, flags: byte, requestId: u16, payload: seq<byte>) returns (ok: bool, bytes: seq<byte>)
    ensures ok <==> |payload| <= MAX_PAYLOAD
    ensures ok ==> bytes == Wire(Outgoing(frameType, flags, requestId, payload))
  {
    hide Crc16;
    if |payload| > MAX_PAYLOAD {
      return false, [];
    }
    var f := Outgoing(frameType, flags, requestId, payload);
    var prefix: seq<byte> := [MAGIC0, MAGIC1, VERSION, frameType, flags, 0] + Le16(requestId) + Le16(|payload|);
    assert prefix[2..] == HeaderOf(f) && prefix[..2] == [MAGIC0, MAGIC1];
    var crc := ComputeCrc16((prefix + payload)[2..]);
    assert (prefix + payload)[2..] == Covered(f);
    bytes := prefix + payload + Le16(crc);
    assert prefix + payload == [MAGIC0, MAGIC1] + Covered(f);
    ok := true;
  }
}
