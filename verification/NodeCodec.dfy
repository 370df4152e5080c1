/** The node link's frames: one fixed layout, an encoder and a decoder that undo each other exactly. */
module NodeCodec {
  import opened Bytes
  import opened Crc

  const MAGIC: seq<byte> := [0xD5, 0x4E]
  const VERSION: byte := 1
  const NODE_ID: byte := 1
  const MAX_PAYLOAD: nat := 24
  const HEADER: nat := 14
  const OVERHEAD: nat := 16
  const MAX_FRAME: nat := 40
  const MAX_JOB: nat := 16

  const HELLO: byte := 1
  const PING: byte := 2
  const JOB: byte := 3
  const GET_STATUS: byte := 4
  const HELLO_ACK: byte := 0x81
  const PONG: byte := 0x82
  const JOB_RESULT: byte := 0x83
  const STATUS: byte := 0x84
  const ERROR: byte := 0xFF

  datatype Frame = Frame(kind: byte, sequence: u16, session: u32, payload: seq<byte>)

  datatype Code =
    | Ok | Drop | BadArgument | BadFrame | BadMessage | TooSmall | WrongDirection | Unsolicited | StaleSession | WrongSequence
    | WrongReplyType | BadResultLength | BadHelloEcho | RemoteError | RehandshakeRequired | NotReadyOrBusy

  predicate Sendable(f: Frame) {
    f.sequence != 0 && |f.payload| <= MAX_PAYLOAD
  }

  function Head(f: Frame): (h: seq<byte>)
    requires |f.payload| <= MAX_PAYLOAD
    ensures |h| == HEADER
  {
    MAGIC + [VERSION, f.kind, NODE_ID, 0] + Le16(f.sequence) + [|f.payload|, 0] + Le32(f.session)
  }

  /** The wire form; the checksum covers everything between the magic and itself. */
  function Wire(f: Frame): (w: seq<byte>)
    requires |f.payload| <= MAX_PAYLOAD
    ensures |w| == OVERHEAD + |f.payload| <= MAX_FRAME
  {
    var body := Head(f) + f.payload;
    body + Le16(Crc16(body[2..]))
  }

  predicate HeadOk(b: seq<byte>)
    requires |b| >= HEADER
  {
    && b[0] == 0xD5 && b[1] == 0x4E && b[2] == VERSION && b[4] == NODE_ID && b[5] == 0 && b[9] == 0
    && b[8] as int <= MAX_PAYLOAD && FromLe16(b[6..8]) != 0
  }

  predicate WellFormed(b: seq<byte>) {
    && OVERHEAD <= |b| <= MAX_FRAME && HeadOk(b) && |b| == b[8] as int + OVERHEAD
    && FromLe16(b[|b| - 2..]) == Crc16(b[2..|b| - 2])
  }

  function Decoded(b: seq<byte>): Option<Frame> {
    if WellFormed(b) then Some(Frame(b[3], FromLe16(b[6..8]), FromLe32(b[10..14]), b[14..|b| - 2])) else None
  }

  method Encode(f: Frame, cap: nat) returns (status: Code, out: seq<byte>)
    ensures status == if !Sendable(f) then BadMessage else if cap < OVERHEAD + |f.payload| then TooSmall else Ok
    ensures status == Ok ==> out == Wire(f)
    ensures status != Ok ==> out == []
  {
    hide Crc16, Le16, Le32;
    if f.sequence == 0 || |f.payload| > MAX_PAYLOAD {
      return BadMessage, [];
    }
    if cap < OVERHEAD + |f.payload| {
      return TooSmall, [];
    }
    out := MAGIC + [VERSION, f.kind, NODE_ID, 0];
    out := out + Le16(f.sequence) + [|f.payload|, 0] + Le32(f.session);
    if f.payload != [] {
      out := out + f.payload;
    }
    assert out == Head(f) + f.payload;
    var checksum := ComputeCrc16(out[2..]);
    out := out + Le16(checksum);
    status := Ok;
  }

  method Decode(b: seq<byte>) returns (status: Code, f: Frame)
    ensures status == (if WellFormed(b) then Ok else BadFrame)
    ensures status == Ok ==> Decoded(b) == Some(f)
  {
    hide Crc16;
    f := Frame(0, 0, 0, []);
    if |b| < 16 || |b| > 40 {
      return BadFrame, f;
    }
    if b[0] != 0xD5 || b[1] != 0x4E || b[2] != VERSION || b[4] != NODE_ID || b[5] != 0 || b[9] != 0 {
      return BadFrame, f;
    }
    var length: int := b[8];
    if length > MAX_PAYLOAD || |b| != length + 16 || FromLe16(b[6..8]) == 0 {
      return BadFrame, f;
    }
    var checksum := ComputeCrc16(b[2..|b| - 2]);
    if FromLe16(b[14 + length..]) != checksum {
      return BadFrame, f;
    }
    return Ok, Frame(b[3], FromLe16(b[6..8]), FromLe32(b[10..14]), b[14..14 + length]);
  }

  // ----- encode and decode undo each other -----

  lemma DecodeUndoesEncode(f: Frame)
    requires Sendable(f)
    ensures Decoded(Wire(f)) == Some(f)
  {
    hide Crc16, Le16, Le32, FromLe16, FromLe32;
    var h, w := Head(f), Wire(f);
    var body := h + f.payload;
    assert h[6..8] == Le16(f.sequence) && h[10..14] == Le32(f.session);
    assert w[6..8] == h[6..8] && w[10..14] == h[10..14];
    assert w[14..|w| - 2] == f.payload;
    assert w[2..|w| - 2] == body[2..] && w[|w| - 2..] == Le16(Crc16(body[2..]));
    Le16Inverse(f.sequence, Le16(0));
    Le16Inverse(Crc16(body[2..]), Le16(0));
    Le32Inverse(f.session, Le32(0));
  }

  lemma EncodeUndoesDecode(b: seq<byte>)
    requires WellFormed(b)
    ensures Sendable(Decoded(b).value) && Wire(Decoded(b).value) == b
  {
    hide Crc16, Le16, Le32, FromLe16, FromLe32;
    var f := Decoded(b).value;
    Le16Inverse(0, b[6..8]);
    Le16Inverse(0, b[|b| - 2..]);
    Le32Inverse(0, b[10..14]);
    assert Head(f)[..6] == b[..6] && Head(f)[6..8] == b[6..8] && Head(f)[8..10] == b[8..10] && Head(f)[10..14] == b[10..14];
    assert Head(f) == b[..14] by {
      assert Head(f) == Head(f)[..6] + Head(f)[6..8] + Head(f)[8..10] + Head(f)[10..14];
      assert b[..14] == b[..6] + b[6..8] + b[8..10] + b[10..14];
    }
    assert Head(f) + f.payload == b[..|b| - 2];
    assert b[..|b| - 2][2..] == b[2..|b| - 2];
    assert b == b[..|b| - 2] + b[|b| - 2..];
  }

  /** Frames are equal exactly when their bytes are. */
  lemma WireInjective(f: Frame, g: Frame)
    requires Sendable(f) && Sendable(g) && Wire(f) == Wire(g)
    ensures f == g
  {
    DecodeUndoesEncode(f);
    DecodeUndoesEncode(g);
  }

  // ----- payloads -----

  predicate ValidPayload(f: Frame) {
    var p := f.payload;
    if f.kind == HELLO then |p| == 4 && FromLe32(p) != 0
    else if f.kind == HELLO_ACK then |p| == 8 && FromLe32(p[..4]) != 0 && p[4..] == [1, 3, 16, 2]
    else if f.kind == PING || f.kind == PONG || f.kind == GET_STATUS then p == []
    else if f.kind == JOB then |p| >= 1 && p[0] as int <= MAX_JOB && |p| == 1 + p[0] as int
    else if f.kind == JOB_RESULT then |p| == 5 && p[0] as int <= MAX_JOB
    else if f.kind == STATUS then |p| == 4 && 1 <= p[0] <= 4 && p[1] <= 5
    else if f.kind == ERROR then |p| == 2 && 1 <= p[0] <= 5
    else true
  }

  predicate IsReply(kind: byte) {
    kind == HELLO_ACK || kind == PONG || kind == JOB_RESULT || kind == STATUS || kind == ERROR
  }

  function JobData(f: Frame): seq<byte> {
    if f.payload == [] then [] else f.payload[1..]
  }
}
