/**
 The binary frame on the management link: magic, eight header bytes, payload, CRC. One abstract decoder gives it a
 meaning; the firmware's parser and the host's decoder are two separate machines that both compute it.
 */
module Frames {
  import opened Bytes
  import opened Crc

  const MAGIC0: byte := 0xA5
  const MAGIC1: byte := 0x5A
  const VERSION: byte := 1
  const MAX_PAYLOAD: nat := 132

  datatype Frame = Frame(version: byte, frameType: byte, flags: byte, reserved: byte, requestId: u16, payload: seq<byte>)

  /** The bytes the CRC covers: header, then payload. */
  function Covered(f: Frame): (c: seq<byte>)
    requires |f.payload| <= MAX_PAYLOAD
    ensures |c| == 8 + |f.payload|
  {
    HeaderOf(f) + f.payload
  }

  function HeaderOf(f: Frame): (h: seq<byte>)
    requires |f.payload| <= MAX_PAYLOAD
    ensures |h| == 8
  {
    [f.version, f.frameType, f.flags, f.reserved] + Le16(f.requestId) + Le16(|f.payload|)
  }

  function Wire(f: Frame): seq<byte>
    requires |f.payload| <= MAX_PAYLOAD
  {
    [MAGIC0, MAGIC1] + Covered(f) + Le16(Crc16(Covered(f)))
  }

  /** The layout on the wire, byte for byte. */
  lemma WireLayout(f: Frame, w: seq<byte>)
    requires |f.payload| <= MAX_PAYLOAD
    ensures w == Wire(f) <==>
            var n := |f.payload|;
            && |w| == 12 + n && w[0] == 0xA5 && w[1] == 0x5A
            && w[2] == f.version && w[3] == f.frameType && w[4] == f.flags && w[5] == f.reserved
            && FromLe16(w[6..8]) == f.requestId && FromLe16(w[8..10]) == n && w[10..10 + n] == f.payload
            && FromLe16(w[10 + n..]) == Crc16(w[2..10 + n])
  {
    hide Crc16, Le16, FromLe16;
    var n := |f.payload|;
    Le16Inverse(f.requestId, Wire(f)[6..8]);
    Le16Inverse(n, Wire(f)[8..10]);
    Le16Inverse(Crc16(Covered(f)), Wire(f)[10 + n..]);
    WireParts(f);
    if |w| == 12 + n {
      Le16Inverse(0, w[6..8]);
      Le16Inverse(0, w[8..10]);
      Le16Inverse(0, w[10 + n..]);
      SevenParts(w, n);
      SevenParts(Wire(f), n);
    }
  }

  lemma WireParts(f: Frame)
    requires |f.payload| <= MAX_PAYLOAD
    ensures var n, w := |f.payload|, Wire(f);
            && |w| == 12 + n && w[..6] == [0xA5, 0x5A, f.version, f.frameType, f.flags, f.reserved]
            && w[6..8] == Le16(f.requestId) && w[8..10] == Le16(n) && w[10..10 + n] == f.payload
            && w[2..10 + n] == Covered(f) && w[10 + n..] == Le16(Crc16(Covered(f)))
  {
    hide Crc16, Le16;
    var n, w := |f.payload|, Wire(f);
    assert w[2..10 + n] == Covered(f);
    assert w[10..10 + n] == Covered(f)[8..];
  }

  lemma SevenParts(w: seq<byte>, n: nat)
    requires |w| == 12 + n
    ensures w == w[..6] + w[6..8] + w[8..10] + w[10..10 + n] + w[10 + n..]
    ensures w[..6] == [w[0], w[1], w[2], w[3], w[4], w[5]]
    ensures w[2..10 + n] == w[..6][2..] + w[6..8] + w[8..10] + w[10..10 + n]
  {
  }

  // ----- the abstract decoder -----

  datatype Mode =
    | Idle | Magic | Resync | ResyncMagic
    | Header(h: seq<byte>)
    | Payload(h: seq<byte>, p: seq<byte>)
    | CrcLow(h: seq<byte>, p: seq<byte>)
    | CrcHigh(h: seq<byte>, p: seq<byte>, low: byte)

  datatype Output = Ready(frame: Frame) | SyncError | LengthError | CrcError

  predicate Hunting(m: Mode) {
    m == Idle || m == Magic || m == Resync || m == ResyncMagic
  }

  predicate Sane(m: Mode) {
    match m
    case Header(h) => |h| < 8
    case Payload(h, p) => |h| == 8 && |p| < Length(h) <= MAX_PAYLOAD
    case CrcLow(h, p) => |h| == 8 && |p| == Length(h) <= MAX_PAYLOAD
    case CrcHigh(h, p, _) => |h| == 8 && |p| == Length(h) <= MAX_PAYLOAD
    case _ => true
  }

  function Length(h: seq<byte>): u16
    requires |h| == 8
  {
    FromLe16(h[6..])
  }

  function FrameOf(h: seq<byte>, p: seq<byte>): Frame
    requires |h| == 8
  {
    Frame(h[0], h[1], h[2], h[3], FromLe16(h[4..6]), p)
  }

  function Next(m: Mode, b: byte): (r: Mode)
    requires Sane(m)
    ensures Sane(r)
  {
    match m
    case Idle => if b == MAGIC0 then Magic else Idle
    case Magic => if b == MAGIC1 then Header([]) else if b == MAGIC0 then Magic else Idle
    case Resync => if b == MAGIC0 then ResyncMagic else Resync
    case ResyncMagic => if b == MAGIC1 then Header([]) else if b == MAGIC0 then ResyncMagic else Resync
    case Header(h) =>
      var h' := h + [b];
      if |h'| < 8 then Header(h')
      else if Length(h') > MAX_PAYLOAD then Resync
      else if Length(h') == 0 then CrcLow(h', [])
      else Payload(h', [])
    case Payload(h, p) => if |p| + 1 < Length(h) then Payload(h, p + [b]) else CrcLow(h, p + [b])
    case CrcLow(h, p) => CrcHigh(h, p, b)
    case CrcHigh(_, _, _) => Idle
  }

  /** What one byte makes the decoder report: nothing, or one output. */
  function Emit(m: Mode, b: byte): (r: seq<Output>)
    requires Sane(m)
    ensures |r| <= 1
  {
    match m
    case Magic => if b == MAGIC1 then [] else [SyncError]
    case Header(h) => if |h| == 7 && Length(h + [b]) > MAX_PAYLOAD then [LengthError] else []
    case CrcHigh(h, p, low) => if FromLe16([low, b]) == Crc16(h + p) then [Ready(FrameOf(h, p))] else [CrcError]
    case _ => []
  }

  function After(m: Mode, s: seq<byte>): (r: Mode)
    requires Sane(m)
    ensures Sane(r)
    decreases |s|
  {
    if s == [] then m else After(Next(m, s[0]), s[1..])
  }

  function EmitAll(m: Mode, s: seq<byte>): seq<Output>
    requires Sane(m)
    decreases |s|
  {
    if s == [] then [] else Emit(m, s[0]) + EmitAll(Next(m, s[0]), s[1..])
  }

  lemma {:induction false} FeedAppend(m: Mode, a: seq<byte>, b: seq<byte>)
    requires Sane(m)
    ensures After(m, a + b) == After(After(m, a), b)
    ensures EmitAll(m, a + b) == EmitAll(m, a) + EmitAll(After(m, a), b)
    decreases |a|
  {
    hide Next, Emit, Sane;
    if a == [] {
      assert a + b == b;
    } else {
      assert (a + b)[1..] == a[1..] + b;
      FeedAppend(Next(m, a[0]), a[1..], b);
    }
  }

  lemma {:induction false} FeedHeader(h: seq<byte>, rest: seq<byte>)
    requires |h| < 8 && |h| + |rest| == 8 && Length(h + rest) <= MAX_PAYLOAD
    ensures EmitAll(Header(h), rest) == []
    ensures After(Header(h), rest) == if Length(h + rest) == 0 then CrcLow(h + rest, []) else Payload(h + rest, [])
    decreases |rest|
  {
    var b := rest[0];
    if |rest| == 1 {
      assert rest == [b];
      assert EmitAll(Next(Header(h), b), rest[1..]) == [];
    } else {
      assert h + rest == (h + [b]) + rest[1..];
      FeedHeader(h + [b], rest[1..]);
    }
  }

  lemma {:induction false} FeedPayload(h: seq<byte>, p: seq<byte>, rest: seq<byte>)
    requires |h| == 8 && |p| < Length(h) <= MAX_PAYLOAD && |p| + |rest| == Length(h)
    ensures EmitAll(Payload(h, p), rest) == []
    ensures After(Payload(h, p), rest) == CrcLow(h, p + rest)
    decreases |rest|
  {
    hide Length;
    var b := rest[0];
    if |rest| == 1 {
      assert rest == [b] && rest[1..] == [];
    } else {
      assert p + rest == (p + [b]) + rest[1..];
      FeedPayload(h, p + [b], rest[1..]);
    }
  }

  /** After the magic, header, payload and two checksum bytes decide between a frame and a CRC error, on the last byte. */
  lemma FeedBody(h: seq<byte>, p: seq<byte>, low: byte, high: byte)
    requires |h| == 8 && Length(h) == |p| <= MAX_PAYLOAD
    ensures After(Header([]), h + p + [low, high]) == Idle
    ensures EmitAll(Header([]), h + p + [low]) == []
    ensures EmitAll(Header([]), h + p + [low, high]) ==
            [if FromLe16([low, high]) == Crc16(h + p) then Ready(FrameOf(h, p)) else CrcError]
  {
    hide Length, Crc16, FromLe16;
    var m: Mode := Header([]);
    assert [] + h == h;
    FeedHeader([], h);
    if p == [] {
      assert h + p == h;
    } else {
      FeedPayload(h, [], p);
      assert [] + p == p;
    }
    FeedAppend(m, h, p);
    assert After(m, h + p) == CrcLow(h, p) && EmitAll(m, h + p) == [];
    FeedAppend(m, h + p, [low]);
    assert h + p + [low, high] == (h + p + [low]) + [high];
    FeedAppend(m, h + p + [low], [high]);
    FeedOne(CrcLow(h, p), low);
    FeedOne(CrcHigh(h, p, low), high);
  }

  lemma FeedOne(m: Mode, b: byte)
    requires Sane(m)
    ensures After(m, [b]) == Next(m, b) && EmitAll(m, [b]) == Emit(m, b)
  {
    assert [b][1..] == [];
    assert EmitAll(Next(m, b), []) == [];
  }

  /** From any hunting mode the two magic bytes lead into a header; a decoder that was half way reports the break. */
  lemma FeedMagic(m: Mode)
    requires Hunting(m)
    ensures After(m, [MAGIC0, MAGIC1]) == Header([])
    ensures EmitAll(m, [MAGIC0, MAGIC1]) == if m == Magic then [SyncError] else []
  {
    assert [MAGIC0, MAGIC1] == [MAGIC0] + [MAGIC1];
    FeedAppend(m, [MAGIC0], [MAGIC1]);
    FeedOne(m, MAGIC0);
    FeedOne(Next(m, MAGIC0), MAGIC1);
  }

  lemma HeaderSurvives(f: Frame)
    requires |f.payload| <= MAX_PAYLOAD
    ensures Length(HeaderOf(f)) == |f.payload| && FrameOf(HeaderOf(f), f.payload) == f
  {
    var h := HeaderOf(f);
    assert h[6..] == Le16(|f.payload|) && h[4..6] == Le16(f.requestId);
  }

  /** An encoded frame decodes to itself, on its last byte and not before, from every hunting mode. */
  lemma RoundTrip(m: Mode, f: Frame)
    requires Hunting(m) && |f.payload| <= MAX_PAYLOAD
    ensures var noise := if m == Magic then [SyncError] else [];
            && EmitAll(m, Wire(f)) == noise + [Ready(f)]
            && EmitAll(m, Wire(f)[..|Wire(f)| - 1]) == noise
            && After(m, Wire(f)) == Idle
  {
    hide HeaderOf, Crc16, FrameOf, Length, Hunting;
    var h, p := HeaderOf(f), f.payload;
    var crc := Le16(Crc16(h + p));
    HeaderSurvives(f);
    Le16Inverse(Crc16(h + p), crc);
    Decoded(m, h, p, crc[0], crc[1]);
    assert crc == [crc[0], crc[1]];
    assert Wire(f) == [MAGIC0, MAGIC1] + (h + p + [crc[0], crc[1]]);
    assert Wire(f)[..|Wire(f)| - 1] == [MAGIC0, MAGIC1] + (h + p + [crc[0]]);
  }

  lemma Decoded(m: Mode, h: seq<byte>, p: seq<byte>, low: byte, high: byte)
    requires Hunting(m) && |h| == 8 && Length(h) == |p| <= MAX_PAYLOAD
    ensures var noise := if m == Magic then [SyncError] else [];
            && EmitAll(m, [MAGIC0, MAGIC1] + (h + p + [low, high])) ==
               noise + [if FromLe16([low, high]) == Crc16(h + p) then Ready(FrameOf(h, p)) else CrcError]
            && EmitAll(m, [MAGIC0, MAGIC1] + (h + p + [low])) == noise
            && After(m, [MAGIC0, MAGIC1] + (h + p + [low, high])) == Idle
  {
    hide Length, Crc16, FromLe16, FrameOf;
    FeedMagic(m);
    FeedBody(h, p, low, high);
    FeedAppend(m, [MAGIC0, MAGIC1], h + p + [low, high]);
    FeedAppend(m, [MAGIC0, MAGIC1], h + p + [low]);
  }

  /** A frame altered in one or two adjacent covered bytes, other than the length, is reported as a CRC error. */
  lemma AlterationIsReported(m: Mode, f: Frame, altered: seq<byte>, at: nat, width: nat)
    requires Hunting(m) && |f.payload| <= MAX_PAYLOAD
    requires |altered| == |Covered(f)| && altered != Covered(f)
    requires 1 <= width <= 2 && at + width <= |altered| && (at + width <= 6 || 8 <= at)
    requires forall i :: 0 <= i < |altered| && !(at <= i < at + width) ==> altered[i] == Covered(f)[i]
    ensures EmitAll(m, [MAGIC0, MAGIC1] + altered + Le16(Crc16(Covered(f)))) ==
            (if m == Magic then [SyncError] else []) + [CrcError]
  {
    hide Crc16, Hunting, FrameOf, Covered, Length, EmitAll, After;
    var crc := Le16(Crc16(Covered(f)));
    LengthIsKept(f, altered);
    var h, p := altered[..8], altered[8..];
    ShortBurstDetected(Covered(f), altered, at, width);
    Le16Inverse(Crc16(Covered(f)), crc);
    assert altered == h + p && [crc[0], crc[1]] == crc;
    Decoded(m, h, p, crc[0], crc[1]);
    assert [MAGIC0, MAGIC1] + altered + crc == [MAGIC0, MAGIC1] + (h + p + [crc[0], crc[1]]);
  }

  lemma LengthIsKept(f: Frame, altered: seq<byte>)
    requires |f.payload| <= MAX_PAYLOAD && |altered| == |Covered(f)|
    requires altered[6] == Covered(f)[6] && altered[7] == Covered(f)[7]
    ensures |altered| == 8 + |f.payload| && Length(altered[..8]) == |f.payload|
  {
    hide HeaderOf, FrameOf;
    HeaderSurvives(f);
    assert altered[..8][6..] == HeaderOf(f)[6..];
  }
}
