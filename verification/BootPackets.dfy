/** The bootloader's packets: frames with one request each, the checks on them, and the response that reports the device's state. */
module BootPackets {
  import opened Bytes
  import opened Crc
  import opened FlashMemory
  import opened BootMetadata
  import opened Bootloader
  import Frames

  const REQUEST_TYPE: byte := 0x04
  const RESPONSE_TYPE: byte := 0x86
  const MAX_REQUEST: nat := 52

  function StatusCode(s: Status): byte {
    match s
    case Ok => 0x00
    case InvalidState => 0x01
    case BadLength => 0x02
    case BadFlags => 0x03
    case BadHeader => 0x04
    case AuthFailed => 0x05
    case TargetMismatch => 0x06
    case VersionRejected => 0x07
    case OutOfSequence => 0x08
    case FlashFailed => 0x09
    case DigestFailed => 0x0A
    case VectorInvalid => 0x0B
    case InternalError => 0x0C
  }

  function StateCode(s: UpdateState): byte {
    match s
    case Idle => 0x00
    case Staged => 0x01
    case Authorized => 0x02
    case Receiving => 0x03
    case Verifying => 0x04
    case Committed => 0x05
  }

  /** A frame that carries a request for the bootloader. */
  predicate IsRequest(f: Frames.Frame) {
    && f.version == 1 && f.frameType == REQUEST_TYPE && f.reserved == 0 && f.requestId != 0
    && 1 <= |f.payload| <= MAX_REQUEST
  }

  /** What a packet carries once it has passed the checks. */
  function Carried(rx: seq<byte>): Frames.Frame
    requires |rx| >= 12
  {
    Frames.Frame(1, REQUEST_TYPE, rx[4], 0, FromLe16(rx[6..8]), rx[10..|rx| - 2])
  }

  function ReportBytes(opcode: byte, status: byte, state: byte, offset: u16, floor: u32, committed: u32): (r: seq<byte>)
    ensures |r| == 16
  {
    [opcode, status, state, 0] + Le16(offset) + [0, 0] + Le32(floor) + Le32(committed)
  }

  /** A packet that carries a request. */
  predicate IsPacket(rx: seq<byte>) {
    |rx| >= 12 && IsRequest(Carried(rx)) && rx == Frames.Wire(Carried(rx))
  }

  /** What a packet carries is the only request with that wire form. */
  lemma CarriedAlone(rx: seq<byte>, f: Frames.Frame)
    requires IsRequest(f) && rx == Frames.Wire(f)
    ensures IsPacket(rx) && f == Carried(rx)
  {
    hide Crc16, Frames.Wire, FromLe16;
    Frames.WireLayout(f, rx);
  }

  /** `build_response`: what the device answers, from its state after the request. */
  function Report(boot: Updater, requestId: u16, opcode: byte, status: Status): Frames.Frame
    reads boot
  {
    Frames.Frame(1, RESPONSE_TYPE, 0, 0, requestId,
                 ReportBytes(opcode, StatusCode(status), StateCode(boot.updateState),
                             if boot.Transferring() then boot.expectedOffset else 0, boot.versionFloor, boot.committedVersion))
  }

  /** The checks of `process_bulk_packet` accept exactly the frames that carry a request. */
  method CheckPacket(rx: seq<byte>) returns (ok: bool)
    ensures ok == IsPacket(rx)
  {
    hide Crc16, Frames.Wire, FromLe16;
    if 12 <= |rx| <= 64 {
      Frames.WireLayout(Carried(rx), rx);
    }
    if |rx| < 12 || |rx| > 64 {
      return false;
    }
    if rx[0] != 0xA5 || rx[1] != 0x5A || rx[2] != 1 || rx[3] != REQUEST_TYPE || rx[5] != 0 {
      return false;
    }
    var id := FromLe16(rx[6..8]);
    var payload: int := FromLe16(rx[8..10]);
    if id == 0 || payload > MAX_REQUEST || |rx| != 12 + payload || payload == 0 {
      return false;
    }
    var crc := ComputeCrc16(rx[2..10 + payload]);
    if crc != FromLe16(rx[10 + payload..]) {
      return false;
    }
    return true;
  }

  /**
   One USB packet. What is not a request is dropped without a trace; a request is handled by its flags and opcode and
   answered with the resulting state, under its own id.
   */
  method ProcessPacket(boot: Updater, rx: seq<byte>) returns (tx: seq<byte>, ghost status: Status)
    requires boot.Valid() && !boot.running
    modifies boot, boot.flash
    ensures boot.Valid() && !boot.running
    ensures old(Floor(boot.dev, boot.flash.cells)) <= Floor(boot.dev, boot.flash.cells)
    ensures !IsPacket(rx) ==> tx == [] && unchanged(boot) && unchanged(boot.flash)
    ensures IsPacket(rx) ==> var f := Carried(rx);
              boot.Handled(f.flags, f.payload[0], f.payload, status) && tx == Frames.Wire(Report(boot, f.requestId, f.payload[0], status))
  {
    hide Settled, Floor, BootVersion, InTransfer, StructuralValid, Frames.Wire, Crc16, FromLe16,
      ReportBytes, Report, AuthorizeVerdict, ChunkShape, VectorsValid, Updater.Valid;
    var ok := CheckPacket(rx);
    if !ok {
      return [], Ok;
    }
    var f := Carried(rx);
    tx, status := HandleAndReport(boot, f.requestId, f.flags, f.payload);
  }

  method HandleAndReport(boot: Updater, requestId: u16, flags: byte, payload: seq<byte>) returns (tx: seq<byte>, ghost status: Status)
    requires boot.Valid() && !boot.running && payload != []
    modifies boot, boot.flash
    ensures boot.Valid() && !boot.running
    ensures old(Floor(boot.dev, boot.flash.cells)) <= Floor(boot.dev, boot.flash.cells)
    ensures boot.Handled(flags, payload[0], payload, status)
    ensures tx == Frames.Wire(Report(boot, requestId, payload[0], status))
  {
    hide Settled, Floor, BootVersion, InTransfer, StructuralValid, Frames.Wire, ReportBytes, AuthorizeVerdict, ChunkShape, VectorsValid;
    var answer := boot.Handle(flags, payload[0], payload);
    status := answer;
    tx := BuildResponse(boot, requestId, payload[0], answer);
  }

  /** Header, body and the CRC over both. */
  method BuildResponse(boot: Updater, requestId: u16, opcode: byte, status: Status) returns (tx: seq<byte>)
    ensures tx == Frames.Wire(Report(boot, requestId, opcode, status))
  {
    hide Crc16, Le16, ReportBytes;
    var offset: u16 := if boot.updateState == Authorized || boot.updateState == Receiving then boot.expectedOffset else 0;
    var header: seq<byte> := [1, RESPONSE_TYPE, 0, 0] + Le16(requestId) + Le16(16);
    var body := ReportBytes(opcode, StatusCode(status), StateCode(boot.updateState), offset, boot.versionFloor, boot.committedVersion);
    ghost var f := Report(boot, requestId, opcode, status);
    assert f.payload == body && header == Frames.HeaderOf(f);
    var crc := ComputeCrc16(header + body);
    tx := [0xA5, 0x5A] + (header + body) + Le16(crc);
  }
}
