/** The host's side of a firmware update: how it cuts the image, and that a healthy device ends up running it. */
module FirmwareHost {
  import opened Bytes
  import opened FlashMemory
  import opened BootMetadata
  import opened Bootloader
  import opened BootPackets
  import Frames
  import FrameMachines

  /** How many bytes go into the DATA request at this offset. */
  function ChunkLength(offset: nat, total: nat): (n: nat)
    requires offset < total
  {
    var room, rest := PAGE - offset % PAGE, total - offset;
    var limit := if rest < room then rest else room;
    if limit < 48 then limit else 48
  }

  /** Every chunk the host cuts passes the device's DATA checks, and the cutting makes progress on even offsets. */
  lemma EveryChunkFits(offset: nat, total: nat)
    requires offset < total && offset % 2 == 0 && total % 2 == 0
    ensures ChunkShape(offset, ChunkLength(offset, total), total)
    ensures (offset + ChunkLength(offset, total)) % 2 == 0
  {
    hide ChunkShape;
    var o, t := offset / 2, total / 2;
    var p := PageHalf(o);
    var h := ChunkIsDouble(o, t, p);
    assert offset == 2 * o && total == 2 * t;
    DoublesFit(o, h, t, p);
  }

  /** Everything is counted in halfwords: page offset, chunk and image. */
  lemma PageHalf(o: nat) returns (p: nat)
    ensures 2 * o % PAGE == 2 * p && p < 512
  {
    var q := o / 512;
    p := o - 512 * q;
    assert 2 * o == PAGE * q + 2 * p;
    PageRemainder(q, 2 * p);
  }

  lemma PageRemainder(q: nat, r: nat)
    requires r < PAGE
    ensures (PAGE * q + r) % PAGE == r
  {
  }

  lemma ChunkIsDouble(o: nat, t: nat, p: nat) returns (h: nat)
    requires o < t && p < 512 && 2 * o % PAGE == 2 * p
    ensures ChunkLength(2 * o, 2 * t) == 2 * h && 1 <= h <= 24 && o + h <= t && p + h <= 512
  {
    h := if t - o < 512 - p then t - o else 512 - p;
    h := if h < 24 then h else 24;
  }

  lemma DoublesFit(o: nat, h: nat, t: nat, p: nat)
    requires 2 * o % PAGE == 2 * p && 1 <= h <= 24 && o + h <= t && p + h <= 512
    ensures ChunkShape(2 * o, 2 * h, 2 * t) && (2 * o + 2 * h) % 2 == 0
  {
    DoubleIsEven(o);
    DoubleIsEven(h);
    DoubleIsEven(o + h);
  }

  lemma DoubleIsEven(n: nat)
    ensures 2 * n % 2 == 0
  {
  }

  // ----- one request and its response -----

  datatype Response = Response(opcode: byte, status: byte, state: byte, offset: u16, floor: u32, committed: u32)

  /** The host's own reading of the status and state bytes. */
  function HostStatus(code: byte): Option<Status> {
    if code == 0 then Some(Ok)
    else if code == 1 then Some(InvalidState)
    else if code == 2 then Some(BadLength)
    else if code == 3 then Some(BadFlags)
    else if code == 4 then Some(BadHeader)
    else if code == 5 then Some(AuthFailed)
    else if code == 6 then Some(TargetMismatch)
    else if code == 7 then Some(VersionRejected)
    else if code == 8 then Some(OutOfSequence)
    else if code == 9 then Some(FlashFailed)
    else if code == 10 then Some(DigestFailed)
    else if code == 11 then Some(VectorInvalid)
    else if code == 12 then Some(InternalError)
    else None
  }

  function HostState(code: byte): Option<UpdateState> {
    if code == 0 then Some(Idle)
    else if code == 1 then Some(Staged)
    else if code == 2 then Some(Authorized)
    else if code == 3 then Some(Receiving)
    else if code == 4 then Some(Verifying)
    else if code == 5 then Some(Committed)
    else None
  }

  /** What the device says and what the host reads are the same. */
  lemma CodesAgree(status: Status, state: UpdateState)
    ensures HostStatus(StatusCode(status)) == Some(status) && HostState(StateCode(state)) == Some(state)
  {
  }

  /** `ParseResponse`: the fields at their places, if length, echo and reserved bytes are right. */
  method ParseResponse(p: seq<byte>, opcode: byte) returns (r: Option<Response>)
    ensures r.Some? <==> |p| == 16 && p[0] == opcode && p[3] == p[6] == p[7] == 0
    ensures r.Some? ==> r.value == Response(opcode, p[1], p[2], FromLe16(p[4..6]), FromLe32(p[8..12]), FromLe32(p[12..16]))
  {
    if |p| != 16 || p[0] != opcode || p[3] != 0 || p[6] != 0 || p[7] != 0 {
      return None;
    }
    return Some(Response(p[0], p[1], p[2], FromLe16(p[4..6]), FromLe32(p[8..12]), FromLe32(p[12..16])));
  }

  lemma ReportFields(opcode: byte, status: byte, state: byte, offset: u16, floor: u32, committed: u32)
    ensures var p := ReportBytes(opcode, status, state, offset, floor, committed);
            && p[0] == opcode && p[1] == status && p[2] == state && p[3] == p[6] == p[7] == 0
            && FromLe16(p[4..6]) == offset && FromLe32(p[8..12]) == floor && FromLe32(p[12..16]) == committed
  {
    hide Le16, Le32, FromLe16, FromLe32;
    var p := ReportBytes(opcode, status, state, offset, floor, committed);
    assert p[4..6] == Le16(offset) && p[8..12] == Le32(floor) && p[12..16] == Le32(committed);
    Le16Inverse(offset, p[4..6]);
    Le32Inverse(floor, p[8..12]);
    Le32Inverse(committed, p[12..16]);
  }

  /** What the host learns from a response: the status, and the device's state after the request. */
  predicate Tells(boot: Updater, status: Status, r: Response)
    reads boot
  {
    && HostStatus(r.status) == Some(status) && HostState(r.state) == Some(boot.updateState)
    && r.offset == (if boot.Transferring() then boot.expectedOffset else 0)
    && r.floor == boot.versionFloor && r.committed == boot.committedVersion
  }

  /**
   A request as bytes to the device and its response as bytes back, through the host's encoder and decoder: the device
   handles exactly the payload under exactly the flags, and the host is told the outcome.
   */
  method Transact(boot: Updater, id: u16, flags: byte, payload: seq<byte>) returns (r: Response, ghost status: Status)
    requires boot.Valid() && !boot.running && id != 0 && 1 <= |payload| <= MAX_REQUEST
    modifies boot, boot.flash
    ensures boot.Valid() && !boot.running
    ensures boot.Handled(flags, payload[0], payload, status) && Tells(boot, status, r)
  {
    hide Settled, Floor, BootVersion, InTransfer, StructuralValid, Frames.Wire, ReportBytes, AuthorizeVerdict, ChunkShape, VectorsValid,
      Updater.Valid, HostStatus, HostState, StatusCode, StateCode;
    var _, rx := FrameMachines.HostEncode(REQUEST_TYPE, flags, id, payload);
    CarriedAlone(rx, FrameMachines.Outgoing(REQUEST_TYPE, flags, id, payload));
    var tx;
    tx, status := ProcessPacket(boot, rx);
    ReportFields(payload[0], StatusCode(status), StateCode(boot.updateState),
                 if boot.Transferring() then boot.expectedOffset else 0, boot.versionFloor, boot.committedVersion);
    CodesAgree(status, boot.updateState);
    r := Receive(tx, payload[0], Report(boot, id, payload[0], status));
  }

  /** The host's decoder finds the response in the bytes, and the parser its fields. */
  method Receive(tx: seq<byte>, opcode: byte, ghost f: Frames.Frame) returns (r: Response)
    requires |f.payload| == 16 && f.payload[0] == opcode && f.payload[3] == f.payload[6] == f.payload[7] == 0
    requires tx == Frames.Wire(f)
    ensures var p := f.payload;
            r == Response(opcode, p[1], p[2], FromLe16(p[4..6]), FromLe32(p[8..12]), FromLe32(p[12..16]))
  {
    hide Frames.Wire, Frames.EmitAll, Frames.After;
    var decoder := new FrameMachines.Decoder();
    Frames.RoundTrip(Frames.Idle, f);
    FrameMachines.SingleOutputs();
    assert [] + [Frames.Ready(f)] == [Frames.Ready(f)];
    var frames, _ := decoder.Feed(tx);
    var parsed := ParseResponse(frames[0].payload, opcode);
    r := parsed.value;
  }
  // ----- the update -----

  function DataPayload(offset: u16, chunk: seq<byte>): seq<byte> {
    [OP_DATA] + Le16(offset) + chunk
  }

  /** `ParsePackage` accepts this header, tag and image. */
  predicate Parses(dev: Device, header: seq<byte>, tag: seq<byte>, image: seq<byte>) {
    && |header| == 48 && |tag| == 32
    && FromLe32(header[..4]) == 0x534F_4544 && header[4] == 1 && header[5] == 0 && FromLe16(header[6..8]) == 0x0410
    && 8 <= |image| <= 53248 && |image| % 4 == 0 && FromLe32(header[8..12]) as int == |image| && FromLe32(header[12..16]) != 0
    && dev.digest(image) == header[16..]
  }

  /** The image starts with a stack pointer into the 20 KiB of RAM and a reset handler inside the image. */
  predicate UsableVectors(image: seq<byte>)
    requires |image| >= 8
  {
    var msp, reset := FromLe32(image[..4]), FromLe32(image[4..8]);
    && msp % 8 == 0 && 0x2000_0000 <= msp <= 0x2000_5000
    && reset % 2 == 1 && 0x0800_2000 <= reset - 1 < 0x0800_2000 + |image|
  }

  lemma VectorsOfImage(cells: seq<byte>, image: seq<byte>)
    requires |cells| == CELLS && 8 <= |image| <= APP_MAX && cells[..|image|] == image
    ensures VectorsValid(cells, |image|) <==> UsableVectors(image)
  {
    hide FromLe32;
    assert cells[..4] == image[..4] && cells[4..8] == image[4..8];
  }

  datatype Outcome = Finished(end: Response) | Refused(status: Status)

  /**
   BEGIN, AUTHORIZE, the DATA loop with one retry whenever a reply is lost, and END, all as packets. On healthy flash the
   update is refused exactly where the device's state, the verdict on tag, target and version, or the image's vectors
   refuse it, and is otherwise installed: the flash holds the image, and it is what the next boot runs.
   */
  method Update(boot: Updater, header: seq<byte>, tag: seq<byte>, image: seq<byte>, ids: nat -> u16, repliesLost: set<nat>)
    returns (outcome: Outcome)
    requires boot.Valid() && !boot.running && boot.flash.Healthy() && Parses(boot.dev, header, tag, image)
    requires forall k :: ids(k) != 0
    modifies boot, boot.flash
    ensures boot.Valid() && !boot.running
    ensures var verdict := old(AuthorizeVerdict(boot.dev, boot.flash.cells, Staged, header, [0x04] + tag));
            if old(boot.updateState != Idle && boot.updateState != Staged) then outcome == Refused(InvalidState) && unchanged(boot.flash)
            else if verdict != Ok then outcome == Refused(verdict) && unchanged(boot.flash)
            else
              && boot.flash.cells[..|image|] == image
              && if UsableVectors(image) then
                   && outcome.Finished? && boot.updateState == Committed
                   && BootVersion(boot.dev, boot.flash.cells) == Floor(boot.dev, boot.flash.cells) == FromLe32(header[12..16])
                   && outcome.end.floor == outcome.end.committed == FromLe32(header[12..16])
                 else outcome == Refused(VectorInvalid)
  {
    hide Settled, Floor, BootVersion, VectorsValid, TargetValid, AuthorizeVerdict, InTransfer, Updater.Valid;
    ghost var status;
    var r;
    r, status := Transact(boot, ids(0), 0x01, [OP_BEGIN] + header);
    assert ([OP_BEGIN] + header)[1..] == header;
    if HostStatus(r.status) != Some(Ok) || HostState(r.state) != Some(Staged) {
      return Refused(HostStatus(r.status).value);
    }
    var payload := [OP_AUTHORIZE] + tag;
    r, status := Transact(boot, ids(1), 0x01, payload);
    if HostStatus(r.status) != Some(Ok) || HostState(r.state) != Some(Authorized) {
      return Refused(HostStatus(r.status).value);
    }
    SendImage(boot, image, ids, repliesLost);
    outcome := Finish(boot, image, ids(2 + 2 * |image|));
  }

  /** END, once the image is streamed. */
  method Finish(boot: Updater, image: seq<byte>, id: u16) returns (outcome: Outcome)
    requires boot.Valid() && !boot.running && boot.flash.Healthy() && boot.Transferring() && id != 0
    requires 8 <= |image| == boot.expectedOffset == ImageLength(boot.stagedHeader) <= APP_MAX && boot.stream == image
    requires boot.dev.digest(image) == boot.stagedHeader[16..]
    modifies boot, boot.flash
    ensures boot.Valid() && !boot.running && boot.stagedHeader == old(boot.stagedHeader)
    ensures boot.flash.cells[..|image|] == image
    ensures if UsableVectors(image) then
              && outcome.Finished? && boot.updateState == Committed
              && BootVersion(boot.dev, boot.flash.cells) == Floor(boot.dev, boot.flash.cells) == VersionOf(boot.stagedHeader)
              && outcome.end.floor == outcome.end.committed == VersionOf(boot.stagedHeader)
            else outcome == Refused(VectorInvalid)
  {
    hide Settled, Floor, BootVersion, VectorsValid, TargetValid;
    ghost var sent := boot.flash.cells;
    assert sent[..|image|] == image;
    ghost var status;
    var r;
    r, status := Transact(boot, id, 0x01, [OP_END]);
    assert boot.flash.cells[..|image|] == sent[..|image|];
    VectorsFrame(sent, boot.flash.cells, |image|);
    VectorsOfImage(sent, image);
    if HostStatus(r.status) != Some(Ok) || HostState(r.state) != Some(Committed) {
      return Refused(HostStatus(r.status).value);
    }
    return Finished(r);
  }

  method SendImage(boot: Updater, image: seq<byte>, ids: nat -> u16, repliesLost: set<nat>)
    requires boot.Valid() && !boot.running && boot.flash.Healthy() && boot.Transferring() && boot.expectedOffset == 0
    requires |image| == ImageLength(boot.stagedHeader) && forall k :: ids(k) != 0
    modifies boot, boot.flash
    ensures boot.Valid() && !boot.running && boot.flash.Healthy() && boot.Transferring() && boot.stagedHeader == old(boot.stagedHeader)
    ensures boot.expectedOffset == |image| && boot.stream == image
  {
    hide Settled, Floor, BootVersion, InTransfer;
    var offset := 0;
    boot.TransferBounds();
    while offset < |image|
      invariant 0 <= offset <= |image| && offset % 2 == 0 && |image| <= APP_MAX
      invariant boot.Valid() && !boot.running && boot.flash.Healthy() && boot.Transferring()
      invariant boot.stagedHeader == old(boot.stagedHeader)
      invariant boot.expectedOffset == offset && boot.stream == image[..offset]
    {
      var count := ChunkLength(offset, |image|);
      EveryChunkFits(offset, |image|);
      var chunk := image[offset..offset + count];
      var payload := DataPayload(offset, chunk);
      Le16Inverse(offset, payload[1..3]);
      assert payload[1..3] == Le16(offset) && payload[3..] == chunk;
      var r := SendChunk(boot, ids(2 + 2 * offset), ids(3 + 2 * offset), payload, offset in repliesLost);
      if HostStatus(r.status) != Some(Ok) || HostState(r.state) != Some(Receiving) || r.offset as int != offset + count {
        assert false;  // the device accepts every chunk and expects the next one
      }
      assert image[..offset + count] == image[..offset] + chunk;
      offset := offset + count;
    }
    assert image[..|image|] == image;
  }

  /** A DATA request and, if its reply got lost, the same request again: the second one changes nothing. */
  method SendChunk(boot: Updater, id: u16, again: u16, payload: seq<byte>, replyLost: bool) returns (r: Response)
    requires boot.Valid() && !boot.running && boot.flash.Healthy() && boot.Transferring() && id != 0 && again != 0
    requires 5 <= |payload| <= 51 && payload[0] == OP_DATA && FromLe16(payload[1..3]) == boot.expectedOffset
    requires ChunkShape(boot.expectedOffset, |payload| - 3, ImageLength(boot.stagedHeader))
    modifies boot, boot.flash
    ensures boot.Valid() && !boot.running && boot.flash.Healthy() && boot.updateState == Receiving
    ensures boot.stagedHeader == old(boot.stagedHeader)
    ensures boot.expectedOffset == old(boot.expectedOffset) + |payload| - 3
    ensures boot.stream == old(boot.stream) + payload[3..]
    ensures HostStatus(r.status) == Some(Ok) && HostState(r.state) == Some(Receiving) && r.offset == boot.expectedOffset
  {
    hide Settled, Floor, BootVersion, InTransfer;
    ghost var repeats := boot.Repeats(boot.expectedOffset, payload[3..]);
    assert !repeats;
    ghost var status;
    r, status := Transact(boot, id, 0x01, payload);
    if replyLost {
      r, status := Transact(boot, again, 0x01, payload);
    }
  }

  lemma VectorsFrame(a: seq<byte>, b: seq<byte>, length: nat)
    requires |a| == |b| == CELLS && forall i :: 0 <= i < APP_MAX ==> a[i] == b[i]
    ensures VectorsValid(a, length) == VectorsValid(b, length)
  {
    assert a[..4] == b[..4] && a[4..8] == b[4..8];
  }
}
