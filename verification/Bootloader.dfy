/** The bootloader's request handlers, its boot decision, and what both keep over a device's whole life. */
module Bootloader {
  import opened Bytes
  import opened FlashMemory
  import opened BootMetadata

  const FLAG_DESTRUCTIVE: byte := 0x01
  const OP_INFO: byte := 0x02
  const OP_BEGIN: byte := 0x03
  const OP_AUTHORIZE: byte := 0x04
  const OP_DATA: byte := 0x05
  const OP_END: byte := 0x06

  /** Why AUTHORIZE answers what it answers, flash failures apart. */
  function AuthorizeVerdict(dev: Device, cells: seq<byte>, state: UpdateState, header: seq<byte>, payload: seq<byte>): Status
    requires |cells| == CELLS && |header| == 48
  {
    if |payload| != 33 then BadLength
    else if state != Staged then InvalidState
    else if dev.mac(header) != payload[1..] then AuthFailed
    else if !TargetValid(dev, header) then TargetMismatch
    else if VersionOf(header) < Floor(dev, cells) then VersionRejected
    else if VersionOf(header) == Floor(dev, cells) && BootVersion(dev, cells) != 0 then VersionRejected
    else Ok
  }

  /** A genuine request is granted exactly if it is newer than the floor, or repairs the floor's own version when no slot boots. */
  lemma WhatIsAuthorized(dev: Device, cells: seq<byte>, state: UpdateState, header: seq<byte>, payload: seq<byte>)
    requires |cells| == CELLS && |header| == 48 && StructuralValid(header)
    ensures AuthorizeVerdict(dev, cells, state, header, payload) == Ok <==>
            && |payload| == 33 && state == Staged && dev.mac(header) == payload[1..]
            && FromLe32(header[..4]) == 0x534F_4544 && FromLe16(header[6..8]) == 0x0410 == dev.id
            && (forall slot :: IsSlot(slot) && Genuine(dev, cells, slot) ==>
                  VersionOf(HeaderAt(cells, slot)) <= VersionOf(header)
                  && (VersionOf(HeaderAt(cells, slot)) == VersionOf(header) ==> NothingBoots(dev, cells)))
    ensures var verdict := AuthorizeVerdict(dev, cells, state, header, payload);
            && (verdict == BadLength <==> |payload| != 33)
            && (verdict == InvalidState <==> |payload| == 33 && state != Staged)
            && (verdict == AuthFailed <==> |payload| == 33 && state == Staged && dev.mac(header) != payload[1..])
            && (verdict == VersionRejected ==> |payload| == 33 && state == Staged && dev.mac(header) == payload[1..] && dev.id == 0x0410)
            && (verdict == TargetMismatch || verdict == VersionRejected || verdict == Ok <==>
                  |payload| == 33 && state == Staged && dev.mac(header) == payload[1..])
  {
    hide VectorsValid;
    assert IsSlot(META_A) && IsSlot(META_B);
  }

  ghost predicate NothingBoots(dev: Device, cells: seq<byte>)
    requires |cells| == CELLS
  {
    forall slot :: IsSlot(slot) && Genuine(dev, cells, slot) ==> !Runnable(dev, cells, HeaderAt(cells, slot))
  }

  datatype Event = Packet(flags: byte, opcode: byte, payload: seq<byte>) | Reset(token: bool, fates: seq<Fate>)

  datatype Fact = Installed(version: nat) | HandedOff(version: nat) | Recovery(version: nat, token: bool)

  class Updater {
    const dev: Device
    const flash: Flash
    var running: bool  // handed off to the application
    var updateState: UpdateState
    var stagedHeader: seq<byte>
    var stagedTag: seq<byte>
    var expectedOffset: u16
    var previousValid: bool
    var previousOffset: u16
    var previousData: seq<byte>
    var stream: seq<byte>  // the bytes fed to the streaming hash
    var versionFloor: u32
    var committedVersion: u32
    var highestFloorSlot: nat
    var targetSlot: nat

    predicate Transferring()
      reads this
    {
      updateState == Authorized || updateState == Receiving
    }

    /** DATA repeats the chunk accepted last. */
    predicate Repeats(offset: nat, chunk: seq<byte>)
      reads this
    {
      previousValid && offset == previousOffset && chunk == previousData
    }

    ghost predicate Valid()
      reads this, flash
    {
      && |flash.cells| == CELLS && |stagedHeader| == 48 && |stagedTag| == 32
      && Settled(dev, flash.cells)
      && updateState != Verifying
      && (updateState == Staged ==> StructuralValid(stagedHeader))
      && (Transferring() ==> InTransfer(dev, flash.cells, stagedHeader, stagedTag, targetSlot, expectedOffset, stream))
      && (updateState == Authorized ==> expectedOffset == 0)
      && (Transferring() ==> versionFloor <= VersionOf(stagedHeader))
      && (Transferring() && previousValid ==>
            previousOffset + |previousData| == expectedOffset && stream[previousOffset..] == previousData)
      && (updateState == Committed ==>
            BootVersion(dev, flash.cells) == Floor(dev, flash.cells) == VersionOf(stagedHeader) && VersionOf(stagedHeader) != 0)
    }

    // ----- what each request comes to -----

    /** INFO reads the metadata again and moves nothing else. */
    twostate predicate Informs(p: seq<byte>, status: Status)
      requires |flash.cells| == CELLS
      reads this, flash
    {
      && unchanged(flash) && unchanged(this`updateState) && unchanged(this`stagedHeader) && unchanged(this`expectedOffset)
      && unchanged(this`stream) && unchanged(this`previousValid) && unchanged(this`targetSlot)
      && if |p| != 1 then status == BadLength && unchanged(this)
         else status == Ok && versionFloor == Floor(dev, flash.cells) && committedVersion == BootVersion(dev, flash.cells)
    }

    /** BEGIN stages exactly a structurally valid header, in the states that allow it. */
    twostate predicate Begins(p: seq<byte>, status: Status)
      reads this, flash
    {
      && unchanged(flash)
      && if |p| != 49 then status == BadLength && unchanged(this)
         else if old(updateState) != Idle && old(updateState) != Staged then status == InvalidState && unchanged(this)
         else
           && stagedHeader == p[1..] && targetSlot == NO_SLOT && expectedOffset == 0 && !previousValid
           && if StructuralValid(p[1..]) then status == Ok && updateState == Staged else status == BadHeader && updateState == Idle
    }

    /** AUTHORIZE answers the verdict on tag, target and version; an authorized transfer starts at offset 0. */
    twostate predicate Authorizes(p: seq<byte>, status: Status)
      requires |old(flash.cells)| == |flash.cells| == CELLS && |old(stagedHeader)| == 48
      reads this, flash
    {
      && stagedHeader == old(stagedHeader) && Floor(dev, flash.cells) == old(Floor(dev, flash.cells))
      && (forall i :: 0 <= i < APP_MAX ==> flash.cells[i] == old(flash.cells[i]))
      && (status == FlashFailed || status == old(AuthorizeVerdict(dev, flash.cells, updateState, stagedHeader, p)))
      && (status == FlashFailed ==> old(AuthorizeVerdict(dev, flash.cells, updateState, stagedHeader, p)) == Ok && updateState == Idle)
      && (old(flash.Healthy()) ==> status != FlashFailed && flash.Healthy())
      && (status == Ok ==>
            && updateState == Authorized && !previousValid && stream == [] && expectedOffset == 0
            && stagedTag == p[1..] && versionFloor == Floor(dev, flash.cells))
      && (status != Ok && status != FlashFailed ==> unchanged(flash) && unchanged(this`updateState))
    }

    /** DATA appends the next chunk to the stream, and answers a repeated one without moving anything. */
    twostate predicate Appends(p: seq<byte>, status: Status)
      requires |old(flash.cells)| == |flash.cells| == CELLS && |old(stagedHeader)| == 48
      reads this, flash
    {
      && stagedHeader == old(stagedHeader) && Floor(dev, flash.cells) == old(Floor(dev, flash.cells))
      && (status != Ok && status != FlashFailed ==> unchanged(this) && unchanged(flash))
      && (status == FlashFailed ==> updateState == Idle)
      && if |p| < 5 || |p| > 51 then status == BadLength
         else
           var off, chunk := FromLe16(p[1..3]), p[3..];
           if !old(Transferring()) then status == InvalidState
           else if !ChunkShape(off, |chunk|, old(ImageLength(stagedHeader))) then status == BadLength
           else if old(Repeats(off, chunk)) then status == Ok && unchanged(this) && unchanged(flash)
           else if off != old(expectedOffset) then status == OutOfSequence
           else
             && (status == Ok || status == FlashFailed)
             && (old(flash.Healthy()) ==> status == Ok && flash.Healthy())
             && (status == Ok ==>
                   && updateState == Receiving && expectedOffset == old(expectedOffset) + |chunk|
                   && stream == old(stream) + chunk && Repeats(off, chunk))
    }

    /** END commits exactly a complete image with the announced digest and usable vectors. */
    twostate predicate Ends(p: seq<byte>, status: Status)
      requires |old(flash.cells)| == |flash.cells| == CELLS && |old(stagedHeader)| == |stagedHeader| == 48
      reads this, flash
    {
      && stagedHeader == old(stagedHeader)
      && (forall i :: 0 <= i < APP_MAX ==> flash.cells[i] == old(flash.cells[i]))
      && (status != Ok && status != FlashFailed ==> unchanged(flash))
      && if |p| != 1 then status == BadLength && unchanged(this)
         else if !old(Transferring()) then status == InvalidState && unchanged(this)
         else if old(expectedOffset) != old(ImageLength(stagedHeader)) then status == OutOfSequence && unchanged(this)
         else if dev.digest(old(stream)) != old(stagedHeader)[16..] then status == DigestFailed && updateState == Idle
         else if !VectorsValid(old(flash.cells), old(ImageLength(stagedHeader))) then status == VectorInvalid && updateState == Idle
         else
           && (old(flash.Healthy()) ==> status == Ok && flash.Healthy())
           && if status == Ok then
                && updateState == Committed
                && BootVersion(dev, flash.cells) == Floor(dev, flash.cells) == VersionOf(stagedHeader) == versionFloor == committedVersion
              else status == FlashFailed && updateState == Idle
    }

    /** What the device makes of a request: the flags first, then the opcode. */
    twostate predicate Handled(flags: byte, opcode: byte, p: seq<byte>, status: Status)
      requires |old(flash.cells)| == |flash.cells| == CELLS && |old(stagedHeader)| == |stagedHeader| == 48
      reads this, flash
    {
      if flags != (if opcode == 0x02 then 0 else 0x01) then status == BadFlags && unchanged(this) && unchanged(flash)
      else if opcode == 0x02 then Informs(p, status)
      else if opcode == 0x03 then Begins(p, status)
      else if opcode == 0x04 then Authorizes(p, status)
      else if opcode == 0x05 then Appends(p, status)
      else if opcode == 0x06 then Ends(p, status)
      else status == InvalidState && unchanged(this) && unchanged(flash)
    }

    constructor (dev: Device, flash: Flash)
      requires |flash.cells| == CELLS && Settled(dev, flash.cells)
      ensures Valid() && this.dev == dev && this.flash == flash && !running && updateState == Idle
    {
      this.dev, this.flash, running, updateState := dev, flash, false, Idle;
      stagedHeader, stagedTag := seq<byte>(48, _ => 0), seq<byte>(32, _ => 0);
      expectedOffset, previousValid, previousOffset, previousData, stream := 0, false, 0, [], [];
      versionFloor, committedVersion, highestFloorSlot, targetSlot := 0, 0, NO_SLOT, NO_SLOT;
    }

    method ScanMetadata()
      requires |flash.cells| == CELLS
      modifies this`versionFloor, this`committedVersion, this`highestFloorSlot
      ensures versionFloor == Floor(dev, flash.cells)
      ensures committedVersion == BootVersion(dev, flash.cells)
      ensures highestFloorSlot == NO_SLOT ==> versionFloor == 0
      ensures highestFloorSlot != NO_SLOT ==>
                IsSlot(highestFloorSlot) && Genuine(dev, flash.cells, highestFloorSlot)
                && SlotVersion(dev, flash.cells, highestFloorSlot) == versionFloor
      ensures versionFloor != 0 && SlotVersion(dev, flash.cells, META_B) == versionFloor ==> highestFloorSlot == META_B
    {
      var aa := Genuine(dev, flash.cells, META_A);
      var ab := Genuine(dev, flash.cells, META_B);
      var va := if aa then VersionOf(HeaderAt(flash.cells, META_A)) else 0;
      var vb := if ab then VersionOf(HeaderAt(flash.cells, META_B)) else 0;
      var bestBoot := 0;
      committedVersion, versionFloor, highestFloorSlot := 0, 0, NO_SLOT;
      if aa {
        versionFloor, highestFloorSlot := va, META_A;
      }
      if ab && vb >= versionFloor {
        versionFloor, highestFloorSlot := vb, META_B;
      }
      if aa && Runnable(dev, flash.cells, HeaderAt(flash.cells, META_A)) {
        bestBoot, committedVersion := va, va;
      }
      if ab && Runnable(dev, flash.cells, HeaderAt(flash.cells, META_B)) && vb >= bestBoot {
        bestBoot, committedVersion := vb, vb;
      }
    }

    method HandleBegin(p: seq<byte>) returns (status: Status)
      requires Valid()
      modifies this
      ensures Valid() && running == old(running)
      ensures Begins(p, status)
      ensures unchanged(flash) && (updateState == Committed <==> old(updateState) == Committed)
    {
      if |p| != 49 {
        return BadLength;
      }
      if updateState != Idle && updateState != Staged {
        return InvalidState;
      }
      stagedHeader := p[1..];
      previousValid, expectedOffset, targetSlot := false, 0, NO_SLOT;
      if !StructuralValid(stagedHeader) {
        updateState := Idle;
        return BadHeader;
      }
      updateState := Staged;
      return Ok;
    }

    method HandleAuthorize(p: seq<byte>) returns (status: Status)
      requires Valid()
      modifies this, flash
      ensures Valid() && running == old(running)
      ensures Authorizes(p, status) && Floor(dev, flash.cells) == old(Floor(dev, flash.cells))
      ensures (updateState == Committed <==> old(updateState) == Committed) && (old(updateState) == Committed ==> unchanged(flash))
    {
      hide Settled, Floor, SlotVersion, Genuine, BootVersion, InTransfer, StructuralValid;
      if |p| != 33 {
        return BadLength;
      }
      if updateState != Staged {
        return InvalidState;
      }
      stagedTag := p[1..];
      var expected := dev.mac(stagedHeader);
      if expected != stagedTag {
        return AuthFailed;
      }
      if !TargetValid(dev, stagedHeader) {
        return TargetMismatch;
      }
      ScanMetadata();
      var cand := VersionOf(stagedHeader);
      if committedVersion != 0 {
        if cand <= versionFloor {
          return VersionRejected;
        }
      } else {
        if cand < versionFloor {
          return VersionRejected;
        }
      }
      status := OpenTarget();
    }

    /** The last part of AUTHORIZE: erases the slot that does not carry the floor and starts the stream. */
    method OpenTarget() returns (status: Status)
      requires Valid() && updateState == Staged
      requires stagedTag == dev.mac(stagedHeader) && TargetValid(dev, stagedHeader)
      requires versionFloor == Floor(dev, flash.cells) <= VersionOf(stagedHeader)
      requires highestFloorSlot == NO_SLOT ==> Floor(dev, flash.cells) == 0
      requires highestFloorSlot != NO_SLOT ==>
                 IsSlot(highestFloorSlot) && SlotVersion(dev, flash.cells, highestFloorSlot) == Floor(dev, flash.cells)
      modifies this, flash
      ensures Valid() && running == old(running) && stagedHeader == old(stagedHeader)
      ensures SameOutside(flash.cells, old(flash.cells), META_A, CELLS)
      ensures Floor(dev, flash.cells) == old(Floor(dev, flash.cells))
      ensures status == Ok || status == FlashFailed
      ensures old(flash.Healthy()) ==> status == Ok && flash.Healthy()
      ensures status == FlashFailed ==> updateState == Idle
      ensures status == Ok ==> updateState == Authorized && !previousValid && stream == [] && expectedOffset == 0
      ensures stagedTag == old(stagedTag) && versionFloor == old(versionFloor)
    {
      hide Settled, Floor, SlotVersion, Genuine, BootVersion, TargetValid, StructuralValid;
      targetSlot := if highestFloorSlot == META_A then META_B else META_A;
      ghost var before := flash.cells;
      var erased := flash.ErasePage(targetSlot);
      TargetErased(before, flash.cells);
      if !erased {
        updateState := Idle;
        return FlashFailed;
      }
      stream, expectedOffset, previousValid := [], 0, false;
      updateState := Authorized;
      return Ok;
    }

    /** Erasing the slot that does not carry the floor leaves the floor alone, whether or not it happens. */
    lemma TargetErased(before: seq<byte>, after: seq<byte>)
      requires |before| == |after| == CELLS && Settled(dev, before)
      requires targetSlot == if highestFloorSlot == META_A then META_B else META_A
      requires highestFloorSlot == NO_SLOT ==> Floor(dev, before) == 0
      requires highestFloorSlot != NO_SLOT ==>
                 IsSlot(highestFloorSlot) && SlotVersion(dev, before, highestFloorSlot) == Floor(dev, before)
      requires SameOutside(after, before, targetSlot, targetSlot + PAGE)
      requires after == before || BlankFrom(after, targetSlot, targetSlot + PAGE)
      ensures Settled(dev, after) && Floor(dev, after) == Floor(dev, before)
    {
      if after != before {
        UnmarkedSlotKeepsFloor(dev, before, after, targetSlot);
      }
    }

    method HandleData(p: seq<byte>) returns (status: Status)
      requires Valid()
      modifies this, flash
      ensures Valid() && running == old(running)
      ensures Appends(p, status) && Floor(dev, flash.cells) == old(Floor(dev, flash.cells))
      ensures (updateState == Committed <==> old(updateState) == Committed) && (old(updateState) == Committed ==> unchanged(flash))
    {
      hide Settled, Floor, BootVersion, InTransfer;
      if |p| < 5 || |p| > 51 {
        return BadLength;
      }
      if updateState != Authorized && updateState != Receiving {
        return InvalidState;
      }
      TransferBounds();
      var off := FromLe16(p[1..3]);
      var chunk := p[3..];
      var len := |chunk|;
      var imageLen := ImageLength(stagedHeader);
      if off % 2 != 0 || len % 2 != 0 || len < 2 || len > 48 || off + len > imageLen {
        return BadLength;
      }
      if off % PAGE + len > PAGE {
        return BadLength;
      }
      if previousValid && off == previousOffset && len == |previousData| {
        var same := BytesEqual(chunk, previousData);
        if same {
          return Ok;
        }
      }
      if off != expectedOffset {
        return OutOfSequence;
      }
      status := AcceptChunk(chunk);
    }

    /** The last part of DATA: writes the next chunk and advances the stream past it. */
    method AcceptChunk(chunk: seq<byte>) returns (status: Status)
      requires Valid() && Transferring() && ChunkShape(expectedOffset, |chunk|, ImageLength(stagedHeader))
      modifies this, flash
      ensures Valid() && running == old(running) && stagedHeader == old(stagedHeader)
      ensures Floor(dev, flash.cells) == old(Floor(dev, flash.cells))
      ensures status == Ok || status == FlashFailed
      ensures old(flash.Healthy()) ==> status == Ok && flash.Healthy()
      ensures status == FlashFailed ==> updateState == Idle
      ensures status == Ok ==>
                && updateState == Receiving
                && expectedOffset == old(expectedOffset) + |chunk|
                && stream == old(stream) + chunk
                && Repeats(old(expectedOffset), chunk)
    {
      hide Settled, Floor, BootVersion, InTransfer;
      TransferBounds();
      var written := WriteChunk(chunk);
      if !written {
        updateState := Idle;
        return FlashFailed;
      }
      stream := stream + chunk;
      previousData, previousOffset, previousValid := chunk, expectedOffset, true;
      expectedOffset := (expectedOffset + |chunk|) % 0x1_0000;
      updateState := Receiving;
      return Ok;
    }

    lemma TransferBounds()
      requires InTransfer(dev, flash.cells, stagedHeader, stagedTag, targetSlot, expectedOffset, stream)
      ensures |stream| == expectedOffset && |stagedHeader| == 48 && Floor(dev, flash.cells) <= VersionOf(stagedHeader)
      ensures ImageLength(stagedHeader) <= APP_MAX && ImageLength(stagedHeader) % 4 == 0
    {
    }

    /** Erases the page a chunk opens, programs the chunk, and touches nothing else. */
    method WriteChunk(chunk: seq<byte>) returns (ok: bool)
      requires InTransfer(dev, flash.cells, stagedHeader, stagedTag, targetSlot, expectedOffset, stream)
      requires ChunkShape(expectedOffset, |chunk|, ImageLength(stagedHeader))
      modifies flash
      ensures |flash.cells| == CELLS
      ensures SameOutside(flash.cells, old(flash.cells), expectedOffset, PageEnd(expectedOffset))
      ensures Settled(dev, flash.cells) && Floor(dev, flash.cells) == old(Floor(dev, flash.cells))
      ensures old(flash.Healthy()) ==> ok && flash.Healthy()
      ensures ok ==> InTransfer(dev, flash.cells, stagedHeader, stagedTag, targetSlot, expectedOffset + |chunk|, stream + chunk)
    {
      hide Settled, Floor, SlotVersion, Genuine, TargetValid;
      var off := expectedOffset;
      ghost var before := flash.cells;
      UnmarkedSlotKeepsFloor(dev, before, before, targetSlot);
      ChunkStaysInPage(off, |chunk|, ImageLength(stagedHeader));
      hide PageEnd;
      if off % PAGE == 0 {
        ok := flash.ErasePage(off);
        if !ok {
          UnmarkedSlotKeepsFloor(dev, before, flash.cells, targetSlot);
          return;
        }
      }
      assert BlankFrom(flash.cells, off, PageEnd(off));
      ok := flash.ProgramBytes(off, chunk);
      UnmarkedSlotKeepsFloor(dev, before, flash.cells, targetSlot);
      // `handle_data` goes on to compare byte by byte, which repeats the readback of every halfword.
      if ok {
        ChunkExtendsTransfer(dev, before, flash.cells, stagedHeader, stagedTag, targetSlot, off, stream, chunk);
      }
    }

    method HandleEnd(p: seq<byte>) returns (status: Status)
      requires Valid()
      modifies this, flash
      ensures Valid() && running == old(running)
      ensures old(Floor(dev, flash.cells)) <= Floor(dev, flash.cells)
      ensures Ends(p, status)
      ensures status == Ok <==> updateState == Committed && old(updateState) != Committed
      ensures old(updateState) == Committed ==> updateState == Committed && unchanged(flash)
    {
      hide Settled, Floor, BootVersion, TargetValid;
      if |p| != 1 {
        return BadLength;
      }
      if updateState != Authorized && updateState != Receiving {
        return InvalidState;
      }
      var imageLen := ImageLength(stagedHeader);
      if expectedOffset != imageLen {
        return OutOfSequence;
      }
      updateState := Verifying;
      if dev.digest(stream) != stagedHeader[16..] {
        updateState := Idle;
        return DigestFailed;
      }
      if dev.digest(flash.cells[..imageLen]) != stagedHeader[16..] {
        assert false;  // what was streamed is what the flash holds
      }
      if !VectorsValid(flash.cells, imageLen) {
        updateState := Idle;
        return VectorInvalid;
      }
      if targetSlot != META_A && targetSlot != META_B {
        assert false;
      }
      status := Install();
    }

    /** The last part of END: the metadata, and what RAM knows about it. */
    method Install() returns (status: Status)
      requires InTransfer(dev, flash.cells, stagedHeader, stagedTag, targetSlot, expectedOffset, stream)
      requires Runnable(dev, flash.cells, stagedHeader) && versionFloor <= VersionOf(stagedHeader)
      modifies this`versionFloor, this`committedVersion, this`updateState, flash
      ensures |flash.cells| == CELLS && Settled(dev, flash.cells)
      ensures SameOutside(flash.cells, old(flash.cells), targetSlot, targetSlot + PAGE)
      ensures old(Floor(dev, flash.cells)) <= Floor(dev, flash.cells)
      ensures old(flash.Healthy()) ==> status == Ok && flash.Healthy()
      ensures if status == Ok then
                && updateState == Committed
                && BootVersion(dev, flash.cells) == Floor(dev, flash.cells) == VersionOf(stagedHeader) == versionFloor == committedVersion
              else status == FlashFailed && updateState == Idle
    {
      hide Settled, Floor, BootVersion, Runnable, TargetValid, SameOutside, StructuralValid;
      var written := WriteMetadata();
      if !written {
        updateState := Idle;
        return FlashFailed;
      }
      var cand := VersionOf(stagedHeader);
      if cand > versionFloor {
        versionFloor := cand;
      }
      committedVersion := cand;
      updateState := Committed;
      return Ok;
    }

    /** Header, tag and last the commit marker; a failure anywhere leaves flash settled. */
    method WriteMetadata() returns (ok: bool)
      requires InTransfer(dev, flash.cells, stagedHeader, stagedTag, targetSlot, expectedOffset, stream)
      requires Runnable(dev, flash.cells, stagedHeader)
      modifies flash
      ensures |flash.cells| == CELLS && SameOutside(flash.cells, old(flash.cells), targetSlot, targetSlot + PAGE)
      ensures Settled(dev, flash.cells)
      ensures old(Floor(dev, flash.cells)) <= Floor(dev, flash.cells)
      ensures old(flash.Healthy()) ==> ok && flash.Healthy()
      ensures ok ==> BootVersion(dev, flash.cells) == Floor(dev, flash.cells) == VersionOf(stagedHeader)
    {
      hide Settled, Floor, SlotVersion, BootVersion, Runnable, VectorsValid, Genuine, TargetValid;
      ok := WriteHeaderAndTag();
      if !ok {
        return;
      }
      ghost var second := flash.cells;
      RunnableFrame(dev, old(flash.cells), second, stagedHeader);
      ok := flash.ProgramHalfword(targetSlot + MARKER_AT, MARKER[0], MARKER[1]);
      CommitStep(dev, second, flash.cells, targetSlot, stagedHeader);
      if ok {
        MarkedIsGenuine(dev, second, flash.cells, targetSlot, stagedHeader);
      }
    }

    /** Everything but the marker; until the marker follows, the floor is the other slot's. */
    method WriteHeaderAndTag() returns (ok: bool)
      requires InTransfer(dev, flash.cells, stagedHeader, stagedTag, targetSlot, expectedOffset, stream)
      modifies flash
      ensures |flash.cells| == CELLS && SameOutside(flash.cells, old(flash.cells), targetSlot, targetSlot + MARKER_AT)
      ensures Settled(dev, flash.cells) && !Genuine(dev, flash.cells, targetSlot)
      ensures Floor(dev, flash.cells) == old(Floor(dev, flash.cells))
      ensures old(flash.Healthy()) ==> ok && flash.Healthy()
      ensures ok ==> HeaderAt(flash.cells, targetSlot) == stagedHeader
      ensures ok ==> flash.cells[targetSlot + 48..targetSlot + 80] == stagedTag
    {
      hide Settled, Floor, SlotVersion, Genuine, TargetValid, HeaderAt, StructuralValid;
      ghost var before := flash.cells;
      UnmarkedSlotKeepsFloor(dev, before, before, targetSlot);
      ok := flash.ProgramBytes(targetSlot, stagedHeader);
      ghost var first := flash.cells;
      UnmarkedSlotKeepsFloor(dev, before, first, targetSlot);
      if !ok {
        return;
      }
      HeaderWritten(first, targetSlot, stagedHeader);
      ok := flash.ProgramBytes(targetSlot + 48, stagedTag);
      HeaderBeforeTag(first, flash.cells, targetSlot);
      UnmarkedSlotKeepsFloor(dev, before, flash.cells, targetSlot);
    }

    /** One well-formed packet: INFO needs no flag, everything else the destructive one. */
    method Handle(flags: byte, opcode: byte, p: seq<byte>) returns (status: Status)
      requires Valid() && !running
      modifies this, flash
      ensures Valid() && !running
      ensures old(Floor(dev, flash.cells)) <= Floor(dev, flash.cells)
      ensures updateState == Committed && old(updateState) != Committed ==> status == Ok && opcode == OP_END
      ensures opcode == OP_END && status == Ok ==> updateState == Committed
      ensures old(updateState) == Committed ==>
                updateState == Committed && unchanged(flash) && !(opcode == OP_END && status == Ok)
                && Floor(dev, flash.cells) == old(Floor(dev, flash.cells))
      ensures Handled(flags, opcode, p, status)
    {
      hide Settled, Floor, BootVersion, InTransfer, StructuralValid, Updater.Begins, Updater.Authorizes, Updater.Appends, Updater.Ends;
      if opcode == OP_INFO {
        if flags != 0 || |p| != 1 {
          status := if flags != 0 then BadFlags else BadLength;
        } else {
          if Transferring() {
            TransferBounds();
          }
          ScanMetadata();
          status := Ok;
        }
      } else if flags != FLAG_DESTRUCTIVE {
        status := BadFlags;
      } else if opcode == OP_BEGIN {
        status := HandleBegin(p);
      } else if opcode == OP_AUTHORIZE {
        status := HandleAuthorize(p);
      } else if opcode == OP_DATA {
        status := HandleData(p);
      } else if opcode == OP_END {
        status := HandleEnd(p);
      } else {
        status := InvalidState;
      }
    }

    /** A reset: RAM is lost, the flash stays, and the metadata decides who runs. */
    method Boot(token: bool, fates: seq<Fate>)
      requires |flash.cells| == CELLS && Settled(dev, flash.cells)
      modifies this, flash`fates, flash`powered
      ensures Valid() && flash.powered && flash.fates == fates
      ensures running <==> !token && BootVersion(dev, flash.cells) != 0
      ensures running ==> committedVersion == BootVersion(dev, flash.cells) == Floor(dev, flash.cells)
      ensures updateState == Idle && versionFloor == Floor(dev, flash.cells)
    {
      hide Settled, Floor, BootVersion, InTransfer, StructuralValid;
      flash.powered, flash.fates := true, fates;
      stagedHeader, stagedTag, previousData, stream := seq<byte>(48, _ => 0), seq<byte>(32, _ => 0), [], [];
      targetSlot, previousOffset := NO_SLOT, 0;
      ScanMetadata();
      BootsTheFloorOrNothing(dev, flash.cells);
      running := !token && committedVersion != 0;
      updateState, expectedOffset, previousValid := Idle, 0, false;
    }
  }

  /** What the log of a life may look like: versions never go down, and an acknowledged install is what runs next. */
  ghost predicate NeverRollsBack(log: seq<Fact>) {
    && (forall i, j :: 0 <= i < j < |log| ==> log[i].version <= log[j].version)
    && (forall i :: 0 <= i < |log| - 1 && log[i].Installed? ==>
          log[i + 1] == HandedOff(log[i].version) || log[i + 1] == Recovery(log[i].version, true))
  }

  /** Who runs after a reset: the application, if nobody asked for an update and some slot boots. */
  function Decision(dev: Device, cells: seq<byte>, token: bool): Fact
    requires |cells| == CELLS
  {
    if !token && BootVersion(dev, cells) != 0 then HandedOff(BootVersion(dev, cells)) else Recovery(Floor(dev, cells), token)
  }

  /**
   A device's whole life from settled flash, such as blank metadata: any packets, any resets, any faults, power lost
   anywhere. The log holds each acknowledged END and each boot decision, with the event it belongs to; a boot into
   recovery is logged with the floor it found.
   */
  method Life(dev: Device, cells: seq<byte>, fates: seq<Fate>, events: seq<Event>) returns (log: seq<Fact>, at: seq<nat>)
    requires |cells| == CELLS && Settled(dev, cells)
    ensures NeverRollsBack(log) && |at| == |log|
    ensures forall k :: 0 <= k < |at| ==> at[k] < |events| && (log[k].Installed? <==> events[at[k]].Packet?)
    ensures forall i :: 0 <= i < |events| && events[i].Reset? ==> i in at
  {
    hide Settled, Floor, BootVersion, InTransfer, StructuralValid, NeverRollsBack;
    var flash := new Flash(cells, fates);
    var boot := new Updater(dev, flash);
    log, at := [], [];
    EmptyLog();
    for n := 0 to |events|
      invariant boot.Valid() && NeverRollsBack(log) && |at| == |log|
      invariant forall i :: 0 <= i < |log| ==> log[i].version <= Floor(boot.dev, boot.flash.cells)
      invariant log != [] && log[|log| - 1].Installed? ==> Installs(boot, log[|log| - 1].version)
      invariant forall k :: 0 <= k < |at| ==> at[k] < n && (log[k].Installed? <==> events[at[k]].Packet?)
      invariant forall i :: 0 <= i < n && events[i].Reset? ==> i in at
    {
      var fact := Experience(boot, events[n]);
      if fact.Some? {
        LogGrows(log, fact.value);
        log, at := log + [fact.value], at + [n];
      }
    }
  }

  /** The version was installed and is what the next tokenless boot runs. */
  ghost predicate Installs(boot: Updater, version: nat)
    reads boot, boot.flash
  {
    && |boot.flash.cells| == CELLS && boot.updateState == Committed
    && version == BootVersion(boot.dev, boot.flash.cells) == Floor(boot.dev, boot.flash.cells) != 0
  }

  lemma EmptyLog()
    ensures NeverRollsBack([])
  {
  }

  lemma LogGrows(log: seq<Fact>, fact: Fact)
    requires NeverRollsBack(log) && forall i :: 0 <= i < |log| ==> log[i].version <= fact.version
    requires log != [] && log[|log| - 1].Installed? ==>
               var version := log[|log| - 1].version; fact == HandedOff(version) || fact == Recovery(version, true)
    ensures NeverRollsBack(log + [fact])
  {
  }

  /** One event, and the fact it adds to the log, if any. */
  method Experience(boot: Updater, event: Event) returns (fact: Option<Fact>)
    requires boot.Valid()
    modifies boot, boot.flash
    ensures boot.Valid() && old(Floor(boot.dev, boot.flash.cells)) <= Floor(boot.dev, boot.flash.cells)
    ensures fact.Some? ==> old(Floor(boot.dev, boot.flash.cells)) <= fact.value.version <= Floor(boot.dev, boot.flash.cells)
    ensures fact.Some? && fact.value.Installed? ==> Installs(boot, fact.value.version)
    ensures event.Reset? ==> fact == Some(Decision(boot.dev, boot.flash.cells, event.token)) && boot.flash.cells == old(boot.flash.cells)
    ensures event.Packet? ==> (fact.Some? <==> boot.updateState == Committed && old(boot.updateState) != Committed)
    ensures event.Packet? && fact.Some? ==> fact.value.Installed? && event.opcode == 0x06 && event.flags == 0x01
    ensures forall version: nat :: old(Installs(boot, version)) ==>
              if fact.None? then Installs(boot, version) else fact.value == HandedOff(version) || fact.value == Recovery(version, true)
  {
    hide Settled, Floor, BootVersion, InTransfer, StructuralValid;
    fact := None;
    match event {
      case Packet(flags, opcode, payload) =>
        if boot.flash.powered && !boot.running {
          var status := boot.Handle(flags, opcode, payload);
          if opcode == OP_END && status == Ok {
            fact := Some(Installed(VersionOf(boot.stagedHeader)));
          }
        }
      case Reset(token, fates) =>
        boot.Boot(token, fates);
        fact := if boot.running then Some(HandedOff(boot.committedVersion)) else Some(Recovery(boot.versionFloor, token));
    }
  }
}
