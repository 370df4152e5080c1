/** The host's side of the configuration transfer: the requests it writes, and that a healthy device ends up with the layout. */
module ConfigHost {
  import opened Bytes
  import opened Crc
  import opened FlashMemory
  import opened ConfigRecord
  import opened ConfigStore
  import opened ConfigTransfer
  import Frames

  // ----- the requests -----

  function BeginPayload(id: u16, crc: u32): (p: seq<byte>)
    ensures |p| == 16
  {
    [1, 1] + Le16(1) + Le16(id) + Le16(8) + [1, 0] + Le32(crc) + [0, 0]
  }

  function WritePayload(id: u16, offset: u16, chunk: seq<byte>): (p: seq<byte>)
    requires |chunk| <= 32
    ensures |p| == 10 + |chunk|
  {
    [1, 2] + Le16(1) + Le16(id) + Le16(offset) + [|chunk|, 0] + chunk
  }

  function ShortPayload(opcode: byte, id: u16): (p: seq<byte>)
    ensures |p| == 6
  {
    [1, opcode] + Le16(1) + Le16(id)
  }

  function ReadPayload(generation: u32, offset: u16, length: byte): (p: seq<byte>)
    ensures |p| == 12
  {
    [1, 6] + Le16(1) + Le32(generation) + Le16(offset) + [length, 0]
  }

  lemma BeginFields(id: u16, crc: u32)
    ensures var p := BeginPayload(id, crc);
            && p[0] == p[1] == p[8] == 1 && p[9] == p[14] == p[15] == 0
            && ObjectOf(p) == 1 && IdOf(p) == id && OffsetOf(p) == 8 && CrcOf(p) == crc
  {
    hide Le16, Le32, FromLe16, FromLe32;
    var p := BeginPayload(id, crc);
    assert p[2..4] == Le16(1) && p[4..6] == Le16(id) && p[6..8] == Le16(8) && p[10..14] == Le32(crc);
    Le16Inverse(1, Le16(1));
    Le16Inverse(id, Le16(1));
    Le16Inverse(8, Le16(1));
    Le32Inverse(crc, Le32(crc));
  }

  lemma WriteFields(id: u16, offset: u16, chunk: seq<byte>)
    requires |chunk| <= 32
    ensures var p := WritePayload(id, offset, chunk);
            && p[0] == 1 && p[1] == 2 && p[8] as int == |chunk| && p[9] == 0 && p[10..] == chunk
            && ObjectOf(p) == 1 && IdOf(p) == id && OffsetOf(p) == offset
  {
    hide Le16, FromLe16;
    var p := WritePayload(id, offset, chunk);
    assert p[2..4] == Le16(1) && p[4..6] == Le16(id) && p[6..8] == Le16(offset);
    Le16Inverse(1, Le16(1));
    Le16Inverse(id, Le16(1));
    Le16Inverse(offset, Le16(1));
  }

  lemma ShortFields(opcode: byte, id: u16)
    ensures var p := ShortPayload(opcode, id); p[0] == 1 && p[1] == opcode && ObjectOf(p) == 1 && IdOf(p) == id
  {
    hide Le16, FromLe16;
    var p := ShortPayload(opcode, id);
    assert p[2..4] == Le16(1) && p[4..6] == Le16(id);
    Le16Inverse(1, Le16(1));
    Le16Inverse(id, Le16(1));
  }

  lemma ReadFields(generation: u32, offset: u16, length: byte)
    ensures var p := ReadPayload(generation, offset, length);
            && p[0] == 1 && p[1] == 6 && p[10] == length && p[11] == 0
            && ObjectOf(p) == 1 && FromLe32(p[4..8]) == generation && FromLe16(p[8..10]) == offset
  {
    hide Le16, Le32, FromLe16, FromLe32;
    var p := ReadPayload(generation, offset, length);
    assert p[2..4] == Le16(1) && p[4..8] == Le32(generation) && p[8..10] == Le16(offset);
    Le16Inverse(1, Le16(1));
    Le16Inverse(offset, Le16(1));
    Le32Inverse(generation, Le32(generation));
  }

  /** A request in its frame. */
  function Asked(requestId: u16, flags: byte, p: seq<byte>): Frames.Frame {
    Frames.Frame(1, 3, flags, 0, requestId, p)
  }

  // ----- writing the layout -----

  datatype Outcome = Written(generation: u32, changed: bool) | Refused(status: Status)

  method SendBegin(session: Session, id: u16, crc: u32, requestId: u16, now: u32) returns (status: Status)
    requires session.Coupled() && session.store.flash.Healthy() && !session.active && id != 0 && requestId != 0
    modifies session, session.store, session.store.flash
    ensures session.Coupled() && session.Opens(id, crc, status)
  {
    hide Backed, BootChoice, PayloadAt, SameOutside, Store.Sound, ObjectOf, IdOf, OffsetOf, CrcOf,
      Session.Writes, Session.Commits, Session.Aborts, Session.Tells, Session.Gives, BeginPayload;
    BeginFields(id, crc);
    var r := session.Handle(Asked(requestId, 1, BeginPayload(id, crc)), now);
    status := r.status;
  }

  /** The whole layout as one chunk: refused exactly where a worn-out store would have to leave its record. */
  method SendChunk(session: Session, id: u16, chunk: seq<byte>, requestId: u16, now: u32) returns (status: Status)
    requires session.Coupled() && session.active && session.transferId == id != 0 && session.nextOffset == 0 && requestId != 0
    requires |chunk| == 8 && session.store.Ready() && session.store.data == []
    modifies session, session.store, session.store.flash
    ensures session.Coupled() && session.active && session.transferId == id && session.store.active == old(session.store.active)
    ensures session.payloadCrc == old(session.payloadCrc) && session.store.flash.Healthy()
    ensures status == if old(session.store.compareActive && session.store.active.value.generation >= 10000 && !session.CommittedIs(chunk))
                      then Status.WearBudgetExhausted else Okay
    ensures status == Okay ==> session.nextOffset == 8 && session.store.data == chunk
    ensures status == Okay ==> session.store.compareActive == old(session.store.compareActive && session.CommittedIs(chunk))
    ensures status != Okay || session.store.compareActive ==> unchanged(session.store.flash)
    ensures status == Okay && !session.store.compareActive ==> session.store.active.None? || session.store.active.value.generation < 10000
  {
    hide Backed, BootChoice, PayloadAt, SameOutside, Store.Begun;
    session.store.FollowsActive();
    ghost var before := session.store.flash.cells;
    status := PutChunk(session, id, chunk, requestId, now);
    assert [] + chunk == chunk;
    if session.store.active.Some? {
      session.store.ActiveIsInSlot();
      session.store.ActiveSlotKept(before, session.store.flash.cells);
      WholeSlice(PayloadAt(before, session.store.active.value.slot));
    }
  }

  method PutChunk(session: Session, id: u16, chunk: seq<byte>, requestId: u16, now: u32) returns (status: Status)
    requires session.Coupled() && session.store.flash.powered && session.active && session.transferId == id != 0 && requestId != 0
    requires session.nextOffset == 0 && |chunk| == 8
    modifies session, session.store, session.store.flash
    ensures session.Coupled() && session.Appends(chunk, status)
  {
    hide Backed, BootChoice, PayloadAt, SameOutside, Store.Sound, ObjectOf, IdOf, OffsetOf, CrcOf, WritePayload;
    WriteFields(id, 0, chunk);
    var r := session.Handle(Asked(requestId, 1, WritePayload(id, 0, chunk)), now);
    status := r.status;
  }

  lemma WholeSlice(s: seq<byte>)
    ensures s[..|s|] == s
  {
  }

  /** The commit of a valid layout under its own CRC: granted, as the record that is active or as the next one. */
  method SendCommit(session: Session, layout: seq<byte>, id: u16, requestId: u16, now: u32) returns (status: Status)
    requires session.Coupled() && session.active && session.transferId == id != 0 && session.nextOffset == 8 && requestId != 0
    requires session.store.flash.Healthy() && session.store.data == layout && ConfigValid(layout) && session.payloadCrc == Crc32(layout)
    modifies session, session.store, session.store.flash
    ensures session.Coupled() && !session.active && session.store.flash.Healthy() && status == Okay
    ensures session.CommittedIs(layout) && session.store.active.value.crc == Crc32(layout)
    ensures if old(session.store.compareActive) then unchanged(session.store.flash) && session.store.active == old(session.store.active)
            else session.store.active == Some(Record(Target(old(session.store.active)), NextGeneration(old(session.store.active)), Crc32(layout)))
  {
    hide Backed, BootChoice, PayloadAt, SameOutside, Store.Begun, ObjectOf, IdOf, OffsetOf, CrcOf, Crc32, ConfigValid,
      Session.Begins, Session.Writes, Session.Aborts, Session.Tells, Session.Gives, Session.Granted, ShortPayload;
    ShortFields(3, id);
    var r := session.Handle(Asked(requestId, 1, ShortPayload(3, id)), now);
    status := r.status;
  }

  method SendAbort(session: Session, id: u16, requestId: u16, now: u32)
    requires session.Coupled() && session.store.flash.powered && session.active && session.transferId == id && requestId != 0
    modifies session, session.store, session.store.flash
    ensures session.Coupled() && !session.active && session.store.active == old(session.store.active) && unchanged(session.store.flash)
  {
    hide Backed, BootChoice, PayloadAt, SameOutside, Store.Sound, ObjectOf, IdOf, OffsetOf, CrcOf,
      Session.Begins, Session.Writes, Session.Commits, Session.Tells, Session.Gives, Session.Granted, ShortPayload;
    ShortFields(4, id);
    var r := session.Handle(Asked(requestId, 0, ShortPayload(4, id)), now);
  }

  /** STATUS and READ after a commit: what the host checks there always holds, and asking moves nothing. */
  method Confirm(session: Session, layout: seq<byte>, requestId: u16, now: u32) returns (generation: u32)
    requires session.Coupled() && session.store.flash.powered && !session.active && requestId != 0
    requires session.CommittedIs(layout) && |layout| == 8 && session.store.active.value.crc == Crc32(layout)
    modifies session, session.store, session.store.flash
    ensures session.Coupled() && session.Stutters() && generation == session.store.active.value.generation
  {
    hide Backed, BootChoice, PayloadAt, SameOutside, Store.Sound, ObjectOf, IdOf, OffsetOf, CrcOf, Crc32, FromLe32, FromLe16,
      Session.Begins, Session.Writes, Session.Commits, Session.Aborts, Session.Granted, ShortPayload, ReadPayload;
    ShortFields(5, 0);
    var status := session.Handle(Asked(requestId, 0, ShortPayload(5, 0)), now);
    generation := status.generation;
    ReadFields(generation, 0, 8);
    var read := session.Handle(Asked(requestId, 0, ReadPayload(generation, 0, 8)), now);
    assert read.data == layout;
    var crc := ComputeCrc32(read.data);
    if status.status != Okay || read.status != Okay || FromLe32(status.data[4..]) != crc || read.data != layout {
      assert false;  // the device reports and returns what it committed
    }
  }

  /**
   BEGIN, the one chunk, COMMIT, and status and readback to confirm, with an abort after a refusal. On a healthy device
   without a session the layout is afterwards the committed one: already, without a flash operation, or as the next
   generation. Only an exhausted wear budget refuses it, and then nothing moves.
   */
  method WriteLayout(session: Session, layout: seq<byte>, id: u16, requestId: u16, now: u32) returns (outcome: Outcome)
    requires session.Coupled() && session.store.flash.Healthy() && !session.active
    requires ConfigValid(layout) && id != 0 && requestId != 0
    modifies session, session.store, session.store.flash
    ensures session.Coupled() && !session.active
    ensures var store := session.store;
            if old(session.CommittedIs(layout)) then
              outcome == Written(old(store.active).value.generation, false) && unchanged(store.flash) && store.active == old(store.active)
            else if old(store.active.Some? && store.active.value.generation >= 10000) then
              outcome == Refused(Status.WearBudgetExhausted) && unchanged(store.flash) && store.active == old(store.active)
            else
              && outcome == Written(NextGeneration(old(store.active)), true)
              && store.active == Some(Record(Target(old(store.active)), NextGeneration(old(store.active)), Crc32(layout)))
              && session.CommittedIs(layout)
  {
    hide Crc32, PayloadAt, Backed, BootChoice, SameOutside, ConfigValid, Store.Begun;
    var store, before := session.store, session.Generation();
    if store.active.Some? {
      store.ActiveIsInSlot();
    }
    var crc := ComputeCrc32(layout);
    var status := SendBegin(session, id, crc, requestId, now);
    if status != Okay {
      return Refused(status);
    }
    outcome := Deliver(session, layout, id, requestId, now, before);
  }

  /** The chunk, the commit and the confirmation, in a session that was just opened. */
  method Deliver(session: Session, layout: seq<byte>, id: u16, requestId: u16, now: u32, before: u32) returns (outcome: Outcome)
    requires session.Coupled() && session.active && session.transferId == id != 0 && session.nextOffset == 0 && requestId != 0
    requires session.store.Ready() && session.store.data == []
    requires ConfigValid(layout) && session.payloadCrc == Crc32(layout)
    requires !session.store.compareActive ==> session.store.active.None? || session.store.active.value.generation < 10000
    modifies session, session.store, session.store.flash
    ensures session.Coupled() && !session.active
    ensures var store := session.store;
            if old(store.compareActive && session.CommittedIs(layout)) then
              && unchanged(store.flash) && store.active == old(store.active)
              && outcome == Written(store.active.value.generation, store.active.value.generation != before)
            else if old(store.compareActive && store.active.Some? && store.active.value.generation >= 10000) then
              outcome == Refused(Status.WearBudgetExhausted) && unchanged(store.flash) && store.active == old(store.active)
            else
              && session.CommittedIs(layout)
              && store.active == Some(Record(Target(old(store.active)), NextGeneration(old(store.active)), Crc32(layout)))
              && outcome == Written(store.active.value.generation, store.active.value.generation != before)
  {
    hide Crc32, PayloadAt, Backed, BootChoice, SameOutside, ConfigValid, Store.Begun;
    LayoutLength(layout);
    session.store.FollowsActive();
    var status := SendChunk(session, id, layout, requestId, now);
    if status != Okay {
      SendAbort(session, id, requestId, now);
      return Refused(status);
    }
    status := SendCommit(session, layout, id, requestId, now);
    if status != Okay {
      return Refused(status);
    }
    var generation := Confirm(session, layout, requestId, now);
    return Written(generation, generation != before);
  }

  lemma LayoutLength(layout: seq<byte>)
    requires ConfigValid(layout)
    ensures |layout| == 8
  {
  }
}
