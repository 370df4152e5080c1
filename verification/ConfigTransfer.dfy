/** The transfer protocol in front of the configuration store: one session, idempotent requests, an idle timeout. */
module ConfigTransfer {
  import opened Bytes
  import opened Crc
  import opened FlashMemory
  import opened ConfigRecord
  import opened ConfigStore
  import Frames

  const LENGTH: nat := 8
  const CHUNK_MAX: nat := 32
  const OBJECT_TYPE: u16 := 1
  const SCHEMA: byte := 1
  const REQUEST_TYPE: byte := 0x03
  const PROTOCOL: byte := 1
  const IDLE_TIMEOUT_MS: nat := 30000
  const BEGIN: byte := 1
  const WRITE_CHUNK: byte := 2
  const COMMIT: byte := 3
  const ABORT: byte := 4
  const STATUS: byte := 5
  const READ_CHUNK: byte := 6

  datatype Status =
    | Okay | Malformed | BadFlags | BadOpcode | BadObjectType | BadSchema | BadLength | BadTransferId | Busy | BadState
    | BadOffset | DataConflict | CrcMismatch | ValidationFailed | NotFound | GenerationMismatch | StorageError
    | WearBudgetExhausted | InternalError

  datatype SessionState = NoSession | ReceivingSession | CompleteUncommitted

  datatype Response = Response(opcode: byte, status: Status, session: SessionState, objectType: u16, transferId: u16,
                               generation: u32, total: nat, next: nat, data: seq<byte>)

  function Mapped(r: Result): Status {
    match r
    case Ok => Okay
    case Unchanged => Okay
    case CrcMismatch => Status.CrcMismatch
    case ValidationFailed => Status.ValidationFailed
    case StorageError => Status.StorageError
    case WearBudgetExhausted => Status.WearBudgetExhausted
    case BadState => Status.BadState
  }

  // The fields of a request, little-endian.

  function ObjectOf(p: seq<byte>): u16
    requires |p| >= 4
  {
    FromLe16(p[2..4])
  }

  function IdOf(p: seq<byte>): u16
    requires |p| >= 6
  {
    FromLe16(p[4..6])
  }

  function OffsetOf(p: seq<byte>): u16
    requires |p| >= 8
  {
    FromLe16(p[6..8])
  }

  function CrcOf(p: seq<byte>): u32
    requires |p| >= 14
  {
    FromLe32(p[10..14])
  }

  class Session {
    const store: Store
    var active: bool
    var transferId: u16
    var payloadCrc: u32
    var nextOffset: nat
    var lastChunk: seq<byte>
    var lastActivity: u32

    /** Session and candidate live and die together, at the same offset; a closed session with an id is a commit that can be repeated. */
    ghost predicate Coupled()
      reads this, store, store.flash
    {
      store.Sound() && InStep()
    }

    ghost predicate InStep()
      reads this, store
    {
      && active == store.candidateActive
      && (active ==> Receiving())
      && (!active && transferId != 0 ==> store.active.Some? && store.active.value.crc == payloadCrc)
    }

    ghost predicate Receiving()
      reads this, store
    {
      && nextOffset == store.acceptedBytes == |store.data| <= LENGTH && payloadCrc == store.payloadCrc && transferId != 0
      && |lastChunk| <= nextOffset && store.data[nextOffset - |lastChunk|..] == lastChunk
    }

    constructor (store: Store)
      requires store.Sound() && !store.candidateActive
      ensures this.store == store && Coupled() && !active
    {
      this.store := store;
      active, transferId, payloadCrc, nextOffset, lastChunk, lastActivity := false, 0, 0, 0, [], 0;
    }

    function State(): SessionState
      reads this
    {
      if !active then NoSession else if nextOffset == LENGTH then CompleteUncommitted else ReceivingSession
    }

    function Answer(opcode: byte, status: Status, transferId: u16, total: nat, next: nat): Response
      reads this, store
    {
      Response(opcode, status, State(), OBJECT_TYPE, transferId, Generation(), total, next, [])
    }

    function Generation(): u32
      reads store
    {
      if store.active.Some? then store.active.value.generation else 0
    }

    method ClearSession()
      requires store.Valid()
      modifies this`transferId, this`active, store`candidateActive
      ensures Coupled() && !active && transferId == 0 && !store.candidateActive
    {
      store.Abort();
      transferId, active := 0, false;
    }

    method Poll(now: u32)
      requires Coupled() && store.flash.powered
      modifies this, store
      ensures Coupled() && store.active == old(store.active)
      ensures if old(active) && (now - old(lastActivity)) % 0x1_0000_0000 >= IDLE_TIMEOUT_MS then !active && transferId == 0
              else unchanged(this) && unchanged(store)
    {
      if active && (now - lastActivity) % 0x1_0000_0000 >= IDLE_TIMEOUT_MS {
        ClearSession();
      }
    }

    // ----- redelivery -----

    /** In this state, the request has already been granted: its BEGIN, its chunk, its commit or its abort took effect. */
    ghost predicate Granted(f: Frames.Frame)
      reads this, store, store.flash
    {
      && Accepted(f)
      && var p := f.payload;
         if p[1] == BEGIN then
           BeginShape(p) && active && transferId == IdOf(p) && payloadCrc == CrcOf(p)
         else if p[1] == WRITE_CHUNK then
           && WriteShape(p) && active && transferId == IdOf(p)
           && OffsetOf(p) + |p[10..]| == nextOffset && p[10..] == lastChunk
         else if p[1] == COMMIT then
           && ObjectOf(p) == OBJECT_TYPE && !active && transferId == IdOf(p) != 0
           && store.active.Some? && store.active.value.crc == payloadCrc
         else if p[1] == ABORT then
           ObjectOf(p) == OBJECT_TYPE && !active
         else if p[1] == STATUS then
           ObjectOf(p) == OBJECT_TYPE && (IdOf(p) == 0 || (active && transferId == IdOf(p)))
         else
           ReadFits(p)
    }

    /** The answer to a granted request. */
    ghost function GrantedAnswer(f: Frames.Frame): Response
      requires Accepted(f)
      reads this, store, store.flash
    {
      var p := f.payload;
      if p[1] == BEGIN then Answer(BEGIN, Okay, IdOf(p), LENGTH, nextOffset)
      else if p[1] == WRITE_CHUNK then Answer(WRITE_CHUNK, Okay, IdOf(p), LENGTH, nextOffset)
      else if p[1] == COMMIT then Answer(COMMIT, Okay, IdOf(p), LENGTH, LENGTH)
      else if p[1] == ABORT then Answer(ABORT, Okay, IdOf(p), 0, 0)
      else if p[1] == STATUS then
        Answer(STATUS, Okay, IdOf(p), if active then LENGTH else 0, if active then nextOffset else 0).(data := CommittedSummary())
      else
        Answer(READ_CHUNK, Okay, 0, LENGTH, FromLe16(p[8..10]) + p[10]).(data := ReadData(p))
    }

    /** Length and CRC of the committed record, zero without one. */
    function CommittedSummary(): seq<byte>
      reads store
    {
      if store.active.Some? then Le16(LENGTH) + [0, 0] + Le32(store.active.value.crc) else [0, 0, 0, 0, 0, 0, 0, 0]
    }

    lemma SummaryFields()
      ensures var s := CommittedSummary();
              && |s| == 8 && s[2] == s[3] == 0
              && (store.active.None? ==> forall i :: 0 <= i < 8 ==> s[i] == 0)
              && (store.active.Some? ==> s[0] == 8 && s[1] == 0 && FromLe32(s[4..]) == store.active.value.crc)
    {
      hide FromLe32, Le32;
      if store.active.Some? {
        var crc := store.active.value.crc;
        assert CommittedSummary() == [8, 0, 0, 0] + Le32(crc);
        Le32Inverse(crc, Le32(crc));
      }
    }

    predicate ReadFits(p: seq<byte>)
      requires |p| == 12
      reads store
    {
      && p[11] == 0 && ObjectOf(p) == OBJECT_TYPE && store.active.Some? && store.active.value.generation == FromLe32(p[4..8])
      && p[10] != 0 && FromLe16(p[8..10]) + p[10] <= LENGTH
    }

    function ReadData(p: seq<byte>): seq<byte>
      requires |p| == 12
      reads store, store.flash
    {
      if |store.flash.cells| == CELLS && ReadFits(p) && IsSlot(store.active.value.slot) then
        PayloadAt(store.flash.cells, store.active.value.slot)[FromLe16(p[8..10])..FromLe16(p[8..10]) + p[10]]
      else []
    }

    /** Nothing but the time of the last activity moved. */
    twostate predicate Stutters()
      reads this, store, store.flash
    {
      && unchanged(store) && unchanged(store.flash)
      && active == old(active) && transferId == old(transferId) && payloadCrc == old(payloadCrc)
      && nextOffset == old(nextOffset) && lastChunk == old(lastChunk)
    }

    // ----- what each request comes to -----

    /** A fresh session starts at offset 0 with an empty candidate; it is refused only for wear or by the flash. */
    twostate predicate Opens(id: u16, crc: u32, status: Status)
      reads this, store, store.flash
    {
      && store.active == old(store.active)
      && (status == Okay || status == Status.WearBudgetExhausted || status == Status.StorageError) && (status == Okay <==> active)
      && (status == Okay ==>
            && store.flash.powered && transferId == id && payloadCrc == crc && nextOffset == 0 && lastChunk == [] && store.data == []
            && store.compareActive == (store.active.Some? && store.active.value.crc == crc))
      && (status == Okay && store.compareActive ==> unchanged(store.flash))
      && (status == Status.WearBudgetExhausted <==>
            old(store.active.Some? && store.active.value.generation >= 10000 && store.active.value.crc != crc))
      && (status == Status.WearBudgetExhausted ==> unchanged(store.flash))
      && (old(store.flash.Healthy()) ==> store.flash.Healthy() && status != Status.StorageError && (status == Okay ==> store.Ready()))
    }

    twostate predicate Begins(p: seq<byte>, status: Status)
      requires |p| == 16
      reads this, store, store.flash
    {
      if p[9] != 0 || p[14] != 0 || p[15] != 0 then status == Malformed && Stutters()
      else if ObjectOf(p) != 1 then status == BadObjectType && Stutters()
      else if p[8] != 1 then status == BadSchema && Stutters()
      else if OffsetOf(p) != 8 then status == BadLength && Stutters()
      else if IdOf(p) == 0 then status == BadTransferId && Stutters()
      else if old(active) then
        status == (if old(transferId == IdOf(p) && payloadCrc == CrcOf(p)) then Okay else Busy) && Stutters()
      else Opens(IdOf(p), CrcOf(p), status)
    }

    /** A fresh chunk extends the candidate; it is refused only for wear, where the bytes leave the active record, or by the flash. */
    twostate predicate Appends(chunk: seq<byte>, status: Status)
      requires |store.flash.cells| == CELLS
      reads this, store, store.flash
    {
      && store.TargetOnly() && transferId == (if active then old(transferId) else 0) && payloadCrc == old(payloadCrc)
      && (status == Okay || status == Status.StorageError || status == Status.WearBudgetExhausted)
      && (status == Status.StorageError ==> !active)
      && (status == Status.WearBudgetExhausted ==>
            && Stutters() && unchanged(this)
            && old(store.compareActive && store.active.Some? && store.active.value.generation >= 10000 && IsSlot(store.active.value.slot))
            && |store.data + chunk| <= 8
            && store.data + chunk != PayloadAt(store.flash.cells, store.active.value.slot)[..|store.data + chunk|])
      && (status == Okay ==>
            && store.flash.powered && active && lastChunk == chunk && nextOffset == old(nextOffset) + |chunk|
            && store.data == old(store.data) + chunk && |store.data| <= 8
            && (!store.compareActive ==> store.active.None? || store.active.value.generation < 10000)
            && (store.compareActive ==> old(store.compareActive) && unchanged(store.flash)))
      && (status == Okay && old(store.compareActive) ==>
            && store.active.Some? && IsSlot(store.active.value.slot)
            && (store.compareActive <==> store.data == PayloadAt(store.flash.cells, store.active.value.slot)[..|store.data|]))
      && (old(store.Ready()) ==> store.Ready() && status != Status.StorageError)
    }

    twostate predicate Writes(p: seq<byte>, status: Status)
      requires |p| >= 11 && |store.flash.cells| == CELLS
      reads this, store, store.flash
    {
      var length, offset, end := p[8] as int, OffsetOf(p) as int, OffsetOf(p) as int + p[8] as int;
      if p[9] != 0 || length == 0 || length > 32 || |p| != 10 + length then status == BadLength && Stutters()
      else if ObjectOf(p) != 1 then status == BadObjectType && Stutters()
      else if !old(active) || old(transferId) != IdOf(p) then status == BadTransferId && Stutters()
      else if offset < old(nextOffset) then
        && Stutters()
        && status == if end != old(nextOffset) || length != |old(lastChunk)| then BadOffset
                     else if p[10..] == old(lastChunk) then Okay else DataConflict
      else if offset > old(nextOffset) then status == BadOffset && Stutters()
      else if end > 8 then status == BadLength && Stutters()
      else Appends(p[10..], status)
    }

    /** A commit ends the session; it is refused only for the CRC, the content, or by the flash. */
    twostate predicate Closes(status: Status)
      reads this, store, store.flash
    {
      && !active && payloadCrc == old(payloadCrc)
      && (status == Okay || status == Status.CrcMismatch || status == Status.ValidationFailed || status == Status.StorageError)
      && (status != Okay ==> store.active == old(store.active))
      && (status == Okay ==> transferId == old(transferId) && CommittedIs(old(store.data)))
      && (old(store.compareActive) ==> status == Okay && unchanged(store.flash) && store.active == old(store.active))
      && (!old(store.compareActive) ==>
            && (status == Okay ==>
                  && Crc32(old(store.data)) == payloadCrc && ConfigValid(old(store.data)) && NextGeneration(old(store.active)) <= 10000
                  && store.active == Some(Record(Target(old(store.active)), NextGeneration(old(store.active)), payloadCrc)))
            && (status == Status.CrcMismatch ==> Crc32(old(store.data)) != payloadCrc)
            && (status == Status.ValidationFailed ==> Crc32(old(store.data)) == payloadCrc && !ConfigValid(old(store.data))))
      && (old(store.flash.Healthy()) ==> store.flash.Healthy() && status != Status.StorageError)
    }

    twostate predicate Commits(p: seq<byte>, status: Status)
      requires |p| == 6
      reads this, store, store.flash
    {
      if ObjectOf(p) != 1 then status == BadObjectType && Stutters()
      else if !old(active) then
        status == (if old(transferId) == IdOf(p) != 0 then Okay else BadTransferId) && Stutters()
      else if old(transferId) != IdOf(p) then status == BadTransferId && Stutters()
      else if old(nextOffset) != 8 then status == Status.BadState && Stutters()
      else Closes(status)
    }

    twostate predicate Aborts(p: seq<byte>, status: Status)
      requires |p| == 6
      reads this, store, store.flash
    {
      if ObjectOf(p) != 1 then status == BadObjectType && Stutters()
      else if !old(active) then status == Okay && Stutters()
      else if old(transferId) != IdOf(p) then status == BadTransferId && Stutters()
      else status == Okay && !active && transferId == 0 && store.active == old(store.active) && unchanged(store.flash)
    }

    /** What an accepted request comes to, by its opcode. */
    twostate predicate Handled(p: seq<byte>, now: u32, r: Response)
      requires |p| >= 2 && Proportioned(p) && |store.flash.cells| == CELLS
      reads this, store, store.flash
    {
      && r.opcode == p[1] && Refreshes(p, now, r.status)
      && r.session == (if !active then NoSession else if nextOffset == 8 then CompleteUncommitted else ReceivingSession)
      && r.generation == (if store.active.Some? then store.active.value.generation else 0)
      && (1 <= p[1] <= 4 ==> r.objectType == 1 && r.transferId == IdOf(p) && r.data == [])
      && if p[1] == 1 then Begins(p, r.status) && Counts(r, r.status == Okay, nextOffset)
         else if p[1] == 2 then Writes(p, r.status) && Counts(r, active, nextOffset)
         else if p[1] == 3 then Commits(p, r.status) && Counts(r, r.status == Okay, 8)
         else if p[1] == 4 then Aborts(p, r.status) && Counts(r, false, 0)
         else if p[1] == 5 then Tells(p, r) && Stutters()
         else if p[1] == 6 then Gives(p, r) && Stutters()
         else r.status == BadOpcode && Stutters()
    }

    /** BEGIN and WRITE_CHUNK keep the session alive when they are granted, STATUS when it names the session. */
    twostate predicate Refreshes(p: seq<byte>, now: u32, status: Status)
      requires |p| >= 2 && Proportioned(p)
      reads this
    {
      && (p[1] == 1 || p[1] == 2 ==> (status == Okay ==> lastActivity == now))
      && ((p[1] == 1 || p[1] == 2) && old(active) && status != Okay && status != Status.StorageError ==> lastActivity == old(lastActivity))
      && (p[1] == 5 ==> lastActivity == if status == Okay && IdOf(p) != 0 then now else old(lastActivity))
    }

    /** A response that tells how far a transfer of eight bytes is, or nothing. */
    predicate Counts(r: Response, tells: bool, next: nat) {
      r.total == (if tells then 8 else 0) && r.next == if tells then next else 0
    }

    /** STATUS: how far the session is, and length and CRC of the committed record. */
    predicate Tells(p: seq<byte>, r: Response)
      requires |p| == 6
      reads this, store
    {
      && r.status == (if ObjectOf(p) != 1 then BadObjectType
                      else if IdOf(p) != 0 && !(active && transferId == IdOf(p)) then BadTransferId else Okay)
      && r.objectType == ObjectOf(p) && r.transferId == IdOf(p) && Counts(r, r.status == Okay && active, nextOffset)
      && |r.data| == 8 && r.data[2] == r.data[3] == 0
      && (store.active.None? ==> forall i :: 0 <= i < 8 ==> r.data[i] == 0)
      && (store.active.Some? ==> r.data[0] == 8 && r.data[1] == 0 && FromLe32(r.data[4..]) == store.active.value.crc)
    }

    /** READ: the bytes asked for, of the generation asked for. */
    predicate Gives(p: seq<byte>, r: Response)
      requires |p| == 12 && |store.flash.cells| == CELLS
      reads this, store, store.flash
    {
      var offset, length := FromLe16(p[8..10]) as int, p[10] as int;
      && r.status == (if p[11] != 0 then Malformed
                      else if ObjectOf(p) != 1 then BadObjectType
                      else if store.active.None? then NotFound
                      else if store.active.value.generation != FromLe32(p[4..8]) then GenerationMismatch
                      else if length == 0 || offset + length > 8 then BadLength else Okay)
      && r.objectType == ObjectOf(p) && r.transferId == 0 && r.total == (if r.status == Okay then 8 else 0)
      && (r.status != Okay ==> r.data == [] && r.next == offset)
      && (r.status == Okay ==>
            && IsSlot(store.active.value.slot) && r.next == offset + length && |r.data| == length
            && forall i :: 0 <= i < length ==> r.data[i] == PayloadAt(store.flash.cells, store.active.value.slot)[offset + i])
    }

    // ----- requests -----

    method HandleBegin(p: seq<byte>, now: u32) returns (r: Response)
      requires Coupled() && store.flash.powered && |p| == 16
      modifies this, store, store.flash
      ensures Coupled() && r.opcode == BEGIN
      ensures r.status == Okay ==>
                store.flash.powered && active && transferId == IdOf(p) && payloadCrc == CrcOf(p) && BeginShape(p)
                && r == Answer(BEGIN, Okay, IdOf(p), LENGTH, nextOffset) && (!old(active) ==> nextOffset == 0)
      ensures BeginShape(p) && old(active) && old(transferId) == IdOf(p) && old(payloadCrc) == CrcOf(p) ==> r.status == Okay
      ensures old(active) || !BeginShape(p) ==> Stutters()
      ensures Begins(p, r.status) && store.active == old(store.active)
      ensures r.status == Okay ==> lastActivity == now
      ensures old(active) && r.status != Okay ==> lastActivity == old(lastActivity)
      ensures r == Answer(BEGIN, r.status, IdOf(p), if r.status == Okay then LENGTH else 0, if r.status == Okay then nextOffset else 0)
    {
      hide ObjectOf, IdOf, OffsetOf, CrcOf, FromLe16, FromLe32, Backed, BootChoice, PayloadAt, SameOutside, Store.Begun;
      var objectType, id, total := ObjectOf(p), IdOf(p), OffsetOf(p);
      var crc := CrcOf(p);
      var status := Okay;
      if p[9] != 0 || p[14] != 0 || p[15] != 0 {
        status := Malformed;
      } else if objectType != OBJECT_TYPE {
        status := BadObjectType;
      } else if p[8] != SCHEMA {
        status := BadSchema;
      } else if total != LENGTH {
        status := BadLength;
      } else if id == 0 {
        status := BadTransferId;
      } else if active {
        if transferId != id || payloadCrc != crc {
          status := Busy;
        } else {
          lastActivity := now;
        }
      } else {
        status := Open(id, crc, now);
      }
      r := Answer(BEGIN, status, id, if status == Okay then LENGTH else 0, if status == Okay then nextOffset else 0);
    }

    /** The session's own fields, before the store is asked. */
    method Enter(id: u16, crc: u32, now: u32)
      modifies this
      ensures transferId == id && nextOffset == 0 && payloadCrc == crc && lastChunk == [] && lastActivity == now && active
    {
      transferId, nextOffset, payloadCrc, lastChunk, lastActivity, active := id, 0, crc, [], now, true;
    }

    method Open(id: u16, crc: u32, now: u32) returns (status: Status)
      requires Coupled() && store.flash.powered && !active && id != 0
      modifies this, store, store.flash
      ensures Coupled() && Opens(id, crc, status) && (status == Okay ==> lastActivity == now)
    {
      hide Backed, BootChoice, PayloadAt, SameOutside, Store.Begun, Store.Valid, Store.Ready, Marked, Target;
      Enter(id, crc, now);
      var result := store.Begin(crc);
      status := Mapped(result);
      if status != Okay {
        ClearSession();
      }
    }

    method HandleWrite(p: seq<byte>, now: u32) returns (r: Response)
      requires Coupled() && store.flash.powered && |p| >= 11
      modifies this, store, store.flash
      ensures Coupled() && r.opcode == WRITE_CHUNK && store.active == old(store.active)
      ensures Writes(p, r.status)
      ensures r.status == Okay ==> lastActivity == now
      ensures r.status != Okay && r.status != Status.StorageError ==> lastActivity == old(lastActivity)
      ensures r == Answer(WRITE_CHUNK, r.status, IdOf(p), if active then LENGTH else 0, if active then nextOffset else 0)
      ensures r.status == Okay ==>
                store.flash.powered && active && transferId == IdOf(p) && WriteShape(p) && p[10..] == lastChunk
                && OffsetOf(p) + |p[10..]| == nextOffset && r == Answer(WRITE_CHUNK, Okay, IdOf(p), LENGTH, nextOffset)
      ensures r.status == Okay ==> Stutters() || (OffsetOf(p) == old(nextOffset) && store.data == old(store.data) + p[10..])
      ensures WriteShape(p) && old(active && transferId == IdOf(p) && OffsetOf(p) + |p[10..]| == nextOffset && p[10..] == lastChunk) ==>
                r.status == Okay && Stutters()
      ensures r.status != Okay && r.status != Status.StorageError ==> Stutters()
      ensures r.status == Status.StorageError ==> !active
    {
      hide ObjectOf, IdOf, OffsetOf, CrcOf, FromLe16, Backed, BootChoice, PayloadAt, SameOutside, Store.Begun;
      var objectType, id, offset, length := ObjectOf(p), IdOf(p), OffsetOf(p), p[8];
      var chunk := p[10..];
      var status := Okay;
      if p[9] != 0 || length == 0 || length as int > CHUNK_MAX || |p| != 10 + length as int {
        status := BadLength;
      } else if objectType != OBJECT_TYPE {
        status := BadObjectType;
      } else if !active || transferId != id {
        status := BadTransferId;
      } else if offset as int < nextOffset {
        if offset as int + length as int == nextOffset && length as int == |lastChunk| {
          if lastChunk == chunk {
            lastActivity := now;
          } else {
            status := DataConflict;
          }
        } else {
          status := BadOffset;
        }
      } else if offset as int != nextOffset {
        status := BadOffset;
      } else if offset as int + length as int > LENGTH {
        status := BadLength;
      } else {
        status := Append(chunk, now);
      }
      r := Answer(WRITE_CHUNK, status, id, if active then LENGTH else 0, if active then nextOffset else 0);
    }

    /** A fresh chunk goes to the store and is remembered. */
    method Append(chunk: seq<byte>, now: u32) returns (status: Status)
      requires Coupled() && store.flash.powered && active && nextOffset + |chunk| <= LENGTH
      modifies this, store, store.flash
      ensures Coupled() && Appends(chunk, status) && store.active == old(store.active)
      ensures lastActivity == if status == Okay then now else old(lastActivity)
    {
      hide Backed, BootChoice, PayloadAt, SameOutside, Store.Begun;
      store.FollowsActive();
      var result := store.Write(chunk);
      status := Mapped(result);
      if status == Okay {
        lastChunk, nextOffset, lastActivity := chunk, nextOffset + |chunk|, now;
      } else if status == Status.StorageError || status == InternalError {
        ClearSession();
      }
    }

    method HandleCommit(p: seq<byte>) returns (r: Response)
      requires Coupled() && store.flash.powered && |p| == 6
      modifies this, store, store.flash
      ensures Coupled() && Commits(p, r.status)
      ensures r == Answer(COMMIT, r.status, IdOf(p), if r.status == Okay then LENGTH else 0, if r.status == Okay then LENGTH else 0)
      ensures r.status == Okay ==>
                && store.flash.powered && ObjectOf(p) == OBJECT_TYPE && !active && transferId == IdOf(p) != 0
                && store.active.Some? && store.active.value.crc == payloadCrc == old(payloadCrc)
                && r == Answer(COMMIT, Okay, IdOf(p), LENGTH, LENGTH)
      ensures r.status == Okay && old(active) ==> old(nextOffset) == LENGTH && CommittedIs(old(store.data))
      ensures !old(active) ==> Stutters()
      ensures ObjectOf(p) == OBJECT_TYPE && old(!active && transferId == IdOf(p) != 0) ==> r.status == Okay
      ensures old(active) && old(ObjectOf(p) != OBJECT_TYPE || transferId != IdOf(p) || nextOffset != LENGTH) ==>
                r.status != Okay && Stutters()
    {
      hide ObjectOf, IdOf, OffsetOf, CrcOf, FromLe16, Backed, BootChoice, SameOutside, Crc32;
      var objectType, id := ObjectOf(p), IdOf(p);
      var status := Okay;
      if objectType != OBJECT_TYPE {
        status := BadObjectType;
      } else if !active {
        if !(store.active.Some? && transferId == id && transferId != 0 && store.active.value.crc == payloadCrc) {
          status := BadTransferId;
        }
      } else if transferId != id {
        status := BadTransferId;
      } else if nextOffset != LENGTH {
        status := Status.BadState;
      } else {
        status := Finish();
      }
      r := Answer(COMMIT, status, id, if status == Okay then LENGTH else 0, if status == Okay then LENGTH else 0);
    }

    /** The committed record holds exactly these bytes. */
    ghost predicate CommittedIs(data: seq<byte>)
      reads store, store.flash
    {
      && |store.flash.cells| == CELLS && store.active.Some? && IsSlot(store.active.value.slot)
      && PayloadAt(store.flash.cells, store.active.value.slot) == data
    }

    method Finish() returns (status: Status)
      requires Coupled() && store.flash.powered && active && nextOffset == LENGTH
      modifies this, store, store.flash
      ensures Coupled() && Closes(status)
      ensures status == Okay ==> store.flash.powered && store.active.Some? && store.active.value.crc == payloadCrc
    {
      hide Backed, BootChoice, SameOutside, Crc32, ConfigValid;
      store.WholePayload();
      var result := store.Commit();
      status := Mapped(result);
      if status == Okay {
        active := false;
      } else {
        ClearSession();
      }
    }

    method HandleAbort(p: seq<byte>) returns (r: Response)
      requires Coupled() && store.flash.powered && |p| == 6
      modifies this, store
      ensures Coupled() && store.active == old(store.active)
      ensures r.status == Okay <==> ObjectOf(p) == OBJECT_TYPE && (!old(active) || old(transferId) == IdOf(p))
      ensures r.status == Okay ==> !active && r == Answer(ABORT, Okay, IdOf(p), 0, 0)
      ensures !old(active) || r.status != Okay ==> Stutters()
      ensures Aborts(p, r.status) && r == Answer(ABORT, r.status, IdOf(p), 0, 0)
    {
      hide ObjectOf, IdOf, OffsetOf, CrcOf, FromLe16;
      var objectType, id := ObjectOf(p), IdOf(p);
      var status := Okay;
      if objectType != OBJECT_TYPE {
        status := BadObjectType;
      } else if active && transferId != id {
        status := BadTransferId;
      } else if active {
        ClearSession();
      }
      r := Answer(ABORT, status, id, 0, 0);
    }

    method HandleStatus(p: seq<byte>, now: u32) returns (r: Response)
      requires Coupled() && store.flash.powered && |p| == 6
      modifies this`lastActivity
      ensures Coupled() && r.opcode == STATUS && r.data == CommittedSummary()
      ensures Tells(p, r) && r.session == State() && r.generation == Generation()
      ensures lastActivity == if r.status == Okay && IdOf(p) != 0 then now else old(lastActivity)
      ensures r.status == Okay <==> ObjectOf(p) == OBJECT_TYPE && (IdOf(p) == 0 || (active && transferId == IdOf(p)))
      ensures r.status == Okay ==>
                r == Answer(STATUS, Okay, IdOf(p), if active then LENGTH else 0, if active then nextOffset else 0).(data := CommittedSummary())
    {
      hide ObjectOf, IdOf, OffsetOf, CrcOf, FromLe16, FromLe32, Session.CommittedSummary, Store.Sound;
      SummaryFields();
      var objectType, id := ObjectOf(p), IdOf(p);
      var status, total, next := Okay, 0, 0;
      if objectType != OBJECT_TYPE {
        status := BadObjectType;
      } else if id == 0 {
        if active {
          total, next := LENGTH, nextOffset;
        }
      } else if !active || transferId != id {
        status := BadTransferId;
      } else {
        total, next := LENGTH, nextOffset;
        lastActivity := now;
      }
      r := Response(STATUS, status, State(), objectType, id, Generation(), total, next, CommittedSummary());
    }

    method HandleRead(p: seq<byte>) returns (r: Response)
      requires Coupled() && store.flash.powered && |p| == 12
      ensures r.opcode == READ_CHUNK && r.data == ReadData(p)
      ensures Gives(p, r) && r.session == State() && r.generation == Generation()
      ensures r.status == Okay <==> ReadFits(p)
      ensures r.status == Okay ==> r == Answer(READ_CHUNK, Okay, 0, LENGTH, FromLe16(p[8..10]) + p[10]).(data := ReadData(p))
    {
      hide ObjectOf, IdOf, OffsetOf, CrcOf, FromLe16, FromLe32, Backed, BootChoice;
      var objectType, expected, offset, length := ObjectOf(p), FromLe32(p[4..8]), FromLe16(p[8..10]), p[10];
      var status, data, total, next: nat := Okay, [], 0, offset;
      if p[11] != 0 {
        status := Malformed;
      } else if objectType != OBJECT_TYPE {
        status := BadObjectType;
      } else if store.active.None? {
        status := NotFound;
      } else if store.active.value.generation != expected {
        status := GenerationMismatch;
      } else if length == 0 || offset as int + length as int > LENGTH {
        status := BadLength;
      } else {
        store.ActiveIsInSlot();
        data := PayloadAt(store.flash.cells, store.active.value.slot)[offset..offset as int + length as int];
        total, next := LENGTH, offset as int + length as int;
      }
      r := Response(READ_CHUNK, status, State(), objectType, 0, Generation(), total, next, data);
    }

    /** One frame, as `asset_transfer_handle_frame` dispatches it. */
    method Handle(f: Frames.Frame, now: u32) returns (r: Response)
      requires Coupled() && store.flash.powered
      modifies this, store, store.flash
      ensures Coupled()
      ensures r.status == Okay ==> store.flash.powered && Granted(f) && r == GrantedAnswer(f)
      ensures old(Granted(f)) ==> r.status == Okay && Stutters()
      ensures !Accepted(f) ==>
                && Stutters() && r == Answer(if |f.payload| >= 2 then f.payload[1] else 0, r.status, 0, 0, 0)
                && r.status == if f.version != 1 || f.reserved != 0 || f.requestId == 0 || f.frameType != 3 || |f.payload| < 2 || f.payload[0] != 1
                               then Malformed else if !(1 <= f.payload[1] <= 6) then BadOpcode
                               else if f.flags != (if f.payload[1] <= 3 then 1 else 0) then BadFlags else Malformed
      ensures Accepted(f) ==> Handled(f.payload, now, r)
    {
      hide ObjectOf, IdOf, OffsetOf, CrcOf, FromLe16, FromLe32, Backed, BootChoice, SameOutside, PayloadAt, Store.Sound, Session.InStep,
        Session.Begins, Session.Writes, Session.Commits, Session.Aborts, Session.Tells, Session.Gives;
      var p := f.payload;
      var opcode := if |p| >= 2 then p[1] else 0;
      if f.version != Frames.VERSION || f.reserved != 0 || f.requestId == 0 || f.frameType != REQUEST_TYPE || |p| < 2 || p[0] != PROTOCOL {
        return Answer(opcode, Malformed, 0, 0, 0);
      }
      if BEGIN <= opcode <= READ_CHUNK {
        if f.flags != RequiredFlags(opcode) {
          return Answer(opcode, BadFlags, 0, 0, 0);
        }
        if opcode == WRITE_CHUNK {
          if |p| < 11 {
            return Answer(opcode, Malformed, 0, 0, 0);
          }
        } else if |p| != PayloadLength(opcode) {
          return Answer(opcode, Malformed, 0, 0, 0);
        }
      }
      if opcode == BEGIN {
        r := HandleBegin(p, now);
      } else if opcode == WRITE_CHUNK {
        r := HandleWrite(p, now);
      } else if opcode == COMMIT {
        r := HandleCommit(p);
      } else if opcode == ABORT {
        r := HandleAbort(p);
      } else if opcode == STATUS {
        r := HandleStatus(p, now);
      } else if opcode == READ_CHUNK {
        r := HandleRead(p);
      } else {
        r := Answer(opcode, BadOpcode, 0, 0, 0);
      }
    }

    /** Delivering a frame twice in a row: whatever was answered OK is answered the same again and nothing moves. */
    method HandleTwice(f: Frames.Frame, now: u32, later: u32) returns (first: Response, second: Response, moved: bool)
      requires Coupled() && store.flash.powered
      modifies this, store, store.flash
      ensures Coupled()
      ensures first.status == Okay ==> second == first && !moved
    {
      hide ObjectOf, IdOf, OffsetOf, CrcOf, FromLe16, FromLe32, Le16, Le32, Backed, BootChoice, SameOutside, PayloadAt, Store.Sound,
        Granted, Session.Receiving;
      first := Handle(f, now);
      second, moved := first, false;
      if store.flash.powered {
        var cells, attempts, record, next := store.flash.cells, store.flash.attempts, store.active, nextOffset;
        second := Handle(f, later);
        moved := cells != store.flash.cells || attempts != store.flash.attempts || record != store.active || next != nextOffset;
      }
    }
  }

  // ----- every sequence of frames, timeouts and resets -----

  datatype Event = Deliver(frame: Frames.Frame, now: u32) | Tick(now: u32) | Reset(fates: seq<Fate>)

  datatype Snapshot = Snapshot(session: bool, candidate: bool, next: nat, accepted: nat)

  /** From erased flash, with any faults: after each event session and candidate are in step. */
  method Serve(cells: seq<byte>, fates: seq<Fate>, events: seq<Event>) returns (trace: seq<Snapshot>)
    requires |cells| == CELLS && BlankFrom(cells, 0, CELLS)
    ensures |trace| == |events|
    ensures forall s :: s in trace ==> s.session == s.candidate && (s.session ==> s.next == s.accepted <= LENGTH)
  {
    hide Backed, BootChoice, PayloadAt, Store.Begun;
    var flash := new Flash(cells, fates);
    BlankSlotsBootNothing(cells);
    var store := new Store(flash);
    var session := new Session(store);
    trace := [];
    for n := 0 to |events|
      invariant session.Coupled() && session.store == store && store.flash == flash && |trace| == n
      invariant forall s :: s in trace ==> s.session == s.candidate && (s.session ==> s.next == s.accepted <= LENGTH)
    {
      React(session, events[n]);
      trace := trace + [Snapshot(session.active, store.candidateActive, session.nextOffset, store.acceptedBytes)];
    }
  }

  method React(session: Session, event: Event)
    requires session.Coupled()
    modifies session, session.store, session.store.flash
    ensures session.Coupled()
  {
    hide Backed, BootChoice, PayloadAt, Store.Begun;
    var store := session.store;
    if event.Reset? {
      store.flash.powered, store.flash.fates := true, event.fates;
      store.candidateActive := false;
      ChoiceOfBacked(store.flash.cells, store.active);
      store.SelectBootRecord();
      ChoiceIsBacked(store.flash.cells);
      session.ClearSession();
    } else if store.flash.powered {
      match event {
        case Deliver(frame, now) =>
          var r := session.Handle(frame, now);
        case Tick(now) =>
          session.Poll(now);
      }
    }
  }

  /** A BEGIN for the one object type there is. */
  predicate BeginShape(p: seq<byte>)
    requires |p| == 16
  {
    && p[9] == 0 && p[14] == 0 && p[15] == 0 && ObjectOf(p) == OBJECT_TYPE
    && p[8] == SCHEMA && OffsetOf(p) == LENGTH && IdOf(p) != 0
  }

  /** A chunk whose length byte tells the truth. */
  predicate WriteShape(p: seq<byte>)
    requires |p| >= 11
  {
    p[9] == 0 && 1 <= p[8] as int <= CHUNK_MAX && |p| == 10 + p[8] as int && ObjectOf(p) == OBJECT_TYPE
  }

  function RequiredFlags(opcode: byte): byte {
    if opcode <= COMMIT then 1 else 0
  }

  function PayloadLength(opcode: byte): nat {
    if opcode == BEGIN then 16 else if opcode == READ_CHUNK then 12 else 6
  }

  /** Long enough for its opcode's handler. */
  predicate Proportioned(p: seq<byte>)
    requires |p| >= 2
  {
    && (p[1] == 1 ==> |p| == 16) && (p[1] == 2 ==> |p| >= 11) && (p[1] == 6 ==> |p| == 12)
    && (p[1] == 3 || p[1] == 4 || p[1] == 5 ==> |p| == 6)
  }

  /** A request that reaches its handler. */
  predicate Accepted(f: Frames.Frame) {
    && f.version == Frames.VERSION && f.reserved == 0 && f.requestId != 0 && f.frameType == REQUEST_TYPE
    && |f.payload| >= 2 && f.payload[0] == PROTOCOL && BEGIN <= f.payload[1] <= READ_CHUNK
    && f.flags == RequiredFlags(f.payload[1])
    && if f.payload[1] == WRITE_CHUNK then |f.payload| >= 11 else |f.payload| == PayloadLength(f.payload[1])
  }
}
