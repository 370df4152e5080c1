/** The configuration store: begin, write in any pieces, commit or abort one candidate at a time, over two flash slots. */
module ConfigStore {
  import opened Bytes
  import opened FlashMemory
  import opened Crc
  import opened ConfigRecord

  class Store {
    const flash: Flash
    var active: Option<Record>
    var shown: seq<byte>  // the payload last activated in the user interface
    var candidateActive: bool
    var compareActive: bool
    var slotAddress: nat
    var generation: u32
    var payloadCrc: u32
    var acceptedBytes: nat
    var pendingValid: bool
    var pendingByte: byte
    ghost var data: seq<byte>  // the candidate's bytes accepted so far
    ghost var begunAt: nat  // flash operations at BEGIN

    /** The flash backs the record in RAM: a boot would select it, or the one the flash is ahead with. */
    ghost predicate Valid()
      reads this, flash
    {
      |flash.cells| == CELLS && Backed(flash.cells, active)
    }

    /**
     What an open candidate means: either every byte so far equals the active record and no flash operation took
     place, or the target slot holds exactly the bytes so far, the last odd one pending.
     */
    ghost predicate Begun()
      requires |flash.cells| == CELLS
      reads this, flash
    {
      && |data| == acceptedBytes <= PAYLOAD_BYTES
      && if compareActive then Comparing() else Writing()
    }

    ghost predicate Comparing()
      requires |flash.cells| == CELLS && |data| <= PAYLOAD_BYTES
      reads this, flash
    {
      && active.Some? && IsSlot(active.value.slot) && active.value.crc == payloadCrc
      && data == PayloadAt(flash.cells, active.value.slot)[..|data|]
      && flash.attempts == begunAt
    }

    ghost predicate Writing()
      requires |flash.cells| == CELLS && |data| <= PAYLOAD_BYTES
      reads this, flash
    {
      && slotAddress == Target(active) && generation == NextGeneration(active) <= GENERATION_MAX
      && Candidate(flash.cells, slotAddress, generation, payloadCrc, data)
      && pendingValid == (|data| % 2 == 1) && (pendingValid ==> pendingByte == data[|data| - 1])
    }

    ghost predicate Sound()
      reads this, flash
    {
      Valid() && (candidateActive ==> Begun())
    }

    /** Nothing will go wrong, and nothing went wrong with the halfword that comes next. */
    ghost predicate Ready()
      reads this, flash
    {
      flash.Healthy() && |flash.cells| == CELLS
      && (!compareActive ==> IsSlot(slotAddress) && |data| <= PAYLOAD_BYTES && NextIsBlank(flash.cells, slotAddress, data))
    }

    /**
     What every operation but a commit does at most: write the target slot, and then leave it without the marker, so that
     a boot selects the record in RAM.
     */
    twostate predicate TargetOnly()
      requires |flash.cells| == CELLS
      reads this, flash
    {
      && active == old(active) && SameOutside(flash.cells, old(flash.cells), Target(active), Target(active) + PAGE)
      && (flash.cells == old(flash.cells) || !Marked(flash.cells, Target(active)))
    }

    constructor (flash: Flash)
      requires |flash.cells| == CELLS && Ordered(flash.cells)
      ensures this.flash == flash && Sound() && !candidateActive && active == BootChoice(flash.cells)
    {
      this.flash := flash;
      active, shown, candidateActive, compareActive, slotAddress, generation := None, [], false, false, 0, 0;
      payloadCrc, acceptedBytes, pendingValid, pendingByte, data, begunAt := 0, 0, false, 0, [], 0;
      new;
      SelectBootRecord();
      ChoiceIsBacked(flash.cells);
    }

    method ValidateRecord(slot: nat, marker: seq<byte>) returns (r: Result)
      requires |flash.cells| == CELLS && IsSlot(slot)
      ensures r == Validate(flash.cells, slot, marker)
    {
      hide Crc32, ConfigValid;
      var cells := flash.cells;
      if cells[slot..slot + 12] != PREFIX || cells[slot + 20..slot + 24] != [0, 0, 0, 0]
         || cells[slot + 60..slot + 62] != UNMARKED || cells[slot + 62..slot + 64] != marker {
        return StorageError;
      }
      for i := 0 to 32
        invariant BlankFrom(cells, slot + 24, slot + 24 + i)
      {
        if cells[slot + 24 + i] != BLANK {
          return StorageError;
        }
      }
      var headerCrc := ComputeCrc32(cells[slot..slot + 24]);
      if GenerationAt(cells, slot) == 0 || GenerationAt(cells, slot) > GENERATION_MAX
         || headerCrc != FromLe32(cells[slot + 56..slot + 60]) {
        return StorageError;
      }
      var payload := PayloadAt(cells, slot);
      var crc := ComputeCrc32(payload);
      if CrcAt(cells, slot) != crc {
        return CrcMismatch;
      }
      if !ConfigValid(payload) {
        return ValidationFailed;
      }
      return Ok;
    }

    method SelectBootRecord()
      requires |flash.cells| == CELLS
      modifies this`active, this`shown
      ensures active == BootChoice(flash.cells)
      ensures active.Some? ==> IsSlot(active.value.slot) && shown == PayloadAt(flash.cells, active.value.slot)
    {
      hide Validate;
      var ra := ValidateRecord(SLOT_A, MARKER);
      var rb := ValidateRecord(SLOT_B, MARKER);
      var a, b := RecordAt(flash.cells, SLOT_A), RecordAt(flash.cells, SLOT_B);
      active := None;
      if ra != Ok && rb != Ok {
        return;
      }
      if ra == Ok && rb != Ok {
        active := Some(a);
      } else if ra != Ok && rb == Ok {
        active := Some(b);
      } else if a.generation > b.generation {
        active := Some(a);
      } else if b.generation > a.generation {
        active := Some(b);
      } else {
        if a.crc != b.crc || PayloadAt(flash.cells, SLOT_A) != PayloadAt(flash.cells, SLOT_B) {
          return;
        }
        active := Some(a);
      }
      shown := PayloadAt(flash.cells, active.value.slot);
    }

    method Abort()
      modifies this`candidateActive
      ensures !candidateActive
    {
      candidateActive := false;
    }

    /** Opens the target slot: erase, then the header fields. */
    method StartChanged() returns (r: Result)
      requires Valid() && flash.powered && candidateActive
      modifies this, flash
      ensures Valid() && TargetOnly() && payloadCrc == old(payloadCrc)
      ensures shown == old(shown) && begunAt == old(begunAt)
      ensures r == WearBudgetExhausted <==> old(active.Some? && active.value.generation >= GENERATION_MAX)
      ensures r == WearBudgetExhausted ==> unchanged(this) && unchanged(flash)
      ensures r == Ok || r == WearBudgetExhausted || r == StorageError
      ensures r == Ok ==> flash.powered && candidateActive && !compareActive && data == [] && Begun()
      ensures r == StorageError ==> !candidateActive
      ensures old(flash.Healthy()) ==> flash.Healthy() && r != StorageError && (r == Ok ==> Ready())
    {
      hide Backed, Candidate;
      if active.Some? && active.value.generation >= GENERATION_MAX {
        return WearBudgetExhausted;
      }
      slotAddress := if active.Some? && active.value.slot == SLOT_A then SLOT_B else SLOT_A;
      generation := if active.Some? then active.value.generation + 1 else 1;
      acceptedBytes, pendingValid, compareActive, data := 0, false, false, [];
      var ok := OpenSlot();
      if !ok {
        candidateActive := false;
        return StorageError;
      }
      return Ok;
    }

    /** Erases the target slot and programs the header fields; a boot never sees a part of it. */
    method OpenSlot() returns (ok: bool)
      requires Valid() && flash.powered && slotAddress == Target(active)
      modifies flash
      ensures Valid() && TargetOnly()
      ensures ok ==> flash.powered && Candidate(flash.cells, slotAddress, generation, payloadCrc, []) && NextIsBlank(flash.cells, slotAddress, [])
      ensures old(flash.Healthy()) ==> flash.Healthy() && ok
    {
      hide Backed, Ahead, BootChoice, Meta;
      ghost var before := flash.cells;
      ok := flash.ErasePage(slotAddress);
      if flash.cells != before {
        BlankMarker(flash.cells, slotAddress);
        TargetWritesAreInvisible(before, flash.cells, active);
      }
      if !ok {
        return;
      }
      BlankMarker(flash.cells, slotAddress);
      ok := flash.ProgramBytes(slotAddress, Meta(generation, payloadCrc));
      BlankMarker(flash.cells, slotAddress);
      TargetWritesAreInvisible(before, flash.cells, active);
    }

    static lemma BlankMarker(cells: seq<byte>, slot: nat)
      requires |cells| == CELLS && IsSlot(slot) && cells[slot + 62] == BLANK
      ensures !Marked(cells, slot)
    {
      assert cells[slot + 62..slot + 64][0] == BLANK;
    }

    method Begin(crc: u32) returns (r: Result)
      requires Sound() && flash.powered
      modifies this, flash
      ensures Valid() && TargetOnly() && shown == old(shown)
      ensures r == BadState <==> old(candidateActive)
      ensures r == BadState ==> unchanged(this) && unchanged(flash)
      ensures r == Ok || r == BadState || r == WearBudgetExhausted || r == StorageError
      ensures r == Ok ==> flash.powered && candidateActive && payloadCrc == crc && Begun() && data == [] && acceptedBytes == 0
      ensures r == Ok ==> compareActive == (active.Some? && active.value.crc == crc)
      ensures r == Ok && compareActive ==> begunAt == old(flash.attempts) && unchanged(flash)
      ensures r == StorageError ==> !candidateActive
      ensures r != WearBudgetExhausted ==> Sound()
      ensures old(flash.Healthy()) ==> flash.Healthy() && r != StorageError && (r == Ok ==> Ready())
      ensures r == WearBudgetExhausted ==> old(!candidateActive && active.Some? && active.value.generation >= GENERATION_MAX && active.value.crc != crc)
      ensures r == WearBudgetExhausted ==> unchanged(flash)
      ensures old(!candidateActive && active.Some? && active.value.generation >= GENERATION_MAX && active.value.crc != crc) ==> r == WearBudgetExhausted
    {
      hide Backed, Candidate, PayloadAt;
      if candidateActive {
        return BadState;
      }
      payloadCrc, candidateActive := crc, true;
      if active.Some? && active.value.crc == crc {
        acceptedBytes, pendingValid, compareActive, data, begunAt := 0, false, true, [], flash.attempts;
        ActiveIsInSlot();
        return Ok;
      }
      r := StartChanged();
    }

    /** One payload halfword, right after what is stored; a pending byte is its first half. */
    method ProgramPayload(offset: nat, low: byte, high: byte) returns (ok: bool)
      requires Valid() && flash.powered && |data| <= PAYLOAD_BYTES && Writing()
      requires offset == Paired(|data|) && offset + 2 <= PAYLOAD_BYTES
      modifies flash
      ensures Valid() && TargetOnly()
      ensures old(flash.Healthy() && NextIsBlank(flash.cells, slotAddress, data)) ==> ok && flash.Healthy()
      ensures ok ==> NextIsBlank(flash.cells, slotAddress, data[..offset] + [low, high])
      ensures ok ==> flash.powered
      ensures ok ==> Candidate(flash.cells, slotAddress, generation, payloadCrc, data[..offset] + [low, high])
      ensures Candidate(flash.cells, slotAddress, generation, payloadCrc, data) || ok
    {
      hide Backed, Ahead, BootChoice, Candidate, Marked, Paired;
      ghost var before := flash.cells;
      PairedSteps(|data|);
      ok := flash.ProgramHalfword(slotAddress + PAYLOAD_AT + offset, low, high);
      HalfwordTouched(before, flash.cells, slotAddress, generation, payloadCrc, data, offset);
      TargetWritesAreInvisible(before, flash.cells, active);
      if ok {
        HalfwordStored(before, flash.cells, slotAddress, generation, payloadCrc, data, offset, low, high);
      }
    }

    /** Whatever a failed program leaves in its halfword, the bytes stored before it stand. */
    static lemma HalfwordTouched(before: seq<byte>, after: seq<byte>, slot: nat, generation: u32, crc: u32,
                                 data: seq<byte>, offset: nat)
      requires |before| == |after| == CELLS && IsSlot(slot) && |data| <= PAYLOAD_BYTES
      requires offset == Paired(|data|) && offset + 2 <= PAYLOAD_BYTES && Candidate(before, slot, generation, crc, data)
      requires var at := slot + PAYLOAD_AT + offset; SameOutside(after, before, at, at + 2)
      ensures Candidate(after, slot, generation, crc, data) && !Marked(after, slot)
    {
      hide Meta, Paired;
      var at := slot + PAYLOAD_AT;
      SliceKept(after, before, at + offset, at + offset + 2, at, at + offset);
      SliceKept(after, before, at + offset, at + offset + 2, slot, slot + 24);
      BlankMarker(after, slot);
    }

    static lemma HalfwordStored(before: seq<byte>, after: seq<byte>, slot: nat, generation: u32, crc: u32,
                                data: seq<byte>, offset: nat, low: byte, high: byte)
      requires |before| == |after| == CELLS && IsSlot(slot) && |data| <= PAYLOAD_BYTES
      requires offset == Paired(|data|) && offset + 2 <= PAYLOAD_BYTES && Candidate(before, slot, generation, crc, data)
      requires var at := slot + PAYLOAD_AT + offset; SameOutside(after, before, at, at + 2) && after[at] == low && after[at + 1] == high
      ensures Candidate(after, slot, generation, crc, data[..offset] + [low, high])
      ensures NextIsBlank(after, slot, data[..offset] + [low, high])
    {
      hide Meta, Paired, Stored, NextIsBlank;
      var at := slot + PAYLOAD_AT;
      PairStored(before, after, slot, data, offset, low, high);
      SliceKept(after, before, at + offset, at + offset + 2, slot, slot + 24);
    }

    static lemma PairStored(before: seq<byte>, after: seq<byte>, slot: nat, data: seq<byte>, offset: nat, low: byte, high: byte)
      requires |before| == |after| == CELLS && IsSlot(slot) && |data| <= PAYLOAD_BYTES
      requires offset == Paired(|data|) && offset + 2 <= PAYLOAD_BYTES && Stored(before, slot, data)
      requires var at := slot + PAYLOAD_AT + offset; SameOutside(after, before, at, at + 2) && after[at] == low && after[at + 1] == high
      ensures Stored(after, slot, data[..offset] + [low, high]) && NextIsBlank(after, slot, data[..offset] + [low, high])
    {
      hide Paired;
      var at, longer := slot + PAYLOAD_AT, data[..offset] + [low, high];
      PairedSteps(|data|);
      SliceKept(after, before, at + offset, at + offset + 2, at, at + offset);
      TwoMore(after, at, at + offset);
      assert longer[..offset + 2] == longer;
    }

    /** Programs a pair of bytes and counts it; a pending byte must be the first of the pair. */
    method PushPair(low: byte, high: byte) returns (ok: bool)
      requires Valid() && flash.powered && !compareActive && Begun()
      requires Paired(|data|) + 2 <= PAYLOAD_BYTES && (pendingValid ==> low == pendingByte)
      modifies this`pendingValid, this`acceptedBytes, this`data, flash
      ensures Valid() && TargetOnly() && Begun()
      ensures ok ==> flash.powered && !pendingValid && data == old(data) + (if old(pendingValid) then [high] else [low, high])
      ensures !ok ==> unchanged(this)
      ensures old(Ready()) ==> ok && Ready()
    {
      hide Backed, Candidate, NextIsBlank, Paired;
      PairedSteps(|data|);
      var offset := if pendingValid then acceptedBytes - 1 else acceptedBytes;
      ok := ProgramPayload(offset, low, high);
      if ok {
        assert data[..offset] + [low, high] == data + (if pendingValid then [high] else [low, high]);
        data := data[..offset] + [low, high];
        pendingValid, acceptedBytes := false, offset + 2;
      }
    }

    /** Pairs from a position on, as many as there are. */
    method PushPairs(d: seq<byte>, from: nat) returns (ok: bool, index: nat)
      requires Valid() && flash.powered && !compareActive && Begun() && !pendingValid
      requires from <= |d| && |data| + |d| - from <= PAYLOAD_BYTES
      modifies this`pendingValid, this`acceptedBytes, this`data, flash
      ensures Valid() && TargetOnly() && Begun() && !pendingValid
      ensures from <= index <= |d| && data == old(data) + d[from..index]
      ensures ok ==> flash.powered && |d| - 1 <= index && (index - from) % 2 == 0
      ensures old(Ready()) ==> ok && Ready()
    {
      hide Backed, Candidate, SameOutside, PayloadAt, NextIsBlank, Marked, NextGeneration, IsSlot, Paired;
      ghost var before := flash.cells;
      SameAsItself(before, Target(active));
      index := from;
      while index + 1 < |d|
        invariant from <= index <= |d| && data == old(data) + d[from..index] && (index - from) % 2 == 0
        invariant Valid() && TargetOnly() && flash.powered && Begun() && !pendingValid
        invariant old(Ready()) ==> Ready()
      {
        ghost var prior := flash.cells;
        PairedSteps(|data|);
        ok := PushPair(d[index], d[index + 1]);
        TwoSteps(before, prior, flash.cells, Target(active));
        if !ok {
          return;
        }
        TwoMore(d, from, index);
        AppendAssociates(old(data), d[from..index], [d[index], d[index + 1]]);
        index := index + 2;
      }
      ok := true;
    }

    /** An odd byte waits for its other half. */
    method HoldByte(b: byte)
      requires |flash.cells| == CELLS && !compareActive && Begun() && !pendingValid && |data| < PAYLOAD_BYTES
      modifies this`pendingValid, this`pendingByte, this`acceptedBytes, this`data
      ensures Begun() && data == old(data) + [b]
      ensures old(Ready()) ==> Ready()
    {
      hide Candidate;
      OddByteWaits(flash.cells, slotAddress, generation, payloadCrc, data, b);
      pendingByte, pendingValid := b, true;
      acceptedBytes, data := acceptedBytes + 1, data + [b];
    }

    /** `asset_write_payload_bytes`: pairs bytes into halfwords across calls. */
    method WritePayloadBytes(d: seq<byte>) returns (r: Result)
      requires Valid() && flash.powered && !compareActive && Begun() && |data| + |d| <= PAYLOAD_BYTES
      modifies this`pendingValid, this`pendingByte, this`acceptedBytes, this`data, flash
      ensures Valid() && TargetOnly() && Begun()
      ensures r == Ok || r == StorageError
      ensures r == Ok ==> flash.powered && data == old(data) + d
      ensures old(Ready()) ==> r == Ok && Ready()
    {
      hide Backed, Candidate, SameOutside, PayloadAt, NextIsBlank, Marked, NextGeneration, IsSlot, Paired;
      ghost var before := flash.cells;
      SameAsItself(before, Target(active));
      PairedSteps(|data|);
      if d == [] {
        return Ok;
      }
      var index := 0;
      if pendingValid {
        var ok := PushPair(pendingByte, d[0]);
        if !ok {
          return StorageError;
        }
        index := 1;
      }
      ghost var from, prior := index, flash.cells;
      assert data == old(data) + d[..from];
      var ok;
      ok, index := PushPairs(d, index);
      TwoSteps(before, prior, flash.cells, Target(active));
      if !ok {
        return StorageError;
      }
      InParts(old(data), d, from, index);
      if index < |d| {
        HoldByte(d[index]);
      }
      return Ok;
    }

    /** A prefix, a middle, and at most one more byte. */
    static lemma InParts(s: seq<byte>, d: seq<byte>, from: nat, index: nat)
      requires from <= index <= |d| <= index + 1
      ensures s + d[..from] + d[from..index] + (if index < |d| then [d[index]] else []) == s + d
    {
      var end := if index < |d| then [d[index]] else [];
      assert d[..from] + d[from..index] == d[..index];
      AppendAssociates(s, d[..from], d[from..index]);
      assert d[..index] + end == d;
      AppendAssociates(s, d[..index], end);
    }

    static lemma OddByteWaits(cells: seq<byte>, slot: nat, generation: u32, crc: u32, data: seq<byte>, b: byte)
      requires |cells| == CELLS && IsSlot(slot) && |data| < PAYLOAD_BYTES && |data| % 2 == 0
      requires Candidate(cells, slot, generation, crc, data)
      ensures Candidate(cells, slot, generation, crc, data + [b])
      ensures NextIsBlank(cells, slot, data) ==> NextIsBlank(cells, slot, data + [b])
    {
      hide Meta, Paired, BlankFrom;
      PairedSteps(|data|);
      assert (data + [b])[..|data|] == data;
    }

    /** The first position where the bytes leave the active record. */
    method FirstDifference(d: seq<byte>) returns (index: nat)
      requires Valid() && flash.powered && Begun() && compareActive && |data| + |d| <= PAYLOAD_BYTES
      ensures index <= |d|
      ensures data + d[..index] == PayloadAt(flash.cells, active.value.slot)[..|data| + index]
      ensures index < |d| ==> d[index] != PayloadAt(flash.cells, active.value.slot)[|data| + index]
    {
      hide Backed, Candidate;
      var payload := PayloadAt(flash.cells, active.value.slot);
      index := 0;
      while index < |d| && payload[acceptedBytes + index] == d[index]
        invariant 0 <= index <= |d|
        invariant data + d[..index] == payload[..|data| + index]
      {
        assert d[..index + 1] == d[..index] + [d[index]];
        assert payload[..|data| + index + 1] == payload[..|data| + index] + [payload[|data| + index]];
        index := index + 1;
      }
    }

    /** Copies the part of the active payload that the new one shares into the freshly opened slot. */
    method CopyPrefix(payload: seq<byte>, length: nat) returns (r: Result)
      requires Valid() && flash.powered && !compareActive && candidateActive
      requires Begun() && data == [] && length <= |payload| == PAYLOAD_BYTES
      modifies this`pendingValid, this`pendingByte, this`acceptedBytes, this`data, this`candidateActive, flash
      ensures Valid() && TargetOnly()
      ensures r == Ok || r == StorageError
      ensures r == Ok ==> flash.powered && candidateActive && data == payload[..length] && Begun()
      ensures r == StorageError ==> !candidateActive
      ensures old(Ready()) ==> r == Ok && Ready()
    {
      hide Backed, Candidate, SameOutside, PayloadAt, NextIsBlank;
      var prefix := payload[..length];
      var ok, index := PushPairs(prefix, 0);
      if !ok {
        candidateActive := false;
        return StorageError;
      }
      assert data == prefix[0..index];
      if index < |prefix| {
        assert prefix == prefix[0..index] + [prefix[index]];
        HoldByte(prefix[index]);
      } else {
        assert prefix[0..index] == prefix;
      }
      return Ok;
    }

    method Write(d: seq<byte>) returns (r: Result)
      requires Sound() && flash.powered
      modifies this, flash
      ensures Sound() && TargetOnly() && shown == old(shown)
      ensures r == BadState <==> !old(candidateActive) || old(acceptedBytes) + |d| > PAYLOAD_BYTES
      ensures r == BadState || r == WearBudgetExhausted ==> unchanged(this) && unchanged(flash)
      ensures r == Ok || r == BadState || r == WearBudgetExhausted || r == StorageError
      ensures r == Ok ==> flash.powered && candidateActive && data == old(data) + d && acceptedBytes == |data| <= PAYLOAD_BYTES
      ensures r == Ok ==> payloadCrc == old(payloadCrc) && begunAt == old(begunAt)
      ensures r == Ok && compareActive ==> old(compareActive) && unchanged(flash)
      ensures r == Ok && old(compareActive) ==> (compareActive <==> data == PayloadAt(flash.cells, active.value.slot)[..|data|])
      ensures old(Ready()) ==> Ready() && r != StorageError
      ensures r == WearBudgetExhausted ==>
                old(compareActive && active.value.generation >= GENERATION_MAX)
                && old(data) + d != PayloadAt(flash.cells, active.value.slot)[..|old(data) + d|]
      ensures r == Ok && !compareActive ==> active.None? || active.value.generation < GENERATION_MAX
    {
      hide Backed, Candidate, PayloadAt, SameOutside, NextIsBlank;
      if !candidateActive || acceptedBytes + |d| > PAYLOAD_BYTES {
        SameAsItself(flash.cells, Target(active));
        return BadState;
      }
      if compareActive {
        r := Follow(d);
      } else {
        r := WritePayloadBytes(d);
      }
    }

    /** A write while every byte so far equals the active record. */
    method Follow(d: seq<byte>) returns (r: Result)
      requires Sound() && flash.powered && candidateActive && compareActive && acceptedBytes + |d| <= PAYLOAD_BYTES
      modifies this, flash
      ensures Sound() && TargetOnly() && shown == old(shown)
      ensures r == WearBudgetExhausted ==> unchanged(this) && unchanged(flash)
      ensures r == Ok || r == WearBudgetExhausted || r == StorageError
      ensures r == Ok ==> flash.powered && candidateActive && data == old(data) + d
      ensures r == Ok ==> payloadCrc == old(payloadCrc) && begunAt == old(begunAt)
      ensures r == Ok && compareActive ==> unchanged(flash)
      ensures r == Ok ==> (compareActive <==> data == PayloadAt(flash.cells, active.value.slot)[..|data|])
      ensures old(Ready()) ==> Ready() && r != StorageError
      ensures r == WearBudgetExhausted ==>
                old(active.value.generation >= GENERATION_MAX)
                && old(data) + d != PayloadAt(flash.cells, active.value.slot)[..|old(data) + d|]
      ensures r == Ok && !compareActive ==> active.Some? && active.value.generation < GENERATION_MAX
    {
      hide Backed, Candidate, PayloadAt, SameOutside, NextIsBlank;
      var index := FirstDifference(d);
      assert index < |d| ==> (data + d)[|data| + index] != PayloadAt(flash.cells, active.value.slot)[..|data + d|][|data| + index];
      if index < |d| {
        r := Diverge(d, index);
      } else {
        assert d[..index] == d;
        SameAsItself(flash.cells, Target(active));
        acceptedBytes, data := acceptedBytes + |d|, data + d;
        r := Ok;
      }
    }

    static lemma SameAsItself(cells: seq<byte>, slot: nat)
      ensures SameOutside(cells, cells, slot, slot + PAGE)
    {
    }

    /** The bytes leave the active record: open the slot, copy the shared prefix, go on writing. */
    method Diverge(d: seq<byte>, index: nat) returns (r: Result)
      requires Sound() && flash.powered && candidateActive && compareActive
      requires acceptedBytes + |d| <= PAYLOAD_BYTES && index < |d|
      requires data + d[..index] == PayloadAt(flash.cells, active.value.slot)[..|data| + index]
      requires d[index] != PayloadAt(flash.cells, active.value.slot)[|data| + index]
      modifies this, flash
      ensures Sound() && TargetOnly() && shown == old(shown)
      ensures r == WearBudgetExhausted <==> old(active.value.generation >= GENERATION_MAX)
      ensures r == WearBudgetExhausted ==> unchanged(this) && unchanged(flash)
      ensures r == Ok || r == WearBudgetExhausted || r == StorageError
      ensures r == Ok ==> flash.powered && candidateActive && !compareActive && data == old(data) + d
      ensures r == Ok ==> payloadCrc == old(payloadCrc) && begunAt == old(begunAt)
      ensures PayloadAt(flash.cells, active.value.slot) == old(PayloadAt(flash.cells, active.value.slot))
      ensures old(Ready()) ==> Ready() && r != StorageError
    {
      hide Backed, Candidate, PayloadAt, SameOutside, NextIsBlank;
      ActiveIsInSlot();
      var payload := PayloadAt(flash.cells, active.value.slot);
      ghost var before := flash.cells;
      var logical := acceptedBytes + index;
      SharedPrefix(d, index, payload);
      r := StartChanged();
      ghost var ready := flash.cells;
      ActiveSlotKept(before, ready);
      if r != Ok {
        return;
      }
      r := CopyPrefix(payload, logical);
      ghost var copied := flash.cells;
      TwoSteps(before, ready, copied, Target(active));
      ActiveSlotKept(before, copied);
      if r != Ok {
        return;
      }
      r := WritePayloadBytes(d[index..]);
      TwoSteps(before, copied, flash.cells, Target(active));
      ActiveSlotKept(before, flash.cells);
    }

    lemma SharedPrefix(d: seq<byte>, index: nat, payload: seq<byte>)
      requires index <= |d| && |data| + index <= |payload| && data + d[..index] == payload[..|data| + index]
      ensures data + d == payload[..|data| + index] + d[index..]
    {
    }

    /** Cells outside the target slot include the whole active one. */
    lemma ActiveSlotKept(before: seq<byte>, after: seq<byte>)
      requires |before| == |after| == CELLS && active.Some? && IsSlot(active.value.slot)
      requires SameOutside(after, before, Target(active), Target(active) + PAGE)
      ensures PayloadAt(after, active.value.slot) == PayloadAt(before, active.value.slot)
    {
    }

    static lemma TwoSteps(a: seq<byte>, b: seq<byte>, c: seq<byte>, slot: nat)
      requires SameOutside(b, a, slot, slot + PAGE) && SameOutside(c, b, slot, slot + PAGE)
      ensures SameOutside(c, a, slot, slot + PAGE)
    {
    }

    /**
     The commit: header CRC, validation, and last the marker halfword. Only that halfword changes what a boot selects,
     and it does so from the record in RAM straight to the new one. Reported as failed but in the cells, it leaves the
     flash one record ahead of RAM.
     */
    method Commit() returns (r: Result)
      requires Sound() && flash.powered
      modifies this, flash
      ensures Valid() && payloadCrc == old(payloadCrc)
      ensures r == BadState <==> !old(candidateActive) || old(acceptedBytes) != PAYLOAD_BYTES
      ensures r == BadState ==> unchanged(this) && unchanged(flash)
      ensures r == Unchanged <==> old(candidateActive && acceptedBytes == PAYLOAD_BYTES && compareActive)
      ensures r == Unchanged ==> unchanged(flash) && active == old(active)
      ensures r == Unchanged ==> !candidateActive && flash.attempts == begunAt
      ensures r == Ok || r == Unchanged ==> Sound() && flash.powered && !candidateActive
      ensures r == Ok ==> active == old(Announced()) && shown == old(data) && !Ahead(flash.cells, active)
      ensures r != Ok ==> active == old(active) && shown == old(shown)
      ensures r == CrcMismatch ==> Crc32(old(data)) != old(payloadCrc)
      ensures r == ValidationFailed ==> Crc32(old(data)) == old(payloadCrc) && !ConfigValid(old(data))
      ensures r == Ok ==> Crc32(old(data)) == old(payloadCrc) && ConfigValid(old(data))
      ensures r == CrcMismatch || r == ValidationFailed ==> !Ahead(flash.cells, active) && !Marked(flash.cells, Target(active))
      ensures r == StorageError ==> (Ahead(flash.cells, active) <==> Marked(flash.cells, Target(active)))
      ensures r == StorageError && Ahead(flash.cells, active) ==> BootChoice(flash.cells) == old(Announced())
      ensures r == Ok || (r == StorageError && Ahead(flash.cells, active)) ==>
                PayloadAt(flash.cells, Target(old(active))) == old(data) && old(!compareActive) && NextGeneration(old(active)) <= GENERATION_MAX
      ensures r == Ok || r == CrcMismatch || r == ValidationFailed || r == StorageError ==> old(BootChoice(flash.cells) == active)
      ensures r != WearBudgetExhausted
      ensures old(flash.Healthy()) ==> flash.Healthy() && r != StorageError
      ensures SameOutside(flash.cells, old(flash.cells), Target(old(active)), Target(old(active)) + PAGE)
    {
      hide Backed, Ahead, BootChoice, Candidate, Crc32, ConfigValid;
      if !candidateActive || acceptedBytes != PAYLOAD_BYTES {
        return BadState;
      }
      if compareActive {
        candidateActive := false;
        return Unchanged;
      }
      if pendingValid {
        assert false;  // eight bytes are four halfwords
      }
      OpenSlotIsVoid();
      r := CloseHeader();
      if r != Ok {
        return;
      }
      ghost var closed := flash.cells;
      r := PlaceMarker();
      TwoSteps(old(flash.cells), closed, flash.cells, slotAddress);
      if r != Ok {
        return;
      }
      active := Some(Record(slotAddress, generation, payloadCrc));
      shown := PayloadAt(flash.cells, slotAddress);
      candidateActive := false;
    }

    /** The record a commit of the candidate would make. */
    ghost function Announced(): Option<Record>
      reads this
    {
      if NextGeneration(active) <= GENERATION_MAX then Some(Record(Target(active), NextGeneration(active), payloadCrc)) else None
    }

    /** While a candidate is being written a boot selects the record in RAM. */
    lemma OpenSlotIsVoid()
      requires Valid() && |data| <= PAYLOAD_BYTES && Writing()
      ensures !Marked(flash.cells, slotAddress) && !Ahead(flash.cells, active) && BootChoice(flash.cells) == active
    {
      hide Backed, Ahead, BootChoice, Meta, Stored;
      BlankMarker(flash.cells, slotAddress);
      SameAsItself(flash.cells, slotAddress);
      TargetWritesAreInvisible(flash.cells, flash.cells, active);
    }

    lemma BegunIsVoid()
      requires Valid() && candidateActive && !compareActive && Begun()
      ensures BootChoice(flash.cells) == active
    {
      hide Backed, Ahead, BootChoice, Candidate;
      OpenSlotIsVoid();
    }

    /** The first part of a commit: the header CRC, and the verdict on the whole slot. */
    method CloseHeader() returns (r: Result)
      requires Valid() && flash.powered && |data| == PAYLOAD_BYTES && Writing()
      modifies flash
      ensures Valid() && TargetOnly() && !Marked(flash.cells, slotAddress) && !Ahead(flash.cells, active)
      ensures r == Ok || r == CrcMismatch || r == ValidationFailed || r == StorageError
      ensures r == CrcMismatch ==> Crc32(data) != payloadCrc
      ensures r == ValidationFailed ==> Crc32(data) == payloadCrc && !ConfigValid(data)
      ensures r == Ok ==> flash.powered && Crc32(data) == payloadCrc && ConfigValid(data)
      ensures r == Ok ==> Complete(flash.cells) && BlankFrom(flash.cells, slotAddress + 62, slotAddress + 64)
      ensures old(flash.Healthy()) ==> flash.Healthy() && r != StorageError
    {
      hide Backed, Ahead, BootChoice, Crc32, ConfigValid, Meta, Validate, RecordAt, Stored;
      ghost var before := flash.cells;
      BlankMarker(before, slotAddress);
      var headerCrc := ComputeCrc32(flash.cells[slotAddress..slotAddress + 24]);
      var ok := flash.ProgramBytes(slotAddress + 56, Le32(headerCrc));
      BlankMarker(flash.cells, slotAddress);
      TargetWritesAreInvisible(before, flash.cells, active);
      if !ok {
        return StorageError;
      }
      CandidateSealed(before, flash.cells);
      r := ValidateRecord(slotAddress, UNMARKED);
    }

    /** The last part of a commit: the marker, and a look at the record it makes. */
    method PlaceMarker() returns (r: Result)
      requires Valid() && flash.powered && Complete(flash.cells) && BlankFrom(flash.cells, slotAddress + 62, slotAddress + 64)
      requires slotAddress == Target(active) && generation == NextGeneration(active) <= GENERATION_MAX
      requires Crc32(data) == payloadCrc && ConfigValid(data)
      modifies flash
      ensures Valid() && SameOutside(flash.cells, old(flash.cells), slotAddress, slotAddress + PAGE)
      ensures r == Ok || r == StorageError
      ensures r == Ok ==> flash.powered && Marked(flash.cells, slotAddress)
      ensures Ahead(flash.cells, active) <==> Marked(flash.cells, slotAddress)
      ensures Marked(flash.cells, slotAddress) ==>
                && BootChoice(flash.cells) == Some(Record(slotAddress, generation, payloadCrc))
                && Backed(flash.cells, BootChoice(flash.cells)) && !Ahead(flash.cells, BootChoice(flash.cells))
      ensures PayloadAt(flash.cells, slotAddress) == data
      ensures old(flash.Healthy()) ==> flash.Healthy() && r == Ok
      ensures old(flash.fates != [] && flash.fates[0] == Fault(Applied)) ==> r == StorageError && Marked(flash.cells, slotAddress)
      ensures old(flash.fates != [] && flash.fates[0] == Fault(Applied)) ==> flash.powered && flash.fates == old(flash.fates)[1..]
    {
      hide Backed, Ahead, BootChoice, Crc32, ConfigValid, Meta, Validate, RecordAt, Complete;
      ghost var before := flash.cells;
      var ok := flash.ProgramHalfword(slotAddress + 62, MARKER[0], MARKER[1]);
      MarkerDecides(before, flash.cells);
      if flash.cells[slotAddress + 62] == MARKER[0] && flash.cells[slotAddress + 63] == MARKER[1] {
        MarkerInPlace(flash.cells, slotAddress);
      }
      if !ok {
        return StorageError;
      }
      r := ValidateRecord(slotAddress, MARKER);
      if r != Ok {
        assert false;  // it validated before the marker
      }
    }

    static lemma MarkerInPlace(cells: seq<byte>, slot: nat)
      requires |cells| == CELLS && IsSlot(slot) && cells[slot + 62] == MARKER[0] && cells[slot + 63] == MARKER[1]
      ensures Marked(cells, slot)
    {
      assert cells[slot + 62..slot + 64] == [cells[slot + 62], cells[slot + 63]];
    }

    /** With the header CRC in place the slot is ready to be validated. */
    lemma CandidateSealed(before: seq<byte>, after: seq<byte>)
      requires |before| == |after| == CELLS && |data| == PAYLOAD_BYTES
      requires IsSlot(slotAddress) && 1 <= generation <= GENERATION_MAX
      requires Candidate(before, slotAddress, generation, payloadCrc, data)
      requires SameOutside(after, before, slotAddress + 56, slotAddress + 60)
      requires after[slotAddress + 56..slotAddress + 60] == Le32(Crc32(Meta(generation, payloadCrc)))
      ensures Complete(after) && BlankFrom(after, slotAddress + 62, slotAddress + 64)
      ensures Validate(after, slotAddress, UNMARKED) ==
              if Crc32(data) != payloadCrc then CrcMismatch else if !ConfigValid(data) then ValidationFailed else Ok
    {
      hide Crc32, ConfigValid, Validate, Meta, Le32;
      assert after[slotAddress..slotAddress + 24] == before[slotAddress..slotAddress + 24];
      assert data[..PAYLOAD_BYTES] == data;
      assert PayloadAt(after, slotAddress) == PayloadAt(before, slotAddress) == data;
      CandidateValidates(after, slotAddress, generation, payloadCrc, data, UNMARKED);
    }

    /** Everything but the marker. */
    ghost predicate Complete(cells: seq<byte>)
      requires |cells| == CELLS
      reads this
    {
      && IsSlot(slotAddress) && |data| == PAYLOAD_BYTES
      && cells[slotAddress..slotAddress + 24] == Meta(generation, payloadCrc) && PayloadAt(cells, slotAddress) == data
      && cells[slotAddress + 56..slotAddress + 60] == Le32(Crc32(Meta(generation, payloadCrc)))
      && BlankFrom(cells, slotAddress + 24, slotAddress + 56) && BlankFrom(cells, slotAddress + 60, slotAddress + 62)
    }

    /** Whatever the marker program leaves behind: the marker means the new record, anything else the old one. */
    lemma MarkerDecides(before: seq<byte>, after: seq<byte>)
      requires |before| == |after| == CELLS && Backed(before, active) && Complete(before)
      requires slotAddress == Target(active) && generation == NextGeneration(active) <= GENERATION_MAX
      requires SameOutside(after, before, slotAddress + 62, slotAddress + 64)
      requires Crc32(data) == payloadCrc && ConfigValid(data)
      ensures Backed(after, active) && SameOutside(after, before, slotAddress, slotAddress + PAGE)
      ensures PayloadAt(after, slotAddress) == data
      ensures Ahead(after, active) <==> Marked(after, slotAddress)
      ensures Marked(after, slotAddress) ==>
                && Validate(after, slotAddress, MARKER) == Ok && BootChoice(after) == Some(Record(slotAddress, generation, payloadCrc))
                && Backed(after, BootChoice(after)) && !Ahead(after, BootChoice(after))
      ensures !Marked(after, slotAddress) ==> BootChoice(after) == active
    {
      hide BootChoice, Backed, Ahead, Crc32, ConfigValid, Meta, Le32, Validate;
      assert PayloadAt(after, slotAddress) == PayloadAt(before, slotAddress);
      assert after[slotAddress..slotAddress + 24] == before[slotAddress..slotAddress + 24];
      assert after[slotAddress + 56..slotAddress + 60] == before[slotAddress + 56..slotAddress + 60];
      if Marked(after, slotAddress) {
        CandidateValidates(after, slotAddress, generation, payloadCrc, data, MARKER);
        NextGenerationWins(before, after, active);
      } else {
        TargetWritesAreInvisible(before, after, active);
      }
    }

    /** A complete candidate that never left the active record is the active record. */
    lemma WholePayload()
      requires Sound() && candidateActive && acceptedBytes == PAYLOAD_BYTES
      ensures compareActive ==>
                active.Some? && IsSlot(active.value.slot) && active.value.crc == payloadCrc && PayloadAt(flash.cells, active.value.slot) == data
    {
      hide Backed, Candidate;
    }

    lemma FollowsActive()
      requires Sound() && candidateActive
      ensures compareActive ==> active.Some? && IsSlot(active.value.slot)
    {
      hide Backed, Candidate;
    }

    lemma ActiveIsInSlot()
      requires Valid() && active.Some?
      ensures IsSlot(active.value.slot) && active.value.slot != Target(active)
      ensures active.value.crc == Crc32(PayloadAt(flash.cells, active.value.slot))
      ensures 1 <= active.value.generation <= GENERATION_MAX
    {
      ChoiceOfBacked(flash.cells, active);
    }
  }

  // ----- a whole life -----

  datatype Event = Begin(crc: u32) | Write(data: seq<byte>) | Commit | Abort | Reset(fates: seq<Fate>)

  function GenerationOf(choice: Option<Record>): nat {
    if choice.Some? then choice.value.generation else 0
  }

  /**
   What can be said after an event: the record and payload a boot would select, the record RAM holds, whether the last
   commit since the reset was answered with a storage error, and whether the target slot carries the marker.
   */
  datatype Entry = Entry(booted: Option<Record>, payload: seq<byte>, held: Option<Record>, refused: bool, marked: bool)

  const ERASED := Entry(None, [], None, false, false)

  /**
   A boot only ever selects a whole, valid record within the wear budget. It is the one RAM holds, unless a commit was
   answered with a storage error although its marker is in the cells; then it is the one after that.
   */
  predicate Coherent(e: Entry) {
    && (e.booted == e.held <==> !(e.refused && e.marked))
    && (e.booted != e.held ==> GenerationOf(e.booted) == GenerationOf(e.held) + 1)
    && GenerationOf(e.booted) <= GENERATION_MAX
    && (e.booted.Some? ==> 1 <= e.booted.value.generation && ConfigValid(e.payload) && Crc32(e.payload) == e.booted.value.crc)
  }

  /**
   What an event may do. A commit takes a boot one generation on. One generation back, to the record RAM holds, it goes
   only when RAM does not hold the booted record and a BEGIN or a write opens the slot of that record. RAM follows the
   commits answered OK, and takes over what is booted at a reset.
   */
  predicate Follows(last: Entry, event: Event, now: Entry) {
    && (|| (now.booted == last.booted && now.payload == last.payload)
        || (event.Commit? && last.booted == last.held && GenerationOf(now.booted) == GenerationOf(last.booted) + 1)
        || ((event.Begin? || event.Write?) && last.booted != last.held && now.booted == now.held == last.held))
    && (|| now.held == last.held
        || (event.Commit? && now.held == now.booted && GenerationOf(now.held) == GenerationOf(last.held) + 1)
        || (event.Reset? && now.held == now.booted == last.booted))
    && (event.Reset? ==> now.held == now.booted == last.booted && !now.refused)
  }

  predicate Chronicle(log: seq<Entry>, events: seq<Event>)
    requires |log| <= |events|
  {
    forall i :: 0 <= i < |log| ==> Coherent(log[i]) && Follows(Last(log[..i]), events[i], log[i])
  }

  function Last(log: seq<Entry>): Entry {
    if log == [] then ERASED else log[|log| - 1]
  }

  lemma ChronicleGrows(log: seq<Entry>, now: Entry, events: seq<Event>)
    requires |log| < |events| && Chronicle(log, events)
    requires Coherent(now) && Follows(Last(log), events[|log|], now)
    ensures Chronicle(log + [now], events)
  {
    hide Coherent, Follows;
    var longer := log + [now];
    forall i | 0 <= i < |longer| ensures Coherent(longer[i]) && Follows(Last(longer[..i]), events[i], longer[i]) {
      assert longer[..i] == log[..i];
      assert i == |log| ==> log[..i] == log;
    }
  }

  /**
   From erased slots, through any operations and resets, with any flash faults and power lost anywhere: every record a
   boot would select is whole and valid, and the log shows each step of it. At most 10000 commits are ever answered OK.
   */
  method Life(cells: seq<byte>, fates: seq<Fate>, events: seq<Event>) returns (log: seq<Entry>, commits: nat)
    requires |cells| == CELLS && BlankFrom(cells, 0, CELLS)
    ensures |log| == |events| && Chronicle(log, events)
    ensures commits <= GenerationOf(Last(log).held) <= GENERATION_MAX
  {
    hide BootChoice, Backed, Ahead, Candidate, PayloadAt, Coherent, Follows, Marked;
    var flash := new Flash(cells, fates);
    BlankSlotsBootNothing(cells);
    var store := new Store(flash);
    log, commits := [], 0;
    var refused := false;
    StartIsErased(store);
    for n := 0 to |events|
      invariant store.Sound() && store.flash == flash && Tracks(store, refused)
      invariant |log| == n && Chronicle(log, events) && Last(log) == Snapshot(store, refused)
      invariant commits <= GenerationOf(store.active) <= GENERATION_MAX
    {
      var answered;
      refused, answered := Step(store, events[n], refused);
      commits := if answered then commits + 1 else commits;
      SnapshotIsCoherent(store, refused);
      ChronicleGrows(log, Snapshot(store, refused), events);
      log := log + [Snapshot(store, refused)];
    }
  }

  function Snapshot(store: Store, refused: bool): Entry
    requires |store.flash.cells| == CELLS
    reads store, store.flash
  {
    var booted := BootChoice(store.flash.cells);
    Entry(booted, PayloadOf(store.flash.cells, booted), store.active, refused, Marked(store.flash.cells, Target(store.active)))
  }

  function PayloadOf(cells: seq<byte>, choice: Option<Record>): seq<byte>
    requires |cells| == CELLS
  {
    if choice.Some? && IsSlot(choice.value.slot) then PayloadAt(cells, choice.value.slot) else []
  }

  /** The flash is ahead of RAM exactly by a marker whose commit was answered with a storage error. */
  ghost predicate Tracks(store: Store, refused: bool)
    requires |store.flash.cells| == CELLS
    reads store, store.flash
  {
    Ahead(store.flash.cells, store.active) <==> refused && Marked(store.flash.cells, Target(store.active))
  }

  lemma StartIsErased(store: Store)
    requires store.Sound() && store.active == BootChoice(store.flash.cells) == None && BlankFrom(store.flash.cells, 0, CELLS)
    ensures Snapshot(store, false) == ERASED && Tracks(store, false)
  {
    hide Backed, Ahead, BootChoice;
    Store.BlankMarker(store.flash.cells, SLOT_A);
    ChoiceOfBacked(store.flash.cells, store.active);
  }

  lemma SnapshotIsCoherent(store: Store, refused: bool)
    requires store.Sound() && Tracks(store, refused)
    ensures Coherent(Snapshot(store, refused)) && GenerationOf(store.active) <= GENERATION_MAX
  {
    hide Backed, BootChoice, PayloadAt, Crc32, ConfigValid, Validate, Marked;
    var cells := store.flash.cells;
    ChoiceOfBacked(cells, store.active);
    ChoiceFacts(cells);
    var choice := BootChoice(cells);
    if choice.Some? {
      CommittedIsValid(cells, choice.value.slot);
    }
  }

  lemma CommittedIsValid(cells: seq<byte>, slot: nat)
    requires |cells| == CELLS && IsSlot(slot) && Committed(cells, slot)
    ensures ConfigValid(PayloadAt(cells, slot))
  {
    hide Crc32, EnvelopeOk;
  }

  /** One event; a failed BEGIN or COMMIT is followed by the abort the transfer layer always issues. */
  method Step(store: Store, event: Event, refused: bool) returns (refusedNow: bool, answered: bool)
    requires store.Sound() && Tracks(store, refused)
    modifies store, store.flash
    ensures store.Sound() && Tracks(store, refusedNow)
    ensures Follows(old(Snapshot(store, refused)), event, Snapshot(store, refusedNow))
    ensures GenerationOf(old(store.active)) + (if answered then 1 else 0) <= GenerationOf(store.active)
    ensures event.Reset? ==> store.flash.powered && store.flash.fates == event.fates
    ensures event.Reset? || (event.Abort? && old(store.flash.powered)) ==> !store.candidateActive
    ensures event.Commit? && old(store.flash.powered && store.candidateActive && store.acceptedBytes == PAYLOAD_BYTES) ==> !store.candidateActive
  {
    hide BootChoice, Backed, Ahead, PayloadAt, Store.Begun, Marked;
    refusedNow, answered := refused, false;
    ChoiceOfBacked(store.flash.cells, store.active);
    if event.Reset? {
      store.flash.powered, store.flash.fates := true, event.fates;
      store.candidateActive := false;
      store.SelectBootRecord();
      refusedNow := false;
      ChoiceIsBacked(store.flash.cells);
    } else if store.flash.powered {
      if event.Commit? {
        refusedNow, answered := CommitStep(store, refused);
      } else {
        QuietStep(store, event, refused);
      }
    }
  }

  method CommitStep(store: Store, refused: bool) returns (refusedNow: bool, answered: bool)
    requires store.Sound() && store.flash.powered && Tracks(store, refused)
    modifies store, store.flash
    ensures store.Sound() && Tracks(store, refusedNow)
    ensures Follows(old(Snapshot(store, refused)), Event.Commit, Snapshot(store, refusedNow))
    ensures GenerationOf(store.active) == GenerationOf(old(store.active)) + if answered then 1 else 0
    ensures old(store.candidateActive && store.acceptedBytes == PAYLOAD_BYTES) ==> !store.candidateActive
  {
    hide BootChoice, Backed, Ahead, PayloadAt, SameOutside, Store.Begun, Crc32, ConfigValid, Marked;
    ghost var before, active := store.flash.cells, store.active;
    ChoiceOfBacked(before, active);
    var r := store.Commit();
    refusedNow := if r == Ok then false else if r == StorageError then true else refused;
    answered := r == Ok;
    ChoiceOfBacked(store.flash.cells, store.active);
    SamePayload(before, store.flash.cells, active);
    if r != Ok && r != Unchanged && r != BadState {
      store.Abort();
    }
  }

  method QuietStep(store: Store, event: Event, refused: bool)
    requires store.Sound() && store.flash.powered && !event.Commit? && !event.Reset? && Tracks(store, refused)
    modifies store, store.flash
    ensures store.Sound() && Tracks(store, refused) && store.active == old(store.active)
    ensures Follows(old(Snapshot(store, refused)), event, Snapshot(store, refused))
    ensures event.Abort? ==> !store.candidateActive
  {
    hide BootChoice, Backed, Ahead, PayloadAt, SameOutside, Store.Begun, Marked;
    ghost var before := store.flash.cells;
    Store.SameAsItself(before, Target(store.active));
    ChoiceOfBacked(before, store.active);
    match event {
      case Begin(crc) =>
        var r := store.Begin(crc);
        if r == WearBudgetExhausted {
          store.Abort();
        }
      case Write(data) =>
        var r := store.Write(data);
      case Abort =>
        store.Abort();
    }
    ChoiceOfBacked(store.flash.cells, store.active);
    SamePayload(before, store.flash.cells, store.active);
    UnmarkedIsNotAhead(store.flash.cells, store.active);
  }

  lemma UnmarkedIsNotAhead(cells: seq<byte>, active: Option<Record>)
    requires |cells| == CELLS
    ensures Ahead(cells, active) ==> Marked(cells, Target(active))
  {
    if !Marked(cells, Target(active)) {
      UnmarkedIsNotCommitted(cells, Target(active));
    }
  }

  /** Writing the target slot leaves the payload of the record in RAM alone. */
  lemma SamePayload(before: seq<byte>, after: seq<byte>, active: Option<Record>)
    requires |before| == |after| == CELLS && SameOutside(after, before, Target(active), Target(active) + PAGE)
    ensures PayloadOf(after, active) == PayloadOf(before, active)
  {
  }

  /**
   The one way down, as a run: the marker program of a first commit takes effect but is reported as failed. A boot would
   now select generation 1, which RAM does not hold, and the next BEGIN erases it. The commit is given as its two parts,
   so that the fate of the marker program can be set between them.
   */
  method MarkerReportedFailed() returns (answer: Result, held: nat, booted: nat, later: nat)
    ensures answer == StorageError && held == 0 && booted == 1 && later == 0
  {
    hide Backed, Ahead, BootChoice, Candidate, Crc32, Marked, Store.Begun;
    var store, crc := AboutToCommit();
    store.flash.fates := [Fault(Applied)];
    answer := store.PlaceMarker();
    store.Abort();
    held, booted := GenerationOf(store.active), GenerationOf(BootChoice(store.flash.cells));
    var r := store.Begin(crc);
    store.BegunIsVoid();
    later := GenerationOf(BootChoice(store.flash.cells));
  }

  /** A first record, written and validated, without its marker. */
  method AboutToCommit() returns (store: Store, crc: u32)
    ensures fresh(store) && fresh(store.flash) && store.Valid() && store.flash.powered && store.active == None
    ensures store.Complete(store.flash.cells) && BlankFrom(store.flash.cells, store.slotAddress + 62, store.slotAddress + 64)
    ensures store.slotAddress == Target(store.active) && store.generation == NextGeneration(store.active) <= GENERATION_MAX
    ensures Crc32(store.data) == store.payloadCrc && ConfigValid(store.data)
  {
    hide Backed, Ahead, BootChoice, Candidate, Crc32, Marked;
    var flash := new Flash(Blanks(CELLS), []);
    BlankSlotsBootNothing(flash.cells);
    store := new Store(flash);
    var data: seq<byte> := [1, 0, 10, 5, 6, 0, 0, 0];
    crc := ComputeCrc32(data);
    var r := store.Begin(crc);
    r := store.Write(data);
    assert [] + data == data;
    r := store.CloseHeader();
  }

  /** What a complete upload to healthy flash comes to. */
  function UploadResult(cells: seq<byte>, active: Option<Record>, crc: u32, data: seq<byte>): Result
    requires |cells| == CELLS && (active.Some? ==> IsSlot(active.value.slot))
  {
    if active.Some? && active.value.crc == crc && PayloadAt(cells, active.value.slot) == data then Unchanged
    else if active.Some? && active.value.generation >= GENERATION_MAX then WearBudgetExhausted
    else if Crc32(data) != crc then CrcMismatch
    else if !ConfigValid(data) then ValidationFailed
    else Ok
  }

  /**
   BEGIN, any number of writes and COMMIT: the outcome and the record left behind depend on the bytes, not on how they
   were cut, and re-uploading the active record costs no flash operation.
   */
  method Upload(store: Store, crc: u32, chunks: seq<seq<byte>>) returns (r: Result)
    requires store.Sound() && store.flash.Healthy() && !store.candidateActive && |Joined(chunks)| == PAYLOAD_BYTES
    requires store.active.Some? ==> IsSlot(store.active.value.slot)
    modifies store, store.flash
    ensures store.Sound() && store.flash.Healthy() && !store.candidateActive
    ensures r == old(UploadResult(store.flash.cells, store.active, crc, Joined(chunks)))
    ensures r == Unchanged ==> unchanged(store.flash)
    ensures r == Ok ==>
              store.active == Some(Record(Target(old(store.active)), NextGeneration(old(store.active)), crc))
              && PayloadAt(store.flash.cells, store.active.value.slot) == Joined(chunks)
    ensures r != Ok ==> store.active == old(store.active)
  {
    hide Backed, Candidate, PayloadAt, Crc32, ConfigValid;
    r := store.Begin(crc);
    if r == Ok {
      r := WriteAll(store, chunks);
      if r == Ok {
        r := store.Commit();
      }
    }
    store.Abort();
  }

  /** The writes of an upload: they follow the active record as long as the bytes do. */
  method WriteAll(store: Store, chunks: seq<seq<byte>>) returns (r: Result)
    requires store.Sound() && store.Ready() && store.candidateActive
    requires store.data == [] && |Joined(chunks)| == PAYLOAD_BYTES
    modifies store, store.flash
    ensures store.Sound() && store.Ready() && store.active == old(store.active)
    ensures r == Ok ==> store.candidateActive && store.data == Joined(chunks)
                        && store.payloadCrc == old(store.payloadCrc) && store.begunAt == old(store.begunAt)
    ensures r == Ok ==> (store.compareActive <==> old(store.compareActive && PayloadAt(store.flash.cells, store.active.value.slot) == Joined(chunks)))
    ensures r == Ok && store.compareActive ==> unchanged(store.flash)
    ensures r == Ok && !store.compareActive ==> store.active.None? || store.active.value.generation < GENERATION_MAX
    ensures r != Ok ==> r == WearBudgetExhausted && old(store.compareActive && store.active.value.generation >= GENERATION_MAX
                          && PayloadAt(store.flash.cells, store.active.value.slot) != Joined(chunks))
  {
    hide Backed, Candidate, PayloadAt, Store.Begun, Store.Ready, Trails;
    ghost var following := store.compareActive;
    ghost var payload := PayloadOf(store.flash.cells, store.active);
    TrailsFromStart(store, following, payload);
    for i := 0 to |chunks|
      invariant store.Sound() && store.Ready() && store.candidateActive && store.active == old(store.active)
      invariant store.data == Joined(chunks[..i]) && store.payloadCrc == old(store.payloadCrc)
      invariant store.begunAt == old(store.begunAt)
      invariant Trails(store, following, payload)
      invariant store.compareActive ==> unchanged(store.flash)
    {
      JoinedStep(chunks, i);
      JoinedPrefix(chunks, i + 1);
      r := WriteNext(store, chunks[i], following, payload);
      if r != Ok {
        LongerDiffers(Joined(chunks[..i + 1]), Joined(chunks), payload);
        return;
      }
    }
    assert chunks[..|chunks|] == chunks;
    TrailsToEnd(store, following, payload);
    r := Ok;
  }

  /** The candidate compares exactly while its bytes are a prefix of the active payload it started to follow. */
  ghost predicate Trails(store: Store, following: bool, payload: seq<byte>)
    requires |store.flash.cells| == CELLS
    reads store, store.flash
  {
    && (following ==> store.active.Some? && IsSlot(store.active.value.slot) && |payload| == PAYLOAD_BYTES
                      && PayloadAt(store.flash.cells, store.active.value.slot) == payload)
    && (store.compareActive <==> following && store.data <= payload)
    && (!store.compareActive ==> store.active.None? || store.active.value.generation < GENERATION_MAX)
  }

  lemma TrailsFromStart(store: Store, following: bool, payload: seq<byte>)
    requires store.Sound() && store.candidateActive && store.data == [] && following == store.compareActive
    requires payload == PayloadOf(store.flash.cells, store.active)
    ensures Trails(store, following, payload)
    ensures following ==> store.active.Some? && IsSlot(store.active.value.slot) && payload == PayloadAt(store.flash.cells, store.active.value.slot)
  {
    hide Backed, Candidate, PayloadAt;
  }

  lemma TrailsToEnd(store: Store, following: bool, payload: seq<byte>)
    requires |store.flash.cells| == CELLS && Trails(store, following, payload) && |store.data| == PAYLOAD_BYTES
    ensures store.compareActive <==> following && payload == store.data
    ensures !store.compareActive ==> store.active.None? || store.active.value.generation < GENERATION_MAX
  {
    hide PayloadAt;
  }

  lemma LongerDiffers(part: seq<byte>, whole: seq<byte>, payload: seq<byte>)
    requires part <= whole && |whole| == |payload| && part != payload[..|part|]
    ensures payload != whole
  {
  }

  /** One write of an upload. */
  method WriteNext(store: Store, chunk: seq<byte>, ghost following: bool, ghost payload: seq<byte>) returns (r: Result)
    requires store.Sound() && store.Ready() && store.candidateActive && |store.data| + |chunk| <= PAYLOAD_BYTES
    requires Trails(store, following, payload)
    modifies store, store.flash
    ensures store.Sound() && store.Ready() && store.active == old(store.active)
    ensures r == Ok ==> store.candidateActive && store.data == old(store.data) + chunk && Trails(store, following, payload)
    ensures r == Ok ==> store.payloadCrc == old(store.payloadCrc) && store.begunAt == old(store.begunAt)
    ensures r == Ok && store.compareActive ==> old(store.compareActive) && unchanged(store.flash)
    ensures r != Ok ==> r == WearBudgetExhausted && following && old(store.active.value.generation >= GENERATION_MAX)
    ensures r != Ok ==> |payload| == PAYLOAD_BYTES && old(store.data) + chunk != payload[..|old(store.data) + chunk|]
  {
    hide Backed, Candidate, PayloadAt, SameOutside, NextIsBlank;
    ghost var before := store.flash.cells;
    r := store.Write(chunk);
    if following {
      store.ActiveSlotKept(before, store.flash.cells);
    }
  }
}
