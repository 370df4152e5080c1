/**
 The A/B configuration records: what makes a slot valid, which record a boot selects, and what writing the other slot
 can and cannot change about that. Addresses are relative to slot A.
 */
module ConfigRecord {
  import opened Bytes
  import opened FlashMemory
  import opened Crc

  const SLOT_A: nat := 0
  const SLOT_B: nat := 1024
  const CELLS: nat := 2048
  const PAYLOAD_AT: nat := 0x40
  const PAYLOAD_BYTES: nat := 8
  const GENERATION_MAX: nat := 10000
  const MARKER: seq<byte> := [0x5A, 0xA5]
  const UNMARKED: seq<byte> := [0xFF, 0xFF]

  datatype Result = Ok | Unchanged | BadState | CrcMismatch | ValidationFailed | StorageError | WearBudgetExhausted

  datatype Record = Record(slot: nat, generation: u32, crc: u32)

  predicate IsSlot(slot: nat) {
    slot == SLOT_A || slot == SLOT_B
  }

  function Other(slot: nat): (r: nat)
    requires IsSlot(slot)
    ensures IsSlot(r) && r != slot
  {
    if slot == SLOT_A then SLOT_B else SLOT_A
  }

  /** Magic, envelope version, schema, object type, header size and payload length. */
  const PREFIX: seq<byte> := [0x44, 0x45, 0x55, 0x53, 1, 1, 1, 0, 64, 0, 8, 0]

  /** The 24 bytes the header CRC covers. */
  function Meta(generation: u32, crc: u32): (m: seq<byte>)
    ensures |m| == 24
  {
    PREFIX + Le32(generation) + Le32(crc) + [0, 0, 0, 0]
  }

  /** `oled_ui_layout_config_v1_validate`: a console rectangle inside the panel, below the status bar. */
  predicate ConfigValid(p: seq<byte>) {
    && |p| == PAYLOAD_BYTES
    && p[0] == 1 && p[5] == 0 && p[6] == 0 && p[7] == 0
    && p[3] >= 5 && p[4] >= 6 && p[2] >= 10
    && p[1] as int + p[3] as int <= 128 && p[2] as int + p[4] as int <= 32
  }

  /** The pixels of the console that a configuration describes: x, y, width and height in bytes 1 to 4. */
  predicate InConsole(p: seq<byte>, x: int, y: int)
    requires |p| == 8
  {
    p[1] as int <= x < p[1] as int + p[3] as int && p[2] as int <= y < p[2] as int + p[4] as int
  }

  /** The 128 by 32 pixels of the panel without the status bar, which ends with row 9. */
  predicate BelowBar(x: int, y: int) {
    0 <= x < 128 && 10 <= y < 32
  }

  /** A configuration is valid exactly if its console has room for a character and lies on the panel, below the status bar. */
  lemma ConsoleIsOnPanel(p: seq<byte>)
    ensures ConfigValid(p) <==>
            && |p| == 8 && p[0] == 1 && p[5] == p[6] == p[7] == 0 && p[3] >= 5 && p[4] >= 6
            && forall x, y :: InConsole(p, x, y) ==> BelowBar(x, y)
  {
    if |p| == 8 && p[3] >= 5 && p[4] >= 6 && forall x, y :: InConsole(p, x, y) ==> BelowBar(x, y) {
      assert InConsole(p, p[1] as int, p[2] as int);
      assert InConsole(p, p[1] as int + p[3] as int - 1, p[2] as int + p[4] as int - 1);
    }
  }

  function PayloadAt(cells: seq<byte>, slot: nat): (p: seq<byte>)
    requires |cells| == CELLS && IsSlot(slot)
    ensures |p| == PAYLOAD_BYTES
  {
    cells[slot + PAYLOAD_AT..slot + PAYLOAD_AT + PAYLOAD_BYTES]
  }

  function GenerationAt(cells: seq<byte>, slot: nat): u32
    requires |cells| == CELLS && IsSlot(slot)
  {
    FromLe32(cells[slot + 12..slot + 16])
  }

  function CrcAt(cells: seq<byte>, slot: nat): u32
    requires |cells| == CELLS && IsSlot(slot)
  {
    FromLe32(cells[slot + 16..slot + 20])
  }

  /** The envelope of a record: fixed fields, reserved bytes, the wanted marker, generation range and header CRC. */
  predicate EnvelopeOk(cells: seq<byte>, slot: nat, marker: seq<byte>)
    requires |cells| == CELLS && IsSlot(slot)
  {
    && cells[slot..slot + 12] == PREFIX
    && cells[slot + 20..slot + 24] == [0, 0, 0, 0]
    && cells[slot + 60..slot + 62] == UNMARKED && cells[slot + 62..slot + 64] == marker
    && BlankFrom(cells, slot + 24, slot + 56)
    && 1 <= GenerationAt(cells, slot) <= GENERATION_MAX
    && Crc32(cells[slot..slot + 24]) == FromLe32(cells[slot + 56..slot + 60])
  }

  function Validate(cells: seq<byte>, slot: nat, marker: seq<byte>): Result
    requires |cells| == CELLS && IsSlot(slot)
  {
    if !EnvelopeOk(cells, slot, marker) then StorageError
    else if CrcAt(cells, slot) != Crc32(PayloadAt(cells, slot)) then CrcMismatch
    else if !ConfigValid(PayloadAt(cells, slot)) then ValidationFailed
    else Ok
  }

  predicate Committed(cells: seq<byte>, slot: nat)
    requires |cells| == CELLS && IsSlot(slot)
  {
    Validate(cells, slot, MARKER) == Ok
  }

  function RecordAt(cells: seq<byte>, slot: nat): Record
    requires |cells| == CELLS && IsSlot(slot)
  {
    Record(slot, GenerationAt(cells, slot), CrcAt(cells, slot))
  }

  /** The record a boot activates. Two records of one generation count only if they agree. */
  function BootChoice(cells: seq<byte>): Option<Record>
    requires |cells| == CELLS
  {
    var a, b := Committed(cells, SLOT_A), Committed(cells, SLOT_B);
    var ga, gb := GenerationAt(cells, SLOT_A), GenerationAt(cells, SLOT_B);
    if !a && !b then None
    else if a && !b then Some(RecordAt(cells, SLOT_A))
    else if !a && b then Some(RecordAt(cells, SLOT_B))
    else if ga > gb then Some(RecordAt(cells, SLOT_A))
    else if gb > ga then Some(RecordAt(cells, SLOT_B))
    else if CrcAt(cells, SLOT_A) == CrcAt(cells, SLOT_B) && PayloadAt(cells, SLOT_A) == PayloadAt(cells, SLOT_B)
    then Some(RecordAt(cells, SLOT_A))
    else None
  }

  /** Two committed records always have different generations. */
  predicate Ordered(cells: seq<byte>)
    requires |cells| == CELLS
  {
    Committed(cells, SLOT_A) && Committed(cells, SLOT_B) ==> GenerationAt(cells, SLOT_A) != GenerationAt(cells, SLOT_B)
  }

  /** The slot the next record goes to. */
  function Target(active: Option<Record>): (slot: nat)
    ensures IsSlot(slot)
  {
    if active.Some? && active.value.slot == SLOT_A then SLOT_B else SLOT_A
  }

  function NextGeneration(active: Option<Record>): nat {
    if active.Some? then active.value.generation + 1 else 1
  }

  // ----- what changes a boot's choice -----

  lemma SlotFrame(a: seq<byte>, b: seq<byte>, slot: nat)
    requires |a| == |b| == CELLS && IsSlot(slot)
    requires forall i :: slot <= i < slot + PAGE ==> a[i] == b[i]
    ensures Committed(a, slot) == Committed(b, slot) && RecordAt(a, slot) == RecordAt(b, slot)
    ensures PayloadAt(a, slot) == PayloadAt(b, slot)
  {
    hide Crc32, ConfigValid;
    SlicesAgree(a, b, slot);
  }

  lemma SlicesAgree(a: seq<byte>, b: seq<byte>, slot: nat)
    requires |a| == |b| == CELLS && IsSlot(slot)
    requires forall i :: slot <= i < slot + PAGE ==> a[i] == b[i]
    ensures forall i, j :: slot <= i <= j <= slot + PAGE ==> a[i..j] == b[i..j]
  {
  }

  lemma UnmarkedIsNotCommitted(cells: seq<byte>, slot: nat)
    requires |cells| == CELLS && IsSlot(slot) && cells[slot + 62..slot + 64] != MARKER
    ensures !Committed(cells, slot)
  {
  }

  /** The chosen record is committed in its slot, and the other slot is either void or older. */
  lemma ChoiceFacts(cells: seq<byte>)
    requires |cells| == CELLS && Ordered(cells)
    ensures BootChoice(cells).None? ==> !Committed(cells, SLOT_A) && !Committed(cells, SLOT_B)
    ensures BootChoice(cells).Some? ==>
              var c := BootChoice(cells).value;
              && IsSlot(c.slot) && Committed(cells, c.slot) && c == RecordAt(cells, c.slot)
              && 1 <= c.generation <= GENERATION_MAX && c.crc == Crc32(PayloadAt(cells, c.slot))
              && (Committed(cells, Other(c.slot)) ==> GenerationAt(cells, Other(c.slot)) < c.generation)
  {
    hide EnvelopeOk, ConfigValid, GenerationAt, CrcAt, PayloadAt;
    EnvelopeBounds(cells, SLOT_A);
    EnvelopeBounds(cells, SLOT_B);
  }

  lemma EnvelopeBounds(cells: seq<byte>, slot: nat)
    requires |cells| == CELLS && IsSlot(slot)
    ensures Committed(cells, slot) ==> 1 <= GenerationAt(cells, slot) <= GENERATION_MAX
  {
    hide Crc32;
  }

  predicate Marked(cells: seq<byte>, slot: nat)
    requires |cells| == CELLS && IsSlot(slot)
  {
    cells[slot + 62..slot + 64] == MARKER
  }

  /**
   The flash backs a record held in RAM: it is committed in its slot, and the target slot is void, older, or exactly one
   generation ahead.
   */
  predicate Backed(cells: seq<byte>, active: Option<Record>)
    requires |cells| == CELLS
  {
    && (active.Some? ==> var slot := active.value.slot; IsSlot(slot) && Committed(cells, slot) && active.value == RecordAt(cells, slot))
    && (active.None? ==> !Committed(cells, Other(Target(active))))
    && (Committed(cells, Target(active)) ==> Ahead(cells, active) || GenerationAt(cells, Target(active)) < NextGeneration(active) - 1)
  }

  /** The target slot holds a committed record of the next generation, which RAM does not know about. */
  predicate Ahead(cells: seq<byte>, active: Option<Record>)
    requires |cells| == CELLS
  {
    Committed(cells, Target(active)) && GenerationAt(cells, Target(active)) == NextGeneration(active)
  }

  /** With a backed record in RAM, a boot selects that record, or the one the flash is ahead with. */
  lemma ChoiceOfBacked(cells: seq<byte>, active: Option<Record>)
    requires |cells| == CELLS && Backed(cells, active)
    ensures Ordered(cells)
    ensures BootChoice(cells) == if Ahead(cells, active) then Some(RecordAt(cells, Target(active))) else active
    ensures BootChoice(cells) == active <==> !Ahead(cells, active)
    ensures Ahead(cells, active) ==> BootChoice(cells).value.generation == NextGeneration(active) <= GENERATION_MAX
    ensures active.Some? ==> 1 <= active.value.generation <= GENERATION_MAX && IsSlot(active.value.slot)
                             && active.value.crc == Crc32(PayloadAt(cells, active.value.slot))
  {
    hide EnvelopeOk, ConfigValid, GenerationAt, CrcAt, PayloadAt;
    EnvelopeBounds(cells, SLOT_A);
    EnvelopeBounds(cells, SLOT_B);
  }

  /** What a boot selects is backed, and nothing is ahead of it. */
  lemma ChoiceIsBacked(cells: seq<byte>)
    requires |cells| == CELLS && Ordered(cells)
    ensures Backed(cells, BootChoice(cells)) && !Ahead(cells, BootChoice(cells))
  {
    hide EnvelopeOk, ConfigValid, GenerationAt, CrcAt, PayloadAt, Validate;
    ChoiceFacts(cells);
  }

  /** Until its marker is programmed, nothing written to the target slot lets a boot select anything but the active record. */
  lemma TargetWritesAreInvisible(before: seq<byte>, after: seq<byte>, active: Option<Record>)
    requires |before| == |after| == CELLS && Backed(before, active)
    requires SameOutside(after, before, Target(active), Target(active) + PAGE) && !Marked(after, Target(active))
    ensures Backed(after, active) && !Ahead(after, active) && BootChoice(after) == active
  {
    hide EnvelopeOk, ConfigValid, GenerationAt, CrcAt, PayloadAt, Validate, BootChoice;
    UnmarkedIsNotCommitted(after, Target(active));
    SlotFrame(before, after, Other(Target(active)));
    ChoiceOfBacked(after, active);
  }

  /** A record of the next generation in the target slot is what a boot selects, whether RAM knows it or not. */
  lemma NextGenerationWins(before: seq<byte>, after: seq<byte>, active: Option<Record>)
    requires |before| == |after| == CELLS && Backed(before, active)
    requires var t := Target(active); SameOutside(after, before, t, t + PAGE) && Committed(after, t)
    requires GenerationAt(after, Target(active)) == NextGeneration(active)
    ensures Backed(after, active) && Ahead(after, active)
    ensures var newest := Some(RecordAt(after, Target(active)));
            BootChoice(after) == newest && Backed(after, newest) && !Ahead(after, newest)
  {
    hide EnvelopeOk, ConfigValid, CrcAt, PayloadAt, Validate, BootChoice;
    SlotFrame(before, after, Other(Target(active)));
    ChoiceOfBacked(after, active);
    ChoiceIsBacked(after);
  }

  // ----- a candidate being written -----

  /** How many of n bytes fill whole halfwords. */
  function Paired(n: nat): (r: nat)
    ensures r <= n <= r + 1
  {
    n - n % 2
  }

  lemma PairedSteps(n: nat)
    ensures Paired(Paired(n) + 2) == Paired(n) + 2
    ensures n % 2 == 0 ==> Paired(n) == Paired(n + 1) == n
    ensures n % 2 == 1 ==> Paired(n) == n - 1
  {
  }

  /**
   The payload bytes that fill whole halfwords are in flash, and nothing beyond them, except that the next halfword may
   carry the trace of a program that was reported as failed.
   */
  predicate Stored(cells: seq<byte>, slot: nat, data: seq<byte>)
    requires |cells| == CELLS && IsSlot(slot) && |data| <= PAYLOAD_BYTES
  {
    var even := Paired(|data|);
    && cells[slot + PAYLOAD_AT..slot + PAYLOAD_AT + even] == data[..even]
    && BlankFrom(cells, slot + PAYLOAD_AT + (if even < PAYLOAD_BYTES then even + 2 else even), slot + PAGE)
  }

  /** No failed program left a trace behind the stored bytes. */
  predicate NextIsBlank(cells: seq<byte>, slot: nat, data: seq<byte>)
    requires |cells| == CELLS && IsSlot(slot) && |data| <= PAYLOAD_BYTES
  {
    var even := Paired(|data|);
    even < PAYLOAD_BYTES ==> BlankFrom(cells, slot + PAYLOAD_AT + even, slot + PAYLOAD_AT + even + 2)
  }

  /** The slot as it is after the given bytes, however they arrived. */
  predicate Candidate(cells: seq<byte>, slot: nat, generation: u32, crc: u32, data: seq<byte>)
    requires |cells| == CELLS && IsSlot(slot) && |data| <= PAYLOAD_BYTES
  {
    cells[slot..slot + 24] == Meta(generation, crc) && BlankFrom(cells, slot + 24, slot + PAYLOAD_AT) && Stored(cells, slot, data)
  }

  /** A complete candidate with its header CRC validates exactly as its content deserves. */
  lemma CandidateValidates(cells: seq<byte>, slot: nat, generation: u32, crc: u32, data: seq<byte>, marker: seq<byte>)
    requires |cells| == CELLS && IsSlot(slot) && |data| == PAYLOAD_BYTES && 1 <= generation <= GENERATION_MAX
    requires cells[slot..slot + 24] == Meta(generation, crc) && PayloadAt(cells, slot) == data
    requires cells[slot + 56..slot + 60] == Le32(Crc32(Meta(generation, crc)))
    requires BlankFrom(cells, slot + 24, slot + 56) && BlankFrom(cells, slot + 60, slot + 62)
    requires cells[slot + 62..slot + 64] == marker
    ensures RecordAt(cells, slot) == Record(slot, generation, crc)
    ensures Validate(cells, slot, marker) == (if Crc32(data) != crc then CrcMismatch else if !ConfigValid(data) then ValidationFailed else Ok)
  {
    hide Crc32, ConfigValid;
    MetaFields(cells, slot, generation, crc);
    Le32Inverse(Crc32(Meta(generation, crc)), Le32(0));
    assert cells[slot + 60..slot + 62] == UNMARKED;
  }

  lemma MetaFields(cells: seq<byte>, slot: nat, generation: u32, crc: u32)
    requires |cells| == CELLS && IsSlot(slot) && cells[slot..slot + 24] == Meta(generation, crc)
    ensures cells[slot..slot + 12] == PREFIX && cells[slot + 20..slot + 24] == [0, 0, 0, 0]
    ensures GenerationAt(cells, slot) == generation && CrcAt(cells, slot) == crc
  {
    hide Le32, FromLe32;
    var m := cells[slot..slot + 24];
    SubSlice(cells, slot, slot + 24, 0, 12);
    SubSlice(cells, slot, slot + 24, 12, 16);
    SubSlice(cells, slot, slot + 24, 16, 20);
    SubSlice(cells, slot, slot + 24, 20, 24);
    assert m[..12] == PREFIX && m[12..16] == Le32(generation) && m[16..20] == Le32(crc) && m[20..24] == [0, 0, 0, 0];
    Le32Inverse(generation, Le32(0));
    Le32Inverse(crc, Le32(0));
  }

  lemma BlankSlotsBootNothing(cells: seq<byte>)
    requires |cells| == CELLS && BlankFrom(cells, 0, CELLS)
    ensures Ordered(cells) && BootChoice(cells) == None
  {
    assert cells[SLOT_A + 62..SLOT_A + 64][0] == BLANK && cells[SLOT_B + 62..SLOT_B + 64][0] == BLANK;
    UnmarkedIsNotCommitted(cells, SLOT_A);
    UnmarkedIsNotCommitted(cells, SLOT_B);
  }
}
