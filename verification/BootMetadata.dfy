/**
 The authenticated bootloader: what its two metadata slots mean, the BEGIN/AUTHORIZE/DATA/END update over
 flash, and the boot decision. The hash and the MAC are arbitrary functions here.

 Flash addresses are relative to the application base 0x08002000.
 */
module BootMetadata {
  import opened Bytes
  import opened FlashMemory

  const APP_BASE: nat := 0x0800_2000
  const APP_MAX: nat := 53248
  const META_A: nat := 0xD000
  const META_B: nat := 0xD400
  const CELLS: nat := 0xD800
  const RAM_BASE: nat := 0x2000_0000
  const RAM_END: nat := 0x2000_5000
  const PRODUCT_ID: nat := 0x534F_4544
  const TARGET_DEVICE: nat := 0x0410
  const MARKER_AT: nat := 0x50
  const MARKER: seq<byte> := [0x5A, 0xA5]
  const NO_SLOT: nat := 0

  /** The parts of the system the update logic treats as given. */
  datatype Device = Device(digest: seq<byte> -> seq<byte>, mac: seq<byte> -> seq<byte>, id: u16)

  datatype UpdateState = Idle | Staged | Authorized | Receiving | Verifying | Committed

  datatype Status =
    | Ok | InvalidState | BadLength | BadFlags | BadHeader | AuthFailed | TargetMismatch
    | VersionRejected | OutOfSequence | FlashFailed | DigestFailed | VectorInvalid | InternalError

  // ----- what a 48-byte header says -----

  function ImageLength(h: seq<byte>): u32
    requires |h| == 48
  {
    FromLe32(h[8..12])
  }

  function VersionOf(h: seq<byte>): u32
    requires |h| == 48
  {
    FromLe32(h[12..16])
  }

  predicate StructuralValid(h: seq<byte>)
    requires |h| == 48
  {
    && h[4] == 1 && h[5] == 0
    && 8 <= ImageLength(h) <= APP_MAX && ImageLength(h) % 4 == 0
    && VersionOf(h) != 0
  }

  predicate TargetValid(dev: Device, h: seq<byte>)
    requires |h| == 48
  {
    FromLe32(h[..4]) == PRODUCT_ID && FromLe16(h[6..8]) == TARGET_DEVICE && dev.id == TARGET_DEVICE
  }

  // ----- what the flash says -----

  predicate VectorsValid(cells: seq<byte>, length: nat)
    requires |cells| == CELLS
  {
    var msp, reset := FromLe32(cells[..4]), FromLe32(cells[4..8]);
    && 8 <= length <= APP_MAX
    && msp % 8 == 0 && RAM_BASE <= msp <= RAM_END
    && reset % 2 == 1 && APP_BASE <= reset - 1 < APP_BASE + length
  }

  /** The application area holds the image this header describes, and its vectors are usable. */
  predicate Runnable(dev: Device, cells: seq<byte>, h: seq<byte>)
    requires |cells| == CELLS && |h| == 48 && StructuralValid(h)
  {
    dev.digest(cells[..ImageLength(h)]) == h[16..] && VectorsValid(cells, ImageLength(h))
  }

  predicate IsSlot(slot: nat) {
    slot == META_A || slot == META_B
  }

  function Other(slot: nat): (r: nat)
    requires IsSlot(slot)
    ensures IsSlot(r) && r != slot
  {
    if slot == META_A then META_B else META_A
  }

  function HeaderAt(cells: seq<byte>, slot: nat): (h: seq<byte>)
    requires |cells| == CELLS && IsSlot(slot)
    ensures |h| == 48
  {
    cells[slot..slot + 48]
  }

  /** The slot carries the commit marker and an authentic header for this device. */
  predicate Genuine(dev: Device, cells: seq<byte>, slot: nat)
    requires |cells| == CELLS && IsSlot(slot)
  {
    var h := HeaderAt(cells, slot);
    && cells[slot + MARKER_AT..slot + MARKER_AT + 2] == MARKER
    && StructuralValid(h)
    && dev.mac(h) == cells[slot + 48..slot + 80]
    && TargetValid(dev, h)
  }

  /** The version a slot vouches for, or 0. */
  function SlotVersion(dev: Device, cells: seq<byte>, slot: nat): nat
    requires |cells| == CELLS && IsSlot(slot)
  {
    if Genuine(dev, cells, slot) then VersionOf(HeaderAt(cells, slot)) else 0
  }

  /** The version that could be booted on the word of this slot, or 0. */
  function BootableVersion(dev: Device, cells: seq<byte>, slot: nat): nat
    requires |cells| == CELLS && IsSlot(slot)
  {
    if Genuine(dev, cells, slot) && Runnable(dev, cells, HeaderAt(cells, slot)) then VersionOf(HeaderAt(cells, slot)) else 0
  }

  function Max(a: nat, b: nat): nat {
    if a < b then b else a
  }

  /** The anti-rollback floor: the highest version any slot vouches for. */
  function Floor(dev: Device, cells: seq<byte>): nat
    requires |cells| == CELLS
  {
    Max(SlotVersion(dev, cells, META_A), SlotVersion(dev, cells, META_B))
  }

  /** The version a boot without an update request hands off to, or 0. */
  function BootVersion(dev: Device, cells: seq<byte>): nat
    requires |cells| == CELLS
  {
    Max(BootableVersion(dev, cells, META_A), BootableVersion(dev, cells, META_B))
  }

  /** If this slot is genuine and newer than a genuine other one, the application is this slot's image. */
  predicate RunsIfNewer(dev: Device, cells: seq<byte>, slot: nat)
    requires |cells| == CELLS && IsSlot(slot)
  {
    Genuine(dev, cells, slot) && Genuine(dev, cells, Other(slot))
    && SlotVersion(dev, cells, Other(slot)) < SlotVersion(dev, cells, slot)
    ==> Runnable(dev, cells, HeaderAt(cells, slot))
  }

  predicate Settled(dev: Device, cells: seq<byte>)
    requires |cells| == CELLS
  {
    RunsIfNewer(dev, cells, META_A) && RunsIfNewer(dev, cells, META_B)
  }

  /** A slot depends on its own first 82 bytes only. */
  lemma SlotFrame(dev: Device, a: seq<byte>, b: seq<byte>, slot: nat)
    requires |a| == |b| == CELLS && IsSlot(slot)
    requires forall i :: slot <= i < slot + MARKER_AT + 2 ==> a[i] == b[i]
    ensures Genuine(dev, a, slot) == Genuine(dev, b, slot)
    ensures HeaderAt(a, slot) == HeaderAt(b, slot)
    ensures SlotVersion(dev, a, slot) == SlotVersion(dev, b, slot)
  {
    assert HeaderAt(a, slot) == HeaderAt(b, slot);
    assert a[slot + 48..slot + 80] == b[slot + 48..slot + 80];
    assert a[slot + MARKER_AT..slot + MARKER_AT + 2] == b[slot + MARKER_AT..slot + MARKER_AT + 2];
  }

  /** Whether an image runs depends on the application area only. */
  lemma RunnableFrame(dev: Device, a: seq<byte>, b: seq<byte>, h: seq<byte>)
    requires |a| == |b| == CELLS && |h| == 48 && StructuralValid(h)
    requires forall i :: 0 <= i < APP_MAX ==> a[i] == b[i]
    ensures Runnable(dev, a, h) == Runnable(dev, b, h)
  {
    assert a[..ImageLength(h)] == b[..ImageLength(h)];
    assert a[..4] == b[..4] && a[4..8] == b[4..8];
  }

  /** In settled flash a boot runs the floor version or nothing: never something older. */
  lemma BootsTheFloorOrNothing(dev: Device, cells: seq<byte>)
    requires |cells| == CELLS && Settled(dev, cells)
    ensures BootVersion(dev, cells) == 0 || BootVersion(dev, cells) == Floor(dev, cells)
  {
  }

  /** Metadata that was never written is settled, with floor 0. */
  lemma BlankMetadataIsSettled(dev: Device, cells: seq<byte>)
    requires |cells| == CELLS && BlankFrom(cells, META_A, CELLS)
    ensures Settled(dev, cells) && Floor(dev, cells) == 0 && BootVersion(dev, cells) == 0
  {
    UnmarkedIsNotGenuine(dev, cells, META_A);
    UnmarkedIsNotGenuine(dev, cells, META_B);
  }

  lemma UnmarkedIsNotGenuine(dev: Device, cells: seq<byte>, slot: nat)
    requires |cells| == CELLS && IsSlot(slot) && cells[slot + MARKER_AT] != 0x5A
    ensures !Genuine(dev, cells, slot)
  {
    assert cells[slot + MARKER_AT..slot + MARKER_AT + 2][0] == cells[slot + MARKER_AT];
  }

  /** With one slot not genuine, everything rests on the other. */
  lemma OneGenuineSlot(dev: Device, cells: seq<byte>, slot: nat)
    requires |cells| == CELLS && IsSlot(slot) && !Genuine(dev, cells, slot)
    ensures Settled(dev, cells) && Floor(dev, cells) == SlotVersion(dev, cells, Other(slot))
  {
  }

  /** Writes that stay out of the other slot and leave this one unmarked keep flash settled. */
  lemma UnmarkedSlotKeepsFloor(dev: Device, before: seq<byte>, after: seq<byte>, slot: nat)
    requires |before| == |after| == CELLS && IsSlot(slot)
    requires after[slot + MARKER_AT] != 0x5A
    requires forall i :: Other(slot) <= i < Other(slot) + PAGE ==> after[i] == before[i]
    ensures !Genuine(dev, after, slot) && Settled(dev, after)
    ensures Floor(dev, after) == SlotVersion(dev, before, Other(slot))
  {
    UnmarkedIsNotGenuine(dev, after, slot);
    SlotFrame(dev, before, after, Other(slot));
    OneGenuineSlot(dev, after, slot);
  }

  /** Whatever the marker program leaves behind, a slot already holding an acceptable header keeps flash settled. */
  lemma CommitStep(dev: Device, before: seq<byte>, after: seq<byte>, slot: nat, header: seq<byte>)
    requires |before| == |after| == CELLS && IsSlot(slot) && |header| == 48 && StructuralValid(header)
    requires !Genuine(dev, before, slot) && Floor(dev, before) <= VersionOf(header)
    requires HeaderAt(before, slot) == header && Runnable(dev, before, header)
    requires SameOutside(after, before, slot + MARKER_AT, slot + MARKER_AT + 2)
    ensures Settled(dev, after) && Floor(dev, before) <= Floor(dev, after)
    ensures Genuine(dev, after, slot) ==> BootVersion(dev, after) == Floor(dev, after) == VersionOf(header)
  {
    OneGenuineSlot(dev, before, slot);
    SlotFrame(dev, before, after, Other(slot));
    RunnableFrame(dev, before, after, header);
    assert HeaderAt(after, slot) == header;
    if !Genuine(dev, after, slot) {
      OneGenuineSlot(dev, after, slot);
    } else {
      BootsTheFloorOrNothing(dev, after);
    }
  }

  /** Header, tag and marker in place make a slot genuine. */
  lemma MarkedIsGenuine(dev: Device, before: seq<byte>, after: seq<byte>, slot: nat, header: seq<byte>)
    requires |before| == |after| == CELLS && IsSlot(slot) && |header| == 48
    requires StructuralValid(header) && TargetValid(dev, header)
    requires HeaderAt(before, slot) == header && before[slot + 48..slot + 80] == dev.mac(header)
    requires SameOutside(after, before, slot + MARKER_AT, slot + MARKER_AT + 2)
    requires after[slot + MARKER_AT] == MARKER[0] && after[slot + MARKER_AT + 1] == MARKER[1]
    ensures Genuine(dev, after, slot)
  {
    assert HeaderAt(after, slot) == header;
    assert after[slot + 48..slot + 80] == before[slot + 48..slot + 80];
    assert after[slot + MARKER_AT..slot + MARKER_AT + 2] == MARKER;
  }

  lemma HeaderWritten(cells: seq<byte>, slot: nat, header: seq<byte>)
    requires |cells| == CELLS && IsSlot(slot) && |header| == 48 && cells[slot..slot + |header|] == header
    ensures HeaderAt(cells, slot) == header
  {
  }

  /** Writing the tag leaves the header alone. */
  lemma HeaderBeforeTag(before: seq<byte>, after: seq<byte>, slot: nat)
    requires |before| == |after| == CELLS && IsSlot(slot) && SameOutside(after, before, slot + 48, slot + 80)
    ensures HeaderAt(after, slot) == HeaderAt(before, slot)
  {
  }

  // ----- the transfer in progress -----

  function PageEnd(offset: nat): nat {
    (offset / PAGE + 1) * PAGE
  }

  /** What holds between AUTHORIZE and the END (or failure) that follows it. */
  predicate InTransfer(dev: Device, cells: seq<byte>, header: seq<byte>, tag: seq<byte>, target: nat, offset: nat, stream: seq<byte>) {
    && |cells| == CELLS && |header| == 48 && StructuralValid(header) && TargetValid(dev, header)
    && tag == dev.mac(header) && |tag| == 32
    && IsSlot(target) && BlankFrom(cells, target, target + PAGE)
    && Floor(dev, cells) <= VersionOf(header)
    && offset <= ImageLength(header) && offset % 2 == 0
    && stream == cells[..offset]
    && (offset % PAGE != 0 ==> BlankFrom(cells, offset, PageEnd(offset)))
  }

  /** The shape tests a DATA payload must pass. */
  predicate ChunkShape(offset: nat, length: nat, image: nat) {
    && offset % 2 == 0 && length % 2 == 0 && 2 <= length <= 48
    && offset + length <= image && offset % PAGE + length <= PAGE
  }

  /** Pages do not straddle chunks, nor the end of the application area. */
  lemma ChunkStaysInPage(offset: nat, length: nat, image: nat)
    requires ChunkShape(offset, length, image) && image <= APP_MAX
    ensures offset + length <= PageEnd(offset) <= APP_MAX
    ensures offset % PAGE == 0 ==> PageEnd(offset) == offset + PAGE
    ensures (offset + length) % PAGE != 0 ==> PageEnd(offset + length) == PageEnd(offset)
    ensures offset + length <= image && (offset + length) % 2 == 0
  {
    var q, r := offset / PAGE, offset % PAGE;
    assert offset == q * PAGE + r;
    if r + length < PAGE {
      InPage(q, r + length);
    } else {
      InPage(q + 1, 0);
    }
  }

  lemma InPage(q: nat, r: nat)
    requires r < PAGE
    ensures (q * PAGE + r) / PAGE == q && (q * PAGE + r) % PAGE == r
  {
  }

  lemma PrefixExtends(before: seq<byte>, after: seq<byte>, offset: nat, chunk: seq<byte>)
    requires |before| == |after| && offset + |chunk| <= |after|
    requires forall i :: 0 <= i < offset ==> after[i] == before[i]
    requires after[offset..offset + |chunk|] == chunk
    ensures after[..offset + |chunk|] == before[..offset] + chunk
  {
    assert after[..offset] == before[..offset];
    assert after[..offset + |chunk|] == after[..offset] + after[offset..offset + |chunk|];
  }

  /** Writing the next chunk at the stream's end, into a page that is blank from there on, extends the transfer by it. */
  lemma ChunkExtendsTransfer(dev: Device, before: seq<byte>, after: seq<byte>, header: seq<byte>, tag: seq<byte>,
                             target: nat, offset: nat, stream: seq<byte>, chunk: seq<byte>)
    requires InTransfer(dev, before, header, tag, target, offset, stream)
    requires ChunkShape(offset, |chunk|, ImageLength(header))
    requires SameOutside(after, before, offset, PageEnd(offset))
    requires offset + |chunk| <= PageEnd(offset) <= APP_MAX
    requires after[offset..offset + |chunk|] == chunk && BlankFrom(after, offset + |chunk|, PageEnd(offset))
    requires Floor(dev, after) == Floor(dev, before)
    ensures InTransfer(dev, after, header, tag, target, offset + |chunk|, stream + chunk)
  {
    hide Floor, BlankFrom, SameOutside, TargetValid, PageEnd, ChunkShape, ImageLength, VersionOf;
    ChunkStaysInPage(offset, |chunk|, ImageLength(header));
    BelowIsKept(before, after, offset, PageEnd(offset));
    PrefixExtends(before, after, offset, chunk);
    BlankIsKept(before, after, offset, PageEnd(offset), target, target + PAGE);
  }

  lemma BelowIsKept(before: seq<byte>, after: seq<byte>, low: nat, high: nat)
    requires |before| == CELLS && SameOutside(after, before, low, high)
    ensures |after| == CELLS && forall i :: 0 <= i < low && i < CELLS ==> after[i] == before[i]
  {
  }

  lemma BlankIsKept(before: seq<byte>, after: seq<byte>, low: nat, high: nat, start: nat, end: nat)
    requires |before| == |after| == CELLS && end <= CELLS && high <= start
    requires SameOutside(after, before, low, high) && BlankFrom(before, start, end)
    ensures BlankFrom(after, start, end)
  {
  }
}
