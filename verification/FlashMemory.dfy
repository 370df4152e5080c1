/**
 The NOR flash contract shared by the bootloader and the configuration store
 (`flash_erase_page`/`flash_program_halfword` and `flash_persistence_*`).

 Erasing a page sets every byte to 0xFF. A halfword can be programmed only from 0xFFFF and is read back.
 What the hardware does to each operation is given by a list of fates, so a statement about every list is a
 statement about every pattern of faults and about power being lost between, or in the middle of, any two
 operations. Power loss is modelled as "nothing has an effect any more until the next reset".
 */
module FlashMemory {
  import opened Bytes

  const PAGE: nat := 1024

  /** How much of an operation reached the cells. Erasure is atomic: for it, `Torn` counts as `Untouched`. */
  datatype Effect = Untouched | Applied | Torn(low: byte, high: byte)

  /** `Fault` is an operation the driver reports as failed; `PowerLoss` is the last thing that happens before a reset. */
  datatype Fate = Works | Fault(effect: Effect) | PowerLoss(effect: Effect)

  predicate BlankFrom(cells: seq<byte>, from: nat, to: nat)
    requires to <= |cells|
  {
    forall i :: from <= i < to ==> cells[i] == BLANK
  }

  predicate SameOutside(a: seq<byte>, b: seq<byte>, from: nat, to: nat) {
    |a| == |b| && forall i :: 0 <= i < |a| && !(from <= i < to) ==> a[i] == b[i]
  }

  lemma SliceKept(after: seq<byte>, before: seq<byte>, low: nat, high: nat, from: nat, to: nat)
    requires SameOutside(after, before, low, high) && from <= to <= |after| && (to <= low || high <= from)
    ensures after[from..to] == before[from..to]
  {
  }

  lemma TwoMore(s: seq<byte>, from: nat, to: nat)
    requires from <= to && to + 2 <= |s|
    ensures s[from..to + 2] == s[from..to] + [s[to], s[to + 1]]
  {
  }

  /** The cells after `bytes` were written over the ones at `at`. */
  function Overwritten(cells: seq<byte>, at: nat, bytes: seq<byte>): (r: seq<byte>)
    requires at + |bytes| <= |cells|
    ensures |r| == |cells|
    ensures forall i :: 0 <= i < |cells| ==> r[i] == if at <= i < at + |bytes| then bytes[i - at] else cells[i]
  {
    cells[..at] + bytes + cells[at + |bytes|..]
  }

  function Blanks(n: nat): (r: seq<byte>)
    ensures |r| == n && forall i :: 0 <= i < n ==> r[i] == BLANK
  {
    seq<byte>(n, _ => BLANK)
  }

  class Flash {
    var cells: seq<byte>
    var fates: seq<Fate>
    var powered: bool
    var attempts: nat  // operations that reached the controller

    constructor (cells: seq<byte>, fates: seq<Fate>)
      ensures this.cells == cells && this.fates == fates && powered && attempts == 0
    {
      this.cells, this.fates, powered, attempts := cells, fates, true, 0;
    }

    /** Nothing will go wrong. */
    predicate Healthy()
      reads this
    {
      powered && forall i :: 0 <= i < |fates| ==> fates[i].Works?
    }

    /** The controller executes one operation: takes its fate from the list. */
    method Execute() returns (ok: bool, effect: Effect)
      modifies this`fates, this`powered, this`attempts
      ensures attempts == if old(powered) then old(attempts) + 1 else old(attempts)
      ensures old(Healthy()) ==> Healthy() && ok
      ensures ok ==> effect == Applied && powered && old(powered)
      ensures old(powered && fates != [] && fates[0].Fault?) ==> !ok && effect == old(fates)[0].effect && powered && fates == old(fates)[1..]
      ensures !old(powered) ==> effect == Untouched && !powered
      ensures powered ==> old(powered)
    {
      if !powered {
        return false, Untouched;
      }
      attempts := attempts + 1;
      if fates == [] {
        return true, Applied;
      }
      var fate := fates[0];
      fates := fates[1..];
      match fate
      case Works => return true, Applied;
      case Fault(e) => return false, e;
      case PowerLoss(e) =>
        powered := false;
        return false, e;
    }

    method ErasePage(page: nat) returns (ok: bool)
      modifies this
      ensures page % PAGE != 0 || page + PAGE > |cells| ==> !ok && cells == old(cells) && fates == old(fates)
      ensures page % PAGE != 0 || page + PAGE > |cells| ==> powered == old(powered)
      ensures |cells| == |old(cells)|
      ensures SameOutside(cells, old(cells), page, page + PAGE)
      ensures ok ==> page % PAGE == 0 && page + PAGE <= |cells| && BlankFrom(cells, page, page + PAGE) && powered
      ensures !ok ==> cells == old(cells) || (page + PAGE <= |cells| && BlankFrom(cells, page, page + PAGE))
      ensures old(Healthy()) ==> Healthy() && (page % PAGE == 0 && page + PAGE <= |cells| ==> ok)
      ensures powered ==> old(powered)
      ensures attempts >= old(attempts)
    {
      if page % PAGE != 0 || page + PAGE > |cells| {
        return false;
      }
      var effect;
      ok, effect := Execute();
      if effect == Applied {
        cells := Overwritten(cells, page, Blanks(PAGE));
      }
    }

    /** Programs the halfword `low`, `high` at the even address `at`. */
    method ProgramHalfword(at: nat, low: byte, high: byte) returns (ok: bool)
      modifies this
      ensures |cells| == |old(cells)|
      ensures SameOutside(cells, old(cells), at, at + 2)
      ensures ok ==> at % 2 == 0 && at + 2 <= |cells| && cells[at] == low && cells[at + 1] == high
      ensures ok ==> BlankFrom(old(cells), at, at + 2)
      ensures ok ==> powered == old(powered)
      ensures !old(powered) ==> cells == old(cells) && !powered
      ensures old(powered && fates != [] && fates[0] == Fault(Applied)) && at % 2 == 0 && at + 2 <= |cells| && BlankFrom(old(cells), at, at + 2)
              && (low != BLANK || high != BLANK) ==>
                !ok && powered && cells[at] == low && cells[at + 1] == high && fates == old(fates)[1..]
      ensures old(Healthy()) ==>
                Healthy() && (ok <==> at % 2 == 0 && at + 2 <= |cells| && BlankFrom(old(cells), at, at + 2))
      ensures powered ==> old(powered)
      ensures attempts >= old(attempts)
    {
      if at % 2 != 0 || at + 2 > |cells| {
        return false;
      }
      if low == BLANK && high == BLANK {
        return cells[at] == BLANK && cells[at + 1] == BLANK;
      }
      if cells[at] != BLANK || cells[at + 1] != BLANK {
        return false;
      }
      var effect;
      ok, effect := Execute();
      match effect {
        case Untouched =>
        case Applied => cells := Overwritten(cells, at, [low, high]);
        case Torn(l, h) => cells := Overwritten(cells, at, [l, h]);
      }
    }

    /** Programs an even number of bytes, halfword by halfword, and stops at the first failure. */
    method ProgramBytes(at: nat, bytes: seq<byte>) returns (ok: bool)
      modifies this
      ensures |cells| == |old(cells)|
      ensures SameOutside(cells, old(cells), at, at + |bytes|)
      ensures ok ==> |bytes| % 2 == 0
      ensures ok && bytes != [] ==> at + |bytes| <= |cells| && cells[at..at + |bytes|] == bytes
      ensures ok && bytes != [] ==> BlankFrom(old(cells), at, at + |bytes|)
      ensures old(Healthy()) ==> Healthy()
      ensures old(Healthy()) && at % 2 == 0 && |bytes| % 2 == 0 && at + |bytes| <= |cells| && BlankFrom(old(cells), at, at + |bytes|) ==> ok
      ensures powered ==> old(powered)
      ensures ok ==> powered == old(powered)
      ensures attempts >= old(attempts)
    {
      if |bytes| % 2 != 0 {
        return false;
      }
      var i := 0;
      while i < |bytes|
        invariant 0 <= i <= |bytes| && i % 2 == 0
        invariant |cells| == |old(cells)|
        invariant i > 0 ==> at + i <= |cells| && at % 2 == 0
        invariant SameOutside(cells, old(cells), at, at + i)
        invariant forall k :: 0 <= k < i ==> cells[at + k] == bytes[k]
        invariant i > 0 ==> BlankFrom(old(cells), at, at + i)
        invariant old(Healthy()) ==> Healthy()
        invariant powered == old(powered)
        invariant attempts >= old(attempts)
      {
        ok := ProgramHalfword(at + i, bytes[i], bytes[i + 1]);
        if !ok {
          return;
        }
        i := i + 2;
      }
      return true;
    }
  }
}
