/**
 The two checksums of the system: CRC-16/CCITT-FALSE (frames, node link, bootloader packets) and CRC-32 (configuration
 records, node jobs), the loops that compute them, and the error class CRC-16 never misses.
 */
module Crc {
  import opened Bytes

  // ----- CRC-16/CCITT-FALSE -----

  predicate TopSet(crc: bv16) { crc & 0x8000 != 0 }
  function Plain(crc: bv16): bv16 { crc << 1 }
  function Fed(crc: bv16): bv16 { (crc << 1) ^ 0x1021 }

  function Shift16(crc: bv16): bv16 {
    if TopSet(crc) then Fed(crc) else Plain(crc)
  }

  function Shifts16(crc: bv16, n: nat): bv16 {
    if n == 0 then crc else Shift16(Shifts16(crc, n - 1))
  }

  /** A byte in the upper half of the register. */
  function TopByte(b: byte): bv16 {
    ((b as bv8) as bv16) << 8
  }

  /** Addition of registers as polynomials over GF(2). */
  function Mix(x: bv16, y: bv16): bv16 {
    x ^ y
  }

  function Update16(crc: bv16, b: byte): bv16 {
    Shifts16(Mix(crc, TopByte(b)), 8)
  }

  function Run16(crc: bv16, data: seq<byte>): bv16 {
    if data == [] then crc else Update16(Run16(crc, data[..|data| - 1]), data[|data| - 1])
  }

  function Crc16(data: seq<byte>): u16 {
    Run16(0xFFFF, data) as int
  }

  method ComputeUpdate16(crc: bv16, b: byte) returns (r: bv16)
    ensures r == Update16(crc, b)
  {
    hide Mix, TopByte, TopSet, Plain, Fed;
    r := Mix(crc, TopByte(b));
    for bit := 0 to 8
      invariant r == Shifts16(Mix(crc, TopByte(b)), bit)
    {
      if TopSet(r) {
        r := Fed(r);
      } else {
        r := Plain(r);
      }
    }
  }

  method ComputeCrc16(data: seq<byte>) returns (crc: u16)
    ensures crc == Crc16(data)
  {
    hide Update16;
    var r: bv16 := 0xFFFF;
    for i := 0 to |data|
      invariant r == Run16(0xFFFF, data[..i])
    {
      r := ComputeUpdate16(r, data[i]);
      assert data[..i + 1][..i] == data[..i];
    }
    assert data[..|data|] == data;
    crc := r as int;
  }

  // ----- what CRC-16 detects -----

  // Facts about single expressions, which the solver decides bit by bit. Everything above them treats
  // `Mix`, `Shift16` and `TopByte` as unknown functions that obey these laws.

  lemma XorCancels(x: bv16, y: bv16, p: bv16)
    requires x ^ p == y ^ p
    ensures x == y
  {
  }

  lemma XorExchange(x: bv16, y: bv16, p: bv16, q: bv16)
    requires x ^ p == y ^ q
    ensures x ^ y == p ^ q
  {
  }

  lemma XorShares(x: bv16, p: bv16, q: bv16, u: bv16, v: bv16)
    requires u == x ^ p && v == x ^ q
    ensures u ^ v == p ^ q
  {
  }

  lemma PolynomialCancels(x: bv16, y: bv16)
    requires (x << 1) ^ 0x1021 == (y << 1) ^ 0x1021
    ensures x << 1 == y << 1
  {
  }

  lemma PlainDistributes(x: bv16, y: bv16, m: bv16, a: bv16, b: bv16)
    requires m == x ^ y && a == x << 1 && b == y << 1
    ensures m << 1 == a ^ b
  {
  }

  lemma FedDistributes(x: bv16, y: bv16, m: bv16, a: bv16, b: bv16)
    requires m == x ^ y && a == (x << 1) ^ 0x1021 && b == y << 1
    ensures (m << 1) ^ 0x1021 == a ^ b
    ensures (m << 1) ^ 0x1021 == b ^ a
  {
  }

  lemma FeedbackCancels(x: bv16, y: bv16, m: bv16, a: bv16, b: bv16)
    requires m == x ^ y && a == (x << 1) ^ 0x1021 && b == (y << 1) ^ 0x1021
    ensures m << 1 == a ^ b
  {
  }

  lemma TopBitsAdd(x: bv16, y: bv16, m: bv16)
    requires m == x ^ y
    ensures x & 0x8000 == 0 && y & 0x8000 == 0 ==> m & 0x8000 == 0
    ensures x & 0x8000 != 0 && y & 0x8000 == 0 ==> m & 0x8000 != 0
    ensures x & 0x8000 == 0 && y & 0x8000 != 0 ==> m & 0x8000 != 0
    ensures x & 0x8000 != 0 && y & 0x8000 != 0 ==> m & 0x8000 == 0
  {
  }

  lemma ShiftLosesTopBit(x: bv16, y: bv16)
    requires x << 1 == y << 1
    ensures x & 0x8000 == 0 && y & 0x8000 == 0 ==> x == y
    ensures x & 0x8000 != 0 && y & 0x8000 != 0 ==> x == y
  {
  }

  lemma FeedbackIsOdd(x: bv16, y: bv16)
    ensures (x << 1) ^ 0x1021 != y << 1
  {
  }

  // The laws.

  lemma MixCancels(x: bv16, y: bv16, p: bv16)
    requires Mix(x, p) == Mix(y, p)
    ensures x == y
  {
    XorCancels(x, y, p);
  }

  lemma MixExchange(x: bv16, y: bv16, p: bv16, q: bv16)
    requires Mix(x, p) == Mix(y, q)
    ensures Mix(x, y) == Mix(p, q)
  {
    XorExchange(x, y, p, q);
  }

  lemma MixShares(x: bv16, p: bv16, q: bv16)
    ensures Mix(Mix(x, p), Mix(x, q)) == Mix(p, q)
  {
    XorShares(x, p, q, Mix(x, p), Mix(x, q));
  }

  lemma MixCommutes(x: bv16, y: bv16)
    ensures Mix(x, y) == Mix(y, x)
  {
  }

  lemma PlainInjective(x: bv16, y: bv16)
    requires Plain(x) == Plain(y) && TopSet(x) == TopSet(y)
    ensures x == y
  {
    ShiftLosesTopBit(x, y);
  }

  lemma FedInjective(x: bv16, y: bv16)
    requires Fed(x) == Fed(y)
    ensures Plain(x) == Plain(y)
  {
    PolynomialCancels(x, y);
  }

  lemma FedIsNotPlain(x: bv16, y: bv16)
    ensures Fed(x) != Plain(y)
  {
    FeedbackIsOdd(x, y);
  }

  lemma TopSetMix(x: bv16, y: bv16)
    ensures TopSet(Mix(x, y)) <==> TopSet(x) != TopSet(y)
  {
    TopBitsAdd(x, y, Mix(x, y));
  }

  lemma PlainMix(x: bv16, y: bv16)
    ensures Plain(Mix(x, y)) == Mix(Plain(x), Plain(y))
  {
    PlainDistributes(x, y, Mix(x, y), Plain(x), Plain(y));
  }

  lemma FedMix(x: bv16, y: bv16)
    ensures Fed(Mix(x, y)) == Mix(Fed(x), Plain(y))
  {
    FedDistributes(x, y, Mix(x, y), Fed(x), Plain(y));
  }

  lemma FedTwiceMix(x: bv16, y: bv16)
    ensures Plain(Mix(x, y)) == Mix(Fed(x), Fed(y))
  {
    FeedbackCancels(x, y, Mix(x, y), Fed(x), Fed(y));
  }

  lemma Shift16Injective(x: bv16, y: bv16)
    requires Shift16(x) == Shift16(y)
    ensures x == y
  {
    hide TopSet, Plain, Fed;
    FedIsNotPlain(x, y);
    FedIsNotPlain(y, x);
    if TopSet(x) {
      FedInjective(x, y);
    }
    PlainInjective(x, y);
  }

  lemma Shift16Linear(x: bv16, y: bv16)
    ensures Shift16(Mix(x, y)) == Mix(Shift16(x), Shift16(y))
  {
    hide TopSet, Plain, Fed, Mix;
    TopSetMix(x, y);
    if TopSet(x) == TopSet(y) {
      PlainMix(x, y);
      FedTwiceMix(x, y);
    } else {
      FedMix(x, y);
      FedMix(y, x);
      MixCommutes(x, y);
      MixCommutes(Plain(x), Fed(y));
    }
  }

  lemma {:induction false} Shifts16Injective(x: bv16, y: bv16, n: nat)
    requires Shifts16(x, n) == Shifts16(y, n)
    ensures x == y
  {
    hide Shift16;
    if n > 0 {
      Shift16Injective(Shifts16(x, n - 1), Shifts16(y, n - 1));
      Shifts16Injective(x, y, n - 1);
    }
  }

  lemma {:induction false} Shifts16Linear(x: bv16, y: bv16, n: nat)
    ensures Shifts16(Mix(x, y), n) == Mix(Shifts16(x, n), Shifts16(y, n))
  {
    hide Shift16, Mix;
    if n > 0 {
      Shift16Linear(Shifts16(x, n - 1), Shifts16(y, n - 1));
      Shifts16Linear(x, y, n - 1);
    }
  }

  predicate HighNibbleClear(x: bv16) { x & 0xF000 == 0 }
  function Nibble(x: bv16): bv16 { x << 4 }

  /** Eight shifts move a low byte to the top without feedback. */
  lemma LowByteMovesUp(e: bv16)
    requires e & 0xFF00 == 0
    ensures Shifts16(e, 8) == e << 8
  {
    hide Shifts16, Nibble, HighNibbleClear;
    ShiftsNone(e);
    NibblesClear(e);
    FourShiftsPlain(e, 0, e);
    FourShiftsPlain(e, 4, Nibble(e));
  }

  lemma ShiftsNone(e: bv16)
    ensures Shifts16(e, 0) == e
  {
  }

  lemma NibblesClear(e: bv16)
    requires e & 0xFF00 == 0
    ensures HighNibbleClear(e) && HighNibbleClear(Nibble(e)) && Nibble(Nibble(e)) == e << 8
  {
    TwoNibbles(e, Nibble(e));
  }

  lemma TwoNibbles(e: bv16, x: bv16)
    requires e & 0xFF00 == 0 && x == e << 4
    ensures e & 0xF000 == 0 && x & 0xF000 == 0 && x << 4 == e << 8
  {
  }

  lemma BitsClear(x: bv16, a: bv16, b: bv16, c: bv16)
    requires HighNibbleClear(x) && a == Plain(x) && b == Plain(a) && c == Plain(b)
    ensures !TopSet(x) && !TopSet(a) && !TopSet(b) && !TopSet(c) && Plain(c) == Nibble(x)
  {
    FourBits(x, a, b, c);
  }

  lemma FourBits(x: bv16, a: bv16, b: bv16, c: bv16)
    requires x & 0xF000 == 0 && a == x << 1 && b == a << 1 && c == b << 1
    ensures x & 0x8000 == 0 && a & 0x8000 == 0 && b & 0x8000 == 0 && c & 0x8000 == 0
    ensures c << 1 == x << 4
  {
  }

  lemma FourShiftsPlain(e: bv16, n: nat, x: bv16)
    requires Shifts16(e, n) == x && HighNibbleClear(x)
    ensures Shifts16(e, n + 4) == Nibble(x)
  {
    hide Shifts16, Nibble, HighNibbleClear, TopSet, Plain;
    var a := Plain(x);
    var b := Plain(a);
    var c := Plain(b);
    BitsClear(x, a, b, c);
    ShiftsPlain(e, n, x);
    ShiftsPlain(e, n + 1, a);
    ShiftsPlain(e, n + 2, b);
    ShiftsPlain(e, n + 3, c);
  }

  lemma ShiftsPlain(e: bv16, n: nat, x: bv16)
    requires Shifts16(e, n) == x && !TopSet(x)
    ensures Shifts16(e, n + 1) == Plain(x)
  {
    hide TopSet, Plain, Fed;
  }

  lemma TopByteInjective(a: byte, b: byte)
    requires TopByte(a) == TopByte(b)
    ensures a == b
  {
    WidenInjective(a as bv8, b as bv8);
    AsBv8Injective(a, b);
  }

  lemma WidenInjective(x: bv8, y: bv8)
    requires (x as bv16) << 8 == (y as bv16) << 8
    ensures x == y
  {
  }

  /** Feeding the same byte keeps registers apart. */
  lemma Update16KeepsDifference(x: bv16, y: bv16, a: byte)
    requires Update16(x, a) == Update16(y, a)
    ensures x == y
  {
    hide Mix, TopByte, Shifts16;
    Shifts16Injective(Mix(x, TopByte(a)), Mix(y, TopByte(a)), 8);
    MixCancels(x, y, TopByte(a));
  }

  /** Feeding different bytes sets equal registers apart. */
  lemma Update16SeesByte(x: bv16, a: byte, b: byte)
    requires Update16(x, a) == Update16(x, b)
    ensures a == b
  {
    hide Mix, TopByte, Shifts16;
    Shifts16Injective(Mix(x, TopByte(a)), Mix(x, TopByte(b)), 8);
    MixCommutes(x, TopByte(a));
    MixCommutes(x, TopByte(b));
    MixCancels(TopByte(a), TopByte(b), x);
    TopByteInjective(a, b);
  }

  /** Two bytes cannot undo each other: the first difference, pushed through eight shifts, is never a mere top byte. */
  lemma TwoUpdatesSeeBytes(x: bv16, a: byte, a': byte, b: byte, b': byte)
    requires Update16(Update16(x, a), b) == Update16(Update16(x, a'), b')
    ensures a == a'
  {
    hide Mix, TopByte, Shifts16;
    var p, q := Mix(x, TopByte(a)), Mix(x, TopByte(a'));
    var u, v := Shifts16(p, 8), Shifts16(q, 8);
    Shifts16Injective(Mix(u, TopByte(b)), Mix(v, TopByte(b')), 8);
    MixExchange(u, v, TopByte(b), TopByte(b'));
    Shifts16Linear(p, q, 8);
    MixShares(x, TopByte(a), TopByte(a'));
    var low := LowDifference(b, b');
    Shifts16Injective(Mix(TopByte(a), TopByte(a')), low, 8);
    HighIsNotLow(a, a', low);
  }

  lemma LowDifference(b: byte, b': byte) returns (low: bv16)
    ensures low & 0xFF00 == 0 && Shifts16(low, 8) == Mix(TopByte(b), TopByte(b'))
  {
    var x: bv8, y: bv8 := b as bv8, b' as bv8;
    low := (x as bv16) ^ (y as bv16);
    WidenedXor(x, y);
    LowByteMovesUp(low);
  }

  lemma WidenedXor(x: bv8, y: bv8)
    ensures ((x as bv16) ^ (y as bv16)) & 0xFF00 == 0
    ensures ((x as bv16) ^ (y as bv16)) << 8 == ((x as bv16) << 8) ^ ((y as bv16) << 8)
  {
  }

  lemma HighIsNotLow(a: byte, a': byte, low: bv16)
    requires Mix(TopByte(a), TopByte(a')) == low && low & 0xFF00 == 0
    ensures a == a'
  {
    var x: bv8, y: bv8 := a as bv8, a' as bv8;
    HighXorLow(x, y);
    AsBv8Injective(a, a');
  }

  lemma HighXorLow(x: bv8, y: bv8)
    requires (((x as bv16) << 8) ^ ((y as bv16) << 8)) & 0xFF00 == 0
    ensures x == y
  {
  }

  /** A common tail never merges two different registers. */
  lemma {:induction false} TailKeepsDifference(x: bv16, y: bv16, tail: seq<byte>)
    requires x != y
    ensures Run16(x, tail) != Run16(y, tail)
  {
    hide Update16;
    if tail != [] {
      var init, last := tail[..|tail| - 1], tail[|tail| - 1];
      TailKeepsDifference(x, y, init);
      if Update16(Run16(x, init), last) == Update16(Run16(y, init), last) {
        Update16KeepsDifference(Run16(x, init), Run16(y, init), last);
      }
    }
  }

  lemma Run16Step(crc: bv16, data: seq<byte>, b: byte)
    ensures Run16(crc, data + [b]) == Update16(Run16(crc, data), b)
  {
    hide Update16;
    assert (data + [b])[..|data|] == data;
  }

  lemma {:induction false} Run16Append(crc: bv16, a: seq<byte>, b: seq<byte>)
    ensures Run16(crc, a + b) == Run16(Run16(crc, a), b)
  {
    hide Update16;
    if b == [] {
      assert a + b == a;
    } else {
      Run16Append(crc, a, b[..|b| - 1]);
      assert (a + b)[..|a + b| - 1] == a + b[..|b| - 1];
    }
  }

  /** Data altered in one byte, or in two adjacent ones, never has the same CRC-16. */
  lemma ShortBurstDetected(data: seq<byte>, altered: seq<byte>, at: nat, width: nat)
    requires |data| == |altered| && data != altered && 1 <= width <= 2 && at + width <= |data|
    requires forall i :: 0 <= i < |data| && !(at <= i < at + width) ==> data[i] == altered[i]
    ensures Crc16(data) != Crc16(altered)
  {
    hide Update16;
    var head, tail := data[..at], data[at + width..];
    var was, now := data[at..at + width], altered[at..at + width];
    ThreeParts(data, altered, at, width);
    Run16Append(0xFFFF, head, was + tail);
    Run16Append(0xFFFF, head, now + tail);
    var x := Run16(0xFFFF, head);
    Run16Append(x, was, tail);
    Run16Append(x, now, tail);
    BurstChangesRegister(x, was, now);
    TailKeepsDifference(Run16(x, was), Run16(x, now), tail);
    AsIntInjective(Run16(0xFFFF, data), Run16(0xFFFF, altered));
  }

  /** Strings that differ only in a window share what lies around it. */
  lemma ThreeParts(s: seq<byte>, t: seq<byte>, at: nat, width: nat)
    requires |s| == |t| && at + width <= |s|
    requires forall i :: 0 <= i < |s| && !(at <= i < at + width) ==> s[i] == t[i]
    ensures s == s[..at] + (s[at..at + width] + s[at + width..])
    ensures t == s[..at] + (t[at..at + width] + s[at + width..])
  {
    assert t[..at] == s[..at] && t[at + width..] == s[at + width..];
  }

  lemma BurstChangesRegister(x: bv16, was: seq<byte>, now: seq<byte>)
    requires |was| == |now| && 1 <= |was| <= 2 && was != now
    ensures Run16(x, was) != Run16(x, now)
  {
    hide Update16;
    RunOfTwo(x, was);
    RunOfTwo(x, now);
    if |was| == 1 {
      if Update16(x, was[0]) == Update16(x, now[0]) {
        Update16SeesByte(x, was[0], now[0]);
      }
    } else if Update16(Update16(x, was[0]), was[1]) == Update16(Update16(x, now[0]), now[1]) {
      TwoUpdatesSeeBytes(x, was[0], now[0], was[1], now[1]);
      Update16SeesByte(Update16(x, was[0]), was[1], now[1]);
    }
  }

  lemma RunOfTwo(x: bv16, s: seq<byte>)
    requires 1 <= |s| <= 2
    ensures Run16(x, s) == if |s| == 1 then Update16(x, s[0]) else Update16(Update16(x, s[0]), s[1])
  {
    hide Update16;
    assert s[..1][..0] == [];
    assert Run16(x, s[..1]) == Update16(Run16(x, []), s[0]);
  }

  lemma AsIntInjective(x: bv16, y: bv16)
    ensures x as int == y as int ==> x == y
  {
    assert (x as int) as bv16 == x && (y as int) as bv16 == y;
  }

  const CHECK: seq<byte> := [0x31, 0x32, 0x33, 0x34, 0x35, 0x36, 0x37, 0x38, 0x39]

  /** The check value of CRC-16/CCITT-FALSE, over the ASCII digits 1 to 9. */
  lemma Check16()
    ensures Crc16(CHECK) == 0x29B1
  {
    hide Update16;
    var register: seq<bv16> := [0xFFFF, 0xC782, 0x3DBA, 0x5BCE, 0x5349, 0x4560, 0x2EF4, 0x7718, 0xA12B, 0x29B1];
    Steps16();
    for i := 0 to 9
      invariant Run16(0xFFFF, CHECK[..i]) == register[i]
    {
      assert CHECK[..i + 1] == CHECK[..i] + [CHECK[i]];
      Run16Step(0xFFFF, CHECK[..i], CHECK[i]);
    }
    assert CHECK[..9] == CHECK;
  }

  lemma Steps16()
    ensures Update16(0xFFFF, 0x31) == 0xC782
    ensures Update16(0xC782, 0x32) == 0x3DBA
    ensures Update16(0x3DBA, 0x33) == 0x5BCE
    ensures Update16(0x5BCE, 0x34) == 0x5349
    ensures Update16(0x5349, 0x35) == 0x4560
    ensures Update16(0x4560, 0x36) == 0x2EF4
    ensures Update16(0x2EF4, 0x37) == 0x7718
    ensures Update16(0x7718, 0x38) == 0xA12B
    ensures Update16(0xA12B, 0x39) == 0x29B1
  {
  }

  // ----- CRC-32 -----

  predicate LowSet(crc: bv32) { crc & 1 != 0 }
  function Half(crc: bv32): bv32 { crc >> 1 }
  function HalfFed(crc: bv32): bv32 { (crc >> 1) ^ 0xEDB8_8320 }

  function Shift32(crc: bv32): bv32 {
    if LowSet(crc) then HalfFed(crc) else Half(crc)
  }

  function Shifts32(crc: bv32, n: nat): bv32 {
    if n == 0 then crc else Shift32(Shifts32(crc, n - 1))
  }

  function LowByte(crc: bv32, b: byte): bv32 {
    crc ^ ((b as bv8) as bv32)
  }

  function Update32(crc: bv32, b: byte): bv32 {
    Shifts32(LowByte(crc, b), 8)
  }

  function Run32(crc: bv32, data: seq<byte>): bv32 {
    if data == [] then crc else Update32(Run32(crc, data[..|data| - 1]), data[|data| - 1])
  }

  /** A word as a number, half by half. */
  function Number(w: bv32): u32 {
    0x1_0000 * Value(HighHalf(w)) + Value(LowHalf(w))
  }

  function Value(x: bv16): u16 { x as int }
  function LowHalf(w: bv32): bv16 { (w & 0xFFFF) as bv16 }
  function HighHalf(w: bv32): bv16 { (w >> 16) as bv16 }

  function Complement(crc: bv32): u32 {
    Number(crc ^ 0xFFFF_FFFF)
  }

  function Crc32(data: seq<byte>): u32 {
    Complement(Run32(0xFFFF_FFFF, data))
  }

  /** The configuration store's branch-free shift; the node link branches on the low bit. */
  function Masked32(crc: bv32): bv32 {
    var mask := 0 - (crc & 1);
    (crc >> 1) ^ (0xEDB8_8320 & mask)
  }

  method ComputeUpdate32(crc: bv32, b: byte) returns (r: bv32)
    ensures r == Update32(crc, b)
  {
    hide Shift32, LowByte, Masked32;
    r := LowByte(crc, b);
    for bit := 0 to 8
      invariant r == Shifts32(LowByte(crc, b), bit)
    {
      MaskedShift32(r);
      r := Masked32(r);
    }
  }

  lemma MaskedShift32(crc: bv32)
    ensures Masked32(crc) == Shift32(crc)
  {
    assert crc & 1 == 0 || crc & 1 == 1;
  }

  method ComputeCrc32(data: seq<byte>) returns (crc: u32)
    ensures crc == Crc32(data)
  {
    hide Update32, Complement;
    var r: bv32 := 0xFFFF_FFFF;
    for i := 0 to |data|
      invariant r == Run32(0xFFFF_FFFF, data[..i])
    {
      r := ComputeUpdate32(r, data[i]);
      assert data[..i + 1][..i] == data[..i];
    }
    assert data[..|data|] == data;
    crc := Complement(r);
  }

  // ----- what CRC-32 is -----

  /** Addition of registers as polynomials over GF(2). */
  function Mix32(x: bv32, y: bv32): bv32 {
    x ^ y
  }

  // Facts about single expressions again, and the laws on top of them.

  lemma HalfDistributes(x: bv32, y: bv32, m: bv32, a: bv32, b: bv32)
    requires m == x ^ y && a == x >> 1 && b == y >> 1
    ensures m >> 1 == a ^ b
  {
  }

  lemma HalfFedDistributes(x: bv32, y: bv32, m: bv32, a: bv32, b: bv32)
    requires m == x ^ y && a == (x >> 1) ^ 0xEDB8_8320 && b == y >> 1
    ensures (m >> 1) ^ 0xEDB8_8320 == a ^ b
    ensures (m >> 1) ^ 0xEDB8_8320 == b ^ a
  {
  }

  lemma HalfFeedbackCancels(x: bv32, y: bv32, m: bv32, a: bv32, b: bv32)
    requires m == x ^ y && a == (x >> 1) ^ 0xEDB8_8320 && b == (y >> 1) ^ 0xEDB8_8320
    ensures m >> 1 == a ^ b
  {
  }

  lemma LowBitsAdd(x: bv32, y: bv32, m: bv32)
    requires m == x ^ y
    ensures x & 1 == 0 && y & 1 == 0 ==> m & 1 == 0
    ensures x & 1 != 0 && y & 1 == 0 ==> m & 1 != 0
    ensures x & 1 == 0 && y & 1 != 0 ==> m & 1 != 0
    ensures x & 1 != 0 && y & 1 != 0 ==> m & 1 == 0
  {
  }

  lemma LowSetMix(x: bv32, y: bv32)
    ensures LowSet(Mix32(x, y)) <==> LowSet(x) != LowSet(y)
  {
    LowBitsAdd(x, y, Mix32(x, y));
  }

  lemma HalfMix(x: bv32, y: bv32)
    ensures Half(Mix32(x, y)) == Mix32(Half(x), Half(y))
  {
    HalfDistributes(x, y, Mix32(x, y), Half(x), Half(y));
  }

  lemma HalfFedMix(x: bv32, y: bv32)
    ensures HalfFed(Mix32(x, y)) == Mix32(HalfFed(x), Half(y)) == Mix32(Half(y), HalfFed(x))
  {
    HalfFedDistributes(x, y, Mix32(x, y), HalfFed(x), Half(y));
  }

  lemma HalfFedTwiceMix(x: bv32, y: bv32)
    ensures Half(Mix32(x, y)) == Mix32(HalfFed(x), HalfFed(y))
  {
    HalfFeedbackCancels(x, y, Mix32(x, y), HalfFed(x), HalfFed(y));
  }

  lemma Mix32Commutes(x: bv32, y: bv32)
    ensures Mix32(x, y) == Mix32(y, x)
  {
  }

  lemma Shift32Linear(x: bv32, y: bv32)
    ensures Shift32(Mix32(x, y)) == Mix32(Shift32(x), Shift32(y))
  {
    hide LowSet, Half, HalfFed, Mix32;
    LowSetMix(x, y);
    if LowSet(x) == LowSet(y) {
      HalfMix(x, y);
      HalfFedTwiceMix(x, y);
    } else {
      HalfFedMix(x, y);
      HalfFedMix(y, x);
      Mix32Commutes(x, y);
    }
  }

  lemma {:induction false} Shifts32Linear(x: bv32, y: bv32, n: nat)
    ensures Shifts32(Mix32(x, y), n) == Mix32(Shifts32(x, n), Shifts32(y, n))
  {
    hide Shift32, Mix32;
    if n > 0 {
      Shift32Linear(Shifts32(x, n - 1), Shifts32(y, n - 1));
      Shifts32Linear(x, y, n - 1);
    }
  }

  lemma {:induction false} Shifts32Add(x: bv32, a: nat, b: nat)
    ensures Shifts32(Shifts32(x, a), b) == Shifts32(x, a + b)
  {
    hide Shift32;
    if b > 0 {
      Shifts32Add(x, a, b - 1);
    }
  }

  predicate LowNibbleClear(x: bv32) { x & 0xF == 0 }
  function NibbleDown(x: bv32): bv32 { x >> 4 }

  /** Eight shifts move a register without its low byte down without feedback. */
  lemma HighMovesDown(e: bv32)
    requires e & 0xFF == 0
    ensures Shifts32(e, 8) == e >> 8
  {
    hide Shifts32, NibbleDown, LowNibbleClear;
    Shifts32None(e);
    LowNibblesClear(e);
    FourShifts32Plain(e, 0, e);
    FourShifts32Plain(e, 4, NibbleDown(e));
  }

  lemma Shifts32None(e: bv32)
    ensures Shifts32(e, 0) == e
  {
  }

  lemma LowNibblesClear(e: bv32)
    requires e & 0xFF == 0
    ensures LowNibbleClear(e) && LowNibbleClear(NibbleDown(e)) && NibbleDown(NibbleDown(e)) == e >> 8
  {
    TwoLowNibbles(e, NibbleDown(e));
  }

  lemma TwoLowNibbles(e: bv32, x: bv32)
    requires e & 0xFF == 0 && x == e >> 4
    ensures e & 0xF == 0 && x & 0xF == 0 && x >> 4 == e >> 8
  {
  }

  lemma LowBitsClear(x: bv32, a: bv32, b: bv32, c: bv32)
    requires LowNibbleClear(x) && a == Half(x) && b == Half(a) && c == Half(b)
    ensures !LowSet(x) && !LowSet(a) && !LowSet(b) && !LowSet(c) && Half(c) == NibbleDown(x)
  {
    hide LowSet, Half, NibbleDown;
    HalfIs(x);
    HalfIs(a);
    HalfIs(b);
    HalfIs(c);
    FourLowBits(x, a, b, c);
    LowClear(x);
    LowClear(a);
    LowClear(b);
    LowClear(c);
  }

  lemma HalfIs(x: bv32)
    ensures Half(x) == x >> 1 && NibbleDown(x) == x >> 4
  {
  }

  lemma LowClear(x: bv32)
    ensures x & 1 == 0 ==> !LowSet(x)
  {
  }

  lemma FourLowBits(x: bv32, a: bv32, b: bv32, c: bv32)
    requires x & 0xF == 0 && a == x >> 1 && b == a >> 1 && c == b >> 1
    ensures x & 1 == 0 && a & 1 == 0 && b & 1 == 0 && c & 1 == 0
    ensures c >> 1 == x >> 4
  {
  }

  lemma FourShifts32Plain(e: bv32, n: nat, x: bv32)
    requires Shifts32(e, n) == x && LowNibbleClear(x)
    ensures Shifts32(e, n + 4) == NibbleDown(x)
  {
    hide Shifts32, NibbleDown, LowNibbleClear, LowSet, Half;
    var a := Half(x);
    var b := Half(a);
    var c := Half(b);
    LowBitsClear(x, a, b, c);
    Shifts32Plain(e, n, x);
    Shifts32Plain(e, n + 1, a);
    Shifts32Plain(e, n + 2, b);
    Shifts32Plain(e, n + 3, c);
  }

  lemma Shifts32Plain(e: bv32, n: nat, x: bv32)
    requires Shifts32(e, n) == x && !LowSet(x)
    ensures Shifts32(e, n + 1) == Half(x)
  {
    hide LowSet, Half, HalfFed;
  }

  function Low(w: bv32): bv32 { w & 0xFF }
  function Down(w: bv32): bv32 { w >> 8 }

  /** A register and a whole word absorb the word's low byte first, and the rest of the word moves down. */
  lemma Absorb(x: bv32, w: bv32)
    ensures Shifts32(Mix32(x, w), 8) == Mix32(Shifts32(Mix32(x, Low(w)), 8), Down(w))
  {
    hide Shifts32, Mix32, Low, Down;
    var rest := Mix32(w, Low(w));
    MixAssociates(x, w, Low(w));
    RestOfWord(w);
    Shifts32Linear(Mix32(x, Low(w)), rest, 8);
  }

  lemma MixAssociates(x: bv32, w: bv32, low: bv32)
    ensures Mix32(x, w) == Mix32(Mix32(x, low), Mix32(w, low))
  {
    XorTwice(x, w, low, Mix32(x, low), Mix32(w, low));
  }

  lemma XorTwice(x: bv32, w: bv32, low: bv32, p: bv32, q: bv32)
    requires p == x ^ low && q == w ^ low
    ensures x ^ w == p ^ q
  {
  }

  lemma RestOfWord(w: bv32)
    ensures Shifts32(Mix32(w, Low(w)), 8) == Down(w)
  {
    hide Shifts32, Low, Down, Mix32;
    WordParts(w);
    MixIs(w, Low(w));
    WithoutLowByte(w, Low(w), Mix32(w, Low(w)));
    HighMovesDown(Mix32(w, Low(w)));
  }

  lemma WordParts(w: bv32)
    ensures Low(w) == w & 0xFF && Down(w) == w >> 8
  {
  }

  lemma MixIs(x: bv32, y: bv32)
    ensures Mix32(x, y) == x ^ y
  {
  }

  lemma WithoutLowByte(w: bv32, low: bv32, rest: bv32)
    requires low == w & 0xFF && rest == w ^ low
    ensures rest & 0xFF == 0 && rest >> 8 == w >> 8
  {
  }

  function Widened(b: byte): bv32 {
    (b as bv8) as bv32
  }

  lemma UpdateMixes(x: bv32, b: byte)
    ensures Update32(x, b) == Shifts32(Mix32(x, Widened(b)), 8)
  {
    hide Shifts32;
  }

  /** Feeding a word's four bytes, low byte first, is 32 shifts of register and word together. */
  lemma FeedWord(x: bv32, w: bv32, b: seq<byte>)
    requires |b| == 4 && Widened(b[0]) == Low(w) && Widened(b[1]) == Low(Down(w))
    requires Widened(b[2]) == Low(Down(Down(w))) && Widened(b[3]) == Down(Down(Down(w)))
    ensures Run32(x, b) == Shifts32(Mix32(x, w), 32)
  {
    hide Shifts32, Mix32, Widened, Run32, Low, Down, Update32;
    var r1 := Update32(x, b[0]);
    var r2 := Update32(r1, b[1]);
    var r3 := Update32(r2, b[2]);
    RunOfFour(x, b);
    UpdateMixes(x, b[0]);
    UpdateMixes(r1, b[1]);
    UpdateMixes(r2, b[2]);
    UpdateMixes(r3, b[3]);
    Absorb(x, w);
    Absorb(r1, Down(w));
    Absorb(r2, Down(Down(w)));
    var m := Mix32(x, w);
    Shifts32Add(m, 8, 8);
    Shifts32Add(m, 16, 8);
    Shifts32Add(m, 24, 8);
  }

  lemma RunOfFour(x: bv32, b: seq<byte>)
    requires |b| == 4
    ensures Run32(x, b) == Update32(Update32(Update32(Update32(x, b[0]), b[1]), b[2]), b[3])
  {
    hide Update32;
    Run32Step(x, b, 0);
    Run32Step(x, b, 1);
    Run32Step(x, b, 2);
    Run32Step(x, b, 3);
    assert b[..0] == [] && b[..4] == b;
  }

  /** The bytes of a word as a number are the bytes of its bits. */
  lemma WordBytes(w: bv32)
    ensures var b := Le32(Number(w));
            && Widened(b[0]) == Low(w) && Widened(b[1]) == Low(Down(w))
            && Widened(b[2]) == Low(Down(Down(w))) && Widened(b[3]) == Down(Down(Down(w)))
  {
    hide Widened, Low, Down, Value, LowHalf, HighHalf;
    HalvesInWord(Number(w), Value(HighHalf(w)), Value(LowHalf(w)));
    HalfBytes(LowHalf(w));
    HalfBytes(HighHalf(w));
    BytesOfHalves(w);
  }

  lemma HalvesInWord(n: u32, high: u16, low: u16)
    requires n == 0x1_0000 * high as int + low as int
    ensures Le32(n) == Le16(low) + Le16(high)
  {
    hide Le16;
    assert n % 0x1_0000 == low && n / 0x1_0000 == high;
  }

  lemma BytesInHalf(n: u16, high: byte, low: byte)
    requires n as int == 0x100 * high as int + low as int
    ensures Le16(n) == [low, high]
  {
  }

  lemma SplitInBytes(x: bv16, high: bv8, low: bv8)
    requires high == (x >> 8) as bv8 && low == (x & 0xFF) as bv8
    ensures x as int == 0x100 * (high as int) + low as int
  {
  }

  function LowOf(x: bv16): bv8 { (x & 0xFF) as bv8 }
  function HighOf(x: bv16): bv8 { (x >> 8) as bv8 }
  function ByteValue(v: bv8): byte { v as int }

  lemma HalfBytes(x: bv16)
    ensures Widened(Le16(Value(x))[0]) == LowOf(x) as bv32 && Widened(Le16(Value(x))[1]) == HighOf(x) as bv32
  {
    hide Widened, LowOf, HighOf, Value, ByteValue;
    HalfNumber(x);
    BytesInHalf(Value(x), ByteValue(HighOf(x)), ByteValue(LowOf(x)));
    WidenedIs(LowOf(x));
    WidenedIs(HighOf(x));
  }

  lemma HalfNumber(x: bv16)
    ensures Value(x) as int == 0x100 * ByteValue(HighOf(x)) as int + ByteValue(LowOf(x)) as int
  {
    SplitInBytes(x, HighOf(x), LowOf(x));
  }

  lemma WidenedIs(v: bv8)
    ensures Widened(ByteValue(v)) == v as bv32
  {
    FromInt(v, ByteValue(v));
  }

  lemma BytesOfHalves(w: bv32)
    ensures LowOf(LowHalf(w)) as bv32 == Low(w) && HighOf(LowHalf(w)) as bv32 == Low(Down(w))
    ensures LowOf(HighHalf(w)) as bv32 == Low(Down(Down(w))) && HighOf(HighHalf(w)) as bv32 == Down(Down(Down(w)))
  {
    hide Low, Down, LowHalf, HighHalf, LowOf, HighOf;
    var d := Down(w);
    var e := Down(d);
    WordParts(w);
    WordParts(d);
    WordParts(e);
    HalvesAre(w);
    PartsAre(LowHalf(w));
    PartsAre(HighHalf(w));
    FourBytes(w, d, e, HighHalf(w), LowHalf(w));
  }

  lemma HalvesAre(w: bv32)
    ensures LowHalf(w) == (w & 0xFFFF) as bv16 && HighHalf(w) == (w >> 16) as bv16
  {
  }

  lemma PartsAre(x: bv16)
    ensures LowOf(x) == (x & 0xFF) as bv8 && HighOf(x) == (x >> 8) as bv8
  {
  }

  lemma FourBytes(w: bv32, d: bv32, e: bv32, high: bv16, low: bv16)
    requires high == (w >> 16) as bv16 && low == (w & 0xFFFF) as bv16 && d == w >> 8 && e == d >> 8
    ensures ((low & 0xFF) as bv8) as bv32 == w & 0xFF && ((low >> 8) as bv8) as bv32 == d & 0xFF
    ensures ((high & 0xFF) as bv8) as bv32 == e & 0xFF && ((high >> 8) as bv8) as bv32 == e >> 8
  {
  }

  lemma {:induction false} Run32Append(crc: bv32, a: seq<byte>, b: seq<byte>)
    ensures Run32(crc, a + b) == Run32(Run32(crc, a), b)
  {
    hide Update32;
    if b == [] {
      assert a + b == a;
    } else {
      Run32Append(crc, a, b[..|b| - 1]);
      assert (a + b)[..|a + b| - 1] == a + b[..|b| - 1];
    }
  }

  /** Data followed by its own CRC-32 always leaves the register at the residue of CRC-32. */
  lemma Residue32(data: seq<byte>)
    ensures Run32(0xFFFF_FFFF, data + Le32(Crc32(data))) == 0xDEBB_20E3
  {
    hide Run32, Shifts32, Mix32, Number, Widened, Low, Down, Le32;
    var ones: bv32 := 0xFFFF_FFFF;
    var r := Run32(ones, data);
    var w := Mix32(r, ones);
    Complements(r);
    Run32Append(ones, data, Le32(Number(w)));
    WordBytes(w);
    FeedWord(r, w, Le32(Number(w)));
    AllOnes();
  }

  lemma Complements(r: bv32)
    ensures var w := Mix32(r, 0xFFFF_FFFF); Mix32(r, w) == 0xFFFF_FFFF && Complement(r) == Number(w)
  {
  }

  lemma AllOnes()
    ensures Shifts32(0xFFFF_FFFF, 32) == 0xDEBB_20E3
  {
    hide Shifts32;
    OnesByByte();
    var ones: bv32 := 0xFFFF_FFFF;
    Shifts32Add(ones, 8, 8);
    Shifts32Add(ones, 16, 8);
    Shifts32Add(ones, 24, 8);
  }

  lemma OnesByByte()
    ensures Shifts32(0xFFFF_FFFF, 8) == 0x2DFD_1072 && Shifts32(0x2DFD_1072, 8) == 0xBE26_ED00
    ensures Shifts32(0xBE26_ED00, 8) == 0x00BE_26ED && Shifts32(0x00BE_26ED, 8) == 0xDEBB_20E3
  {
  }

  /** The check value of CRC-32, over the ASCII digits 1 to 9. */
  lemma Check32()
    ensures Crc32(CHECK) == 0xCBF4_3926
  {
    hide Update32;
    var register: seq<bv32> := [
      0xFFFF_FFFF, 0x7C23_1048, 0xB0AC_BB32, 0x77B7_9C2D, 0x641C_1F5C, 0x340A_C5E3, 0xF68D_2C9E, 0xAFFC_9660, 0x651F_2550, 0x340B_C6D9];
    Steps32();
    for i := 0 to 9
      invariant Run32(0xFFFF_FFFF, CHECK[..i]) == register[i]
    {
      Run32Step(0xFFFF_FFFF, CHECK, i);
    }
    assert CHECK[..9] == CHECK;
  }

  lemma Run32Step(crc: bv32, data: seq<byte>, i: nat)
    requires i < |data|
    ensures Run32(crc, data[..i + 1]) == Update32(Run32(crc, data[..i]), data[i])
  {
    hide Update32;
    assert data[..i + 1][..i] == data[..i];
  }

  lemma Steps32()
    ensures Update32(0xFFFF_FFFF, 0x31) == 0x7C23_1048
    ensures Update32(0x7C23_1048, 0x32) == 0xB0AC_BB32
    ensures Update32(0xB0AC_BB32, 0x33) == 0x77B7_9C2D
    ensures Update32(0x77B7_9C2D, 0x34) == 0x641C_1F5C
    ensures Update32(0x641C_1F5C, 0x35) == 0x340A_C5E3
    ensures Update32(0x340A_C5E3, 0x36) == 0xF68D_2C9E
    ensures Update32(0xF68D_2C9E, 0x37) == 0xAFFC_9660
    ensures Update32(0xAFFC_9660, 0x38) == 0x651F_2550
    ensures Update32(0x651F_2550, 0x39) == 0x340B_C6D9
  {
  }
}
