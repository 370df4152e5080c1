/** Bytes and the little-endian integers that every wire format and flash record here is made of. */
module Bytes {

  type byte = n: int | 0 <= n < 0x100
  type u16 = n: int | 0 <= n < 0x1_0000
  type u32 = n: int | 0 <= n < 0x1_0000_0000

  datatype Option<T> = None | Some(value: T)

  const BLANK: byte := 0xFF  // an erased flash byte

  function Le16(n: u16): (s: seq<byte>)
    ensures |s| == 2
  {
    [n % 0x100, n / 0x100]
  }

  function Le32(n: u32): (s: seq<byte>)
    ensures |s| == 4
  {
    Le16(n % 0x1_0000) + Le16(n / 0x1_0000)
  }

  function FromLe16(s: seq<byte>): u16
    requires |s| == 2
  {
    var low: int, high: int := s[0], s[1];
    low + 0x100 * high
  }

  function FromLe32(s: seq<byte>): u32
    requires |s| == 4
  {
    var low: int, high: int := FromLe16(s[..2]), FromLe16(s[2..]);
    low + 0x1_0000 * high
  }

  /** Byte i of a field has the weight 256^i. */
  lemma LittleEndian(s: seq<byte>)
    requires |s| == 4
    ensures FromLe16(s[..2]) == s[0] as int + 256 * s[1] as int
    ensures FromLe32(s) == s[0] as int + 256 * s[1] as int + 65536 * s[2] as int + 16777216 * s[3] as int
  {
    assert s[..2] == [s[0], s[1]] && s[2..] == [s[2], s[3]];
  }

  lemma Le16Inverse(n: u16, s: seq<byte>)
    requires |s| == 2
    ensures FromLe16(Le16(n)) == n
    ensures Le16(FromLe16(s)) == s
  {
  }

  lemma Le32Inverse(n: u32, s: seq<byte>)
    requires |s| == 4
    ensures FromLe32(Le32(n)) == n
    ensures Le32(FromLe32(s)) == s
  {
    hide Le16, FromLe16;
    Le16Inverse(n % 0x1_0000, s[..2]);
    Le16Inverse(n / 0x1_0000, s[2..]);
    assert s == s[..2] + s[2..];
  }

  lemma SubSlice(s: seq<byte>, from: nat, to: nat, i: nat, j: nat)
    requires from + i <= from + j <= to <= |s|
    ensures s[from..to][i..j] == s[from + i..from + j]
  {
    forall k | 0 <= k < j - i ensures s[from..to][i..j][k] == s[from + i..from + j][k] {
      assert s[from..to][i..j][k] == s[from..to][i + k] == s[from + i + k];
    }
  }

  const WORD: nat := 0x1_0000_0000  // where a 32-bit counter wraps

  lemma WordRemainder(d: int, k: int, r: int)
    requires d == r + WORD * k && 0 <= r < WORD
    ensures d % WORD == r
  {
  }

  /** Counting with wrap-around keeps in step with counting. */
  lemma WrapAdd(n: nat, step: nat)
    ensures (n % WORD + step) % WORD == (n + step) % WORD
  {
  }

  lemma BelowWord(n: nat)
    requires n < WORD
    ensures n % WORD == n
  {
  }

  /** What a 32-bit counter keeps of n. */
  function Low32(n: nat): u32 {
    n % WORD
  }

  /** The pieces of a message, put together. */
  function Joined(chunks: seq<seq<byte>>): seq<byte> {
    if chunks == [] then [] else Joined(chunks[..|chunks| - 1]) + chunks[|chunks| - 1]
  }

  lemma JoinedStep(chunks: seq<seq<byte>>, i: nat)
    requires i < |chunks|
    ensures Joined(chunks[..i + 1]) == Joined(chunks[..i]) + chunks[i]
  {
    assert chunks[..i + 1][..i] == chunks[..i];
  }

  lemma {:induction false} JoinedPrefix(chunks: seq<seq<byte>>, k: nat)
    requires k <= |chunks|
    ensures Joined(chunks[..k]) <= Joined(chunks)
    decreases |chunks| - k
  {
    if k < |chunks| {
      JoinedStep(chunks, k);
      JoinedPrefix(chunks, k + 1);
    } else {
      assert chunks[..k] == chunks;
    }
  }

  /** `bytes_equal`: compares without an early exit. */
  method BytesEqual(a: seq<byte>, b: seq<byte>) returns (equal: bool)
    requires |a| == |b|
    ensures equal <==> a == b
  {
    var d: bv8 := 0;
    for i := 0 to |a|
      invariant d == 0 <==> a[..i] == b[..i]
    {
      var x, y := a[i] as bv8, b[i] as bv8;
      AsBv8Injective(a[i], b[i]);
      DifferenceIsZero(d, x, y);
      d := d | (x ^ y);
      assert a[..i + 1] == a[..i] + [a[i]] && b[..i + 1] == b[..i] + [b[i]];
    }
    assert a[..|a|] == a && b[..|b|] == b;
    return d == 0;
  }

  lemma AsBv8Injective(a: byte, b: byte)
    ensures a as bv8 == b as bv8 <==> a == b
  {
    AsBv8Inverse(a);
    AsBv8Inverse(b);
  }

  /** A byte survives the trip through its bits; by counting up, which keeps the solver out of the conversions. */
  lemma {:induction false} AsBv8Inverse(a: int)
    requires 0 <= a < 0x100
    ensures (a as bv8) as int == a
  {
    if a > 0 {
      AsBv8Inverse(a - 1);
      var x := (a - 1) as bv8;
      SuccessorAsInt(x);
      FromInt(x + 1, a);
    }
  }

  lemma SuccessorAsInt(x: bv8)
    requires x as int < 0xFF
    ensures (x + 1) as int == x as int + 1
  {
  }

  lemma FromInt(x: bv8, n: int)
    requires n == x as int
    ensures n as bv8 == x
  {
  }

  lemma DifferenceIsZero(d: bv8, x: bv8, y: bv8)
    ensures d | (x ^ y) == 0 <==> d == 0 && x == y
  {
  }

  lemma AppendAssociates(a: seq<byte>, b: seq<byte>, c: seq<byte>)
    ensures (a + b) + c == a + (b + c)
  {
  }
}
