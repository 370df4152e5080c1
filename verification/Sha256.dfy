/**
 SHA-256 as FIPS 180-4 defines it (padding of section 5.1.1, computation of section 6.2), HMAC as section 2 of
 RFC 2104 defines it, and the bootloader's streaming code, which computes both for every way of feeding it a message.
 */
module Sha256 {
  import opened Bytes

  type Word = bv32

  // The round constants, eight in a row.
  const K0: seq<Word> := [0x428a2f98, 0x71374491, 0xb5c0fbcf, 0xe9b5dba5, 0x3956c25b, 0x59f111f1, 0x923f82a4, 0xab1c5ed5]
  const K8: seq<Word> := [0xd807aa98, 0x12835b01, 0x243185be, 0x550c7dc3, 0x72be5d74, 0x80deb1fe, 0x9bdc06a7, 0xc19bf174]
  const K16: seq<Word> := [0xe49b69c1, 0xefbe4786, 0x0fc19dc6, 0x240ca1cc, 0x2de92c6f, 0x4a7484aa, 0x5cb0a9dc, 0x76f988da]
  const K24: seq<Word> := [0x983e5152, 0xa831c66d, 0xb00327c8, 0xbf597fc7, 0xc6e00bf3, 0xd5a79147, 0x06ca6351, 0x14292967]
  const K32: seq<Word> := [0x27b70a85, 0x2e1b2138, 0x4d2c6dfc, 0x53380d13, 0x650a7354, 0x766a0abb, 0x81c2c92e, 0x92722c85]
  const K40: seq<Word> := [0xa2bfe8a1, 0xa81a664b, 0xc24b8b70, 0xc76c51a3, 0xd192e819, 0xd6990624, 0xf40e3585, 0x106aa070]
  const K48: seq<Word> := [0x19a4c116, 0x1e376c08, 0x2748774c, 0x34b0bcb5, 0x391c0cb3, 0x4ed8aa4a, 0x5b9cca4f, 0x682e6ff3]
  const K56: seq<Word> := [0x748f82ee, 0x78a5636f, 0x84c87814, 0x8cc70208, 0x90befffa, 0xa4506ceb, 0xbef9a3f7, 0xc67178f2]

  /** The eight words of a hash value, and the eight working variables. */
  datatype State = State(a: Word, b: Word, c: Word, d: Word, e: Word, f: Word, g: Word, h: Word)

  const INITIAL: State := State(
    0x6a09e667, 0xbb67ae85, 0x3c6ef372, 0xa54ff53a, 0x510e527f, 0x9b05688c, 0x1f83d9ab, 0x5be0cd19)

  // ----- FIPS 180-4, sections 3.2 and 4.1.2 -----

  /** Addition modulo 2^32. */
  function Plus(x: Word, y: Word): Word { x + y }
  function Sum(w: Word, x: Word, y: Word, z: Word): Word { w + x + y + z }

  function Ch(x: Word, y: Word, z: Word): Word { (x & y) ^ (!x & z) }
  function Maj(x: Word, y: Word, z: Word): Word { (x & y) ^ (x & z) ^ (y & z) }
  function BigSigma0(x: Word): Word { x.RotateRight(2) ^ x.RotateRight(13) ^ x.RotateRight(22) }
  function BigSigma1(x: Word): Word { x.RotateRight(6) ^ x.RotateRight(11) ^ x.RotateRight(25) }
  function SmallSigma0(x: Word): Word { x.RotateRight(7) ^ x.RotateRight(18) ^ (x >> 3) }
  function SmallSigma1(x: Word): Word { x.RotateRight(17) ^ x.RotateRight(19) ^ (x >> 10) }

  /** Four bytes, most significant first. */
  function WordOf(s: seq<byte>): Word
    requires |s| == 4
  {
    (Wide(s[0]) << 24) | (Wide(s[1]) << 16) | (Wide(s[2]) << 8) | Wide(s[3])
  }

  function Wide(b: byte): Word { b as bv32 }

  function BytesOf(w: Word): (s: seq<byte>)
    ensures |s| == 4
  {
    [ByteOf(w >> 24), ByteOf(w >> 16), ByteOf(w >> 8), ByteOf(w)]
  }

  /** The least significant byte of a word. */
  function ByteOf(w: Word): byte {
    var b: bv8 := (w & 0xFF) as bv8;
    b as int
  }

  // ----- section 5.1.1: padding -----

  function Zeros(n: nat): (r: seq<byte>)
    ensures |r| == n && forall i :: 0 <= i < n ==> r[i] == 0
  {
    seq<byte>(n, _ => 0)
  }

  function BigEndian32(n: u32): (s: seq<byte>)
    ensures |s| == 4
  {
    [n / 0x100_0000, n / 0x1_0000 % 0x100, n / 0x100 % 0x100, n % 0x100]
  }

  /** The message length in bits as a 64-bit big-endian number. */
  function BitLength(message: seq<byte>): (s: seq<byte>)
    ensures |s| == 8
  {
    var bits := 8 * |message|;
    BigEndian32(bits / 0x1_0000_0000 % 0x1_0000_0000) + BigEndian32(bits % 0x1_0000_0000)
  }

  /** The number of zero bytes that brings the padded length to a multiple of 64. */
  function ZeroCount(length: nat): (z: nat) {
    if length % 64 < 56 then 55 - length % 64 else 119 - length % 64
  }

  predicate Whole(data: seq<byte>) {
    |data| % 64 == 0
  }

  function Padded(message: seq<byte>): (r: seq<byte>)
    ensures Whole(r)
  {
    PaddingFits(|message|);
    message + [0x80] + Zeros(ZeroCount(|message|)) + BitLength(message)
  }

  /** The zero count is the smallest that fills whole blocks. */
  lemma PaddingFits(length: nat)
    ensures (length + 1 + ZeroCount(length) + 8) % 64 == 0 && ZeroCount(length) < 64
  {
    var q := length / 64;
    ModOf64(if length % 64 < 56 then q + 1 else q + 2, 0);
  }

  lemma ModOf64(q: nat, r: nat)
    requires r < 64
    ensures (64 * q + r) % 64 == r
  {
  }

  // ----- section 6.2: the computation -----

  /** The first n words of the message schedule. */
  function Schedule(block: seq<byte>, n: nat): (w: seq<Word>)
    requires |block| == 64 && n <= 64
    ensures |w| == n
  {
    if n == 0 then []
    else
      var w := Schedule(block, n - 1);
      w + [ScheduleWord(block, w)]
  }

  function ScheduleWord(block: seq<byte>, w: seq<Word>): Word
    requires |block| == 64 && |w| < 64
  {
    var t := |w|;
    if t < 16 then WordOf(block[4 * t..4 * t + 4])
    else Sum(SmallSigma1(w[t - 2]), w[t - 7], SmallSigma0(w[t - 15]), w[t - 16])
  }

  function Round(v: State, k: Word, w: Word): State {
    var t1 := Plus(Plus(Plus(Plus(v.h, BigSigma1(v.e)), Ch(v.e, v.f, v.g)), k), w);
    var t2 := Plus(BigSigma0(v.a), Maj(v.a, v.b, v.c));
    State(Plus(t1, t2), v.a, v.b, v.c, Plus(v.d, t1), v.e, v.f, v.g)
  }

  function RoundConstant(t: nat): Word
    requires t < 64
  {
    if t < 8 then K0[t] else if t < 16 then K8[t - 8] else if t < 24 then K16[t - 16] else if t < 32 then K24[t - 24]
    else if t < 40 then K32[t - 32] else if t < 48 then K40[t - 40] else if t < 56 then K48[t - 48] else K56[t - 56]
  }

  function Rounds(v: State, w: seq<Word>): State
    requires |w| <= 64
  {
    if w == [] then v
    else
      var last := |w| - 1;
      Round(Rounds(v, w[..last]), RoundConstant(last), w[last])
  }

  function Add(x: State, y: State): State {
    State(Plus(x.a, y.a), Plus(x.b, y.b), Plus(x.c, y.c), Plus(x.d, y.d),
          Plus(x.e, y.e), Plus(x.f, y.f), Plus(x.g, y.g), Plus(x.h, y.h))
  }

  function Compress(h: State, block: seq<byte>): State
    requires |block| == 64
  {
    Add(h, Rounds(h, Schedule(block, |block|)))
  }

  /** The hash value after all 64-byte blocks of `data`. */
  function HashBlocks(h: State, data: seq<byte>): State
    requires Whole(data)
  {
    if data == [] then h else Compress(HashBlocks(h, data[..|data| - 64]), data[|data| - 64..])
  }

  function StateBytes(s: State): (r: seq<byte>)
    ensures |r| == 32
  {
    BytesOf(s.a) + BytesOf(s.b) + BytesOf(s.c) + BytesOf(s.d) + BytesOf(s.e) + BytesOf(s.f) + BytesOf(s.g) + BytesOf(s.h)
  }

  function Digest(message: seq<byte>): (r: seq<byte>)
    ensures |r| == 32
  {
    StateBytes(HashBlocks(INITIAL, Padded(message)))
  }

  // ----- the streaming code -----

  class Context {
    var h: State
    var totalBytes: u32
    var bufferLen: nat
    const buffer: array<byte>
    ghost var message: seq<byte>

    /** Whole blocks of the message are hashed; the rest waits in the buffer. */
    ghost predicate Valid()
      reads this, buffer
    {
      && buffer.Length == 64 && bufferLen < 64 && bufferLen <= |message| && Whole(message[..|message| - bufferLen])
      && totalBytes == Low32(|message|)
      && buffer[..bufferLen] == message[|message| - bufferLen..]
      && h == HashBlocks(INITIAL, message[..|message| - bufferLen])
    }

    constructor ()
      ensures Valid() && message == [] && fresh(buffer)
    {
      h, totalBytes, bufferLen, message := INITIAL, 0, 0, [];
      buffer := new byte[64](_ => 0);
    }

    method Update(data: seq<byte>)
      requires Valid()
      modifies this, buffer
      ensures Valid() && message == old(message) + data
    {
      hide HashBlocks, Whole, Low32;
      for i := 0 to |data|
        invariant Valid() && message == old(message) + data[..i]
      {
        UpdateByte(data[i]);
        assert data[..i + 1] == data[..i] + [data[i]];
      }
      assert data[..|data|] == data;
    }

    method UpdateByte(b: byte)
      requires Valid()
      modifies this, buffer
      ensures Valid() && message == old(message) + [b]
    {
      hide HashBlocks, Compress, Whole, Low32;
      ghost var start := |message| - bufferLen;
      CountWraps(|message|, totalBytes);
      buffer[bufferLen] := b;
      bufferLen := bufferLen + 1;
      totalBytes := Low32(totalBytes + 1);
      message := message + [b];
      assert message[..start] == old(message)[..start];
      assert buffer[..bufferLen] == message[start..];
      if bufferLen == 64 {
        assert buffer[..] == message[start..];
        assert message == message[..start] + message[start..];
        HashNextBlock(message[..start], message[start..]);
        h := Transform(h, buffer[..]);
        bufferLen := 0;
        assert message[..|message|] == message;
      } else {
        assert |message| - bufferLen == start;
      }
    }

    /** The digest of everything fed in, for messages whose bit count fits the 32 bits the code keeps of it. */
    method Final() returns (out: seq<byte>)
      requires Valid()
      modifies this, buffer
      ensures |old(message)| < 0x2000_0000 ==> out == Digest(old(message))
    {
      hide HashBlocks, Compress, StateBytes, BigEndian32, Whole, Low32, Padded;
      CountWraps(|message|, totalBytes);
      var bitLen := Low32(totalBytes * 8);
      ghost var start := |message| - bufferLen;
      ghost var tail := message[start..] + [0x80];
      buffer[bufferLen] := 0x80;
      bufferLen := bufferLen + 1;
      assert buffer[..bufferLen] == tail;
      ghost var extra: seq<byte> := [];  // the block closed early because the length no longer fits
      if bufferLen > 56 {
        FillZeros(64);
        extra := buffer[..];
        assert extra == tail + Zeros(64 - |tail|);
        h := Transform(h, buffer[..]);
        bufferLen := 0;
      }
      FillZeros(56);
      ghost var opening := buffer[..56];
      ghost var length := Zeros(4) + BigEndian32(bitLen);
      StoreLength(bitLen);
      h := Transform(h, buffer[..]);
      out := StateBytes(h);
      if |message| < 0x2000_0000 {
        PaddedInBlocks(message, start, extra, opening, length);
        HashPadded(message[..start], extra, buffer[..]);
      }
    }

    /** The last eight bytes of the last block; the upper half of the bit count is taken to be zero. */
    method StoreLength(bitLen: u32)
      requires buffer.Length == 64
      modifies buffer
      ensures buffer[..] == old(buffer[..56]) + (Zeros(4) + BigEndian32(bitLen))
    {
      for i := 0 to 4
        invariant buffer[..56 + i] == old(buffer[..56]) + Zeros(i)
      {
        buffer[56 + i] := 0;
        assert Zeros(i + 1) == Zeros(i) + [0];
      }
      buffer[60] := bitLen / 0x100_0000;
      buffer[61] := bitLen / 0x1_0000 % 0x100;
      buffer[62] := bitLen / 0x100 % 0x100;
      buffer[63] := bitLen % 0x100;
      assert buffer[..60] == old(buffer[..56]) + Zeros(4);
      assert buffer[..] == buffer[..60] + buffer[60..];
      assert buffer[60..] == BigEndian32(bitLen);
    }

    /** Appends zeros up to the given fill. */
    method FillZeros(limit: nat)
      requires buffer.Length == 64 && bufferLen <= limit <= 64
      modifies this`bufferLen, buffer
      ensures bufferLen == limit
      ensures buffer[..limit] == old(buffer[..bufferLen]) + Zeros(limit - old(bufferLen))
    {
      while bufferLen < limit
        invariant old(bufferLen) <= bufferLen <= limit
        invariant buffer[..bufferLen] == old(buffer[..bufferLen]) + Zeros(bufferLen - old(bufferLen))
      {
        buffer[bufferLen] := 0;
        bufferLen := bufferLen + 1;
        assert buffer[..bufferLen] == buffer[..bufferLen - 1] + [0];
        assert Zeros(bufferLen - old(bufferLen)) == Zeros(bufferLen - 1 - old(bufferLen)) + [0];
      }
    }
  }

  lemma CountWraps(n: nat, count: u32)
    requires count == Low32(n)
    ensures Low32(count + 1) == Low32(n + 1)
    ensures n < 0x2000_0000 ==> Low32(count * 8) == 8 * n
  {
    WrapAdd(n, 1);
    if n < 0x2000_0000 {
      BelowWord(n);
      BelowWord(8 * n);
    }
  }

  /** What the code appends, in one block or two, is the padding of section 5.1.1. */
  lemma PaddedInBlocks(message: seq<byte>, start: nat, extra: seq<byte>, opening: seq<byte>, length: seq<byte>)
    requires |message| < 0x2000_0000 && start <= |message| < start + 64 && Whole(message[..start])
    requires var tail := message[start..] + [0x80];
             if |tail| > 56 then extra == tail + Zeros(64 - |tail|) && opening == Zeros(56)
             else extra == [] && opening == tail + Zeros(56 - |tail|)
    requires length == Zeros(4) + BigEndian32(8 * |message|)
    ensures Padded(message) == message[..start] + extra + (opening + length)
  {
    hide BigEndian32;
    var tail := message[start..] + [0x80];
    assert message + [0x80] == message[..start] + tail;
    ZeroCountFor(|message|, start);
    assert BitLength(message) == Zeros(4) + BigEndian32(8 * |message|) by {
      assert BigEndian32(0) == Zeros(4) by { BigEndianZero(); }
    }
    if |tail| > 56 {
      assert Zeros(120 - |tail|) == Zeros(64 - |tail|) + Zeros(56);
    }
  }

  lemma BigEndianZero()
    ensures BigEndian32(0) == Zeros(4)
  {
  }

  lemma ZeroCountFor(length: nat, start: nat)
    requires start <= length < start + 64 && start % 64 == 0
    ensures ZeroCount(length) == if length - start + 1 > 56 then 119 - (length - start) else 55 - (length - start)
  {
    ModOf64(start / 64, length - start);
  }

  lemma HashPadded(whole: seq<byte>, extra: seq<byte>, last: seq<byte>)
    requires Whole(whole) && |last| == 64 && (extra == [] || |extra| == 64)
    ensures Whole(whole + extra + last)
    ensures HashBlocks(INITIAL, whole + extra + last)
         == Compress(if extra == [] then HashBlocks(INITIAL, whole) else Compress(HashBlocks(INITIAL, whole), extra), last)
  {
    hide HashBlocks, Compress, Whole;
    if extra == [] {
      assert whole + extra == whole;
    } else {
      HashNextBlock(whole, extra);
    }
    HashNextBlock(whole + extra, last);
  }

  lemma HashNextBlock(whole: seq<byte>, block: seq<byte>)
    requires Whole(whole) && |block| == 64
    ensures Whole(whole + block)
    ensures HashBlocks(INITIAL, whole + block) == Compress(HashBlocks(INITIAL, whole), block)
  {
    hide Compress;
    var data := whole + block;
    assert data[..|data| - 64] == whole && data[|data| - 64..] == block;
  }

  /** `sha256_transform`: the schedule in an array, then 64 rounds over eight variables. */
  method Transform(hash: State, block: seq<byte>) returns (r: State)
    requires |block| == 64
    ensures r == Compress(hash, block)
  {
    hide Plus, BigSigma0, BigSigma1, Ch, Maj, RoundConstant, Schedule;
    var w := ExpandSchedule(block);
    var a, b, c, d, e, f, g, h := hash.a, hash.b, hash.c, hash.d, hash.e, hash.f, hash.g, hash.h;
    for i := 0 to 64
      invariant State(a, b, c, d, e, f, g, h) == Rounds(hash, w[..i])
    {
      assert w[..i + 1][..i] == w[..i];
      var s1 := BigSigma1(e);
      var ch := Ch(e, f, g);
      var t1 := Plus(Plus(Plus(Plus(h, s1), ch), RoundConstant(i)), w[i]);
      var s0 := BigSigma0(a);
      var maj := Maj(a, b, c);
      var t2 := Plus(s0, maj);
      h := g;
      g := f;
      f := e;
      e := Plus(d, t1);
      d := c;
      c := b;
      b := a;
      a := Plus(t1, t2);
    }
    assert w[..64] == w;
    r := State(Plus(hash.a, a), Plus(hash.b, b), Plus(hash.c, c), Plus(hash.d, d),
               Plus(hash.e, e), Plus(hash.f, f), Plus(hash.g, g), Plus(hash.h, h));
  }

  method ExpandSchedule(block: seq<byte>) returns (words: seq<Word>)
    requires |block| == 64
    ensures words == Schedule(block, |block|)
  {
    hide Sum, SmallSigma0, SmallSigma1, WordOf;
    var w := new Word[64];
    for i := 0 to 16
      invariant w[..i] == Schedule(block, i)
    {
      w[i] := WordOf(block[4 * i..4 * i + 4]);
      assert w[..i + 1] == w[..i] + [w[i]];
    }
    for i := 16 to 64
      invariant w[..i] == Schedule(block, i)
    {
      var s0 := SmallSigma0(w[i - 15]);
      var s1 := SmallSigma1(w[i - 2]);
      SumReversed(w[i - 16], s0, w[i - 7], s1);
      w[i] := Sum(w[i - 16], s0, w[i - 7], s1);
      assert w[..i + 1] == w[..i] + [w[i]];
    }
    words := w[..];
  }

  lemma SumReversed(w: Word, x: Word, y: Word, z: Word)
    ensures Sum(w, x, y, z) == Sum(z, y, x, w)
  {
  }

  /** However a message is cut into update calls, the result is its digest. */
  method DigestOfChunks(chunks: seq<seq<byte>>) returns (out: seq<byte>)
    ensures |Joined(chunks)| < 0x2000_0000 ==> out == Digest(Joined(chunks))
  {
    hide Digest;
    var c := new Context();
    for i := 0 to |chunks|
      invariant c.Valid() && c.message == Joined(chunks[..i]) && fresh(c) && fresh(c.buffer)
    {
      c.Update(chunks[i]);
      JoinedStep(chunks, i);
    }
    assert chunks[..|chunks|] == chunks;
    out := c.Final();
  }

  // ----- HMAC -----

  function Bits(a: byte): bv8 { a as bv8 }
  function Number(x: bv8): byte { x as int }

  function Mix(x: bv8, y: bv8): bv8 { x ^ y }

  function Xor(a: byte, b: byte): byte {
    Number(Mix(Bits(a), Bits(b)))
  }

  /** The key, filled up with zeros to the block length, XORed with a constant byte. */
  function KeyBlock(key: seq<byte>, pad: byte): (r: seq<byte>)
    requires |key| <= 64
    ensures |r| == 64
  {
    seq<byte>(64, i requires 0 <= i < 64 => Xor(if i < |key| then key[i] else 0, pad))
  }

  /** Section 2 of RFC 2104, for keys no longer than a block. */
  function Hmac(key: seq<byte>, text: seq<byte>): seq<byte>
    requires |key| <= 64
  {
    Digest(KeyBlock(key, 0x5C) + Digest(KeyBlock(key, 0x36) + text))
  }

  const DOMAIN: seq<byte> := [0x44, 0x45, 0x55, 0x53, 0x48, 0x44, 0x52, 0x31]  // "DEUSHDR1"
  const ORIGIN: seq<byte> := [0x00, 0x20, 0x00, 0x08]

  /** `hmac_header`: the tag of a header is its HMAC under the device key, after the domain and the load address. */
  method HmacHeader(key: seq<byte>, header: seq<byte>) returns (tag: seq<byte>)
    requires |key| == 32 && |header| == 48
    ensures tag == Hmac(key, DOMAIN + ORIGIN + header)
    ensures var text := [0x44, 0x45, 0x55, 0x53, 0x48, 0x44, 0x52, 0x31, 0x00, 0x20, 0x00, 0x08] + header;
            tag == Digest(KeyBlock(key, 0x5C) + Digest(KeyBlock(key, 0x36) + text))
  {
    hide Digest;
    assert DOMAIN + ORIGIN == [0x44, 0x45, 0x55, 0x53, 0x48, 0x44, 0x52, 0x31, 0x00, 0x20, 0x00, 0x08];
    var innerKey := XorKey(key, 0x36);
    var inner := DigestOfChunks([innerKey, DOMAIN, ORIGIN, header]);
    assert Joined([innerKey, DOMAIN, ORIGIN, header]) == innerKey + (DOMAIN + ORIGIN + header) by {
      JoinedFour(innerKey, DOMAIN, ORIGIN, header);
    }
    var outerKey := XorKey(key, 0x5C);
    tag := DigestOfChunks([outerKey, inner]);
    assert Joined([outerKey, inner]) == outerKey + inner by {
      JoinedStep([outerKey, inner], 0);
      JoinedStep([outerKey, inner], 1);
      assert [outerKey, inner][..2] == [outerKey, inner];
    }
  }

  lemma JoinedFour(a: seq<byte>, b: seq<byte>, c: seq<byte>, d: seq<byte>)
    ensures Joined([a, b, c, d]) == a + (b + c + d)
  {
    var all := [a, b, c, d];
    JoinedStep(all, 0);
    JoinedStep(all, 1);
    JoinedStep(all, 2);
    JoinedStep(all, 3);
    assert all[..4] == all;
  }

  /** A block filled with the constant, whose first 32 bytes are XORed with the key. */
  method XorKey(key: seq<byte>, pad: byte) returns (r: seq<byte>)
    requires |key| == 32
    ensures r == KeyBlock(key, pad)
  {
    var block := new byte[64](_ => pad);
    for i := 0 to 32
      invariant forall k :: 0 <= k < 64 ==> block[k] == if k < i then Xor(pad, key[k]) else pad
    {
      block[i] := Xor(block[i], key[i]);
    }
    r := block[..];
    forall k | 0 <= k < 64 ensures r[k] == KeyBlock(key, pad)[k] {
      if k < 32 {
        XorCommutes(pad, key[k]);
      } else {
        XorZero(pad);
      }
    }
  }

  /** The pad can be taken off again, so blocks of different keys of one length differ. */
  lemma KeyBlockUndone(key: seq<byte>, pad: byte, i: nat)
    requires |key| <= 64 && i < 64
    ensures Xor(KeyBlock(key, pad)[i], pad) == if i < |key| then key[i] else 0
  {
    XorUndone(if i < |key| then key[i] else 0, pad);
  }

  lemma XorUndone(a: byte, b: byte)
    ensures Xor(Xor(a, b), b) == a
  {
    hide Bits, Number, Mix;
    BitsInverse(a, Mix(Bits(a), Bits(b)));
    XorTwice(Bits(a), Bits(b));
  }

  lemma BitsInverse(a: byte, x: bv8)
    ensures Number(Bits(a)) == a && Bits(Number(x)) == x
  {
    AsBv8Inverse(a);
    FromInt(x, Number(x));
  }

  lemma XorTwice(x: bv8, y: bv8)
    ensures Mix(Mix(x, y), y) == x
  {
  }

  lemma XorCommutes(a: byte, b: byte)
    ensures Xor(a, b) == Xor(b, a)
  {
  }

  lemma XorZero(a: byte)
    ensures Xor(0, a) == a
  {
    AsBv8Inverse(0);
    AsBv8Inverse(a);
    var zero: bv8, x := 0 as bv8, a as bv8;
    assert zero ^ x == x;
  }
}
