/** Finding frames in a byte stream: a buffer that drops its first byte until what is left may still be a frame. */
module NodeStream {
  import opened Bytes
  import opened Crc
  import opened NodeCodec

  const PARTIAL_TIMEOUT_MS: nat := 50

  function FrameLength(b: seq<byte>): nat
    requires |b| >= HEADER
  {
    b[8] as int + OVERHEAD
  }

  /** The bytes agree with a frame as far as they go, and the frame is not all there yet. */
  predicate Promising(b: seq<byte>) {
    && (|b| >= 1 ==> b[0] == 0xD5) && (|b| >= 2 ==> b[1] == 0x4E)
    && (|b| >= HEADER ==> HeadOk(b) && |b| < FrameLength(b))
  }

  /** The bytes begin with a whole frame. */
  predicate Complete(b: seq<byte>) {
    |b| >= HEADER && HeadOk(b) && FrameLength(b) <= |b| && WellFormed(b[..FrameLength(b)])
  }

  /** The first position from which the bytes are, or may become, a frame. */
  function FirstStart(b: seq<byte>): (k: nat)
    ensures k <= |b| && (Promising(b[k..]) || Complete(b[k..]))
    ensures forall j :: 0 <= j < k ==> !Promising(b[j..]) && !Complete(b[j..])
    decreases |b|
  {
    if Promising(b) || Complete(b) then
      assert b[0..] == b;
      0
    else
      var k := FirstStart(b[1..]);
      assert b[0..] == b && b[1..][k..] == b[1 + k..];
      assert forall j :: 1 <= j < 1 + k ==> b[j..] == b[1..][j - 1..];
      1 + k
  }

  /** What a call reports and leaves behind: the frame at the first start, or everything from there on, to be continued. */
  predicate Settled(all: seq<byte>, status: Code, f: Frame, left: seq<byte>) {
    var rest := all[FirstStart(all)..];
    if status == Ok then Sendable(f) && Complete(rest) && Wire(f) == rest[..FrameLength(rest)] && left == []
    else status == Drop && !Complete(rest) && left == rest
  }

  class Stream {
    const bytes: array<byte>
    var used: nat
    var hasStarted: bool
    var startedAt: u32
    ghost var input: seq<byte>  // everything ever fed

    /** Between calls the buffer holds the last bytes that arrived, less than a maximal frame, and they may become a frame. */
    ghost predicate Valid()
      reads this, bytes
    {
      bytes.Length == MAX_FRAME && used < MAX_FRAME && hasStarted == (used > 0) && IsTail(Contents(), input) && Promising(Contents())
    }

    ghost function Contents(): seq<byte>
      requires used <= bytes.Length
      reads this, bytes
    {
      bytes[..used]
    }

    constructor ()
      ensures Valid() && Contents() == [] && fresh(bytes)
    {
      bytes := new byte[MAX_FRAME];
      used, hasStarted, startedAt, input := 0, false, 0, [];
    }

    method Init()
      modifies this`used, this`hasStarted, this`startedAt
      ensures used == 0 && !hasStarted && startedAt == 0
    {
      used, hasStarted, startedAt := 0, false, 0;
    }

    /** Drops the first byte and moves the rest down. */
    method Shift()
      requires 0 < used <= bytes.Length
      modifies this`used, this`hasStarted, bytes
      ensures used == old(used) - 1 && Contents() == old(Contents())[1..]
      ensures hasStarted == (old(hasStarted) && used > 0)
    {
      used := used - 1;
      for i := 0 to used
        modifies bytes
        invariant forall j :: 0 <= j < i ==> bytes[j] == old(bytes[j + 1])
        invariant forall j :: i <= j < bytes.Length ==> bytes[j] == old(bytes[j])
      {
        bytes[i] := bytes[i + 1];
      }
      if used == 0 {
        hasStarted := false;
      }
    }

    /** The bytes that count when one more arrives: none, once the partial frame is too old. */
    ghost function Kept(time: u32): seq<byte>
      requires used <= bytes.Length
      reads this, bytes
    {
      if hasStarted && (time - startedAt) % 0x1_0000_0000 > PARTIAL_TIMEOUT_MS then [] else Contents()
    }

    method Feed(b: byte, time: u32) returns (status: Code, f: Frame)
      requires Valid()
      modifies this, bytes
      ensures Valid() && input == old(input) + [b]
      ensures Settled(old(Kept(time)) + [b], status, f, Contents())
      ensures used > 0 ==> startedAt == if old(Kept(time)) == [] then time else old(startedAt)
      ensures status == Ok ==> Sendable(f) && Occurs(Wire(f), input)
    {
      hide Settled, Wire, IsTail, Occurs;
      Append(b, time);
      ghost var all := Contents();
      status, f := Resync();
      SettledWindow(all, status, f, Contents(), input);
    }

    /** One more byte in the buffer, after throwing away what is too old. */
    method Append(b: byte, time: u32)
      requires Valid()
      modifies this, bytes
      ensures input == old(input) + [b] && hasStarted && used <= MAX_FRAME
      ensures Contents() == old(Kept(time)) + [b] && IsTail(Contents(), input)
      ensures startedAt == if old(Kept(time)) == [] then time else old(startedAt)
    {
      if hasStarted && (time - startedAt) % 0x1_0000_0000 > PARTIAL_TIMEOUT_MS {
        Init();
      }
      if !hasStarted {
        startedAt, hasStarted := time, true;
      }
      if used >= MAX_FRAME {
        assert false;  // less than a frame is left after every call
      }
      bytes[used] := b;
      used := used + 1;
      input := input + [b];
      assert Contents() == old(Kept(time)) + [b];
      TailGrows(old(Contents()), old(input), b);
    }

    /** The loop: give up on the first byte until the rest is worth waiting for, or a frame. */
    method Resync() returns (status: Code, f: Frame)
      requires bytes.Length == MAX_FRAME && 0 < used <= MAX_FRAME && hasStarted
      modifies this`used, this`hasStarted, this`startedAt, bytes
      ensures used < MAX_FRAME && hasStarted == (used > 0)
      ensures Settled(old(Contents()), status, f, Contents())
      ensures used > 0 ==> startedAt == old(startedAt)
    {
      hide WellFormed, FirstStart, Wire, Complete, Promising;
      ghost var all, k := Contents(), 0;
      while true
        invariant 0 <= k <= |all| <= MAX_FRAME && used <= MAX_FRAME && Contents() == all[k..]
        invariant hasStarted == (used > 0) && startedAt == old(startedAt)
        invariant forall j :: 0 <= j < k ==> !Promising(all[j..]) && !Complete(all[j..])
        decreases used
      {
        PromisingIsNotComplete(Contents());
        status, f := Look();
        if status != BadFrame {
          StartsAt(all, k);
          if status == Ok {
            Init();
          }
          return;
        }
        DropFirst(all, k);
        Shift();
        k := k + 1;
      }
    }

    /** The checks on the buffer as it stands, in their order: wait, a frame, or no frame can start here. */
    method Look() returns (status: Code, f: Frame)
      requires bytes.Length == MAX_FRAME && used <= MAX_FRAME
      ensures var b := Contents();
              if Promising(b) then status == Drop
              else if Complete(b) then status == Ok && Sendable(f) && Wire(f) == b[..FrameLength(b)]
              else status == BadFrame
    {
      hide Crc16, FromLe16, FromLe32, WellFormed, Wire;
      f := Frame(0, 0, 0, []);
      if used == 0 {
        return Drop, f;
      }
      if bytes[0] != 0xD5 {
        return BadFrame, f;
      }
      if used == 1 {
        return Drop, f;
      }
      if bytes[1] != 0x4E {
        return BadFrame, f;
      }
      if used < HEADER {
        return Drop, f;
      }
      assert Contents()[6..8] == [bytes[6], bytes[7]];
      SequenceIsZero(bytes[6], bytes[7]);
      if bytes[2] != VERSION || bytes[4] != NODE_ID || bytes[5] != 0 || bytes[9] != 0 || (bytes[6] == 0 && bytes[7] == 0)
         || bytes[8] as int > MAX_PAYLOAD {
        return BadFrame, f;
      }
      var expected := bytes[8] as int + OVERHEAD;
      if used < expected {
        return Drop, f;
      }
      assert bytes[..expected] == Contents()[..expected];
      status, f := Decode(bytes[..expected]);
      if status == Ok {
        EncodeUndoesDecode(bytes[..expected]);
      }
    }
  }

  lemma SequenceIsZero(low: byte, high: byte)
    ensures FromLe16([low, high]) == 0 <==> low == 0 && high == 0
  {
  }

  /** The first position is where nothing before it would do. */
  lemma StartsAt(b: seq<byte>, k: nat)
    requires k <= |b| && (Promising(b[k..]) || Complete(b[k..]))
    requires forall j :: 0 <= j < k ==> !Promising(b[j..]) && !Complete(b[j..])
    ensures FirstStart(b) == k
  {
    hide FirstStart;
    var j := FirstStart(b);
  }

  lemma DropFirst(s: seq<byte>, k: nat)
    requires k < |s|
    ensures s[k..][1..] == s[k + 1..]
  {
  }

  // ----- windows of the input -----

  predicate IsTail(s: seq<byte>, input: seq<byte>) {
    |s| <= |input| && s == input[|input| - |s|..]
  }

  predicate Occurs(s: seq<byte>, input: seq<byte>) {
    exists i :: 0 <= i <= |input| - |s| && Window(input, i, |s|) == s
  }

  function Window(s: seq<byte>, from: nat, length: nat): seq<byte>
    requires from + length <= |s|
  {
    s[from..from + length]
  }

  lemma TailGrows(s: seq<byte>, input: seq<byte>, b: byte)
    requires IsTail(s, input)
    ensures IsTail(s + [b], input + [b]) && IsTail([b], input + [b])
  {
  }

  lemma OccursInTail(s: seq<byte>, input: seq<byte>, k: nat, n: nat)
    requires IsTail(s, input) && k + n <= |s|
    ensures Occurs(s[k..][..n], input)
  {
    var i := |input| - |s| + k;
    assert s[k..][..n] == Window(input, i, n);
  }

  // ----- a frame after noise -----

  lemma SettledWindow(all: seq<byte>, status: Code, f: Frame, left: seq<byte>, input: seq<byte>)
    requires Settled(all, status, f, left) && IsTail(all, input)
    ensures IsTail(left, input) && (status == Ok || status == Drop) && Promising(left)
    ensures status == Ok ==> left == [] && Sendable(f) && Occurs(Wire(f), input)
  {
    hide WellFormed, HeadOk, FirstStart, Wire;
    var k := FirstStart(all);
    if status == Ok {
      OccursInTail(all, input, k, FrameLength(all[k..]));
    }
  }

  lemma PrefixIsPromising(f: Frame, i: nat)
    requires Sendable(f) && 1 <= i <= |Wire(f)|
    ensures i < |Wire(f)| ==> Promising(Wire(f)[..i])
    ensures i == |Wire(f)| ==> Complete(Wire(f)) && FrameLength(Wire(f)) == |Wire(f)|
    ensures FirstStart(Wire(f)[..i]) == 0
  {
    hide Crc16, Le16, Le32, FromLe32, FirstStart, FromLe16;
    DecodeUndoesEncode(f);
    var w, p := Wire(f), Wire(f)[..i];
    assert p[0..] == p && w[..|w|] == w;
    if i >= HEADER {
      assert p[6..8] == w[6..8];
    }
    StartsAt(p, 0);
  }

  lemma PromisingIsNotComplete(b: seq<byte>)
    ensures Promising(b) ==> !Complete(b) && |b| < MAX_FRAME
    ensures b == [] ==> Promising(b)
  {
  }

  /** What a call makes of the first bytes of a frame: it waits for the rest, or reports the frame. */
  lemma PrefixSettles(f: Frame, i: nat, status: Code, g: Frame, left: seq<byte>)
    requires Sendable(f) && 1 <= i <= |Wire(f)| && Settled(Wire(f)[..i], status, g, left)
    ensures if i < |Wire(f)| then status == Drop && left == Wire(f)[..i] else status == Ok && g == f && left == []
  {
    hide Wire, FirstStart, Promising, Complete;
    var w := Wire(f);
    PrefixIsPromising(f, i);
    PromisingIsNotComplete(w[..i]);
    assert w[..i][0..] == w[..i] && w[..|w|] == w;
    if i == |w| {
      WireInjective(f, g);
    }
  }

  lemma NoiseSettles(b: byte, status: Code, g: Frame, left: seq<byte>)
    requires b != 0xD5 && Settled([b], status, g, left)
    ensures status == Drop && left == []
  {
    hide FirstStart;
    StartsAt([b], 1);
  }

  /**
   An empty buffer, or one whose partial frame has become too old; then noise without the first magic byte; then a frame
   within the timeout: nothing is reported before its last byte, and there the frame is.
   */
  method ReceiveAfterNoise(stream: Stream, noise: seq<byte>, noiseTimes: seq<u32>, f: Frame, times: seq<u32>) returns (emitted: seq<Frame>, last: Code)
    requires stream.Valid() && Sendable(f) && 0xD5 !in noise && |noiseTimes| == |noise| && |times| == |Wire(f)|
    requires forall i :: 0 <= i < |times| ==> (times[i] - times[0]) % 0x1_0000_0000 <= PARTIAL_TIMEOUT_MS
    requires stream.Kept(if noise == [] then times[0] else noiseTimes[0]) == []
    modifies stream, stream.bytes
    ensures stream.Valid() && stream.Contents() == [] && emitted == [f] && last == Ok
  {
    hide Wire, Settled, IsTail, Occurs;
    emitted := [];
    for i := 0 to |noise|
      invariant stream.Valid() && emitted == []
      invariant i > 0 ==> stream.Contents() == []
      invariant i == 0 ==> stream.Kept(if noise == [] then times[0] else noiseTimes[0]) == []
    {
      var status, g := stream.Feed(noise[i], noiseTimes[i]);
      assert [] + [noise[i]] == [noise[i]];
      NoiseSettles(noise[i], status, g, stream.Contents());
    }
    var w := Wire(f);
    last := Drop;
    for i := 0 to |w|
      invariant stream.Valid()
      invariant i == 0 ==> stream.Kept(times[0]) == []
      invariant 0 < i < |w| ==> stream.Contents() == w[..i] && stream.startedAt == times[0]
      invariant i < |w| ==> emitted == []
      invariant i == |w| ==> stream.Contents() == [] && emitted == [f] && last == Ok
    {
      assert stream.Kept(times[i]) == w[..i];
      assert w[..i] + [w[i]] == w[..i + 1];
      var g;
      last, g := stream.Feed(w[i], times[i]);
      PrefixSettles(f, i + 1, last, g, stream.Contents());
      if last == Ok {
        emitted := emitted + [g];
      }
    }
  }

  // ----- a frame behind anything -----

  /** No frame starts here, whatever follows. */
  predicate Dead(b: seq<byte>) {
    !Promising(b) && !Complete(b)
  }

  lemma DeadStays(b: seq<byte>, more: seq<byte>)
    ensures Dead(b) ==> Dead(b + more)
    ensures Complete(b) ==> Complete(b + more) && !Dead(b + more)
  {
    hide WellFormed, FromLe16;
    var longer := b + more;
    if |b| >= HEADER {
      assert longer[6..8] == b[6..8];
      if FrameLength(b) <= |b| {
        assert longer[..FrameLength(b)] == b[..FrameLength(b)];
      }
    }
  }

  /** What is left of the bytes once nothing before can start a frame. */
  function Rest(s: seq<byte>): (r: seq<byte>)
    ensures Promising(r) || Complete(r)
  {
    s[FirstStart(s)..]
  }

  /** Dropping dead starts as bytes arrive, or all at the end: it comes to the same. */
  lemma StartMoves(s: seq<byte>, b: byte)
    ensures FirstStart(s + [b]) == FirstStart(s) + FirstStart(Rest(s) + [b])
    ensures Rest(s + [b]) == Rest(Rest(s) + [b])
  {
    hide FirstStart, Promising, Complete;
    var p := FirstStart(s);
    var longer, rest := s + [b], s[p..] + [b];
    var q := FirstStart(rest);
    assert longer[p..] == rest && rest[q..] == longer[p + q..];
    forall j | 0 <= j < p + q ensures !Promising(longer[j..]) && !Complete(longer[j..]) {
      if j < p {
        assert longer[j..] == s[j..] + [b];
        DeadStays(s[j..], [b]);
      } else {
        assert longer[j..] == rest[j - p..];
      }
    }
    StartsAt(longer, p + q);
  }

  /** Every start among the kept bytes is refuted by the time the frame has followed. */
  predicate AllDead(kept: seq<byte>, w: seq<byte>) {
    forall j :: 0 <= j < |kept| ==> Dead((kept + w)[j..])
  }

  /** After some bytes of a frame behind kept ones, the buffer starts among the kept bytes or at the frame. */
  lemma StartBehind(kept: seq<byte>, f: Frame, i: nat)
    requires Sendable(f) && 1 <= i <= |Wire(f)|
    ensures FirstStart(kept + Wire(f)[..i]) <= |kept|
    ensures FirstStart(kept + Wire(f)[..i]) == |kept| ==>
              Rest(kept + Wire(f)[..i]) == Wire(f)[..i] && (Complete(Wire(f)[..i]) <==> i == |Wire(f)|)
  {
    hide FirstStart, Promising, Complete, Wire;
    var w, all := Wire(f), kept + Wire(f)[..i];
    PrefixIsPromising(f, i);
    PromisingIsNotComplete(w[..i]);
    assert all[|kept|..] == w[..i] && w[..|w|] == w;
  }

  /** A frame complete among the kept bytes is never dead. */
  lemma CompleteIsNotDead(kept: seq<byte>, w: seq<byte>, i: nat)
    requires i <= |w| && FirstStart(kept + w[..i]) < |kept| && Complete(Rest(kept + w[..i]))
    ensures !AllDead(kept, w)
  {
    hide FirstStart, Promising, Complete, Dead;
    var start := FirstStart(kept + w[..i]);
    SplitAt(kept, w, start, i);
    DeadStays((kept + w[..i])[start..], w[i..]);
    assert !Dead((kept + w)[start..]);
  }

  lemma SplitAt(kept: seq<byte>, w: seq<byte>, start: nat, i: nat)
    requires start <= |kept| && i <= |w|
    ensures (kept + w)[start..] == (kept + w[..i])[start..] + w[i..]
  {
  }

  lemma DeadUpToTheFrame(kept: seq<byte>, f: Frame)
    requires Sendable(f)
    ensures FirstStart(kept + Wire(f)) == |kept| <==> AllDead(kept, Wire(f))
  {
    hide FirstStart, Promising, Complete, Wire;
    var w, start := Wire(f), FirstStart(kept + Wire(f));
    assert w[..|w|] == w;
    StartBehind(kept, f, |w|);
    if start < |kept| {
      assert !Dead((kept + w)[start..]);
    }
  }

  /** One more byte of the frame: still waiting from the first start, or a report. */
  lemma OneByteBehind(kept: seq<byte>, f: Frame, i: nat, status: Code, g: Frame, left: seq<byte>)
    requires Sendable(f) && i < |Wire(f)| && Settled(Rest(kept + Wire(f)[..i]) + [Wire(f)[i]], status, g, left)
    ensures status == Ok || status == Drop
    ensures status == Drop ==> left == Rest(kept + Wire(f)[..i + 1]) != [] && (i + 1 == |Wire(f)| ==> !AllDead(kept, Wire(f)))
    ensures status == Ok ==> Reported(kept, f, i + 1, g) && left == []
  {
    hide FirstStart, Promising, Complete, Wire, AllDead, Reported;
    var w := Wire(f);
    var s, now := kept + w[..i], kept + w[..i + 1];
    assert now == s + [w[i]];
    StartMoves(s, w[i]);
    StartBehind(kept, f, i + 1);
    if status == Ok {
      ReportBehind(kept, f, i + 1, g);
    } else if i + 1 == |w| {
      assert w[..i + 1] == w;
      DeadUpToTheFrame(kept, f);
    }
  }

  lemma ReportBehind(kept: seq<byte>, f: Frame, fed: nat, g: Frame)
    requires Sendable(f) && 1 <= fed <= |Wire(f)| && Sendable(g)
    requires var rest := Rest(kept + Wire(f)[..fed]); Complete(rest) && Wire(g) == rest[..FrameLength(rest)]
    ensures Reported(kept, f, fed, g)
  {
    hide FirstStart, Promising, Complete, Wire, AllDead;
    var w, now := Wire(f), kept + Wire(f)[..fed];
    CompleteIsLong(Rest(now));
    WholeAtStart(now, FirstStart(now), g);
    StartBehind(kept, f, fed);
    if FirstStart(now) == |kept| {
      assert w[..|w|] == w;
      DeadUpToTheFrame(kept, f);
      PrefixIsPromising(f, |w|);
      WireInjective(f, g);
    } else {
      CompleteIsNotDead(kept, w, fed);
    }
  }

  lemma CompleteIsLong(b: seq<byte>)
    requires Complete(b)
    ensures |b| >= HEADER && FrameLength(b) <= |b|
  {
  }

  /** What a report after `fed` bytes of a frame behind kept ones is: the frame itself, or one that starts among the kept bytes. */
  predicate Reported(kept: seq<byte>, f: Frame, fed: nat, g: Frame)
    requires Sendable(f) && fed <= |Wire(f)|
  {
    var all, start := kept + Wire(f)[..fed], FirstStart(kept + Wire(f)[..fed]);
    && Sendable(g) && start + |Wire(g)| <= |all| && Wire(g) == all[start..start + |Wire(g)|]
    && if AllDead(kept, Wire(f)) then start == |kept| && g == f && fed == |Wire(f)| else start < |kept|
  }

  lemma WholeAtStart(all: seq<byte>, start: nat, g: Frame)
    requires start <= |all| && Sendable(g) && Complete(all[start..]) && Wire(g) == all[start..][..FrameLength(all[start..])]
    ensures start + |Wire(g)| <= |all| && Wire(g) == all[start..start + |Wire(g)|]
  {
    hide Wire, WellFormed, HeadOk;
  }

  /**
   A frame fed within the timeout behind whatever the buffer holds. It is reported, on its last byte, if and only if every
   start among the kept bytes is dead by then. Otherwise the first report, if there is one, is of a frame that starts
   among the kept bytes; if there is none, the buffer still waits from such a start.
   */
  method ReceiveBehind(stream: Stream, f: Frame, times: seq<u32>) returns (status: Code, g: Frame, fed: nat)
    requires stream.Valid() && Sendable(f) && |times| == |Wire(f)|
    requires var since := if stream.Contents() == [] then times[0] else stream.startedAt;
             forall i :: 0 <= i < |times| ==> (times[i] - since) % 0x1_0000_0000 <= PARTIAL_TIMEOUT_MS
    modifies stream, stream.bytes
    ensures stream.Valid() && fed <= |Wire(f)| && (status == Ok || status == Drop)
    ensures AllDead(old(stream.Contents()), Wire(f)) ==> status == Ok && g == f && fed == |Wire(f)|
    ensures status == Ok ==> Reported(old(stream.Contents()), f, fed, g)
    ensures status == Drop ==> fed == |Wire(f)| && stream.Contents() == Rest(old(stream.Contents()) + Wire(f))
  {
    hide FirstStart, Promising, Complete, Wire, IsTail, Occurs, AllDead, Settled, Rest, Reported;
    ghost var kept := stream.Contents();
    var w := Wire(f);
    RestOfKept(kept);
    g := Frame(0, 0, 0, []);
    assert kept + w[..0] == kept && w[..|w|] == w;
    for i := 0 to |w|
      invariant stream.Valid() && stream.Contents() == Rest(kept + w[..i])
      invariant i == 0 ==> stream.Contents() == kept && stream.startedAt == old(stream.startedAt)
      invariant i > 0 ==> stream.Contents() != [] && stream.startedAt == if kept == [] then times[0] else old(stream.startedAt)
      invariant i == |w| ==> !AllDead(kept, w)
    {
      assert stream.Kept(times[i]) == stream.Contents();
      status, g := stream.Feed(w[i], times[i]);
      OneByteBehind(kept, f, i, status, g, stream.Contents());
      if status == Ok {
        fed := i + 1;
        ReportedWhole(kept, f, fed, g);
        return;
      }
    }
    fed, status := |w|, Drop;
  }

  lemma RestOfKept(kept: seq<byte>)
    requires Promising(kept)
    ensures Rest(kept) == kept
  {
    hide FirstStart;
    assert kept[0..] == kept;
    StartsAt(kept, 0);
  }

  lemma ReportedWhole(kept: seq<byte>, f: Frame, fed: nat, g: Frame)
    requires Sendable(f) && fed <= |Wire(f)| && Reported(kept, f, fed, g)
    ensures AllDead(kept, Wire(f)) ==> g == f && fed == |Wire(f)|
  {
    hide FirstStart, AllDead, Wire;
  }
}
