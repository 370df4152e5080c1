/**
 The transmit ring of the USB management channel: one producer in thread mode, drained packet by packet by the endpoint
 interrupt, which may arrive between any two steps of the producer. Times without a bus reset.
 */
module UsbRing {
  import opened Bytes

  const CAPACITY: nat := 1024
  const MAX_PACKET: nat := 64

  /** Where a stream position lives in the ring, from a 32-bit index that wraps. */
  function Slot(index: u32, offset: nat): nat {
    (index as int + offset) % WORD % CAPACITY
  }

  function Home(position: nat): nat {
    position % CAPACITY
  }

  lemma SlotIsHome(position: nat, index: u32, offset: nat)
    requires index == position % WORD
    ensures Slot(index, offset) == Home(position + offset) < CAPACITY
  {
    var q := position / WORD;
    var a := index as int + offset;
    var r := a / WORD;
    assert position + offset == a + q * WORD;
    assert a == a % WORD + r * WORD;
    var k := q + r;
    assert position + offset == a % WORD + k * (CAPACITY * 0x40_0000);
    ModMultiple(a % WORD, k * 0x40_0000);
  }

  lemma ModMultiple(a: nat, k: int)
    requires a + CAPACITY * k >= 0
    ensures (a + CAPACITY * k) % CAPACITY == a % CAPACITY
  {
  }

  /** Positions less than a ring apart do not share a slot. */
  lemma HomesDiffer(a: nat, b: nat)
    requires a < b < a + CAPACITY
    ensures Home(a) != Home(b)
  {
  }

  class Endpoint {
    const ring: array<byte>
    const pma: array<byte>  // the packet memory the hardware sends from
    const configured: bool
    var head: u32
    var tail: u32
    var inflight: nat
    var active: bool
    var count: nat
    var armed: bool  // the hardware may send the packet
    var arrivals: seq<bool>  // whether the host takes a packet at each following point
    ghost var accepted: seq<byte>  // all spans accepted since the last reset
    var sent: seq<byte>  // all bytes the host has taken

    ghost predicate Valid()
      reads this, ring, pma
    {
      && ring.Length == CAPACITY && pma.Length == MAX_PACKET
      && head == |accepted| % WORD && tail == |sent| % WORD && |sent| <= |accepted| <= |sent| + CAPACITY
      && sent == accepted[..|sent|]
      && Holds(ring[..], accepted, |sent|, |accepted|)
      && (active ==> 1 <= inflight <= MAX_PACKET && |sent| + inflight <= |accepted|)
      && (armed ==> active && count == inflight && pma[..count] == accepted[|sent|..|sent| + inflight])
      && (!configured ==> accepted == [])
    }

    /** Outside a producer call: bytes waiting means a packet on its way. */
    ghost predicate Quiet()
      reads this
    {
      (|sent| < |accepted| ==> active) && (active ==> armed)
    }

    ghost function Queued(): seq<byte>
      requires Valid()
      reads this, ring, pma
    {
      Gathered(ring[..], |sent|, |accepted| - |sent|)
    }

    /** Bytes sent, then bytes queued: exactly the accepted spans, in order. */
    lemma Conservation()
      requires Valid()
      ensures sent + Queued() == accepted && |Queued()| <= CAPACITY
    {
      var all := sent + Queued();
      forall i | 0 <= i < |accepted| ensures all[i] == accepted[i] {
        if i >= |sent| {
          assert Queued()[i - |sent|] == ring[..][Home(i)];
        }
      }
    }

    constructor (configured: bool, arrivals: seq<bool>)
      ensures Valid() && Quiet() && accepted == sent == [] && this.configured == configured && this.arrivals == arrivals
      ensures fresh(ring) && fresh(pma)
    {
      ring, pma := new byte[CAPACITY], new byte[MAX_PACKET];
      this.configured, this.arrivals := configured, arrivals;
      head, tail, inflight, active, count, armed, accepted, sent := 0, 0, 0, false, 0, false, [], [];
    }

    // ----- the interrupt side -----

    /** A point between two steps of the producer: the host may take a packet here. */
    method Point()
      requires Valid()
      modifies this`arrivals, this`tail, this`inflight, this`active, this`count, this`armed, this`sent, pma
      ensures Valid() && |sent| >= |old(sent)|
      ensures old(Quiet()) ==> Quiet()
      ensures !old(armed) ==> tail == old(tail) && inflight == old(inflight) && active == old(active) && !armed && sent == old(sent)
                              && count == old(count) && pma[..] == old(pma[..])
      ensures old(armed) && active ==> armed
    {
      hide Holds;
      if arrivals == [] {
        return;
      }
      var now := arrivals[0];
      arrivals := arrivals[1..];
      if now && armed {
        HandleIn();
      }
    }

    /** The host took the packet: its bytes leave the ring and the next packet goes out. */
    method HandleIn()
      requires Valid() && armed
      modifies this`arrivals, this`tail, this`inflight, this`active, this`count, this`armed, this`sent, pma
      ensures Valid() && Quiet()
      ensures sent == old(sent) + old(pma[..count]) && |sent| == |old(sent)| + old(inflight)
    {
      hide Holds;
      ghost var before := |sent|;
      sent := sent + pma[..count];
      assert sent == accepted[..before + inflight];
      WrapAdd(before, inflight);
      KeepsHolding(ring[..], accepted, before, |sent|, |accepted|);
      if active {
        tail := (tail as int + inflight) % WORD;
        inflight, active := 0, false;
      }
      armed := false;
      KickQuietly();
    }

    /** `usb_management_tx_kick` where nothing can interrupt it. */
    method KickQuietly()
      requires Valid() && !active && !armed
      modifies this`arrivals, this`inflight, this`active, this`count, this`armed, pma
      ensures Valid() && Quiet()
    {
      hide Holds;
      if !configured || active {
        return;
      }
      var available := (head as int - tail as int) % WORD;
      Depth(|sent|, |accepted|);
      if available == 0 {
        return;
      }
      var length := if available > MAX_PACKET then MAX_PACKET else available;
      FillPacket(length, false);
      inflight, active, armed := length, true, true;
    }

    /** Copies the next packet into packet memory, two bytes at a time. */
    method FillPacket(length: nat, thread: bool)
      requires Valid() && !armed && length <= MAX_PACKET && |sent| + length <= |accepted|
      modifies this`arrivals, this`count, pma
      ensures Valid() && count == length && pma[..count] == accepted[|sent|..|sent| + length]
    {
      hide Slot, Holds;
      ghost var packet := accepted[|sent|..|sent| + length];
      var index := 0;
      while index < length
        modifies this`arrivals, pma
        invariant 0 <= index <= length + 1 && index % 2 == 0
        invariant forall i :: 0 <= i < index && i < length ==> pma[i] == packet[i]
      {
        Next(index);
        pma[index] := ring[Slot(tail, index)];
        if index + 1 < length {
          Next(index + 1);
          pma[index + 1] := ring[Slot(tail, index + 1)];
        } else if index + 1 < MAX_PACKET {
          pma[index + 1] := 0;
        }
        index := index + 2;
        if thread && arrivals != [] {
          arrivals := arrivals[1..];  // the endpoint is not armed: an interrupt finds nothing to take
        }
      }
      assert pma[..length] == packet;
      count := length;
    }

    lemma Next(offset: nat)
      requires Valid() && |sent| + offset < |accepted|
      ensures Slot(tail, offset) < CAPACITY && ring[Slot(tail, offset)] == accepted[|sent| + offset]
    {
      SlotIsHome(|sent|, tail, offset);
      assert ring[..][Home(|sent| + offset)] == accepted[|sent| + offset];
    }

    // ----- the producer -----

    /**
     `usb_management_tx_kick` in thread mode, with a point after every step. Whoever finds the endpoint idle sends; while
     it is idle nothing can interfere.
     */
    method Kick()
      requires Valid() && (active ==> armed)
      modifies this`arrivals, this`tail, this`inflight, this`active, this`count, this`armed, this`sent, pma
      ensures Valid() && (configured ==> Quiet()) && |sent| >= |old(sent)|
    {
      hide Holds;
      if !configured || active {
        Point();
        return;
      }
      Point();
      var available := (head as int - tail as int) % WORD;
      Depth(|sent|, |accepted|);
      if available == 0 {
        return;
      }
      Point();
      var length := if available > MAX_PACKET then MAX_PACKET else available;
      FillPacket(length, true);
      Launch(length);
    }

    /**
     `usb_management_write_span_atomic`: the whole span or nothing. The interrupt drains older bytes while the new ones
     are written behind them, and sees the span only once the head moves past all of it.
     */
    method WriteSpan(data: seq<byte>) returns (ok: bool)
      requires Valid() && Quiet()
      modifies this, ring, pma
      ensures Valid() && Quiet() && |sent| >= |old(sent)|
      ensures accepted == if ok then old(accepted) + data else old(accepted)
      ensures data == [] ==> ok
      ensures ok && data != [] ==> configured && |data| <= CAPACITY
      ensures configured && old(|accepted| - |sent|) + |data| <= CAPACITY ==> ok
    {
      hide Holds;
      var start := head;
      Point();
      var depth := (start as int - tail as int) % WORD;
      Depth(|sent|, |accepted|);
      if data == [] {
        return true;
      }
      Point();
      if !configured || |data| > CAPACITY || depth > CAPACITY || |data| > CAPACITY - depth {
        return false;
      }
      CopySpan(data, start);
      Publish(data, start);
      Point();
      Kick();
      return true;
    }

    /** One store makes the whole span visible. */
    method Publish(data: seq<byte>, start: u32)
      requires Valid() && Quiet() && configured && start == head && |accepted| + |data| <= |sent| + CAPACITY
      requires Holds(ring[..], accepted + data, |sent|, |accepted| + |data|)
      modifies this`head, this`accepted
      ensures Valid() && (active ==> armed) && accepted == old(accepted) + data
    {
      hide Holds;
      ghost var all := accepted + data;
      assert all[..|sent|] == accepted[..|sent|];
      assert active ==> all[|sent|..|sent| + inflight] == accepted[|sent|..|sent| + inflight];
      WrapAdd(|accepted|, |data|);
      accepted := all;
      head := (start as int + |data|) % WORD;
    }

    /** The bytes of a span, behind everything that is still queued. */
    method CopySpan(data: seq<byte>, start: u32)
      requires Valid() && Quiet() && start == head && |accepted| + |data| <= |sent| + CAPACITY
      modifies this`arrivals, this`tail, this`inflight, this`active, this`count, this`armed, this`sent, ring, pma
      ensures Valid() && Quiet() && |sent| >= |old(sent)|
      ensures Holds(ring[..], accepted + data, |sent|, |accepted| + |data|)
    {
      hide Holds, Slot, Home;
      ghost var all := accepted + data;
      StreamGrows(ring[..], accepted, data, |sent|);
      for index := 0 to |data|
        invariant Valid() && Quiet() && |sent| >= |old(sent)| && Holds(ring[..], all, |sent|, |accepted| + index)
      {
        PutByte(start, index, data[index], all);
        ghost var lead := |sent|;
        Point();
        KeepsHolding(ring[..], all, lead, |sent|, |accepted| + index + 1);
      }
    }

    method PutByte(start: u32, index: nat, b: byte, ghost all: seq<byte>)
      requires Valid() && Quiet() && start == head
      requires |accepted| + index < |all| <= |sent| + CAPACITY && all[|accepted| + index] == b
      requires Holds(ring[..], all, |sent|, |accepted| + index)
      modifies ring
      ensures Valid() && Holds(ring[..], all, |sent|, |accepted| + index + 1)
    {
      hide Holds, Slot, Home;
      ghost var before, packet := ring[..], pma[..];
      SlotIsHome(|accepted|, start, index);
      ring[Slot(start, index)] := b;
      assert ring[..] == before[Home(|accepted| + index) := b];
      assert pma[..] == packet;
      SlotFilled(before, all, |sent|, |accepted| + index);
      SlotFree(before, accepted, |sent|, |accepted| + index, b);
    }

    method Waiting() returns (depth: nat)
      requires Valid()
      ensures depth == |accepted| - |sent| <= CAPACITY
    {
      hide Holds;
      depth := (head as int - tail as int) % WORD;
      Depth(|sent|, |accepted|);
    }

    /** As long as bytes wait a packet is on its way, so the host gets them all. */
    method DrainAll()
      requires Valid() && Quiet()
      modifies this, pma
      ensures Valid() && Quiet() && sent == accepted == old(accepted)
    {
      hide Endpoint.Valid;
      EmptyRing();
      while head != tail
        invariant Valid() && Quiet() && accepted == old(accepted)
        invariant |sent| <= |accepted| && (head == tail <==> |sent| == |accepted|) && (|sent| == |accepted| ==> sent == accepted)
        invariant armed ==> inflight > 0
        decreases |accepted| - |sent|
      {
        HandleIn();
        EmptyRing();
      }
    }

    /** Equal indices mean that all was sent, although the indices wrap. */
    lemma EmptyRing()
      requires Valid()
      ensures |sent| <= |accepted| && (head == tail <==> |sent| == |accepted|) && (|sent| == |accepted| ==> sent == accepted)
      ensures armed ==> inflight > 0
    {
      hide Holds;
      Depth(|sent|, |accepted|);
    }

    /** The last steps of a kick: until the endpoint is armed the host sees nothing. */
    method Launch(length: nat)
      requires Valid() && !active && !armed && 1 <= length <= MAX_PACKET && |sent| + length <= |accepted|
      requires count == length && pma[..count] == accepted[|sent|..|sent| + length]
      modifies this`arrivals, this`tail, this`inflight, this`active, this`count, this`armed, this`sent, pma
      ensures Valid() && Quiet() && |sent| >= |old(sent)|
    {
      hide Holds;
      ghost var packet := pma[..];
      assert packet[..length] == pma[..length];
      Point();
      inflight := length;
      Point();
      active := true;
      Point();
      assert pma[..length] == packet[..length];
      armed := true;
      Point();
    }
  }

  /** The ring's bytes from a position on. */
  function Gathered(ring: seq<byte>, from: nat, n: nat): (g: seq<byte>)
    requires |ring| == CAPACITY
    ensures |g| == n && forall i :: 0 <= i < n ==> g[i] == ring[Home(from + i)]
  {
    seq<byte>(n, i requires 0 <= i => ring[Home(from + i)])
  }

  /** The ring holds the stream between two positions. */
  ghost predicate Holds(ring: seq<byte>, stream: seq<byte>, from: nat, to: nat) {
    |ring| == CAPACITY && to <= |stream| && forall i :: from <= i < to ==> ring[Home(i)] == stream[i]
  }

  lemma Depth(sent: nat, accepted: nat)
    requires sent <= accepted <= sent + CAPACITY
    ensures (accepted % WORD - sent % WORD) % WORD == accepted - sent
  {
    var d := accepted % WORD - sent % WORD;
    var k := sent / WORD - accepted / WORD;
    assert d == (accepted - sent) + WORD * k;
    WordRemainder(d, k, accepted - sent);
  }

  lemma KeepsHolding(ring: seq<byte>, stream: seq<byte>, from: nat, later: nat, to: nat)
    requires Holds(ring, stream, from, to) && from <= later
    ensures Holds(ring, stream, later, to)
  {
  }

  lemma StreamGrows(ring: seq<byte>, stream: seq<byte>, more: seq<byte>, from: nat)
    requires Holds(ring, stream, from, |stream|)
    ensures Holds(ring, stream + more, from, |stream|)
  {
  }

  /** The next free slot takes the next byte of the stream. */
  lemma SlotFilled(ring: seq<byte>, stream: seq<byte>, from: nat, to: nat)
    requires Holds(ring, stream, from, to) && from <= to < |stream| && to < from + CAPACITY
    ensures Holds(ring[Home(to) := stream[to]], stream, from, to + 1)
  {
    forall i | from <= i < to ensures Home(i) != Home(to) {
      HomesDiffer(i, to);
    }
  }

  /** Writing a free slot disturbs nothing that is queued. */
  lemma SlotFree(ring: seq<byte>, stream: seq<byte>, from: nat, at: nat, b: byte)
    requires Holds(ring, stream, from, |stream|) && |stream| <= at < from + CAPACITY
    ensures Holds(ring[Home(at) := b], stream, from, |stream|)
  {
    forall i | from <= i < |stream| ensures Home(i) != Home(at) {
      HomesDiffer(i, at);
    }
  }

  // ----- all traffic between two resets -----

  /** The bytes of the accepted spans, in order. */
  function AcceptedBytes(spans: seq<seq<byte>>, oks: seq<bool>): seq<byte>
    requires |oks| <= |spans|
  {
    if oks == [] then []
    else AcceptedBytes(spans, oks[..|oks| - 1]) + if oks[|oks| - 1] then spans[|oks| - 1] else []
  }

  lemma AcceptedNone(spans: seq<seq<byte>>)
    ensures AcceptedBytes(spans, []) == []
  {
  }

  lemma AcceptedMore(spans: seq<seq<byte>>, oks: seq<bool>, ok: bool)
    requires |oks| < |spans|
    ensures AcceptedBytes(spans, oks + [ok]) == AcceptedBytes(spans, oks) + if ok then spans[|oks|] else []
  {
    assert (oks + [ok])[..|oks|] == oks;
  }

  /**
   Any spans, interrupts anywhere: what the host has taken once the ring is drained is the accepted spans in order, each
   whole, and the ring never holds more than it can.
   */
  method Traffic(configured: bool, spans: seq<seq<byte>>, arrivals: seq<bool>) returns (oks: seq<bool>, depth: nat, delivered: seq<byte>)
    ensures |oks| == |spans| && depth <= CAPACITY && delivered == AcceptedBytes(spans, oks)
    ensures forall i :: 0 <= i < |spans| && oks[i] && spans[i] != [] ==> configured && |spans[i]| <= CAPACITY
  {
    hide Holds, Endpoint.Valid, Endpoint.Quiet, AcceptedBytes;
    AcceptedNone(spans);
    var e := new Endpoint(configured, arrivals);
    oks := [];
    for i := 0 to |spans|
      invariant e.Valid() && e.Quiet() && fresh(e) && fresh(e.ring) && fresh(e.pma) && e.configured == configured
      invariant |oks| == i && e.accepted == AcceptedBytes(spans, oks)
      invariant forall j :: 0 <= j < i && oks[j] && spans[j] != [] ==> configured && |spans[j]| <= CAPACITY
    {
      var ok := e.WriteSpan(spans[i]);
      AcceptedMore(spans, oks, ok);
      oks := oks + [ok];
    }
    depth := e.Waiting();
    e.DrainAll();
    delivered := e.sent;
  }
}
