/** The node's runtime: bytes from the stream become frames, frames are encoded again for the worker, replies come back. */
module NodeRuntime {
  import opened Bytes
  import opened NodeCodec
  import opened NodeStream
  import opened NodePeers

  const COUNTER_MAX: u32 := 0xFFFF_FFFF

  class Runtime {
    const stream: Stream
    const worker: Worker
    var received: u32
    var replied: u32
    var partial: u32

    ghost predicate Valid()
      reads this, stream, stream.bytes, worker
    {
      stream.Valid() && worker.Valid()
    }

    constructor ()
      ensures Valid() && stream.Contents() == [] && worker.view == IDLE_WORKER
      ensures fresh(stream) && fresh(stream.bytes) && fresh(worker)
      ensures received == replied == partial == 0
    {
      stream := new Stream();
      worker := new Worker();
      received, replied, partial := 0, 0, 0;
    }

    /**
     One byte. Without a frame the worker is not touched; with one, the worker serves exactly that frame, because
     encoding it again gives back the very bytes that arrived.
     */
    method Feed(b: byte, ms: u32, cap: nat) returns (status: Code, reply: seq<byte>, found: Option<Frame>)
      requires Valid()
      modifies this, stream, stream.bytes, worker
      ensures Valid() && stream.input == old(stream.input) + [b]
      ensures found.None? ==> Settled(old(stream.Kept(ms)) + [b], Drop, NOTHING, stream.Contents())
      ensures found.None? ==> status == Drop && worker.view == old(worker.view)
      ensures found.Some? ==> Settled(old(stream.Kept(ms)) + [b], Ok, found.value, stream.Contents()) && Occurs(Wire(found.value), stream.input)
                              && Delivered(Serve(old(worker.view), found.value), old(worker.view), cap, status, reply, worker.view)
      ensures status != Ok ==> reply == []
      ensures stream.used > 0 ==> stream.startedAt == if old(stream.Kept(ms)) == [] then ms else old(stream.startedAt)
      ensures received == (if found.Some? && old(received) < 0xFFFF_FFFF then old(received) + 1 else old(received))
      ensures replied == (if status == Ok && old(replied) < 0xFFFF_FFFF then old(replied) + 1 else old(replied))
      ensures partial == (if found.None? && old(partial) < 0xFFFF_FFFF then old(partial) + 1 else old(partial))
    {
      hide Wire, Decoded, Serve, Occurs, Settled, Delivered, IsTail;
      reply, found := [], None;
      var f;
      status, f := stream.Feed(b, ms);
      if status != Ok {
        SettledIgnoresFrame(old(stream.Kept(ms)) + [b], status, f, stream.Contents());
        if status == Drop && partial != COUNTER_MAX {
          partial := partial + 1;
        }
        return;
      }
      found := Some(f);
      if received != COUNTER_MAX {
        received := received + 1;
      }
      var raw;
      status, raw := Encode(f, MAX_FRAME);
      if status != Ok {
        assert false;  // a decoded frame can always be encoded
      }
      DecodeUndoesEncode(f);
      status, reply := worker.Process(raw, cap);
      if status == Ok && replied != COUNTER_MAX {
        replied := replied + 1;
      }
    }
  }

  const NOTHING := Frame(0, 0, 0, [])

  lemma SettledIgnoresFrame(all: seq<byte>, status: Code, f: Frame, left: seq<byte>)
    requires Settled(all, status, f, left) && status != Ok
    ensures status == Drop && Settled(all, Drop, NOTHING, left)
  {
  }

  /** Noise without the first magic byte passes an idle node by. */
  method SkipNoise(rt: Runtime, noise: seq<byte>, times: seq<u32>)
    requires rt.Valid() && 0xD5 !in noise && |times| == |noise|
    requires noise != [] ==> rt.stream.Kept(times[0]) == []
    modifies rt, rt.stream, rt.stream.bytes, rt.worker
    ensures rt.Valid() && rt.worker.view == old(rt.worker.view)
    ensures if noise == [] then unchanged(rt.stream) && unchanged(rt.stream.bytes) else rt.stream.Contents() == []
  {
    hide Wire, Settled, IsTail, Occurs, Serve, Delivered;
    for i := 0 to |noise|
      invariant rt.Valid() && rt.worker.view == old(rt.worker.view)
      invariant i > 0 ==> rt.stream.Contents() == []
      invariant i == 0 ==> unchanged(rt.stream) && unchanged(rt.stream.bytes)
    {
      var _, _, found := rt.Feed(noise[i], times[i], MAX_FRAME);
      assert [] + [noise[i]] == [noise[i]];
      NoiseSettles(noise[i], if found.Some? then Ok else Drop, if found.Some? then found.value else NOTHING, rt.stream.Contents());
    }
  }

  /**
   A request fed within the timeout behind whatever the buffer holds, with any room for the reply. The worker serves what
   the stream reports first: the request itself, on its last byte, if and only if every start among the kept bytes is dead
   by then.
   */
  method ServeBehind(rt: Runtime, f: Frame, times: seq<u32>, cap: nat)
    returns (status: Code, reply: seq<byte>, fed: nat, found: Option<Frame>)
    requires rt.Valid() && Sendable(f) && |times| == |Wire(f)|
    requires var since := if rt.stream.Kept(times[0]) == [] then times[0] else rt.stream.startedAt;
             forall i :: 0 <= i < |times| ==> (times[i] - since) % 0x1_0000_0000 <= PARTIAL_TIMEOUT_MS
    modifies rt, rt.stream, rt.stream.bytes, rt.worker
    ensures rt.Valid() && fed <= |Wire(f)|
    ensures AllDead(old(rt.stream.Kept(times[0])), Wire(f)) ==> found == Some(f) && fed == |Wire(f)|
    ensures found.Some? ==> rt.stream.Contents() == [] && Reported(old(rt.stream.Kept(times[0])), f, fed, found.value)
    ensures found.Some? ==> Delivered(Serve(old(rt.worker.view), found.value), old(rt.worker.view), cap, status, reply, rt.worker.view)
    ensures found.None? ==> status == Drop && reply == [] && fed == |Wire(f)| && rt.worker.view == old(rt.worker.view)
  {
    hide Wire, Settled, IsTail, Occurs, Serve, Delivered, FirstStart, Promising, Complete, AllDead, Reported, Rest;
    ghost var kept := rt.stream.Kept(times[0]);
    ghost var since := if kept == [] then times[0] else rt.stream.startedAt;
    var w := Wire(f);
    KeptRests(rt.stream, times[0]);
    assert kept + w[..0] == kept && w[..|w|] == w;
    for i := 0 to |w|
      invariant rt.Valid() && rt.worker.view == old(rt.worker.view)
      invariant i == 0 ==> rt.stream.Kept(times[0]) == kept && rt.stream.startedAt == old(rt.stream.startedAt)
      invariant i > 0 ==> rt.stream.Contents() == Rest(kept + w[..i]) != [] && rt.stream.startedAt == since
      invariant i == |w| ==> !AllDead(kept, w)
    {
      assert rt.stream.Kept(times[i]) == Rest(kept + w[..i]);
      status, reply, found := ServeByte(rt, kept, f, i, times[i], cap);
      if found.Some? {
        fed := i + 1;
        ReportedWhole(kept, f, fed, found.value);
        return;
      }
    }
    status, reply, fed, found := Drop, [], |w|, None;
  }

  /** One byte of a request behind kept ones. */
  method ServeByte(rt: Runtime, ghost kept: seq<byte>, f: Frame, i: nat, time: u32, cap: nat)
    returns (status: Code, reply: seq<byte>, found: Option<Frame>)
    requires rt.Valid() && Sendable(f) && i < |Wire(f)| && rt.stream.Kept(time) == Rest(kept + Wire(f)[..i])
    modifies rt, rt.stream, rt.stream.bytes, rt.worker
    ensures rt.Valid()
    ensures found.None? ==> rt.stream.Contents() == Rest(kept + Wire(f)[..i + 1]) != [] && rt.worker.view == old(rt.worker.view)
    ensures found.None? ==> rt.stream.startedAt == if old(rt.stream.Kept(time)) == [] then time else old(rt.stream.startedAt)
    ensures found.None? && i + 1 == |Wire(f)| ==> !AllDead(kept, Wire(f))
    ensures found.Some? ==> rt.stream.Contents() == [] && Reported(kept, f, i + 1, found.value)
    ensures found.Some? ==> Delivered(Serve(old(rt.worker.view), found.value), old(rt.worker.view), cap, status, reply, rt.worker.view)
  {
    hide Wire, Settled, IsTail, Occurs, Serve, Delivered, AllDead, Reported, Rest, Promising;
    status, reply, found := rt.Feed(Wire(f)[i], time, cap);
    OneByteBehind(kept, f, i, if found.Some? then Ok else Drop, if found.Some? then found.value else NOTHING, rt.stream.Contents());
  }

  lemma KeptRests(stream: Stream, time: u32)
    requires stream.Valid()
    ensures Rest(stream.Kept(time)) == stream.Kept(time)
  {
    hide Rest, Promising;
    PromisingIsNotComplete([]);
    RestOfKept(stream.Kept(time));
  }

  /** A request after noise, byte by byte into an idle node: one answer, the worker's, on the last byte. */
  method ServeRequest(rt: Runtime, noise: seq<byte>, noiseTimes: seq<u32>, f: Frame, times: seq<u32>) returns (replies: seq<seq<byte>>)
    requires rt.Valid() && Sendable(f) && 0xD5 !in noise && |noiseTimes| == |noise| && |times| == |Wire(f)|
    requires forall i :: 0 <= i < |times| ==> (times[i] - times[0]) % 0x1_0000_0000 <= PARTIAL_TIMEOUT_MS
    requires rt.stream.Kept(if noise == [] then times[0] else noiseTimes[0]) == []
    modifies rt, rt.stream, rt.stream.bytes, rt.worker
    ensures rt.Valid() && rt.stream.Contents() == [] && rt.worker.view == Serve(old(rt.worker.view), f).0
    ensures match Serve(old(rt.worker.view), f).1
            case None => replies == []
            case Some(reply) => Sendable(reply) && replies == [Wire(reply)]
  {
    hide Wire, Serve, FirstStart, Reported;
    SkipNoise(rt, noise, noiseTimes);
    var status, reply, _, _ := ServeBehind(rt, f, times, MAX_FRAME);
    replies := if status == Ok then [reply] else [];
  }
}
