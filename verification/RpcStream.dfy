/**
 Streaming an RPC's output: the device cuts what a handler writes into DATA frames and closes with END; the host puts
 the pieces together again. Holds for every output and for a transport that may refuse any frame.
 */
module RpcStream {
  import opened Bytes
  import opened Frames
  import opened FrameMachines

  const CHUNK_MAX: nat := 48
  const HOST_LIMIT: nat := 0x1_0000  // the host's bound on aggregated output
  const RPC_DATA: byte := 0x82
  const RPC_END: byte := 0x83
  const STATUS_OK: byte := 0
  const STATUS_INTERNAL_ERROR: byte := 4
  const DOMAIN_COMMAND: byte := 0

  function Low16(n: nat): u16 { n % 0x1_0000 }

  function DataFrame(rpcId: u16, requestId: u16, sequence: nat, chunk: seq<byte>): Frame {
    Outgoing(RPC_DATA, 0, requestId, Le16(rpcId) + Le16(Low16(sequence)) + chunk)
  }

  function EndFrame(rpcId: u16, requestId: u16, count: nat, total: nat, domain: byte, code: byte): Frame {
    Outgoing(RPC_END, 0, requestId, Le16(rpcId) + Le16(Low16(count)) + Le32(Low32(total)) + [domain, code])
  }

  /** The DATA frames of a list of chunks, numbered from 0. */
  function DataFrames(rpcId: u16, requestId: u16, chunks: seq<seq<byte>>): (r: seq<Frame>)
    ensures |r| == |chunks|
  {
    if chunks == [] then []
    else
      var last := |chunks| - 1;
      DataFrames(rpcId, requestId, chunks[..last]) + [DataFrame(rpcId, requestId, last, chunks[last])]
  }

  predicate ProperChunks(chunks: seq<seq<byte>>) {
    forall i :: 0 <= i < |chunks| ==> 1 <= |chunks[i]| <= CHUNK_MAX
  }

  lemma ChunkAdded(rpcId: u16, requestId: u16, chunks: seq<seq<byte>>, chunk: seq<byte>)
    ensures Joined(chunks + [chunk]) == Joined(chunks) + chunk
    ensures DataFrames(rpcId, requestId, chunks + [chunk]) ==
            DataFrames(rpcId, requestId, chunks) + [DataFrame(rpcId, requestId, |chunks|, chunk)]
  {
    assert (chunks + [chunk])[..|chunks|] == chunks;
  }

  // ----- the device -----

  predicate AlwaysTakes(link: seq<bool>) {
    forall i :: 0 <= i < |link| ==> link[i]
  }

  class Output {
    const rpcId: u16
    const requestId: u16
    const wire: array<byte>  // the shared workspace; the chunk grows at offset 14
    var sequence: u16
    var totalOutputBytes: u32
    var chunkLength: nat
    var txFailed: bool
    var link: seq<bool>  // whether the transport takes each coming frame; beyond the list it does
    var sent: seq<Frame>  // what it took
    ghost var chunks: seq<seq<byte>>  // the chunks behind the DATA frames sent

    ghost predicate Counted()
      reads this
    {
      && wire.Length == 64 && chunkLength <= CHUNK_MAX
      && ProperChunks(chunks)
      && sequence == Low16(|chunks|) && totalOutputBytes == Low32(|Joined(chunks)|)
      && sent == DataFrames(rpcId, requestId, chunks)
    }

    /** Between calls a chunk is full only if it could not be sent. */
    ghost predicate Valid()
      reads this
    {
      Counted() && (chunkLength == CHUNK_MAX ==> txFailed)
    }

    /** Everything the handler wrote that was not refused. */
    ghost function Accepted(): seq<byte>
      requires Counted()
      reads this, wire
    {
      Joined(chunks) + wire[14..14 + chunkLength]
    }

    constructor (rpcId: u16, requestId: u16, link: seq<bool>)
      ensures Valid() && Accepted() == [] && chunks == [] && !txFailed && fresh(wire)
      ensures this.rpcId == rpcId && this.requestId == requestId && this.link == link
    {
      this.rpcId, this.requestId, this.link := rpcId, requestId, link;
      sequence, totalOutputBytes, chunkLength, txFailed, sent, chunks := 0, 0, 0, false, [], [];
      wire := new byte[64](_ => 0);
    }

    /** Finalizes the workspace in place and offers it to the transport. */
    method SendWorkspaceFrame(frameType: byte, length: nat) returns (ok: bool)
      requires wire.Length == 64 && length <= 52
      modifies this`link, this`sent, this`txFailed, wire
      ensures wire[10..10 + length] == old(wire[10..10 + length])
      ensures ok <==> old(link) == [] || old(link)[0]
      ensures link == if old(link) == [] then [] else old(link)[1..]
      ensures txFailed == (old(txFailed) || !ok)
      ensures sent == if ok then old(sent) + [Outgoing(frameType, 0, requestId, old(wire[10..10 + length]))] else old(sent)
    {
      hide Wire;
      ghost var frame := Outgoing(frameType, 0, requestId, wire[10..10 + length]);
      var content := wire[10..10 + length];
      var n := FinalizeInPlace(frameType, 0, requestId, length, wire);
      PayloadInWire(frame, wire[..n]);
      assert wire[10..10 + length] == wire[..n][10..10 + length];
      ok := link == [] || link[0];
      link := if link == [] then [] else link[1..];
      if ok {
        sent := sent + [Outgoing(frameType, 0, requestId, content)];
      } else {
        txFailed := true;
      }
    }

    method FlushData() returns (ok: bool)
      requires Counted() && !txFailed
      modifies this, wire
      ensures Counted() && txFailed == !ok
      ensures Accepted() == old(Accepted())
      ensures ok ==> chunkLength == 0
      ensures !ok ==> chunks == old(chunks) && chunkLength == old(chunkLength)
      ensures old(AlwaysTakes(link)) ==> ok && AlwaysTakes(link)
    {
      hide DataFrames, Low16, Low32, Joined, DataFrame;
      if chunkLength == 0 {
        return true;
      }
      ghost var chunk := wire[14..14 + chunkLength];
      ok := SendChunk();
      if !ok {
        return;
      }
      ChunkAdded(rpcId, requestId, chunks, chunk);
      CountersAdvance(|chunks|, |Joined(chunks)|, chunkLength);
      totalOutputBytes := Low32(totalOutputBytes + chunkLength);
      chunkLength := 0;
      sequence := Low16(sequence + 1);
      chunks := chunks + [chunk];
      assert wire[14..14] == [];
    }

    /** Puts ids in front of the chunk and sends it. */
    method SendChunk() returns (ok: bool)
      requires wire.Length == 64 && chunkLength <= CHUNK_MAX && sequence == Low16(|chunks|) && !txFailed
      modifies this`link, this`sent, this`txFailed, wire
      ensures wire[14..14 + chunkLength] == old(wire[14..14 + chunkLength])
      ensures txFailed == !ok
      ensures sent == if ok then old(sent) + [DataFrame(rpcId, requestId, |chunks|, old(wire[14..14 + chunkLength]))] else old(sent)
      ensures old(AlwaysTakes(link)) ==> ok && AlwaysTakes(link)
    {
      hide Le16, Low16;
      ghost var chunk := wire[14..14 + chunkLength];
      var id, number := Le16(rpcId), Le16(sequence);
      wire[10], wire[11] := id[0], id[1];
      wire[12], wire[13] := number[0], number[1];
      assert wire[14..14 + chunkLength] == chunk;
      ghost var content := wire[10..14 + chunkLength];
      assert content == id + number + chunk && content[4..] == chunk;
      ok := SendWorkspaceFrame(RPC_DATA, 4 + chunkLength);
      assert wire[10..14 + chunkLength][4..] == wire[14..14 + chunkLength];
    }

    /** `binary_rpc_output_write_byte`: flushes on a full chunk and on a line end. */
    method WriteByte(b: byte) returns (ok: bool)
      requires Valid()
      modifies this, wire
      ensures Valid()
      ensures ok <==> !txFailed
      ensures old(txFailed) ==> unchanged(this) && wire[..] == old(wire[..])
      ensures ok ==> Accepted() == old(Accepted()) + [b]
      ensures ok && b == 0x0A ==> chunkLength == 0
      ensures !ok ==> chunks == old(chunks)
      ensures !old(txFailed) && old(AlwaysTakes(link)) ==> ok && AlwaysTakes(link)
    {
      hide DataFrames, Low16, Low32;
      if txFailed {
        return false;
      }
      if chunkLength >= CHUNK_MAX {
        assert false;  // a full chunk was flushed when it filled up
      }
      wire[14 + chunkLength] := b;
      chunkLength := chunkLength + 1;
      assert wire[14..14 + chunkLength] == old(wire[14..14 + chunkLength]) + [b];
      if chunkLength == CHUNK_MAX || b == 0x0A {
        ok := FlushData();
      } else {
        ok := true;
      }
    }

    method SendEnd(domain: byte, code: byte) returns (ok: bool)
      requires Counted()
      modifies this`link, this`sent, this`txFailed, wire
      ensures ok <==> old(link) == [] || old(link)[0]
      ensures sent == if ok then old(sent) + [EndFrame(rpcId, requestId, |chunks|, |Joined(chunks)|, domain, code)] else old(sent)
    {
      hide Le16, Le32, Low16, Low32, DataFrames, Joined;
      var id, count, total := Le16(rpcId), Le16(sequence), Le32(totalOutputBytes);
      wire[10], wire[11] := id[0], id[1];
      wire[12], wire[13] := count[0], count[1];
      wire[14], wire[15], wire[16], wire[17] := total[0], total[1], total[2], total[3];
      wire[18], wire[19] := domain, code;
      assert wire[10..20] == id + count + total + [domain, code];
      ok := SendWorkspaceFrame(RPC_END, 10);
    }
  }

  /**
   A request's answer. Whatever the transport refuses, the DATA frames carry a prefix of the output, END counts the
   frames that went out, and END says OK only if all of it did.
   */
  method Respond(rpcId: u16, requestId: u16, output: seq<byte>, status: byte, link: seq<bool>)
    returns (frames: seq<Frame>, endSent: bool, code: byte, ghost chunks: seq<seq<byte>>)
    ensures ProperChunks(chunks) && Joined(chunks) <= output
    ensures frames == DataFrames(rpcId, requestId, chunks)
                      + (if endSent then [EndFrame(rpcId, requestId, |chunks|, |Joined(chunks)|, DOMAIN_COMMAND, code)] else [])
    ensures code == status || code == STATUS_INTERNAL_ERROR
    ensures code == STATUS_OK ==> Joined(chunks) == output
    ensures AlwaysTakes(link) ==> endSent && code == status && Joined(chunks) == output
  {
    hide DataFrames, Low16, Low32, Joined, EndFrame;
    var o := new Output(rpcId, requestId, link);
    var writeFailed := false;
    for i := 0 to |output|
      invariant o.Valid() && fresh(o) && fresh(o.wire) && o.rpcId == rpcId && o.requestId == requestId
      invariant Joined(o.chunks) <= output && writeFailed == o.txFailed
      invariant !writeFailed ==> o.Accepted() == output[..i]
      invariant AlwaysTakes(link) ==> !writeFailed && AlwaysTakes(o.link)
    {
      var ok := o.WriteByte(output[i]);
      if !ok {
        writeFailed := true;
      } else {
        assert output[..i + 1] == output[..i] + [output[i]];
        assert Joined(o.chunks) <= o.Accepted() <= output;
      }
    }
    code := status;
    if !o.txFailed {
      assert output[..|output|] == output;
      var flushed := o.FlushData();
      if !flushed {
        code := STATUS_INTERNAL_ERROR;
      }
      assert o.wire[14..14] == [];
    }
    if writeFailed || o.txFailed {
      code := STATUS_INTERNAL_ERROR;
    }
    chunks := o.chunks;
    endSent := o.SendEnd(DOMAIN_COMMAND, code);
    frames := o.sent;
  }

  // ----- the host -----

  datatype HostError = IncompatibleProtocol | Protocol | RequestCorrelation

  datatype Reply =
    | Complete(chunkCount: u16, totalBytes: u32, domain: byte, code: byte, output: seq<byte>)
    | Failed(error: HostError)
    | Waiting  // the stream ended without END

  /** What the host makes of one frame, given what it has collected; `Waiting` means it takes the data and goes on. */
  function Judge(f: Frame, rpcId: u16, requestId: u16, expected: u16, received: u16, output: seq<byte>): Reply {
    if f.version != VERSION then Failed(IncompatibleProtocol)
    else if f.flags != 0 || f.reserved != 0 then Failed(Protocol)
    else if f.requestId != requestId then Failed(RequestCorrelation)
    else if f.frameType == RPC_DATA then
      if |f.payload| < 4 then Failed(Protocol)
      else if FromLe16(f.payload[..2]) != rpcId then Failed(RequestCorrelation)
      else if FromLe16(f.payload[2..4]) != expected then Failed(RequestCorrelation)
      else if |f.payload| - 4 > CHUNK_MAX then Failed(Protocol)
      else if |output| + |f.payload| - 4 > HOST_LIMIT then Failed(Protocol)
      else Waiting
    else if f.frameType != RPC_END then Failed(Protocol)
    else if |f.payload| != 10 then Failed(Protocol)
    else if FromLe16(f.payload[..2]) != rpcId then Failed(RequestCorrelation)
    else if FromLe16(f.payload[2..4]) != received then Failed(Protocol)
    else if FromLe32(f.payload[4..8]) != |output| then Failed(Protocol)
    else Complete(FromLe16(f.payload[2..4]), FromLe32(f.payload[4..8]), f.payload[8], f.payload[9], output)
  }

  function Rebuilt(frames: seq<Frame>, rpcId: u16, requestId: u16, expected: u16, received: u16, output: seq<byte>): Reply
    decreases |frames|
  {
    if frames == [] then Waiting
    else
      var verdict := Judge(frames[0], rpcId, requestId, expected, received, output);
      if verdict != Waiting then verdict
      else Rebuilt(frames[1..], rpcId, requestId, Low16(expected + 1), Low16(received + 1), output + DataIn(frames[0]))
  }

  function DataIn(f: Frame): seq<byte> {
    if |f.payload| < 4 then [] else f.payload[4..]
  }

  /** The receive loop of `RpcCoreAsync`. */
  method Reassemble(frames: seq<Frame>, rpcId: u16, requestId: u16) returns (r: Reply)
    ensures r == Rebuilt(frames, rpcId, requestId, 0, 0, [])
  {
    hide Judge;
    var output: seq<byte> := [];
    var expectedSequence: u16, receivedChunks: u16 := 0, 0;
    for i := 0 to |frames|
      invariant Rebuilt(frames, rpcId, requestId, 0, 0, []) == Rebuilt(frames[i..], rpcId, requestId, expectedSequence, receivedChunks, output)
    {
      var verdict := Judge(frames[i], rpcId, requestId, expectedSequence, receivedChunks, output);
      assert frames[i..][1..] == frames[i + 1..];
      if verdict != Waiting {
        return verdict;
      }
      output := output + DataIn(frames[i]);
      expectedSequence := Low16(expectedSequence + 1);
      receivedChunks := Low16(receivedChunks + 1);
    }
    return Waiting;
  }

  // ----- what the host takes for complete -----

  /** The bytes behind the ids and numbers of the first frames. */
  function Carried(frames: seq<Frame>, n: nat): seq<byte>
    requires n <= |frames|
  {
    if n == 0 then [] else Carried(frames, n - 1) + DataIn(frames[n - 1])
  }

  predicate IsData(f: Frame, rpcId: u16, requestId: u16, number: nat) {
    && f.version == 1 && f.flags == f.reserved == 0 && f.requestId == requestId && f.frameType == 0x82
    && 4 <= |f.payload| <= 52 && FromLe16(f.payload[..2]) == rpcId && FromLe16(f.payload[2..4]) as int == number % 0x1_0000
  }

  predicate IsEnd(f: Frame, rpcId: u16, requestId: u16, count: nat, total: nat) {
    && f.version == 1 && f.flags == f.reserved == 0 && f.requestId == requestId && f.frameType == 0x83 && |f.payload| == 10
    && FromLe16(f.payload[..2]) == rpcId && FromLe16(f.payload[2..4]) as int == count % 0x1_0000 && FromLe32(f.payload[4..8]) as int == total
  }

  lemma JudgeMeans(f: Frame, rpcId: u16, requestId: u16, k: nat, output: seq<byte>)
    ensures var r := Judge(f, rpcId, requestId, Low16(k), Low16(k), output);
            && (r == Waiting ==> IsData(f, rpcId, requestId, k) && |output| + |DataIn(f)| <= 0x1_0000)
            && (r.Complete? ==>
                  && IsEnd(f, rpcId, requestId, k, |output|) && r.output == output && r.totalBytes as int == |output|
                  && r.chunkCount as int == k % 0x1_0000 && r.domain == f.payload[8] && r.code == f.payload[9])
  {
    hide FromLe16, FromLe32;
  }

  /**
   Whatever frames arrive: the host takes them for a complete answer only if they are DATA frames of this request in
   sequence and then its END, whose counts are right; the output is what they carried, within the bound.
   */
  lemma {:induction false} OnlyWholeStreams(frames: seq<Frame>, rpcId: u16, requestId: u16, k: nat) returns (end: nat)
    requires k <= |frames| && |Carried(frames, k)| <= 0x1_0000
    requires Rebuilt(frames[k..], rpcId, requestId, Low16(k), Low16(k), Carried(frames, k)).Complete?
    ensures k <= end < |frames| && |Carried(frames, end)| <= 0x1_0000
    ensures forall i :: k <= i < end ==> IsData(frames[i], rpcId, requestId, i)
    ensures IsEnd(frames[end], rpcId, requestId, end, |Carried(frames, end)|)
    ensures var r := Rebuilt(frames[k..], rpcId, requestId, Low16(k), Low16(k), Carried(frames, k));
            && r.output == Carried(frames, end) && r.totalBytes as int == |r.output| && r.chunkCount as int == end % 0x1_0000
            && r.domain == frames[end].payload[8] && r.code == frames[end].payload[9]
    decreases |frames| - k
  {
    hide Judge, IsData, IsEnd, Low16;
    var f, output := frames[k], Carried(frames, k);
    assert frames[k..][0] == f && frames[k..][1..] == frames[k + 1..];
    JudgeMeans(f, rpcId, requestId, k, output);
    if Judge(f, rpcId, requestId, Low16(k), Low16(k), output) == Waiting {
      CountersAdvance(k, 0, 0);
      end := OnlyWholeStreams(frames, rpcId, requestId, k + 1);
    } else {
      end := k;
    }
  }

  /** And all of these it takes: an empty chunk does no harm. */
  lemma {:induction false} WholeStreamsComplete(frames: seq<Frame>, rpcId: u16, requestId: u16, k: nat, end: nat)
    requires k <= end < |frames| && |Carried(frames, end)| <= 0x1_0000
    requires forall i :: k <= i < end ==> IsData(frames[i], rpcId, requestId, i)
    requires IsEnd(frames[end], rpcId, requestId, end, |Carried(frames, end)|)
    ensures Rebuilt(frames[k..], rpcId, requestId, Low16(k), Low16(k), Carried(frames, k)).Complete?
    decreases end - k
  {
    hide Judge, IsData, IsEnd, Low16;
    var f, output := frames[k], Carried(frames, k);
    assert frames[k..][0] == f && frames[k..][1..] == frames[k + 1..];
    CarriedGrows(frames, k, end);
    JudgeAccepts(f, rpcId, requestId, k, output);
    if k < end {
      CarriedGrows(frames, k + 1, end);
      CountersAdvance(k, 0, 0);
      WholeStreamsComplete(frames, rpcId, requestId, k + 1, end);
    }
  }

  lemma {:induction false} CarriedGrows(frames: seq<Frame>, k: nat, n: nat)
    requires k <= n <= |frames|
    ensures |Carried(frames, k)| <= |Carried(frames, n)|
    decreases n
  {
    if k < n {
      CarriedGrows(frames, k, n - 1);
    }
  }

  lemma JudgeAccepts(f: Frame, rpcId: u16, requestId: u16, k: nat, output: seq<byte>)
    ensures var r := Judge(f, rpcId, requestId, Low16(k), Low16(k), output);
            && (IsData(f, rpcId, requestId, k) && |output| + |DataIn(f)| <= 0x1_0000 ==> r == Waiting)
            && (IsEnd(f, rpcId, requestId, k, |output|) ==> r.Complete?)
  {
    hide FromLe16, FromLe32;
  }

  lemma JudgeData(rpcId: u16, requestId: u16, k: nat, chunk: seq<byte>, received: u16, output: seq<byte>)
    requires 1 <= |chunk| <= CHUNK_MAX
    ensures Judge(DataFrame(rpcId, requestId, k, chunk), rpcId, requestId, Low16(k), received, output) ==
            if |output| + |chunk| > HOST_LIMIT then Failed(Protocol) else Waiting
    ensures DataIn(DataFrame(rpcId, requestId, k, chunk)) == chunk
  {
    hide Le16, FromLe16, Low16;
    var p := DataFrame(rpcId, requestId, k, chunk).payload;
    assert p[..2] == Le16(rpcId) && p[2..4] == Le16(Low16(k)) && p[4..] == chunk;
    Le16Inverse(rpcId, p[..2]);
    Le16Inverse(Low16(k), p[2..4]);
  }

  lemma JudgeEnd(rpcId: u16, requestId: u16, k: nat, domain: byte, code: byte, output: seq<byte>)
    requires |output| <= HOST_LIMIT
    ensures Judge(EndFrame(rpcId, requestId, k, |output|, domain, code), rpcId, requestId, Low16(k), Low16(k), output) ==
            Complete(Low16(k), |output|, domain, code, output)
  {
    hide Le16, Le32, FromLe16, FromLe32, Low16;
    var p := EndFrame(rpcId, requestId, k, |output|, domain, code).payload;
    BelowWord(|output|);
    assert p[..2] == Le16(rpcId) && p[2..4] == Le16(Low16(k)) && p[4..8] == Le32(|output|);
    assert p[8] == domain && p[9] == code;
    Le16Inverse(rpcId, p[..2]);
    Le16Inverse(Low16(k), p[2..4]);
    Le32Inverse(|output|, p[4..8]);
  }

  /** The host rebuilds what the DATA frames carried exactly when it is within the host's bound. */
  lemma {:induction false} RebuildsChunks(rpcId: u16, requestId: u16, chunks: seq<seq<byte>>, k: nat, domain: byte, code: byte)
    requires ProperChunks(chunks) && k <= |chunks| && |Joined(chunks[..k])| <= HOST_LIMIT
    ensures var all := Joined(chunks);
            Rebuilt(DataFrames(rpcId, requestId, chunks)[k..] + [EndFrame(rpcId, requestId, |chunks|, |all|, domain, code)],
                    rpcId, requestId, Low16(k), Low16(k), Joined(chunks[..k])) ==
            if |all| <= HOST_LIMIT then Complete(Low16(|chunks|), |all|, domain, code, all) else Failed(Protocol)
    decreases |chunks| - k
  {
    hide Judge, DataFrame, EndFrame, Low16;
    var all := Joined(chunks);
    var end := EndFrame(rpcId, requestId, |chunks|, |all|, domain, code);
    var frames := DataFrames(rpcId, requestId, chunks)[k..] + [end];
    if k == |chunks| {
      assert chunks[..k] == chunks && frames == [end];
      JudgeEnd(rpcId, requestId, |chunks|, domain, code, all);
    } else {
      NthFrame(rpcId, requestId, chunks, k);
      JudgeData(rpcId, requestId, k, chunks[k], Low16(k), Joined(chunks[..k]));
      JoinedStep(chunks, k);
      assert frames[1..] == DataFrames(rpcId, requestId, chunks)[k + 1..] + [end];
      CountersAdvance(k, 0, 0);
      if |Joined(chunks[..k + 1])| <= HOST_LIMIT {
        RebuildsChunks(rpcId, requestId, chunks, k + 1, domain, code);
      } else {
        JoinedPrefix(chunks, k + 1);
      }
    }
  }

  lemma {:induction false} NthFrame(rpcId: u16, requestId: u16, chunks: seq<seq<byte>>, k: nat)
    requires k < |chunks|
    ensures DataFrames(rpcId, requestId, chunks)[k] == DataFrame(rpcId, requestId, k, chunks[k])
    decreases |chunks|
  {
    if k < |chunks| - 1 {
      NthFrame(rpcId, requestId, chunks[..|chunks| - 1], k);
    }
  }

  /** Device and host together: an answer marked OK is the whole output, and it arrives if and only if it is not too long. */
  method Exchange(rpcId: u16, requestId: u16, output: seq<byte>, status: byte, link: seq<bool>) returns (r: Reply, endSent: bool)
    ensures !endSent ==> !r.Complete?
    ensures r.Complete? ==> r.output <= output && r.domain == DOMAIN_COMMAND
    ensures r.Complete? ==> (r.code == STATUS_OK ==> r.output == output)
    ensures endSent && |output| <= HOST_LIMIT ==> r.Complete?
    ensures AlwaysTakes(link) ==> (r.Complete? <==> |output| <= HOST_LIMIT) && (r.Complete? ==> r.output == output && r.code == status)
  {
    hide Rebuilt, DataFrames, EndFrame;
    var frames, code;
    ghost var chunks;
    frames, endSent, code, chunks := Respond(rpcId, requestId, output, status, link);
    r := Reassemble(frames, rpcId, requestId);
    ghost var data := DataFrames(rpcId, requestId, chunks);
    assert data[0..] == data && chunks[..0] == [] && Low16(0) == 0;
    if endSent {
      RebuildsChunks(rpcId, requestId, chunks, 0, DOMAIN_COMMAND, code);
    } else {
      assert frames == data;
      NeverCompletes(rpcId, requestId, chunks, 0);
    }
  }

  lemma PayloadInWire(f: Frame, bytes: seq<byte>)
    requires |f.payload| <= MAX_PAYLOAD && bytes == Wire(f)
    ensures |bytes| == 12 + |f.payload| && bytes[10..10 + |f.payload|] == f.payload
  {
  }

  lemma CountersAdvance(count: nat, total: nat, n: nat)
    ensures Low16(Low16(count) + 1) == Low16(count + 1)
    ensures Low32(Low32(total) + n) == Low32(total + n)
  {
    WrapAdd(total, n);
  }

  /** Without END the host never takes a stream for complete. */
  lemma {:induction false} NeverCompletes(rpcId: u16, requestId: u16, chunks: seq<seq<byte>>, k: nat)
    requires ProperChunks(chunks) && k <= |chunks|
    ensures !Rebuilt(DataFrames(rpcId, requestId, chunks)[k..], rpcId, requestId, Low16(k), Low16(k), Joined(chunks[..k])).Complete?
    decreases |chunks| - k
  {
    hide Judge, DataFrame, Low16;
    if k < |chunks| {
      NthFrame(rpcId, requestId, chunks, k);
      JudgeData(rpcId, requestId, k, chunks[k], Low16(k), Joined(chunks[..k]));
      JoinedStep(chunks, k);
      CountersAdvance(k, 0, 0);
      assert DataFrames(rpcId, requestId, chunks)[k..][1..] == DataFrames(rpcId, requestId, chunks)[k + 1..];
      NeverCompletes(rpcId, requestId, chunks, k + 1);
    }
  }
}
