/**
 The two ends of the node link. Each is given twice: as a function from state and frame to state and frame, and as the
 machine with its byte caches, which is proved to compute that function.
 */
module NodePeers {
  import opened Bytes
  import opened Crc
  import opened NodeCodec

  const UNSUPPORTED: byte := 1
  const BAD_PAYLOAD: byte := 2
  const BAD_SEQUENCE: byte := 4

  // ----- the worker -----

  datatype Exchange = Exchange(request: Frame, reply: Frame)

  datatype WorkerState = WorkerState(session: u32, highest: u16, completed: u16, last: Option<Exchange>, hello: Option<Frame>)

  const IDLE_WORKER := WorkerState(0, 0, 0, None, None)

  function HelloAck(challenge: u32): (f: Frame)
    ensures Sendable(f)
  {
    Frame(HELLO_ACK, 1, challenge, Le32(challenge) + [1, 3, 16, 2])
  }

  function Refusal(request: Frame, session: u32, error: byte): Frame {
    Frame(ERROR, request.sequence, session, [error, request.kind])
  }

  function JobResult(request: Frame, session: u32): Frame
    requires |request.payload| >= 1
  {
    Frame(JOB_RESULT, request.sequence, session, [request.payload[0]] + Le32(Crc32(JobData(request))))
  }

  /** A request the worker has not seen yet. */
  function FreshReply(w: WorkerState, request: Frame): (f: Frame)
    ensures |f.payload| <= MAX_PAYLOAD && f.sequence == request.sequence && f.session == w.session
  {
    if !ValidPayload(request) then Refusal(request, w.session, BAD_PAYLOAD)
    else if request.kind == PING then Frame(PONG, request.sequence, w.session, [])
    else if request.kind == JOB then JobResult(request, w.session)
    else if request.kind == GET_STATUS then Frame(STATUS, request.sequence, w.session, [2, 0] + Le16(w.completed))
    else Refusal(request, w.session, UNSUPPORTED)
  }

  /** In this state, this request runs a job. */
  predicate Executes(w: WorkerState, request: Frame) {
    && request.kind == JOB && ValidPayload(request) && w.session != 0 && request.session == w.session
    && request.sequence as int == w.highest as int + 1
  }

  function Served(w: WorkerState, request: Frame): WorkerState {
    WorkerState(w.session, request.sequence,
                if request.kind == JOB && ValidPayload(request) && w.completed < 0xFFFF then w.completed + 1 else w.completed,
                Some(Exchange(request, FreshReply(w, request))), w.hello)
  }

  predicate IsHello(request: Frame) {
    request.kind == HELLO && request.session == 0 && request.sequence == 1 && ValidPayload(request)
  }

  function Serve(w: WorkerState, request: Frame): (WorkerState, Option<Frame>) {
    if request.kind >= 0x80 then (w, None)
    else if request.kind == HELLO then
      if !IsHello(request) then (w, None)
      else
        var challenge := FromLe32(request.payload);
        if challenge == w.session && w.hello.Some? then (w, w.hello)
        else (WorkerState(challenge, 1, 0, None, Some(HelloAck(challenge))), Some(HelloAck(challenge)))
    else if w.session == 0 || request.session != w.session then (w, None)
    else if request.sequence == w.highest && w.last.Some? then
      if request == w.last.value.request then (w, Some(w.last.value.reply))
      else (w, Some(Refusal(request, w.session, BAD_SEQUENCE)))
    else if request.sequence < w.highest then (w, None)
    else if request.sequence as int != w.highest as int + 1 then (w, Some(Refusal(request, w.session, BAD_SEQUENCE)))
    else (Served(w, request), Some(FreshReply(w, request)))
  }

  /** The worker has answered exactly this request last. */
  predicate Replays(w: WorkerState, f: Frame) {
    f.sequence == w.highest && w.last.Some? && f == w.last.value.request
  }

  /**
   Why the worker refuses a request it has not answered yet: the second byte names the request, the first one says whether
   its number is not the next one (4), its payload is malformed (2), or its kind is unknown (1). A refusal runs nothing.
   */
  lemma WhyRefused(w: WorkerState, f: Frame)
    requires Serve(w, f).1.Some? && Serve(w, f).1.value.kind == 0xFF && f.kind != HELLO && !Replays(w, f)
    ensures var next := f.sequence as int == w.highest as int + 1;
            var known := f.kind == 2 || f.kind == 3 || f.kind == 4;
            var p := Serve(w, f).1.value.payload;
            && |p| == 2 && p[1] == f.kind && Serve(w, f).1.value.sequence == f.sequence
            && (p[0] == 4 <==> !next) && (p[0] == 2 <==> next && known && !ValidPayload(f)) && (p[0] == 1 <==> next && !known)
            && Serve(w, f).0.completed == w.completed && !Executes(w, f)
  {
  }

  /** A request answered last is answered the same again, and nothing moves; a job is not run twice. */
  lemma ReplayStutters(w: WorkerState, f: Frame)
    requires w.session != 0 && f.session == w.session && f.kind < 0x80 && f.kind != HELLO && Replays(w, f)
    ensures Serve(w, f) == (w, Some(w.last.value.reply)) && !Executes(w, f)
  {
  }

  /** After any fresh request it answers, the worker answers the same request with the same reply. */
  lemma ServedTwice(w: WorkerState, f: Frame)
    requires f.kind < 0x80 && Serve(w, f).1.Some? && Serve(w, f).0 != w
    ensures Serve(Serve(w, f).0, f) == Serve(w, f)
  {
  }

  class Worker {
    var session: u32
    var highest: u16
    var completed: u16
    var lastRequest: seq<byte>
    var lastReply: seq<byte>
    var hasLast: bool
    var helloReply: seq<byte>
    ghost var view: WorkerState

    ghost predicate Valid()
      reads this
    {
      && session == view.session && highest == view.highest && completed == view.completed && hasLast == view.last.Some?
      && (hasLast ==> Sendable(view.last.value.request) && Sendable(view.last.value.reply)
                      && lastRequest == Wire(view.last.value.request) && lastReply == Wire(view.last.value.reply))
      && (view.hello.Some? ==> Sendable(view.hello.value)) && helloReply == if view.hello.Some? then Wire(view.hello.value) else []
    }

    constructor ()
      ensures Valid() && view == IDLE_WORKER
    {
      session, highest, completed, lastRequest, lastReply, hasLast, helloReply := 0, 0, 0, [], [], false, [];
      view := IDLE_WORKER;
    }

    /** Raw bytes in, raw bytes out; a reply that does not fit changes nothing. */
    method Process(raw: seq<byte>, cap: nat) returns (status: Code, out: seq<byte>)
      requires Valid()
      modifies this
      ensures Valid()
      ensures Decoded(raw).None? ==> status == Drop && view == old(view)
      ensures Decoded(raw).Some? ==> Delivered(Serve(old(view), Decoded(raw).value), old(view), cap, status, out, view)
      ensures status != Ok ==> out == []
    {
      hide Wire, Decoded, WellFormed, ValidPayload, FreshReply, Crc32;
      var decoded, request := Decode(raw);
      if decoded != Ok {
        NotDecoded(raw);
        return Drop, [];
      }
      EncodeUndoesDecode(raw);
      if request.kind >= 0x80 {
        return Drop, [];
      }
      if request.kind == HELLO {
        status, out := Greet(request, cap);
        return;
      }
      if session == 0 || request.session != session {
        return Drop, [];
      }
      if request.sequence == highest && hasLast {
        if raw == lastRequest {
          WireInjective(request, view.last.value.request);
          if cap < |lastReply| {
            return TooSmall, [];
          }
          return Ok, lastReply;
        }
        status, out := Encode(Refusal(request, session, BAD_SEQUENCE), cap);
        return;
      }
      if request.sequence < highest {
        return Drop, [];
      }
      if request.sequence as int != highest as int + 1 {
        status, out := Encode(Refusal(request, session, BAD_SEQUENCE), cap);
        return;
      }
      status, out := ServeFresh(request, raw, cap);
    }

    method Greet(request: Frame, cap: nat) returns (status: Code, out: seq<byte>)
      requires Valid() && request.kind == HELLO
      modifies this
      ensures Valid()
      ensures Delivered(Serve(old(view), request), old(view), cap, status, out, view)
      ensures status != Ok ==> out == []
    {
      hide Wire, FreshReply, Crc32, FromLe32, Le32;
      if request.session != 0 || request.sequence != 1 || !ValidPayload(request) {
        return Drop, [];
      }
      var challenge := FromLe32(request.payload);
      if challenge == session && helloReply != [] {
        if cap < |helloReply| {
          return TooSmall, [];
        }
        return Ok, helloReply;
      }
      status, out := Encode(HelloAck(challenge), cap);
      if status != Ok {
        return;
      }
      session, highest, completed, lastRequest, lastReply, hasLast := challenge, 1, 0, [], [], false;
      helloReply := out;
      view := WorkerState(challenge, 1, 0, None, Some(HelloAck(challenge)));
    }

    method ServeFresh(request: Frame, raw: seq<byte>, cap: nat) returns (status: Code, out: seq<byte>)
      requires Valid() && Sendable(request) && raw == Wire(request)
      modifies this
      ensures Valid()
      ensures Delivered((Served(old(view), request), Some(FreshReply(old(view), request))), old(view), cap, status, out, view)
      ensures status != Ok ==> out == []
    {
      hide Wire, Crc32, Le16, Le32;
      var reply := Frame(PONG, request.sequence, session, []);
      if !ValidPayload(request) {
        reply := reply.(kind := ERROR, payload := [BAD_PAYLOAD, request.kind]);
      } else if request.kind == PING {
      } else if request.kind == JOB {
        var crc := ComputeCrc32(request.payload[1..]);
        reply := reply.(kind := JOB_RESULT, payload := [request.payload[0]] + Le32(crc));
      } else if request.kind == GET_STATUS {
        reply := reply.(kind := STATUS, payload := [2, 0] + Le16(completed));
      } else {
        reply := reply.(kind := ERROR, payload := [UNSUPPORTED, request.kind]);
      }
      assert reply == FreshReply(view, request);
      status, out := Encode(reply, cap);
      if status != Ok {
        return;
      }
      view := Served(view, request);
      lastRequest, lastReply, hasLast, highest := raw, out, true, request.sequence;
      if request.kind == JOB && reply.kind == JOB_RESULT && completed < 0xFFFF {
        completed := completed + 1;
      }
    }
  }

  lemma NotDecoded(raw: seq<byte>)
    requires !WellFormed(raw)
    ensures Decoded(raw) == None
  {
  }

  /** The step happened, with its reply on the wire; or there was no room for the reply and nothing happened. */
  ghost predicate Delivered(step: (WorkerState, Option<Frame>), before: WorkerState, cap: nat, status: Code, out: seq<byte>, after: WorkerState) {
    match step.1
    case None => status == Drop && after == before == step.0
    case Some(reply) =>
      && Sendable(reply)
      && if cap < |Wire(reply)| then status == TooSmall && after == before else status == Ok && out == Wire(reply) && after == step.0
  }

  // ----- the controller -----

  datatype ControllerState = ControllerState(session: u32, last: u16, ready: bool, pending: bool, kind: byte, retried: bool,
                                             jobLength: byte, request: Option<Frame>)

  const IDLE_CONTROLLER := ControllerState(0, 0, false, false, 0, false, 0, None)

  function HelloFrame(challenge: u32): (f: Frame)
    ensures Sendable(f)
  {
    Frame(HELLO, 1, 0, Le32(challenge))
  }

  function Hailed(challenge: u32): ControllerState {
    ControllerState(challenge, 1, false, true, HELLO, false, 0, Some(HelloFrame(challenge)))
  }

  /** What the controller would send; the sequence number is only used below 0xFFFF. */
  function RequestFrame(c: ControllerState, kind: byte, payload: seq<byte>): Frame {
    Frame(kind, (c.last as int + 1) % 0x1_0000, c.session, payload)
  }

  function RequestVerdict(c: ControllerState, kind: byte, payload: seq<byte>): Code {
    if !c.ready || c.pending then NotReadyOrBusy
    else if kind != PING && kind != JOB && kind != GET_STATUS then BadMessage
    else if |payload| > MAX_PAYLOAD then BadArgument
    else if c.last == 0xFFFF then RehandshakeRequired
    else if !ValidPayload(RequestFrame(c, kind, payload)) then BadMessage
    else Ok
  }

  function Requested(c: ControllerState, kind: byte, payload: seq<byte>): ControllerState
    requires RequestVerdict(c, kind, payload) == Ok
  {
    c.(last := c.last + 1, pending := true, kind := kind, retried := false,
    jobLength := if kind == JOB then payload[0] else 0, request := Some(RequestFrame(c, kind, payload)))
  }

  function ReplyKind(kind: byte): byte {
    if kind < 0x80 then kind + 0x80 else kind
  }

  function ReceiveVerdict(c: ControllerState, f: Frame): Code {
    if !IsReply(f.kind) then WrongDirection
    else if !c.pending then Unsolicited
    else if f.session != c.session then StaleSession
    else if f.sequence != c.last then WrongSequence
    else if f.kind != ReplyKind(c.kind) && f.kind != ERROR then WrongReplyType
    else if !ValidPayload(f) then BadMessage
    else if f.kind == ERROR then (if f.payload[1] != c.kind then WrongReplyType else RemoteError)
    else if c.kind == HELLO && FromLe32(f.payload[..4]) != c.session then BadHelloEcho
    else if c.kind == JOB && f.payload[0] != c.jobLength then BadResultLength
    else Ok
  }

  function Received(c: ControllerState, f: Frame): ControllerState {
    var verdict := ReceiveVerdict(c, f);
    if verdict == RemoteError then c.(pending := false)
    else if verdict == Ok then c.(pending := false, ready := c.ready || c.kind == HELLO)
    else c
  }

  /** A refusal of the pending request arrives as a remote error, and ends the request without a new session. */
  lemma RefusalArrives(c: ControllerState, request: Frame, error: byte)
    requires c.pending && c.request == Some(request) && c.kind == request.kind && c.last == request.sequence && 1 <= error <= 5
    ensures var r := Refusal(request, c.session, error);
            && r.kind == 0xFF && r.payload == [error, request.kind] && r.sequence == request.sequence && r.session == c.session
            && ReceiveVerdict(c, r) == RemoteError && Received(c, r) == c.(pending := false)
  {
  }

  predicate MayRetry(c: ControllerState) {
    c.pending && (c.kind == HELLO || c.kind == PING || c.kind == GET_STATUS) && !c.retried
  }

  function TimedOut(c: ControllerState): ControllerState {
    if !c.pending then c else if MayRetry(c) then c.(retried := true) else c.(pending := false, ready := false)
  }

  class Controller {
    var session: u32
    var last: u16
    var ready: bool
    var pending: bool
    var kind: byte
    var retried: bool
    var jobLength: byte
    var requestBytes: seq<byte>
    ghost var view: ControllerState

    ghost predicate Valid()
      reads this
    {
      && view == ControllerState(session, last, ready, pending, kind, retried, jobLength, view.request)
      && (view.request.Some? ==> Sendable(view.request.value) && requestBytes == Wire(view.request.value))
      && (pending ==> view.request.Some?) && (kind == HELLO || kind == PING || kind == JOB || kind == GET_STATUS || !pending)
    }

    constructor ()
      ensures Valid() && view == IDLE_CONTROLLER
    {
      session, last, ready, pending, kind, retried, jobLength, requestBytes := 0, 0, false, false, 0, false, 0, [];
      view := IDLE_CONTROLLER;
    }

    method Hello(challenge: u32, cap: nat) returns (status: Code, out: seq<byte>)
      requires Valid()
      modifies this
      ensures Valid()
      ensures status == if challenge == 0 || challenge == old(view.session) then BadMessage
                        else if cap < |Wire(HelloFrame(challenge))| then TooSmall else Ok
      ensures status == Ok ==> view == Hailed(challenge) && out == Wire(HelloFrame(challenge))
      ensures status == Ok ==> session == challenge && last == 1 && !ready && pending && !retried && out == Wire(Frame(1, 1, 0, Le32(challenge)))
      ensures status != Ok ==> view == old(view)
    {
      hide Wire, Le32;
      if challenge == 0 || challenge == session {
        return BadMessage, [];
      }
      var f := Frame(HELLO, 1, 0, Le32(challenge));
      status, out := Emit(f, cap);
      if status == Ok {
        session, last, ready, jobLength := challenge, 1, false, 0;
        view := Hailed(challenge);
      }
    }

    /** Encodes a request and remembers it for a retry. */
    method Emit(f: Frame, cap: nat) returns (status: Code, out: seq<byte>)
      requires Sendable(f)
      modifies this`requestBytes, this`pending, this`kind, this`retried
      ensures status == if cap < |Wire(f)| then TooSmall else Ok
      ensures status == Ok ==> out == requestBytes == Wire(f) && pending && kind == f.kind && !retried
      ensures status != Ok ==> unchanged(this) && out == []
    {
      hide Wire;
      status, out := Encode(f, cap);
      if status != Ok {
        return;
      }
      requestBytes, pending, kind, retried := out, true, f.kind, false;
    }

    method Request(what: byte, payload: seq<byte>, cap: nat) returns (status: Code, out: seq<byte>)
      requires Valid()
      modifies this
      ensures Valid()
      ensures var verdict := RequestVerdict(old(view), what, payload);
              if verdict != Ok then status == verdict && view == old(view)
              else if cap < |Wire(RequestFrame(old(view), what, payload))| then status == TooSmall && view == old(view)
              else status == Ok && view == Requested(old(view), what, payload) && out == Wire(RequestFrame(old(view), what, payload))
      ensures status == NotReadyOrBusy <==> old(!ready || pending)
      ensures status == RehandshakeRequired <==> old(ready && !pending && last == 0xFFFF) && 2 <= what <= 4 && |payload| <= 24
      ensures status == Ok ==>
                && old(ready && !pending && last < 0xFFFF) && (what == 2 || what == 3 || what == 4)
                && last == old(last) + 1 && session == old(session) && pending && !retried && kind == what
                && ValidPayload(Frame(what, last, session, payload)) && out == requestBytes == Wire(Frame(what, last, session, payload))
    {
      hide Wire;
      if !ready || pending {
        return NotReadyOrBusy, [];
      }
      if what != PING && what != JOB && what != GET_STATUS {
        return BadMessage, [];
      }
      if |payload| > MAX_PAYLOAD {
        return BadArgument, [];
      }
      if last == 0xFFFF {
        return RehandshakeRequired, [];
      }
      var f := Frame(what, last + 1, session, payload);
      if !ValidPayload(f) {
        return BadMessage, [];
      }
      assert f == RequestFrame(view, what, payload);
      status, out := Emit(f, cap);
      if status == Ok {
        last, jobLength := f.sequence, if what == JOB then f.payload[0] else 0;
        view := Requested(view, what, payload);
      }
    }

    method Receive(raw: seq<byte>) returns (status: Code)
      requires Valid()
      modifies this
      ensures Valid()
      ensures Decoded(raw).None? ==> status == BadFrame && view == old(view)
      ensures Decoded(raw).Some? ==>
                status == ReceiveVerdict(old(view), Decoded(raw).value) && view == Received(old(view), Decoded(raw).value)
      ensures pending == (old(pending) && status != Ok && status != RemoteError)
      ensures Decoded(raw).Some? ==>
                var f := Decoded(raw).value;
                var reply := f.kind == 0x81 || f.kind == 0x82 || f.kind == 0x83 || f.kind == 0x84 || f.kind == 0xFF;
                && (status == WrongDirection <==> !reply) && (status == Unsolicited <==> reply && !old(pending))
                && (status == StaleSession <==> reply && old(pending) && f.session != session)
                && (status == WrongSequence <==> reply && old(pending) && f.session == session && f.sequence != last)
      ensures ready == (old(ready) || (status == Ok && old(kind) == 1))
      ensures status == Ok || status == RemoteError ==>
                Decoded(raw).Some? && old(pending) && Decoded(raw).value.session == session && Decoded(raw).value.sequence == last
                && Decoded(raw).value.kind == if status == Ok then old(kind) + 0x80 else 0xFF
    {
      hide Wire, Decoded, WellFormed;
      var decoded, f := Decode(raw);
      if decoded != Ok {
        NotDecoded(raw);
        return BadFrame;
      }
      if !IsReply(f.kind) {
        return WrongDirection;
      }
      if !pending {
        return Unsolicited;
      }
      if f.session != session {
        return StaleSession;
      }
      if f.sequence != last {
        return WrongSequence;
      }
      var expected := ReplyKind(kind);
      if f.kind != expected && f.kind != ERROR {
        return WrongReplyType;
      }
      if !ValidPayload(f) {
        return BadMessage;
      }
      view := Received(view, f);
      if f.kind == ERROR {
        if f.payload[1] != kind {
          return WrongReplyType;
        }
        pending := false;
        return RemoteError;
      }
      if kind == HELLO && FromLe32(f.payload[..4]) != session {
        return BadHelloEcho;
      }
      if kind == JOB && f.payload[0] != jobLength {
        return BadResultLength;
      }
      pending := false;
      if kind == HELLO {
        ready := true;
      }
      return Ok;
    }

    method Timeout(cap: nat) returns (status: Code, out: seq<byte>)
      requires Valid()
      modifies this
      ensures Valid()
      ensures status == if !old(MayRetry(view)) then Drop else if cap < |old(requestBytes)| then TooSmall else Ok
      ensures status == Ok ==> old(view.request.Some?) && out == Wire(old(view.request.value))
      ensures view == if status == TooSmall then old(view) else TimedOut(old(view))
      ensures status == Drop ==> !pending && (old(pending) ==> !ready)
      ensures status == Ok <==> old(pending && !retried && kind != 3) && cap >= |old(requestBytes)|
      ensures status == Ok ==> out == old(requestBytes) && pending && retried
    {
      hide Wire;
      if !pending {
        return Drop, [];
      }
      if (kind == HELLO || kind == PING || kind == GET_STATUS) && !retried {
        if cap < |requestBytes| {
          return TooSmall, [];
        }
        view := TimedOut(view);
        retried := true;
        return Ok, requestBytes;
      }
      view := TimedOut(view);
      pending, ready := false, false;
      return Drop, [];
    }
  }
}
