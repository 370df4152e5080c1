/**
 Controller and worker over two FIFO links that may lose frames but not reorder or forge them. Challenges are never
 reused. Every property holds after every sequence of actions.
 */
module NodeSystem {
  import opened Bytes
  import opened Crc
  import opened NodeCodec
  import opened NodePeers

  datatype Job = Job(session: u32, sequence: u16, data: seq<byte>)

  datatype Net = Net(c: ControllerState, w: WorkerState, down: seq<Frame>, up: seq<Frame>,
                     challenges: seq<u32>, issued: seq<Job>, executed: seq<Job>)

  datatype Action =
    | Hello(challenge: u32) | Request(kind: byte, payload: seq<byte>) | Timeout
    | WorkerTakes | ControllerTakes | LoseDown(at: nat) | LoseUp(at: nat)

  const START := Net(IDLE_CONTROLLER, IDLE_WORKER, [], [], [], [], [])

  function JobOf(f: Frame): Job {
    Job(f.session, f.sequence, JobData(f))
  }

  function Without(s: seq<Frame>, i: nat): seq<Frame> {
    if i < |s| then s[..i] + s[i + 1..] else s
  }

  function Sent(reply: Option<Frame>): seq<Frame> {
    if reply.Some? then [reply.value] else []
  }

  /** One action; one that is not possible changes nothing. */
  function Next(n: Net, a: Action): Net {
    match a
    case Hello(challenge) =>
      if challenge == 0 || challenge in n.challenges then n
      else n.(c := Hailed(challenge), down := n.down + [HelloFrame(challenge)], challenges := n.challenges + [challenge])
    case Request(kind, payload) =>
      if RequestVerdict(n.c, kind, payload) != Ok then n
      else
        var f := RequestFrame(n.c, kind, payload);
        n.(c := Requested(n.c, kind, payload), down := n.down + [f], issued := n.issued + if kind == JOB then [JobOf(f)] else [])
    case Timeout =>
      n.(c := TimedOut(n.c), down := n.down + if MayRetry(n.c) then Sent(n.c.request) else [])
    case WorkerTakes =>
      if n.down == [] then n
      else
        var f := n.down[0];
        n.(w := Serve(n.w, f).0, up := n.up + Sent(Serve(n.w, f).1), down := n.down[1..],
        executed := n.executed + if Executes(n.w, f) then [JobOf(f)] else [])
    case ControllerTakes =>
      if n.up == [] then n else n.(c := Received(n.c, n.up[0]), up := n.up[1..])
    case LoseDown(i) => n.(down := Without(n.down, i))
    case LoseUp(i) => n.(up := Without(n.up, i))
  }

  function Run(actions: seq<Action>): Net {
    if actions == [] then START else Next(Run(actions[..|actions| - 1]), actions[|actions| - 1])
  }

  // ----- the order of sessions -----

  /** When a session was opened; -1 for none. */
  function Epoch(challenges: seq<u32>, session: u32): int {
    if challenges == [] then -1
    else if challenges[|challenges| - 1] == session then |challenges| - 1
    else Epoch(challenges[..|challenges| - 1], session)
  }

  lemma {:induction false} EpochBounds(challenges: seq<u32>, session: u32)
    ensures -1 <= Epoch(challenges, session) < |challenges|
    ensures session in challenges <==> Epoch(challenges, session) >= 0
    ensures Epoch(challenges, session) >= 0 ==> challenges[Epoch(challenges, session)] == session
  {
    if challenges != [] {
      EpochBounds(challenges[..|challenges| - 1], session);
    }
  }

  lemma EpochOfLater(challenges: seq<u32>, challenge: u32, session: u32)
    ensures Epoch(challenges + [challenge], session) == if session == challenge then |challenges| else Epoch(challenges, session)
  {
    assert (challenges + [challenge])[..|challenges|] == challenges;
  }

  // ----- the invariant -----

  /** The session a frame to the worker belongs to. */
  function SessionOf(f: Frame): u32 {
    if f.kind == HELLO && |f.payload| == 4 then FromLe32(f.payload) else f.session
  }

  predicate IsRequest(f: Frame) {
    (f.kind == PING || f.kind == JOB || f.kind == GET_STATUS) && f.sequence >= 2 && ValidPayload(f) && |f.payload| <= MAX_PAYLOAD
  }

  ghost predicate ControllerInv(n: Net) {
    var c := n.c;
    && 0 !in n.challenges
    && (n.challenges == [] ==> c == IDLE_CONTROLLER)
    && (n.challenges != [] ==>
          && c.session == n.challenges[|n.challenges| - 1] && c.last >= 1 && c.request.Some? && c.kind == c.request.value.kind
          && (c.last == 1 ==> c.request.value == HelloFrame(c.session))
          && (c.last > 1 ==> IsRequest(c.request.value) && c.request.value.session == c.session && c.request.value.sequence == c.last)
          && (c.pending ==> (c.ready <==> c.last > 1))
          && (c.kind == JOB ==> c.jobLength == c.request.value.payload[0]))
  }

  ghost predicate WorkerInv(n: Net) {
    var w := n.w;
    && (w.session == 0 ==> w == IDLE_WORKER)
    && (w.session != 0 ==>
          && w.session in n.challenges && w.highest >= 1 && w.hello == Some(HelloAck(w.session))
          && (w.last.Some? <==> w.highest > 1)
          && (w.last.Some? ==> LastInv(n, w.last.value)))
  }

  ghost predicate LastInv(n: Net, e: Exchange) {
    && e.request.sequence == e.reply.sequence == n.w.highest && e.request.session == e.reply.session == n.w.session
    && IsRequest(e.request) && IsReply(e.reply.kind)
    && (e.request.kind == JOB ==> e.reply == JobResult(e.request, n.w.session) && JobOf(e.request) in n.executed)
    && (e.request.kind == PING ==> e.reply.kind == PONG && e.reply.payload == [])
    && (e.request.kind == GET_STATUS ==> e.reply.kind == STATUS && e.reply.payload == [2, 0] + Le16(n.w.completed))
  }

  /** A frame on its way to the worker. */
  ghost predicate DownInv(n: Net, f: Frame) {
    && SessionOf(f) in n.challenges && Epoch(n.challenges, n.w.session) <= Epoch(n.challenges, SessionOf(f))
    && (f == HelloFrame(SessionOf(f)) || (IsRequest(f) && (f.kind == JOB ==> JobOf(f) in n.issued)))
    && (SessionOf(f) == n.c.session && f.kind != HELLO ==>
          && n.w.session == n.c.session && n.w.highest <= f.sequence <= n.c.last
          && (f.sequence == n.c.last ==> Some(f) == n.c.request)
          && (f.sequence == n.w.highest ==> n.w.last.Some? && n.w.last.value.request == f))
  }

  predicate InOrder(challenges: seq<u32>, f: Frame, g: Frame) {
    && Epoch(challenges, SessionOf(f)) <= Epoch(challenges, SessionOf(g))
    && (SessionOf(f) == SessionOf(g) && f.kind != HELLO && g.kind != HELLO ==> f.sequence <= g.sequence)
  }

  /** A reply on its way to the controller. */
  ghost predicate UpInv(n: Net, r: Frame) {
    && r.session in n.challenges
    && (r.session == n.c.session ==>
          && n.w.session == n.c.session && 1 <= r.sequence <= n.w.highest
          && (r.sequence == 1 ==> r == HelloAck(n.c.session))
          && (r.sequence == n.w.highest > 1 ==> n.w.last.Some? && r == n.w.last.value.reply))
  }

  /** Same session: the worker is at the controller's last request, or one behind while it is pending. */
  ghost predicate Agreement(n: Net) {
    && (n.c.ready || n.c.last > 1 ==> n.w.session == n.c.session)
    && (n.w.session == n.c.session && n.w.session != 0 ==>
          && n.c.last as int - 1 <= n.w.highest as int <= n.c.last as int
          && (n.w.highest == n.c.last && n.c.last > 1 ==> n.w.last.Some? && Some(n.w.last.value.request) == n.c.request)
          && (n.c.ready && !n.c.pending ==> n.w.highest == n.c.last))
  }

  /** Jobs in the order of their sessions and sequence numbers. */
  predicate Earlier(challenges: seq<u32>, a: Job, session: u32, sequence: nat) {
    Epoch(challenges, a.session) < Epoch(challenges, session) || (a.session == session && a.sequence as int < sequence)
  }

  predicate Increasing(challenges: seq<u32>, jobs: seq<Job>) {
    forall i, j :: 0 <= i < j < |jobs| ==> Earlier(challenges, jobs[i], jobs[j].session, jobs[j].sequence)
  }

  predicate AllUpTo(challenges: seq<u32>, jobs: seq<Job>, session: u32, sequence: nat) {
    forall j :: j in jobs ==> j.session in challenges && Earlier(challenges, j, session, sequence + 1)
  }

  ghost predicate JobsInv(n: Net) {
    && Increasing(n.challenges, n.issued) && AllUpTo(n.challenges, n.issued, n.c.session, n.c.last)
    && Increasing(n.challenges, n.executed) && AllUpTo(n.challenges, n.executed, n.w.session, n.w.highest)
    && forall j :: j in n.executed ==> j in n.issued
  }

  ghost predicate Inv(n: Net) {
    ControllerInv(n) && WorkerInv(n) && Agreement(n) && JobsInv(n) && DownsInv(n) && OrderInv(n) && UpsInv(n)
  }

  ghost predicate DownsInv(n: Net) {
    forall i :: 0 <= i < |n.down| ==> DownInv(n, n.down[i])
  }

  ghost predicate OrderInv(n: Net) {
    forall i, j :: 0 <= i < j < |n.down| ==> InOrder(n.challenges, n.down[i], n.down[j])
  }

  ghost predicate UpsInv(n: Net) {
    forall i :: 0 <= i < |n.up| ==> UpInv(n, n.up[i])
  }

  // ----- every action keeps it -----

  /** Sessions are as old as their position; the controller's is the newest. */
  lemma EpochFacts(n: Net, a: u32, b: u32)
    requires n.challenges != [] && n.c.session == n.challenges[|n.challenges| - 1]
    ensures -1 <= Epoch(n.challenges, a) <= Epoch(n.challenges, n.c.session)
    ensures Epoch(n.challenges, a) >= 0 <==> a in n.challenges
    ensures a in n.challenges && Epoch(n.challenges, a) == Epoch(n.challenges, b) ==> a == b
  {
    EpochBounds(n.challenges, a);
    EpochBounds(n.challenges, b);
  }

  lemma HelloSession(challenge: u32)
    ensures SessionOf(HelloFrame(challenge)) == challenge && HelloFrame(challenge).kind == HELLO
  {
    Le32Inverse(challenge, Le32(0));
  }

  lemma HelloStep(n: Net, challenge: u32)
    requires Inv(n) && challenge != 0 && challenge !in n.challenges
    ensures Inv(Next(n, Hello(challenge)))
  {
    hide Le32, FromLe32, Epoch, ValidPayload, JobsInv, DownsInv, OrderInv;
    HelloKeepsFrames(n, challenge);
    HelloKeepsJobs(n, challenge);
  }

  /** A new challenge is younger than all others and leaves their order alone. */
  lemma NewestEpoch(n: Net, challenge: u32, session: u32)
    requires challenge != 0 && challenge !in n.challenges && 0 !in n.challenges
    ensures var epoch := Epoch(n.challenges + [challenge], session);
            && (session in n.challenges ==> 0 <= epoch == Epoch(n.challenges, session) < |n.challenges|)
            && (session == 0 ==> epoch == Epoch(n.challenges, session) == -1) && (session == challenge ==> epoch == |n.challenges|)
  {
    EpochOfLater(n.challenges, challenge, session);
    EpochBounds(n.challenges, session);
  }

  lemma HelloKeepsFrames(n: Net, challenge: u32)
    requires Inv(n) && challenge != 0 && challenge !in n.challenges
    ensures DownsInv(Next(n, Hello(challenge))) && OrderInv(Next(n, Hello(challenge)))
  {
    hide Le32, FromLe32, Epoch, ValidPayload, JobsInv;
    var m := Next(n, Hello(challenge));
    HelloSession(challenge);
    NewestEpoch(n, challenge, n.w.session);
    NewestEpoch(n, challenge, challenge);
    forall i | 0 <= i < |m.down|
      ensures DownInv(m, m.down[i])
      ensures Epoch(m.challenges, SessionOf(m.down[i])) == if i < |n.down| then Epoch(n.challenges, SessionOf(m.down[i])) else |n.challenges|
      ensures Epoch(m.challenges, SessionOf(m.down[i])) <= |n.challenges|
    {
      if i < |n.down| {
        assert DownInv(n, n.down[i]);
        NewestEpoch(n, challenge, SessionOf(n.down[i]));
      }
    }
    forall i, j | 0 <= i < j < |m.down| ensures InOrder(m.challenges, m.down[i], m.down[j]) {
      if j < |n.down| {
        assert InOrder(n.challenges, n.down[i], n.down[j]);
      }
    }
  }

  lemma HelloKeepsJobs(n: Net, challenge: u32)
    requires Inv(n) && challenge != 0 && challenge !in n.challenges
    ensures JobsInv(Next(n, Hello(challenge)))
  {
    hide Epoch, DownsInv, OrderInv, UpsInv, Agreement, ControllerInv, Le32, FromLe32, ValidPayload;
    assert 0 !in n.challenges by {
      assert ControllerInv(n) ==> 0 !in n.challenges by {
        NoZero(n);
      }
    }
    forall session: u32 ensures session in n.challenges ==> Epoch(n.challenges + [challenge], session) == Epoch(n.challenges, session) < |n.challenges|
    {
      NewestEpoch(n, challenge, session);
    }
    NewestEpoch(n, challenge, n.w.session);
    NewestEpoch(n, challenge, challenge);
  }

  lemma NoZero(n: Net)
    requires ControllerInv(n)
    ensures 0 !in n.challenges
  {
  }

  lemma RequestStep(n: Net, kind: byte, payload: seq<byte>)
    requires Inv(n) && RequestVerdict(n.c, kind, payload) == Ok
    ensures Inv(Next(n, Request(kind, payload)))
  {
    hide Le32, FromLe32, Epoch, DownsInv, OrderInv, JobsInv;
    RequestKeepsFrames(n, kind, payload);
    RequestKeepsJobs(n, kind, payload);
  }

  lemma RequestKeepsFrames(n: Net, kind: byte, payload: seq<byte>)
    requires Inv(n) && RequestVerdict(n.c, kind, payload) == Ok
    ensures DownsInv(Next(n, Request(kind, payload))) && OrderInv(Next(n, Request(kind, payload)))
  {
    hide Le32, FromLe32, Epoch, JobsInv, ValidPayload, UpsInv;
    var m := Next(n, Request(kind, payload));
    EpochFacts(n, n.w.session, n.c.session);
    forall i | 0 <= i < |m.down| ensures DownInv(m, m.down[i]) && (i < |n.down| ==> InOrder(m.challenges, m.down[i], m.down[|n.down|])) {
      if i < |n.down| {
        assert DownInv(n, n.down[i]);
        EpochFacts(n, SessionOf(n.down[i]), n.c.session);
      }
    }
  }

  lemma RequestKeepsJobs(n: Net, kind: byte, payload: seq<byte>)
    requires Inv(n) && RequestVerdict(n.c, kind, payload) == Ok
    ensures JobsInv(Next(n, Request(kind, payload)))
  {
    hide Le32, FromLe32, Epoch, DownsInv, OrderInv, UpsInv, ValidPayload;
  }

  lemma TimeoutStep(n: Net)
    requires Inv(n)
    ensures Inv(Next(n, Timeout))
  {
    hide Le32, FromLe32, Epoch, ValidPayload;
    var m := Next(n, Timeout);
    if MayRetry(n.c) {
      HelloSession(n.c.session);
      EpochFacts(n, n.w.session, n.c.session);
      forall i | 0 <= i < |m.down| ensures DownInv(m, m.down[i]) && (i < |n.down| ==> InOrder(m.challenges, m.down[i], m.down[|n.down|])) {
        if i < |n.down| {
          assert DownInv(n, n.down[i]);
          EpochFacts(n, SessionOf(n.down[i]), n.c.session);
        }
      }
    }
  }

  lemma WorkerTakesHello(n: Net)
    requires Inv(n) && n.down != [] && n.down[0].kind == HELLO
    ensures Inv(Next(n, WorkerTakes))
  {
    hide Le32, FromLe32, Epoch;
    var m := Next(n, WorkerTakes);
    var f := n.down[0];
    assert DownInv(n, f);
    HelloSession(SessionOf(f));
    EpochFacts(n, n.w.session, SessionOf(f));
    EpochFacts(n, SessionOf(f), n.c.session);
    if SessionOf(f) != n.w.session {
      forall i | 0 <= i < |m.down| ensures DownInv(m, m.down[i]) {
        assert DownInv(n, n.down[i + 1]) && InOrder(n.challenges, f, n.down[i + 1]);
      }
    } else {
      forall i | 0 <= i < |m.down| ensures DownInv(m, m.down[i]) {
        assert DownInv(n, n.down[i + 1]);
      }
    }
  }

  lemma WorkerTakesRequest(n: Net)
    requires Inv(n) && n.down != [] && n.down[0].kind != HELLO
    ensures Inv(Next(n, WorkerTakes))
  {
    hide Le32, Le16, FromLe32, Epoch, Crc32, JobsInv, LastInv;
    var m := Next(n, WorkerTakes);
    var f := n.down[0];
    assert DownInv(n, f);
    WorkerRunsJob(n);
    WorkerKeepsLast(n);
    LastIsNumbered(n);
    LastIsNumbered(m);
    forall i | 0 <= i < |m.down| ensures DownInv(m, m.down[i]) {
      assert DownInv(n, n.down[i + 1]) && InOrder(n.challenges, f, n.down[i + 1]);
    }
  }

  lemma LastIsNumbered(n: Net)
    requires WorkerInv(n)
    ensures n.w.last.Some? ==> var e := n.w.last.value;
              && e.request.sequence == e.reply.sequence == n.w.highest && e.request.session == e.reply.session == n.w.session
              && IsReply(e.reply.kind)
  {
    hide Le32, Le16, Crc32;
  }

  lemma WorkerKeepsLast(n: Net)
    requires Inv(n) && n.down != [] && n.down[0].kind != HELLO
    ensures WorkerInv(Next(n, WorkerTakes))
  {
    hide Le32, Le16, FromLe32, Epoch, Crc32, JobsInv, OrderInv, UpsInv, Agreement, ControllerInv;
    assert DownInv(n, n.down[0]);
  }

  lemma WorkerRunsJob(n: Net)
    requires Inv(n) && n.down != [] && n.down[0].kind != HELLO
    ensures JobsInv(Next(n, WorkerTakes))
  {
    hide Le32, FromLe32, Epoch, ValidPayload, Crc32, OrderInv, UpsInv, Agreement, ControllerInv;
    assert DownInv(n, n.down[0]);
  }

  lemma ControllerTakesStep(n: Net)
    requires Inv(n)
    ensures Inv(Next(n, ControllerTakes))
  {
    hide Le32, FromLe32, Epoch, ValidPayload;
    var m := Next(n, ControllerTakes);
    if n.up != [] {
      assert UpInv(n, n.up[0]);
      forall i | 0 <= i < |m.down| ensures DownInv(m, m.down[i]) {
        assert DownInv(n, n.down[i]);
      }
    }
  }

  lemma LoseStep(n: Net, down: bool, i: nat)
    requires Inv(n)
    ensures Inv(Next(n, if down then LoseDown(i) else LoseUp(i)))
  {
    hide Le32, FromLe32, Epoch, ValidPayload, InOrder;
    var m := Next(n, if down then LoseDown(i) else LoseUp(i));
    forall k | 0 <= k < |m.down| ensures DownInv(m, m.down[k]) {
      assert DownInv(n, n.down[if down && i < |n.down| && k >= i then k + 1 else k]);
    }
    forall k | 0 <= k < |m.up| ensures UpInv(m, m.up[k]) {
      assert UpInv(n, n.up[if !down && i < |n.up| && k >= i then k + 1 else k]);
    }
  }

  lemma Step(n: Net, a: Action)
    requires Inv(n)
    ensures Inv(Next(n, a))
  {
    hide Inv, Received, TimedOut, Serve, Hailed, Requested;
    match a
    case Hello(challenge) =>
      if challenge != 0 && challenge !in n.challenges {
        HelloStep(n, challenge);
      }
    case Request(kind, payload) =>
      if RequestVerdict(n.c, kind, payload) == Ok {
        RequestStep(n, kind, payload);
      }
    case Timeout => TimeoutStep(n);
    case WorkerTakes =>
      if n.down != [] {
        if n.down[0].kind == HELLO {
          WorkerTakesHello(n);
        } else {
          WorkerTakesRequest(n);
        }
      }
    case ControllerTakes => ControllerTakesStep(n);
    case LoseDown(i) => LoseStep(n, true, i);
    case LoseUp(i) => LoseStep(n, false, i);
  }

  lemma {:induction false} RunInv(actions: seq<Action>)
    ensures Inv(Run(actions))
  {
    hide Next, RequestVerdict, ReceiveVerdict;
    if actions != [] {
      RunInv(actions[..|actions| - 1]);
      Step(Run(actions[..|actions| - 1]), actions[|actions| - 1]);
    }
  }

  // ----- what it means -----

  predicate Distinct(jobs: seq<Job>) {
    forall i, j :: 0 <= i < j < |jobs| ==> (jobs[i].session, jobs[i].sequence) != (jobs[j].session, jobs[j].sequence)
  }

  /** After every run: the two ends agree, and every job issued is executed at most once. */
  lemma RunSafety(actions: seq<Action>)
    ensures var n := Run(actions);
            && (n.c.ready ==> n.w.session == n.c.session)
            && (n.c.ready && !n.c.pending ==> n.w.highest == n.c.last)
            && (n.c.ready && n.c.pending ==> n.c.last as int - 1 <= n.w.highest as int <= n.c.last as int)
            && Distinct(n.issued) && Distinct(n.executed) && (forall j :: j in n.executed ==> j in n.issued)
  {
    hide Run;
    RunInv(actions);
    var n := Run(actions);
    assert Distinct(n.issued) && Distinct(n.executed) by {
      assert Increasing(n.challenges, n.issued) && Increasing(n.challenges, n.executed);
    }
  }

  /** After every run: a result the controller would accept is the CRC-32 of the bytes it sent, and that job was executed. */
  lemma AcceptedResult(actions: seq<Action>)
    ensures var n := Run(actions);
            n.up != [] && ReceiveVerdict(n.c, n.up[0]) == Ok && n.c.kind == JOB ==>
              && n.c.request.Some? && |n.c.request.value.payload| >= 1
              && var data := JobData(n.c.request.value);
                 |data| <= MAX_JOB && n.up[0].payload == [|data|] + Le32(Crc32(data)) && Job(n.c.session, n.c.last, data) in n.executed
  {
    hide Run, Crc32, Le32;
    RunInv(actions);
    var n := Run(actions);
    if n.up != [] && ReceiveVerdict(n.c, n.up[0]) == Ok && n.c.kind == JOB {
      assert UpInv(n, n.up[0]);
    }
  }

  /**
   After every run: a reply in the session and with the sequence number the controller waits for is always accepted.
   Errors, wrong kinds and wrong echoes do not occur between these two.
   */
  lemma MatchingReplyIsAccepted(actions: seq<Action>)
    ensures var n := Run(actions);
            n.up != [] && n.c.pending && n.up[0].session == n.c.session && n.up[0].sequence == n.c.last ==>
              ReceiveVerdict(n.c, n.up[0]) == Ok
  {
    hide Run, Crc32;
    RunInv(actions);
    var n := Run(actions);
    if n.up != [] && n.c.pending && n.up[0].session == n.c.session && n.up[0].sequence == n.c.last {
      assert UpInv(n, n.up[0]);
      Le32Inverse(n.c.session, Le32(0));
      assert HelloAck(n.c.session).payload[..4] == Le32(n.c.session);
    }
  }

  // ----- what STATUS reports -----

  function JobsIn(jobs: seq<Job>, session: u32): nat {
    if jobs == [] then 0
    else JobsIn(jobs[..|jobs| - 1], session) + if jobs[|jobs| - 1].session == session then 1 else 0
  }

  function Capped(n: nat): u16 {
    if n > 0xFFFF then 0xFFFF else n
  }

  lemma {:induction false} NoneIn(jobs: seq<Job>, session: u32)
    requires forall j :: j in jobs ==> j.session != session
    ensures JobsIn(jobs, session) == 0
  {
    if jobs != [] {
      assert jobs[|jobs| - 1] in jobs;
      NoneIn(jobs[..|jobs| - 1], session);
    }
  }

  /** A session the worker has not reached yet has no executed jobs. */
  lemma NewSessionIsEmpty(n: Net, session: u32)
    requires Inv(n) && session in n.challenges && Epoch(n.challenges, n.w.session) < Epoch(n.challenges, session)
    ensures JobsIn(n.executed, session) == 0
  {
    hide Epoch, JobsIn, DownsInv, UpsInv, OrderInv, ControllerInv, WorkerInv, Agreement;
    forall j | j in n.executed ensures j.session != session {
      assert Earlier(n.challenges, j, n.w.session, n.w.highest as int + 1);
    }
    NoneIn(n.executed, session);
  }

  lemma CountStep(n: Net, a: Action)
    requires Inv(n) && n.w.completed == Capped(JobsIn(n.executed, n.w.session))
    ensures var m := Next(n, a); m.w.completed == Capped(JobsIn(m.executed, m.w.session))
  {
    hide Epoch, JobsInv, UpsInv, OrderInv, Agreement, Le32, FromLe32, Crc32, FreshReply;
    if a.WorkerTakes? && n.down != [] {
      var f, m := n.down[0], Next(n, a);
      assert DownInv(n, f);
      if Executes(n.w, f) {
        assert m.executed[..|n.executed|] == n.executed;
      } else {
        assert m.executed == n.executed;
        if m.w.session != n.w.session {
          HelloSession(SessionOf(f));
          EpochFacts(n, n.w.session, SessionOf(f));
          EpochFacts(n, SessionOf(f), n.w.session);
          NewSessionIsEmpty(n, SessionOf(f));
        }
      }
    }
  }

  /** After every run: the worker's counter, which STATUS reports, is the number of jobs executed in its session, up to 65535. */
  lemma {:induction false} StatusCounts(actions: seq<Action>)
    ensures var n := Run(actions); n.w.completed == Capped(JobsIn(n.executed, n.w.session))
  {
    hide Next, Inv;
    if actions != [] {
      var before := actions[..|actions| - 1];
      RunInv(before);
      StatusCounts(before);
      CountStep(Run(before), actions[|actions| - 1]);
    }
  }

  /** After every run: a STATUS the controller would accept tells how many jobs were executed in its session, up to 65535. */
  lemma AcceptedStatus(actions: seq<Action>)
    ensures var n := Run(actions);
            n.up != [] && ReceiveVerdict(n.c, n.up[0]) == Ok && n.c.kind == GET_STATUS ==>
              n.up[0].payload == [2, 0] + Le16(Capped(JobsIn(n.executed, n.c.session)))
  {
    hide Run, Crc32, Le16, JobsIn, Capped;
    RunInv(actions);
    StatusCounts(actions);
    var n := Run(actions);
    if n.up != [] && ReceiveVerdict(n.c, n.up[0]) == Ok && n.c.kind == GET_STATUS {
      assert UpInv(n, n.up[0]);
    }
  }

  // ----- the machines themselves -----

  function Wires(frames: seq<Frame>): (w: seq<seq<byte>>)
    requires forall i :: 0 <= i < |frames| ==> |frames[i].payload| <= MAX_PAYLOAD
    ensures |w| == |frames|
    ensures forall i :: 0 <= i < |frames| ==> w[i] == Wire(frames[i])
  {
    seq(|frames|, i requires 0 <= i < |frames| => Wire(frames[i]))
  }

  /** A result beside the job it answers, or a status beside the number of jobs executed in the session. */
  datatype Outcome = Result(job: seq<byte>, result: seq<byte>) | Told(executed: nat, status: seq<byte>)

  ghost predicate Genuine(o: Outcome) {
    match o
    case Result(job, result) => |job| <= MAX_JOB && result == [|job|] + Le32(Crc32(job))
    case Told(executed, status) => status == [2, 0] + Le16(if executed > 0xFFFF then 0xFFFF else executed)
  }

  /** The controller takes a reply that it accepts, to a job or to a question for the status. */
  predicate IsAnswer(n: Net, a: Action) {
    a.ControllerTakes? && n.up != [] && ReceiveVerdict(n.c, n.up[0]) == Ok && (n.c.kind == JOB || n.c.kind == GET_STATUS)
  }

  function Answers(actions: seq<Action>): nat {
    if actions == [] then 0
    else
      var before := actions[..|actions| - 1];
      Answers(before) + if IsAnswer(Run(before), actions[|actions| - 1]) then 1 else 0
  }

  lemma AnswersStep(actions: seq<Action>, k: nat)
    requires k < |actions|
    ensures Answers(actions[..k + 1]) == Answers(actions[..k]) + if IsAnswer(Run(actions[..k]), actions[k]) then 1 else 0
    ensures !actions[k].ControllerTakes? ==> !IsAnswer(Run(actions[..k]), actions[k])
  {
    hide Run;
    assert actions[..k + 1][..k] == actions[..k];
  }

  lemma AnswersNone()
    ensures Answers([]) == 0
  {
  }

  /** The links carry the encodings of the frames in the abstract state, and the machines are in its states. */
  ghost predicate Matches(n: Net, controller: Controller, worker: Worker, down: seq<seq<byte>>, up: seq<seq<byte>>, used: seq<u32>)
    reads controller, worker
  {
    && used == n.challenges && controller.Valid() && worker.Valid() && controller.view == n.c && worker.view == n.w
    && (forall i :: 0 <= i < |n.down| ==> Sendable(n.down[i])) && down == Wires(n.down)
    && (forall i :: 0 <= i < |n.up| ==> Sendable(n.up[i])) && up == Wires(n.up)
  }

  /**
   Both machines with their byte-level interfaces, driven by any actions: they stay in the states of the abstract run,
   and every job result and every status the controller accepts is right.
   */
  method Drive(actions: seq<Action>) returns (results: seq<Outcome>, ready: bool, agreed: bool)
    ensures (forall o :: o in results ==> Genuine(o)) && |results| == Answers(actions)
    ensures ready ==> agreed
  {
    hide Wire, Run, Next, Answers, IsAnswer;
    AnswersNone();
    var controller := new Controller();
    var worker := new Worker();
    var down, up, used := [], [], [];
    results := [];
    assert Run([]) == START by {
      RunsFromStart();
    }
    for k := 0 to |actions|
      invariant Matches(Run(actions[..k]), controller, worker, down, up, used)
      invariant (forall o :: o in results ==> Genuine(o)) && |results| == Answers(actions[..k])
    {
      RunStep(actions, k);
      AnswersStep(actions, k);
      var outcome := [];
      match actions[k] {
        case Hello(challenge) =>
          down, used := DriveHello(actions, k, controller, worker, down, up, used);
        case Request(kind, payload) =>
          down := DriveRequest(actions, k, controller, worker, down, up, used);
        case Timeout =>
          down := DriveTimeout(actions, k, controller, worker, down, up, used);
        case WorkerTakes =>
          down, up := DriveWorker(actions, k, controller, worker, down, up, used);
        case ControllerTakes =>
          up, outcome := DriveController(actions, k, controller, worker, down, up, used);
        case LoseDown(i) =>
          down := DriveLoss(actions, k, controller, worker, down, up, used);
        case LoseUp(i) =>
          up := DriveLoss(actions, k, controller, worker, down, up, used);
      }
      results := results + outcome;
    }
    assert actions[..|actions|] == actions;
    RunSafety(actions);
    ready := controller.ready;
    agreed := worker.session == controller.session
              && if controller.pending then worker.highest == controller.last || worker.highest as int + 1 == controller.last as int
                 else worker.highest == controller.last;
  }

  lemma RunsFromStart()
    ensures Run([]) == START
  {
  }

  lemma RunStep(actions: seq<Action>, k: nat)
    requires k < |actions|
    ensures Run(actions[..k + 1]) == Next(Run(actions[..k]), actions[k])
  {
    hide Next;
    assert actions[..k + 1][..k] == actions[..k];
  }

  method DriveHello(actions: seq<Action>, k: nat, controller: Controller, worker: Worker,
                    down: seq<seq<byte>>, up: seq<seq<byte>>, used: seq<u32>)
    returns (down': seq<seq<byte>>, used': seq<u32>)
    requires k < |actions| && actions[k].Hello? && Matches(Run(actions[..k]), controller, worker, down, up, used)
    modifies controller
    ensures Matches(Next(Run(actions[..k]), actions[k]), controller, worker, down', up, used')
  {
    hide Wire, Run, HelloFrame;
    RunInv(actions[..k]);
    down', used' := down, used;
    var challenge := actions[k].challenge;
    if challenge != 0 && challenge !in used {
      var status, out := controller.Hello(challenge, MAX_FRAME);
      down', used' := down + [out], used + [challenge];
    }
  }

  method DriveRequest(actions: seq<Action>, k: nat, controller: Controller, worker: Worker,
                      down: seq<seq<byte>>, up: seq<seq<byte>>, used: seq<u32>)
    returns (down': seq<seq<byte>>)
    requires k < |actions| && actions[k].Request? && Matches(Run(actions[..k]), controller, worker, down, up, used)
    modifies controller
    ensures Matches(Next(Run(actions[..k]), actions[k]), controller, worker, down', up, used)
  {
    hide Wire, Run, ValidPayload;
    down' := down;
    var status, out := controller.Request(actions[k].kind, actions[k].payload, MAX_FRAME);
    if status == Ok {
      down' := down + [out];
    }
  }

  method DriveTimeout(actions: seq<Action>, k: nat, controller: Controller, worker: Worker,
                      down: seq<seq<byte>>, up: seq<seq<byte>>, used: seq<u32>)
    returns (down': seq<seq<byte>>)
    requires k < |actions| && actions[k].Timeout? && Matches(Run(actions[..k]), controller, worker, down, up, used)
    modifies controller
    ensures Matches(Next(Run(actions[..k]), actions[k]), controller, worker, down', up, used)
  {
    hide Wire, Run;
    down' := down;
    var status, out := controller.Timeout(MAX_FRAME);
    if status == Ok {
      down' := down + [out];
    }
  }

  method DriveWorker(actions: seq<Action>, k: nat, controller: Controller, worker: Worker,
                     down: seq<seq<byte>>, up: seq<seq<byte>>, used: seq<u32>)
    returns (down': seq<seq<byte>>, up': seq<seq<byte>>)
    requires k < |actions| && actions[k].WorkerTakes? && Matches(Run(actions[..k]), controller, worker, down, up, used)
    modifies worker
    ensures Matches(Next(Run(actions[..k]), actions[k]), controller, worker, down', up', used)
  {
    hide Wire, Run, Serve, Decoded;
    down', up' := down, up;
    if down != [] {
      DecodeUndoesEncode(Run(actions[..k]).down[0]);
      var status, out := worker.Process(down[0], MAX_FRAME);
      down' := down[1..];
      if status == Ok {
        up' := up + [out];
      }
    }
  }

  /** The controller takes a reply; an accepted result is recorded beside the job it answers. */
  method DriveController(actions: seq<Action>, k: nat, controller: Controller, worker: Worker,
                         down: seq<seq<byte>>, up: seq<seq<byte>>, used: seq<u32>)
    returns (up': seq<seq<byte>>, outcome: seq<Outcome>)
    requires k < |actions| && actions[k].ControllerTakes?
    requires Matches(Run(actions[..k]), controller, worker, down, up, used)
    modifies controller
    ensures Matches(Next(Run(actions[..k]), actions[k]), controller, worker, down, up', used)
    ensures (forall o :: o in outcome ==> Genuine(o)) && |outcome| == if IsAnswer(Run(actions[..k]), actions[k]) then 1 else 0
  {
    hide Wire, Run, Received, ReceiveVerdict, Decoded, Crc32, Le32, Le16, WellFormed, JobsIn;
    up', outcome := up, [];
    if up != [] {
      DecodeUndoesEncode(Run(actions[..k]).up[0]);
      AcceptedResult(actions[..k]);
      AcceptedStatus(actions[..k]);
      var kind, session, requestBytes := controller.kind, controller.session, controller.requestBytes;
      var status := controller.Receive(up[0]);
      if status == Ok && kind == JOB {
        DecodeUndoesEncode(Run(actions[..k]).c.request.value);
        DecodedIsWellFormed(requestBytes);
        DecodedIsWellFormed(up[0]);
        var _, request := Decode(requestBytes);
        var _, reply := Decode(up[0]);
        outcome := [Result(JobData(request), reply.payload)];
      } else if status == Ok && kind == GET_STATUS {
        DecodedIsWellFormed(up[0]);
        var _, reply := Decode(up[0]);
        outcome := [Told(JobsIn(Run(actions[..k]).executed, session), reply.payload)];
      }
      up' := up[1..];
    }
  }

  lemma DecodedIsWellFormed(b: seq<byte>)
    ensures WellFormed(b) <==> Decoded(b).Some?
  {
  }

  method DriveLoss(actions: seq<Action>, k: nat, controller: Controller, worker: Worker,
                   down: seq<seq<byte>>, up: seq<seq<byte>>, used: seq<u32>)
    returns (link: seq<seq<byte>>)
    requires k < |actions| && (actions[k].LoseDown? || actions[k].LoseUp?) && Matches(Run(actions[..k]), controller, worker, down, up, used)
    ensures actions[k].LoseDown? ==> Matches(Next(Run(actions[..k]), actions[k]), controller, worker, link, up, used)
    ensures actions[k].LoseUp? ==> Matches(Next(Run(actions[..k]), actions[k]), controller, worker, down, link, used)
  {
    hide Wire, Run, Without, Wires, Matches;
    ghost var n := Run(actions[..k]);
    var i := actions[k].at;
    link := if actions[k].LoseDown? then down else up;
    if i < |link| {
      link := link[..i] + link[i + 1..];
    }
    LossMatches(n, controller, worker, down, up, used, i);
  }

  function Cut(link: seq<seq<byte>>, i: nat): seq<seq<byte>> {
    if i < |link| then link[..i] + link[i + 1..] else link
  }

  lemma LossMatches(n: Net, controller: Controller, worker: Worker, down: seq<seq<byte>>, up: seq<seq<byte>>, used: seq<u32>, i: nat)
    requires Matches(n, controller, worker, down, up, used)
    ensures Matches(n.(down := Without(n.down, i)), controller, worker, Cut(down, i), up, used)
    ensures Matches(n.(up := Without(n.up, i)), controller, worker, down, Cut(up, i), used)
  {
    hide Wire, Without, Wires;
    WiresWithout(n.down, i);
    WiresWithout(n.up, i);
  }

  /** Losing a frame is losing its encoding. */
  lemma WiresWithout(frames: seq<Frame>, i: nat)
    requires forall k :: 0 <= k < |frames| ==> |frames[k].payload| <= MAX_PAYLOAD
    ensures forall k :: 0 <= k < |Without(frames, i)| ==> Without(frames, i)[k] in frames && |Without(frames, i)[k].payload| <= MAX_PAYLOAD
    ensures Wires(Without(frames, i)) == if i < |frames| then Wires(frames)[..i] + Wires(frames)[i + 1..] else Wires(frames)
  {
    hide Wire;
  }
}
