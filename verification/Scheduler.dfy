/**
 The scheduler as it runs: supervisor calls of the current task, the preemption exception with interrupts arriving inside
 it, event signals, ticks, and the host loop. The number of tasks is a parameter.
 */
module Scheduler {
  import opened Bytes
  import opened SchedulerModel

  datatype Interrupt = Signal(events: Mask) | Tick(elapsed: nat)

  datatype Call = Yield | Exit | WaitEvents(events: Mask) | TimedBlock(events: Mask, timeout: u32) | Unknown

  predicate Regular(interrupts: seq<Interrupt>) {
    forall i :: 0 <= i < |interrupts| && interrupts[i].Tick? ==> interrupts[i].elapsed <= HALF
  }

  /** No event in the list is one in the wait mask. */
  predicate Foreign(list: seq<Interrupt>, wait: Mask) {
    forall i :: 0 <= i < |list| && list[i].Signal? ==> list[i].events !! wait
  }

  predicate AllForeign(schedule: seq<seq<Interrupt>>, wait: Mask) {
    forall i :: 0 <= i < |schedule| ==> Foreign(schedule[i], wait)
  }

  predicate AllRegular(schedule: seq<seq<Interrupt>>) {
    forall i :: 0 <= i < |schedule| ==> Regular(schedule[i])
  }

  /**
   What holds of one task in an active run: a blocked task waits for nothing that is pending, waits for exactly what it
   asked for, and its deadline, if any, lies ahead. An event wake is part of what was asked for.
   */
  ghost predicate TaskOk(t: Task, pending: Mask, time: nat, due: nat, requested: Mask) {
    && t.priority <= LOWEST && t.wake <= requested
    && (t.state == Blocked ==>
          && t.wait !! pending && t.wait == requested
          && (t.timed ==> time < due <= time + MAX_TIMEOUT && t.deadline == due % WORD)
          && (!t.timed ==> t.wait != {}))
  }

  ghost predicate AllOk(s: seq<Task>, pending: Mask, time: nat, due: seq<nat>, requested: seq<Mask>) {
    |s| == |due| == |requested| && forall i :: 0 <= i < |s| ==> TaskOk(s[i], pending, time, due[i], requested[i])
  }

  class Kernel {
    const n: nat
    const tasks: array<Task>
    var current: nat  // n: no task, the host runs
    var active: bool
    var completed: nat
    var target: nat
    var result: bool
    var preempt: bool
    var switches: nat
    var pending: Mask
    var idleWaits: nat
    var now: u32
    var pendSv: bool
    ghost var time: nat  // the clock without wrap-around
    ghost var due: seq<nat>  // deadlines without wrap-around
    ghost var requested: seq<Mask>  // what each task last asked to wait for

    ghost predicate Shape()
      reads this, tasks
    {
      && n > 0 && tasks.Length == n && |due| == |requested| == n && now == time % WORD && current <= n
      && forall i :: 0 <= i < n ==> tasks[i].priority <= LOWEST
    }

    ghost predicate Valid()
      reads this, tasks
    {
      Sound() && Placed() && Prompt()
    }

    /** What holds even between a supervisor call and the switch it causes. */
    ghost predicate Sound()
      reads this, tasks
    {
      Shape() && if active then Running() else current == n && !pendSv
    }

    ghost predicate Running()
      requires Shape()
      reads this, tasks
    {
      && completed + LiveCount(tasks[..]) == target
      && AllOk(tasks[..], pending, time, due, requested)
      && (pendSv ==> preempt && current < n)
    }

    ghost predicate Placed()
      requires Shape()
      reads this, tasks
    {
      active ==> completed < target && (current < n ==> tasks[current].state == Ready)
    }

    /** In a preemptive run nobody more urgent than the running task is ready, unless a switch is already requested. */
    ghost predicate Prompt()
      requires Shape()
      reads this, tasks
    {
      Unasked() ==>
        forall j :: 0 <= j < n && tasks[j].state == Ready ==> tasks[current].priority <= tasks[j].priority
    }

    constructor (n: nat)
      requires n > 0
      ensures this.n == n && Valid() && !active && (forall i :: 0 <= i < n ==> tasks[i] == EMPTY_TASK) && fresh(tasks)
    {
      this.n := n;
      tasks := new Task[n](_ => EMPTY_TASK);
      current, active, completed, target, result, preempt, switches := n, false, 0, 0, false, false, 0;
      pending, idleWaits, now, pendSv := {}, 0, 0, false;
      time, due, requested := 0, seq(n, _ => 0), seq(n, _ => {});
    }

    /** `scheduler_init`: everything but the clock. */
    method Init() returns (ok: bool)
      requires Valid()
      modifies this, tasks
      ensures Valid() && ok == !old(active) && now == old(now) && time == old(time)
      ensures !ok ==> unchanged(this) && unchanged(tasks)
      ensures ok ==> !active && pending == {} && forall i :: 0 <= i < n ==> tasks[i] == EMPTY_TASK
      ensures ok ==> completed == target == switches == idleWaits == 0 && !result && !preempt
    {
      hide LiveCount, AllOk;
      if active {
        return false;
      }
      ResetRun();
      ClearTasks();
      return true;
    }

    method ResetRun()
      modifies this`current, this`completed, this`target, this`result, this`preempt, this`switches, this`pending, this`idleWaits
      ensures current == n && completed == target == switches == idleWaits == 0 && !result && !preempt && pending == {}
    {
      current, completed, target, result := n, 0, 0, false;
      preempt, switches, pending, idleWaits := false, 0, {}, 0;
    }

    method ClearTasks()
      requires tasks.Length == n
      modifies tasks
      ensures forall j :: 0 <= j < n ==> tasks[j] == EMPTY_TASK
    {
      for i := 0 to n
        invariant forall j :: 0 <= j < i ==> tasks[j] == EMPTY_TASK
      {
        tasks[i] := EMPTY_TASK;
      }
    }

    method SetPriority(i: nat, priority: nat) returns (ok: bool)
      requires Valid()
      modifies tasks
      ensures Valid() && ok == (i < n && priority <= LOWEST && !active)
      ensures forall j :: 0 <= j < n ==> tasks[j] == if ok && j == i then old(tasks[j]).(priority := priority) else old(tasks[j])
    {
      if i >= n || priority > LOWEST || active {
        return false;
      }
      tasks[i] := tasks[i].(priority := priority);
      return true;
    }

    /** `scheduler_task_prepare`, without the stack frame. */
    method Prepare(i: nat) returns (ok: bool)
      requires Valid()
      modifies tasks
      ensures Valid() && ok == (i < n && !active)
      ensures forall j :: 0 <= j < n ==>
                tasks[j] == if ok && j == i then Task(Ready, old(tasks[j]).priority, {}, {}, 0, false, old(tasks[j]).result) else old(tasks[j])
    {
      if i >= n || active {
        return false;
      }
      tasks[i] := Task(Ready, tasks[i].priority, {}, {}, 0, false, tasks[i].result);
      return true;
    }

    method AbortRun()
      requires Shape()
      modifies this`preempt, this`pendSv, this`active, this`current, this`result
      ensures Valid() && !active && !result
    {
      preempt, pendSv, active, current, result := false, false, false, n, false;
    }

    // ----- interrupts -----

    method SignalEvents(events: Mask)
      requires Sound()
      modifies this`pending, this`pendSv, tasks
      ensures Sound() && (old(Placed()) ==> Placed())
      ensures !active ==> unchanged(this) && unchanged(tasks)
      ensures active ==> forall i :: 0 <= i < n ==> tasks[i] == AfterSignal(old(tasks[i]), events)
      ensures active ==> pending == (old(pending) + events) - Consumed(old(tasks[..]), events)
      ensures active ==> (pendSv <==> old(pendSv) || (preempt && current < n && exists i :: 0 <= i < n && Awaits(old(tasks[i]), events)))
    {
      hide LiveCount, Consumed, Matched, AfterSignal;
      if events == {} {
        NothingSignalled(tasks[..], pending);
        return;
      }
      if !active {
        return;
      }
      var woke := Deliver(events);
      if woke && preempt && current < n {
        pendSv := true;
      }
    }

    lemma NothingSignalled(s: seq<Task>, pending: Mask)
      ensures forall i :: 0 <= i < |s| ==> AfterSignal(s[i], {}) == s[i]
      ensures (pending + {}) - Consumed(s, {}) == pending
    {
      NothingConsumed(s);
    }

    /** The critical section of a signal: the bits go to every task blocked on them, or stay latched. */
    method Deliver(events: Mask) returns (woke: bool)
      requires Sound() && active
      modifies this`pending, tasks
      ensures Sound() && (old(Placed()) ==> Placed())
      ensures forall i :: 0 <= i < n ==> tasks[i] == AfterSignal(old(tasks[i]), events)
      ensures pending == (old(pending) + events) - Consumed(old(tasks[..]), events)
      ensures woke <==> exists i :: 0 <= i < n && Awaits(old(tasks[i]), events)
    {
      hide LiveCount, AllOk, Consumed, AfterSignal;
      ghost var before, latched := tasks[..], pending;
      pending := pending + events;
      assert before == tasks[..];
      var consumed;
      consumed, woke := Broadcast(events, latched);
      pending := pending - consumed;
      SignalKeepsOk(before, tasks[..], latched, events, time, due, requested);
      LiveAfterSignal(before, tasks[..], events);
    }

    /** The loop over the tasks; a blocked one waits for none of the bits latched before. */
    method Broadcast(events: Mask, ghost latched: Mask) returns (consumed: Mask, woke: bool)
      requires Shape() && pending == latched + events && AllOk(tasks[..], latched, time, due, requested)
      modifies tasks
      ensures forall i :: 0 <= i < n ==> tasks[i] == AfterSignal(old(tasks[i]), events)
      ensures consumed == Consumed(old(tasks[..]), events)
      ensures woke <==> exists i :: 0 <= i < n && Awaits(old(tasks[i]), events)
    {
      ghost var before := tasks[..];
      consumed, woke := {}, false;
      for i := 0 to n
        modifies tasks
        invariant forall j :: 0 <= j < i ==> tasks[j] == AfterSignal(before[j], events)
        invariant forall j :: i <= j < n ==> tasks[j] == before[j]
        invariant consumed == Consumed(before[..i], events)
        invariant woke <==> exists j :: 0 <= j < i && Awaits(before[j], events)
      {
        var t := tasks[i];
        assert TaskOk(before[i], latched, time, due[i], requested[i]);
        assert before[..i + 1][..i] == before[..i];
        if t.state == Blocked {
          var matched := t.wait * pending;
          assert matched == t.wait * events;
          if matched != {} {
            tasks[i] := t.(wait := {}, wake := matched, deadline := 0, timed := false, result := matched, state := Ready);
            consumed, woke := consumed + matched, true;
          }
        }
      }
      assert before[..n] == before;
    }

    /** Time passes; the kernel only sees the wrapped value. */
    method TickTo(elapsed: nat)
      requires Sound() && elapsed <= HALF
      modifies this`now, this`time, this`pendSv, tasks
      ensures Sound() && (old(Placed()) ==> Placed()) && time == old(time) + elapsed
      ensures !active ==> unchanged(tasks)
      ensures active ==> forall i :: 0 <= i < n ==>
                tasks[i] == AtTime(old(tasks[i]), time, due[i])
      ensures active ==> forall i :: 0 <= i < n && old(tasks[i]).state == Blocked && old(tasks[i]).timed && time >= due[i] ==>
                tasks[i].state == Ready && tasks[i].wait == tasks[i].wake == {} && !tasks[i].timed && tasks[i].priority == old(tasks[i]).priority
                && tasks[i].result == if old(tasks[i]).wait == {} then {0} else {}
      ensures pendSv <==> old(pendSv) || (active && preempt && current < n)
    {
      hide LiveCount, AllOk, AfterTick;
      ghost var before := tasks[..];
      time := time + elapsed;
      now := (now as int + elapsed) % WORD;
      WrapAdd(old(time), elapsed);
      if active {
        WakeDue();
        TickKeepsOk(before, tasks[..], pending, old(time), time, due, requested);
        LiveAfterTick(before, tasks[..], now);
      }
      if active && preempt && current < n {
        pendSv := true;
      }
    }

    /** The loop over the tasks: whose deadline is reached becomes ready, told 1 after a sleep and 0 after a wait. */
    method WakeDue()
      requires tasks.Length == n
      modifies tasks
      ensures forall i :: 0 <= i < n ==> tasks[i] == AfterTick(old(tasks[i]), now)
    {
      hide TimeReached;
      for i := 0 to n
        invariant forall j :: 0 <= j < i ==> tasks[j] == AfterTick(old(tasks[j]), now)
        invariant forall j :: i <= j < n ==> tasks[j] == old(tasks[j])
      {
        var t := tasks[i];
        if t.state == Blocked && t.timed && TimeReached(now, t.deadline) {
          tasks[i] := t.(wait := {}, wake := {}, deadline := 0, timed := false, result := if t.wait == {} then {0} else {}, state := Ready);
        }
      }
    }

    /** A task of a preemptive run has the processor, and no switch is requested. */
    predicate Unasked()
      reads this
    {
      active && preempt && current < n && !pendSv
    }

    /** Any interrupts in a row: ready tasks stay as they are, and without its events a blocked one only obeys the clock. */
    method Interrupts(list: seq<Interrupt>)
      requires Sound() && Regular(list)
      modifies this`pending, this`pendSv, this`now, this`time, tasks
      ensures Sound() && (old(Placed()) ==> Placed()) && time >= old(time)
      ensures forall i :: 0 <= i < n && old(tasks[i]).state == Ready ==> tasks[i] == old(tasks[i])
      ensures forall i :: 0 <= i < n ==> tasks[i].priority == old(tasks[i]).priority
      ensures active ==> forall i :: 0 <= i < n && Foreign(list, old(tasks[i]).wait) ==> tasks[i] == AtTime(old(tasks[i]), time, due[i])
      ensures list == [] ==> unchanged(this) && unchanged(tasks)
      ensures old(pendSv) ==> pendSv
      ensures Unasked() ==> forall i :: 0 <= i < n && tasks[i].state == Ready ==> old(tasks[i]).state == Ready
    {
      hide LiveCount, Consumed, AfterSignal, AtTime, AllOk;
      StillAhead();
      for k := 0 to |list|
        invariant Sound() && (old(Placed()) ==> Placed()) && time >= old(time)
        invariant forall i :: 0 <= i < n && old(tasks[i]).state == Ready ==> tasks[i] == old(tasks[i])
        invariant forall i :: 0 <= i < n ==> tasks[i].priority == old(tasks[i]).priority
        invariant active ==> forall i :: 0 <= i < n && Foreign(list, old(tasks[i]).wait) ==> tasks[i] == AtTime(old(tasks[i]), time, due[i])
        invariant k == 0 ==> unchanged(this) && unchanged(tasks)
        invariant old(pendSv) ==> pendSv
        invariant Unasked() ==> forall i :: 0 <= i < n && tasks[i].state == Ready ==> old(tasks[i]).state == Ready
      {
        ghost var before, was := tasks[..], time;
        match list[k] {
          case Signal(events) => SignalEvents(events);
          case Tick(elapsed) => TickTo(elapsed);
        }
        forall i | 0 <= i < n && active
          ensures before[i].state == Ready ==> tasks[i] == before[i]
          ensures Unasked() && tasks[i].state == Ready ==> before[i].state == Ready
          ensures tasks[i].priority == before[i].priority
          ensures Foreign(list, old(tasks[i]).wait) ==> tasks[i] == AtTime(old(tasks[i]), time, due[i])
        {
          OneInterrupt(old(tasks[i]), list, k, was, time, due[i], before[i]);
        }
      }
    }

    /** Deadlines of blocked tasks lie ahead of the clock. */
    lemma StillAhead()
      requires Sound()
      ensures active ==> forall i :: 0 <= i < n ==> AtTime(tasks[i], time, due[i]) == tasks[i]
    {
      if active {
        forall i | 0 <= i < n ensures AtTime(tasks[i], time, due[i]) == tasks[i] {
          assert TaskOk(tasks[..][i], pending, time, due[i], requested[i]);
        }
      }
    }

    // ----- dispatch -----

    /**
     `scheduler_select_next_ready`, with interrupts arriving before each look at a task. The choice is ready, and no task
     that was ready from the start is better; without interrupts it is the choice.
     */
    method Select(after: nat, schedule: seq<seq<Interrupt>>) returns (selected: nat)
      requires Sound() && after < n && AllRegular(schedule)
      modifies this`pending, this`pendSv, this`now, this`time, tasks
      ensures Sound() && (old(Placed()) ==> Placed()) && selected <= n && time >= old(time)
      ensures active ==> forall i :: 0 <= i < n && AllForeign(schedule, old(tasks[i]).wait) ==> tasks[i] == AtTime(old(tasks[i]), time, due[i])
      ensures forall i :: 0 <= i < n && old(tasks[i]).state == Ready ==> tasks[i] == old(tasks[i])
      ensures forall i :: 0 <= i < n ==> tasks[i].priority == old(tasks[i]).priority
      ensures selected == n ==> forall j :: 0 <= j < n ==> old(tasks[j]).state != Ready
      ensures selected < n ==> tasks[selected].state == Ready
      ensures selected < n ==> forall j :: 0 <= j < n && old(tasks[j]).state == Ready ==> Beats(tasks[..], after, selected, j)
      ensures schedule == [] ==> unchanged(this) && unchanged(tasks)
      ensures Unasked() ==> forall i :: 0 <= i < n && tasks[i].state == Ready ==> old(tasks[i]).state == Ready
      ensures schedule == [] ==> (selected < n ==> Chosen(tasks[..], after, selected))
    {
      hide LiveCount, AllOk, AtTime, Foreign;
      StillAhead();
      selected := n;
      var priority := LOWEST + 1;
      ghost var at := 0;  // the offset of the selection
      for offset := 1 to n + 1
        invariant Sound() && (old(Placed()) ==> Placed()) && selected <= n && time >= old(time)
        invariant active ==> forall i :: 0 <= i < n && AllForeign(schedule, old(tasks[i]).wait) ==> tasks[i] == AtTime(old(tasks[i]), time, due[i])
        invariant forall i :: 0 <= i < n && old(tasks[i]).state == Ready ==> tasks[i] == old(tasks[i])
        invariant forall i :: 0 <= i < n ==> tasks[i].priority == old(tasks[i]).priority
        invariant selected < n ==> tasks[selected].state == Ready && priority == tasks[selected].priority
        invariant selected == n ==> priority == LOWEST + 1
        invariant selected < n ==> Distance(n, after, selected) < offset
        invariant forall j :: 0 <= j < n && old(tasks[j]).state == Ready && Distance(n, after, j) < offset ==>
                    selected < n && Better(priority, Distance(n, after, selected), tasks[j].priority, Distance(n, after, j))
        invariant schedule == [] ==> unchanged(this) && unchanged(tasks)
        invariant Unasked() ==> forall i :: 0 <= i < n && tasks[i].state == Ready ==> old(tasks[i]).state == Ready
      {
        if offset <= |schedule| {
          ghost var before, was := tasks[..], time;
          Interrupts(schedule[offset - 1]);
          forall i | 0 <= i < n && AllForeign(schedule, old(tasks[i]).wait)
            ensures active ==> tasks[i] == AtTime(old(tasks[i]), time, due[i])
          {
            TimePasses(old(tasks[i]), schedule[offset - 1], was, time, due[i]);
          }
        }
        var index := (after + offset) % n;
        OffsetIsDistance(n, after, offset);
        if tasks[index].state == Ready && tasks[index].priority < priority {
          selected, priority := index, tasks[index].priority;
        }
      }
    }

    /** `svc #0` from the host: the first task to run. */
    method StartDispatch()
      requires Valid()
      modifies this, tasks
      ensures Valid() && unchanged(tasks) && idleWaits == old(idleWaits) && time == old(time) && due == old(due)
      ensures old(active && current == n) ==> completed == old(completed) && target == old(target)
      ensures pending == old(pending) && switches == old(switches)
      ensures active ==> preempt == old(preempt)
      ensures old(active && current == n && exists i :: 0 <= i < n && tasks[i].state == Ready) ==>
                active && Chosen(tasks[..], n - 1, current)
    {
      hide LiveCount, AllOk;
      if !active || current != n {
        AbortRun();
        return;
      }
      var next := Select(n - 1, []);
      if next >= n {
        AbortRun();
        return;
      }
      current := next;
    }

    /** The current task gave up the processor: the next one, the end of the run, or the host, to wait. */
    method SwitchAway()
      requires Sound() && active && current < n
      modifies this, tasks
      ensures Valid() && unchanged(tasks) && pending == old(pending) && (active ==> pendSv == (old(pendSv) && current < n))
      ensures time == old(time) && due == old(due) && requested == old(requested)
      ensures active <==> old(completed < target)
      ensures !active ==> result && forall i :: 0 <= i < n ==> !Live(tasks[i])
      ensures active ==> completed == old(completed) && target == old(target) && result == old(result) && preempt == old(preempt)
                         && if current < n then Chosen(tasks[..], old(current), current)
                            else (forall i :: 0 <= i < n ==> tasks[i].state != Ready) && exists i :: 0 <= i < n && tasks[i].state == Blocked
    {
      hide AllOk, LiveCount;
      var next := Select(current, []);
      LiveExists(tasks[..]);
      if next >= n {
        pendSv, current := false, n;
        if completed == target {
          preempt, active, result := false, false, true;
        } else {
          var blocked := HasBlocked();
          if !blocked {
            assert false;  // the accounting leaves someone to wait for
          }
        }
        return;
      }
      assert Live(tasks[..][next]);
      current := next;
    }

    // ----- supervisor calls -----

    /** A call of the current task. A call the kernel does not know, or a wait for nothing, aborts the run. */
    method Svc(call: Call)
      requires Valid()
      modifies this, tasks
      ensures Valid()
      ensures old(!active || current == n) || call.Unknown? || call == WaitEvents({}) ==> !active && !result && unchanged(tasks)
      ensures time == old(time) && (active ==> preempt == old(preempt) && pendSv == (old(pendSv) && current < n))
      ensures old(active && current < n) && !call.Unknown? && call != WaitEvents({}) ==>
                && (active || (result && forall i :: 0 <= i < n ==> !Live(tasks[i])))
                && (forall i :: 0 <= i < n && i != old(current) ==> tasks[i] == old(tasks[i]))
                && Answered(call, old(tasks[current]), tasks[old(current)], old(pending), pending)
                && (forall i :: 0 <= i < n && i != old(current) ==> due[i] == old(due[i]))
                && (tasks[old(current)].state == Blocked ==> requested[old(current)] == call.events)
                && (tasks[old(current)].state == Blocked && call.TimedBlock? ==> due[old(current)] == time + call.timeout)
      ensures old(active && current < n) && !call.Unknown? && call != WaitEvents({}) && active ==>
                if Keeps(call, old(pending)) then current == old(current)
                else if current < n then Chosen(tasks[..], old(current), current)
                else forall i :: 0 <= i < n ==> tasks[i].state != Ready
    {
      hide LiveCount, AllOk, Chosen;
      if !active || current >= n {
        AbortRun();
        return;
      }
      var stays := false;
      match call {
        case Yield =>
        case Exit => Finish();
        case WaitEvents(events) =>
          if events == {} {
            AbortRun();
            return;
          }
          stays := Await(events, None);
        case TimedBlock(events, timeout) =>
          if events * pending == {} && (timeout == 0 || timeout as int > MAX_TIMEOUT) {
            Decline(events, timeout);
            return;
          }
          stays := Await(events, Some(timeout));
        case Unknown =>
          AbortRun();
          return;
      }
      if !stays {
        SwitchAway();
      }
    }

    method Finish()
      requires Valid() && active && current < n
      modifies this`completed, tasks
      ensures Sound() && completed == old(completed) + 1
      ensures forall i :: 0 <= i < n && i != current ==> tasks[i] == old(tasks[i])
      ensures tasks[current] == old(tasks[current]).(state := Done, wait := {}, wake := {}, deadline := 0, timed := false)
    {
      hide AllOk, LiveCount;
      ghost var before := tasks[..];
      tasks[current] := tasks[current].(state := Done, wait := {}, wake := {}, deadline := 0, timed := false);
      completed := completed + 1;
      LiveUpdate(before, tasks[..], current);
      OneTaskOk(before, tasks[..], current, pending, pending, time, due, due, requested, requested);
    }

    /** A wait: events that are already pending are taken at once, otherwise the caller blocks, with a deadline or without. */
    method Await(events: Mask, timeout: Option<u32>) returns (stays: bool)
      requires Valid() && active && current < n
      requires events * pending == {} ==> if timeout.Some? then 1 <= timeout.value as int <= MAX_TIMEOUT else events != {}
      modifies this`pending, this`due, this`requested, tasks
      ensures Sound() && (stays ==> Placed()) && stays == (old(pending) * events != {})
      ensures forall i :: 0 <= i < n && i != current ==> tasks[i] == old(tasks[i])
      ensures requested == old(requested)[current := events] && |due| == n && forall i :: 0 <= i < n && i != current ==> due[i] == old(due[i])
      ensures stays ==>
                tasks[current] == old(tasks[current]).(wait := {}, wake := old(pending) * events, deadline := 0, timed := false,
                                                       result := old(pending) * events)
      ensures stays ==> pending == old(pending) - events && due == old(due)
      ensures !stays ==> pending == old(pending) && tasks[current].state == Blocked && tasks[current].wait == events
                         && tasks[current].wake == {} && tasks[current].timed == timeout.Some?
      ensures !stays ==> tasks[current].result == old(tasks[current]).result && tasks[current].priority == old(tasks[current]).priority
                         && (timeout.Some? ==> due[current] == time + timeout.value)
    {
      hide AllOk, LiveCount;
      ghost var before := tasks[..];
      var matched := pending * events;
      requested := requested[current := events];
      if matched != {} {
        pending := pending - matched;
        tasks[current] := tasks[current].(wait := {}, wake := matched, deadline := 0, timed := false, result := matched);
        stays := true;
      } else {
        var deadline := if timeout.Some? then (now as int + timeout.value as int) % WORD else 0;
        if timeout.Some? {
          due := due[current := time + timeout.value];
          WrapAdd(time, timeout.value);
        }
        tasks[current] := tasks[current].(wait := events, wake := {}, deadline := deadline, timed := timeout.Some?, state := Blocked);
        Apart(pending, events);
        stays := false;
      }
      assert matched <= events;
      LiveSame(before, tasks[..]);
      OneTaskOk(before, tasks[..], current, old(pending), pending, time, old(due), due, old(requested), requested);
    }

    /** A timed block that does not block: a poll that finds nothing, or a timeout out of range. */
    method Decline(events: Mask, timeout: u32)
      requires Valid() && active && current < n && events * pending == {} && (timeout == 0 || timeout as int > MAX_TIMEOUT)
      modifies tasks
      ensures Valid()
      ensures forall i :: 0 <= i < n && i != current ==> tasks[i] == old(tasks[i])
      ensures tasks[current] == old(tasks[current]).(wait := {}, wake := {}, deadline := 0, timed := false,
                result := if timeout == 0 && events == {} then {0} else {})
    {
      hide AllOk, LiveCount;
      ghost var before := tasks[..];
      var answer := if timeout == 0 && events == {} then {0} else {};
      tasks[current] := tasks[current].(wait := {}, wake := {}, deadline := 0, timed := false, result := answer);
      LiveSame(before, tasks[..]);
      OneTaskOk(before, tasks[..], current, pending, pending, time, due, due, requested, requested);
    }

    /** The preemption exception, with interrupts arriving while it looks for the next task. */
    method PendSv(schedule: seq<seq<Interrupt>>)
      requires Valid() && pendSv && AllRegular(schedule)
      modifies this, tasks
      ensures Valid() && active && current < n && tasks[current].state == Ready
      ensures forall i :: 0 <= i < n && old(tasks[i]).state == Ready ==> tasks[i] == old(tasks[i])
      ensures forall j :: 0 <= j < n && old(tasks[j]).state == Ready ==> Beats(tasks[..], old(current), current, j)
      ensures time >= old(time) && due == old(due)
      ensures forall i :: 0 <= i < n && AllForeign(schedule, old(tasks[i]).wait) ==> tasks[i] == AtTime(old(tasks[i]), time, due[i])
      ensures switches == old(switches) + (if current != old(current) then 1 else 0) && preempt == old(preempt)
      ensures schedule == [] ==> !pendSv && pending == old(pending)
    {
      hide LiveCount, AllOk, AtTime, AllForeign;
      pendSv := false;
      if !active || !preempt || current >= n {
        assert false;  // it is pended only while a task of a preemptive run has the processor
      }
      var next := Select(current, schedule);
      if next >= n {
        assert false;  // the current task itself is ready
      }
      if next != current {
        switches := switches + 1;
      }
      current := next;
    }

    // ----- the host -----

    /** `scheduler_start_mode` up to the first dispatch. */
    method Start(preemptive: bool, between: seq<Interrupt>) returns (ok: bool)
      requires Valid() && Regular(between) && forall i :: 0 <= i < n ==> tasks[i].state != Blocked
      modifies this, tasks
      ensures Valid() && ok == (!old(active) && exists i :: 0 <= i < n && old(tasks[i]).state == Ready)
      ensures !ok ==> active == old(active) && unchanged(tasks)
      ensures ok ==> active && completed == switches == 0 && target == LiveCount(tasks[..]) && preempt == preemptive
      ensures ok ==> Chosen(tasks[..], n - 1, current)
      ensures ok && between == [] ==> unchanged(tasks) && pending == old(pending)
    {
      hide LiveCount, Count, AllOk;
      if active {
        return false;
      }
      var count := CountReady();
      ReadyIsAllOwed(tasks[..]);
      LiveExists(tasks[..]);
      if count == 0 {
        assert forall i :: 0 <= i < n ==> !Live(tasks[..][i]);
        return false;
      }
      ghost var k :| 0 <= k < n && Live(tasks[..][k]);
      assert tasks[k].state == Ready;
      Arm(count, preemptive);
      Interrupts(between);
      assert tasks[k].state == Ready;
      StartDispatch();
      return true;
    }

    method Arm(count: nat, preemptive: bool)
      requires Valid() && !active && count == LiveCount(tasks[..]) > 0 && forall i :: 0 <= i < n ==> tasks[i].state != Blocked
      modifies this
      ensures Valid() && active && current == n && completed == switches == 0 && target == count && preempt == preemptive
      ensures pending == old(pending)
    {
      hide LiveCount, AllOk, Requests;
      ghost var all := tasks[..];
      NoneBlockedIsOk(all, pending, time, due);
      requested := Requests(all);
      current, completed, target, result, preempt, switches, active := n, 0, count, false, preemptive, 0, true;
      assert tasks[..] == all;
    }

    method CountReady() returns (count: nat)
      requires Shape()
      ensures count == Count(tasks[..], Ready)
    {
      count := 0;
      for i := 0 to n
        invariant count == Count(tasks[..i], Ready)
      {
        assert tasks[..i + 1][..i] == tasks[..i];
        if tasks[i].state == Ready {
          count := count + 1;
        }
      }
      assert tasks[..n] == tasks[..];
    }

    /** One turn of the host loop: dispatch when something is ready, sleep when something is blocked, and nothing else. */
    method HostTurn(between: seq<Interrupt>)
      requires Valid() && active && current == n && Regular(between)
      modifies this, tasks
      ensures Valid() && active && time >= old(time) && due == old(due) && preempt == old(preempt)
      ensures (exists i :: 0 <= i < n && old(tasks[i]).state == Ready) ==> Chosen(tasks[..], n - 1, current) && idleWaits == old(idleWaits)
      ensures !(exists i :: 0 <= i < n && old(tasks[i]).state == Ready) ==>
                current == n && idleWaits == old(idleWaits) + 1 && exists i :: 0 <= i < n && old(tasks[i]).state == Blocked
      ensures forall i :: 0 <= i < n && old(tasks[i]).state == Ready ==> tasks[i] == old(tasks[i])
      ensures forall i :: 0 <= i < n && Foreign(between, old(tasks[i]).wait) ==> tasks[i] == AtTime(old(tasks[i]), time, due[i])
    {
      hide LiveCount, AllOk, AtTime, Foreign;
      LiveExists(tasks[..]);
      StillAhead();
      if current != n {
        assert false;  // the host runs only when no task does
      }
      var next := Select(n - 1, []);
      if next < n {
        Interrupts(between);
        assert tasks[next].state == Ready;
        StartDispatch();
        return;
      }
      var blocked := HasBlocked();
      if blocked {
        idleWaits := idleWaits + 1;
        return;
      }
      assert false;  // the accounting leaves someone to wait for
    }

    method HasBlocked() returns (yes: bool)
      requires Shape()
      ensures yes <==> exists i :: 0 <= i < n && tasks[i].state == Blocked
    {
      for i := 0 to n
        invariant forall j :: 0 <= j < i ==> tasks[j].state != Blocked
      {
        if tasks[i].state == Blocked {
          return true;
        }
      }
      return false;
    }
  }

  lemma Apart(a: Mask, b: Mask)
    requires a * b == {}
    ensures b !! a
  {
    forall bit | bit in b ensures bit !in a {
      assert bit in a ==> bit in a * b;
    }
  }

  /** The call leaves the caller running. */
  predicate Keeps(call: Call, pending: Mask) {
    match call
    case WaitEvents(events) => events * pending != {}
    case TimedBlock(events, timeout) => events * pending != {} || timeout == 0 || timeout as int > MAX_TIMEOUT
    case _ => false
  }

  /** What a call does to its caller, and to the latched events. */
  ghost predicate Answered(call: Call, before: Task, after: Task, pending: Mask, pending': Mask) {
    match call
    case Yield => after == before && pending' == pending
    case Exit => after == Settled(before, Done, {}, before.result) && pending' == pending
    case WaitEvents(events) => Waited(events, before, after, pending, pending') && !after.timed
    case TimedBlock(events, timeout) =>
      if events * pending == {} && (timeout == 0 || timeout as int > MAX_TIMEOUT)
      then after == Settled(before, Ready, {}, if timeout == 0 && events == {} then {0} else {}) && pending' == pending
      else Waited(events, before, after, pending, pending') && (after.state == Blocked ==> after.timed)
    case Unknown => false
  }

  /** A task that waits for nothing. */
  function Settled(t: Task, state: State, wake: Mask, result: Mask): Task {
    Task(state, t.priority, {}, wake, 0, false, result)
  }

  /** Pending events are taken and returned, exactly those asked for; without any the caller blocks on what it asked for. */
  ghost predicate Waited(events: Mask, before: Task, after: Task, pending: Mask, pending': Mask) {
    if events * pending != {} then
      after == Settled(before, Ready, events * pending, events * pending) && pending' == pending - events
    else
      && after.state == Blocked && after.wait == events && after.wake == {} && after.priority == before.priority
      && after.result == before.result && pending' == pending
  }

  /** One task changed, fewer events pending: everyone else is as well off as before. */
  lemma OneTaskOk(before: seq<Task>, after: seq<Task>, k: nat, pending: Mask, pending': Mask, time: nat,
                  due: seq<nat>, due': seq<nat>, requested: seq<Mask>, requested': seq<Mask>)
    requires AllOk(before, pending, time, due, requested)
    requires k < |before| == |after| == |due'| == |requested'| && pending' <= pending
    requires forall i :: 0 <= i < |before| && i != k ==> after[i] == before[i] && due'[i] == due[i] && requested'[i] == requested[i]
    requires TaskOk(before[k], pending, time, due[k], requested[k]) ==> TaskOk(after[k], pending', time, due'[k], requested'[k])
    ensures AllOk(after, pending', time, due', requested')
  {
    forall i | 0 <= i < |after| ensures TaskOk(after[i], pending', time, due'[i], requested'[i]) {
      assert TaskOk(before[i], pending, time, due[i], requested[i]);
    }
  }

  predicate Better(p: nat, d: nat, q: nat, e: nat) {
    p < q || (p == q && d <= e)
  }

  /** The rotation reaches the index at distance `offset` with its `offset`-th look. */
  lemma OffsetIsDistance(n: nat, from: nat, offset: nat)
    requires from < n && 1 <= offset <= n
    ensures (from + offset) % n < n && Distance(n, from, (from + offset) % n) == offset
    ensures forall j :: 0 <= j < n && Distance(n, from, j) == offset ==> j == (from + offset) % n
  {
    if from + offset >= n {
      assert (from + offset) % n == from + offset - n by {
        ModOnce(from + offset, n);
      }
    }
  }

  lemma ModOnce(a: nat, n: nat)
    requires n > 0 && n <= a < 2 * n
    ensures a % n == a - n
  {
    assert a == 1 * n + (a - n);
  }

  lemma {:induction false} NothingConsumed(s: seq<Task>)
    ensures Consumed(s, {}) == {}
  {
    if s != [] {
      NothingConsumed(s[..|s| - 1]);
    }
  }

  /** A task at a later time, by way of an earlier one; what it then waits for is no more than before. */
  lemma TimePasses(t: Task, list: seq<Interrupt>, was: nat, time: nat, due: nat)
    requires was <= time && Foreign(list, t.wait)
    ensures AtTime(AtTime(t, was, due), time, due) == AtTime(t, time, due) && Foreign(list, AtTime(t, was, due).wait)
  {
  }

  /** One interrupt of a list, seen by one task. */
  lemma OneInterrupt(t: Task, list: seq<Interrupt>, k: nat, was: nat, time: nat, due: nat, now: Task)
    requires k < |list| && was <= time && (Foreign(list, t.wait) ==> now == AtTime(t, was, due))
    ensures now.state == Ready ==> AtTime(now, time, due) == now
    ensures AtTime(now, time, due).priority == now.priority
    ensures list[k].Signal? ==> AfterSignal(now, list[k].events).priority == now.priority
    ensures list[k].Signal? && !Awaits(now, list[k].events) ==> AfterSignal(now, list[k].events) == now
    ensures Foreign(list, t.wait) ==> AtTime(now, time, due) == AtTime(t, time, due)
    ensures Foreign(list, t.wait) && list[k].Signal? ==> AfterSignal(now, list[k].events) == now
  {
    if Foreign(list, t.wait) {
      TimePasses(t, list, was, time, due);
      if list[k].Signal? {
        assert list[k].events !! now.wait;
        assert now.wait * list[k].events == {};
      }
    }
  }

  /** What each task has asked for when a run begins: the bits left from an earlier wake-up. */
  function Requests(s: seq<Task>): (r: seq<Mask>)
    ensures |r| == |s| && forall i :: 0 <= i < |s| ==> r[i] == s[i].wake
  {
    seq(|s|, i requires 0 <= i < |s| => s[i].wake)
  }

  lemma NoneBlockedIsOk(s: seq<Task>, pending: Mask, time: nat, due: seq<nat>)
    requires |due| == |s| && forall i :: 0 <= i < |s| ==> s[i].state != Blocked && s[i].priority <= LOWEST
    ensures AllOk(s, pending, time, due, Requests(s))
  {
  }

  lemma SignalKeepsOk(before: seq<Task>, after: seq<Task>, latched: Mask, events: Mask, time: nat, due: seq<nat>, requested: seq<Mask>)
    requires AllOk(before, latched, time, due, requested) && |after| == |before|
    requires forall i :: 0 <= i < |before| ==> after[i] == AfterSignal(before[i], events)
    ensures AllOk(after, (latched + events) - Consumed(before, events), time, due, requested)
  {
    hide Consumed;
    forall i | 0 <= i < |after| ensures TaskOk(after[i], (latched + events) - Consumed(before, events), time, due[i], requested[i]) {
      SignalKeepsOneOk(before[i], latched, events, Consumed(before, events), time, due[i], requested[i]);
    }
  }

  lemma SignalKeepsOneOk(t: Task, latched: Mask, events: Mask, consumed: Mask, time: nat, due: nat, requested: Mask)
    requires TaskOk(t, latched, time, due, requested)
    ensures TaskOk(AfterSignal(t, events), (latched + events) - consumed, time, due, requested)
  {
    if t.state == Blocked && t.wait * events == {} {
      assert forall bit :: bit in t.wait ==> bit !in latched && (bit in events ==> bit in t.wait * events);
    }
  }

  lemma LiveAfterSignal(before: seq<Task>, after: seq<Task>, events: Mask)
    requires |after| == |before| && forall i :: 0 <= i < |before| ==> after[i] == AfterSignal(before[i], events)
    ensures LiveCount(after) == LiveCount(before)
    ensures forall i :: 0 <= i < |before| ==> after[i].priority == before[i].priority && (before[i].state == Ready ==> after[i] == before[i])
  {
    LiveSame(before, after);
  }

  lemma LiveAfterTick(before: seq<Task>, after: seq<Task>, now: u32)
    requires |after| == |before| && forall i :: 0 <= i < |before| ==> after[i] == AfterTick(before[i], now)
    ensures LiveCount(after) == LiveCount(before)
  {
    hide TimeReached;
    LiveSame(before, after);
  }

  /** A tick wakes exactly the tasks whose unwrapped deadline is reached, and leaves the others' ahead. */
  lemma TickKeepsOk(before: seq<Task>, after: seq<Task>, pending: Mask, was: nat, time: nat, due: seq<nat>, requested: seq<Mask>)
    requires AllOk(before, pending, was, due, requested) && |after| == |before| && was <= time <= was + HALF
    requires forall i :: 0 <= i < |before| ==> after[i] == AfterTick(before[i], time % WORD)
    ensures AllOk(after, pending, time, due, requested)
    ensures forall i :: 0 <= i < |before| ==> after[i] == AtTime(before[i], time, due[i])
  {
    hide TimeReached;
    forall i | 0 <= i < |after|
      ensures TaskOk(after[i], pending, time, due[i], requested[i])
      ensures after[i] == AtTime(before[i], time, due[i])
    {
      assert TaskOk(before[i], pending, was, due[i], requested[i]);
      if before[i].state == Blocked && before[i].timed {
        WrapSafe(time, due[i]);
      }
    }
  }

  // ----- steps -----

  datatype Step = TaskCalls(call: Call) | Preempt(schedule: seq<seq<Interrupt>>) | Irq(interrupt: Interrupt) | HostRuns(between: seq<Interrupt>)

  predicate StepRegular(step: Step) {
    match step
    case TaskCalls(_) => true
    case Preempt(schedule) => AllRegular(schedule)
    case Irq(interrupt) => Regular([interrupt])
    case HostRuns(between) => Regular(between)
  }

  /** No event in the step is one the mask waits for. */
  predicate StepForeign(step: Step, wait: Mask) {
    match step
    case TaskCalls(_) => true
    case Preempt(schedule) => AllForeign(schedule, wait)
    case Irq(interrupt) => Foreign([interrupt], wait)
    case HostRuns(between) => Foreign(between, wait)
  }

  /** Every call and every signal counts; only a tick that comes too late does not, and only an awaited event is not foreign. */
  lemma WhichStepsCount(call: Call, events: Mask, elapsed: nat, wait: Mask)
    ensures StepRegular(TaskCalls(call)) && StepForeign(TaskCalls(call), wait)
    ensures StepRegular(Irq(Signal(events))) && (StepForeign(Irq(Signal(events)), wait) <==> events !! wait)
    ensures (StepRegular(Irq(Tick(elapsed))) <==> elapsed <= 0x8000_0000) && StepForeign(Irq(Tick(elapsed)), wait)
  {
    var signal, tick := [Signal(events)], [Tick(elapsed)];
    assert signal[0].Signal? && tick[0].Tick?;
  }

  /** A call no library function makes. */
  predicate Fault(step: Step) {
    step.TaskCalls? && (step.call.Unknown? || step.call == WaitEvents({}))
  }

  /** Where the next dispatch starts its rotation: behind the current task, or behind the last one when the host runs. */
  function Origin(k: Kernel): nat
    requires k.n > 0
    reads k
  {
    if k.current < k.n then k.current else k.n - 1
  }

  /**
   One step; one that cannot happen in this state does not. Ready tasks other than the current one are left alone, a
   blocked one whose events do not occur only obeys the clock, and a dispatch passes over no better task.
   */
  method Take(k: Kernel, step: Step) returns (dispatched: bool)
    requires k.Valid() && StepRegular(step)
    modifies k, k.tasks
    ensures k.Valid() && k.time >= old(k.time)
    ensures !Fault(step) ==> (old(k.active) ==> k.active || (k.result && forall i :: 0 <= i < k.n ==> !Live(k.tasks[i])))
    ensures !Fault(step) ==> (!old(k.active) ==> !k.active && k.result == old(k.result))
    ensures k.active ==> old(k.active) && k.preempt == old(k.preempt)
    ensures step.Preempt? ==> dispatched == old(k.pendSv)
    ensures old(k.active) && (k.active || !Fault(step)) ==>
              forall i :: 0 <= i < k.n && i != old(k.current) ==> k.due[i] == old(k.due[i])
    ensures forall i :: 0 <= i < k.n && i != old(k.current) && old(k.tasks[i]).state == Ready ==> k.tasks[i] == old(k.tasks[i])
    ensures old(k.active) && (k.active || !Fault(step)) ==>
              forall i :: 0 <= i < k.n && i != old(k.current) && StepForeign(step, old(k.tasks[i]).wait) ==>
                k.tasks[i] == AtTime(old(k.tasks[i]), k.time, k.due[i])
    ensures dispatched ==> k.active && k.current < k.n
    ensures dispatched ==> forall j :: 0 <= j < k.n && j != old(k.current) && old(k.tasks[j]).state == Ready ==>
              Beats(k.tasks[..], old(Origin(k)), k.current, j)
    ensures !dispatched && k.active ==> k.current == old(k.current) || (k.current == k.n && forall i :: 0 <= i < k.n ==> k.tasks[i].state != Ready)
  {
    hide LiveCount, AllOk, Consumed, AtTime, AllForeign, Foreign;
    dispatched := false;
    k.StillAhead();
    match step {
      case TaskCalls(call) =>
        if k.active && k.current < k.n {
          var keeps := Keeps(call, k.pending);
          k.Svc(call);
          dispatched := k.active && !keeps && k.current < k.n;
        }
      case Preempt(schedule) =>
        if k.pendSv {
          k.PendSv(schedule);
          dispatched := true;
        }
      case Irq(interrupt) =>
        k.Interrupts([interrupt]);
      case HostRuns(between) =>
        if k.active && k.current == k.n {
          k.HostTurn(between);
          dispatched := k.current < k.n;
        }
    }
  }

  // ----- waiting for a turn -----

  datatype Turn = Runs | Waits | Outranked | Aborted

  /**
   A ready task, and any steps of the run, with other tasks blocking, waking and exiting in between: unless a more urgent
   task is dispatched, it runs within as many dispatches as there are tasks. The host, which starts its rotation over,
   cannot get in between, because it does not run while a task is ready.
   */
  method RunsWithinTurns(k: Kernel, t: nat, steps: seq<Step>) returns (dispatches: nat, turn: Turn)
    requires k.Valid() && k.active && t < k.n && k.current != t && k.tasks[t].state == Ready
    requires forall i :: 0 <= i < |steps| ==> StepRegular(steps[i])
    modifies k, k.tasks
    ensures k.Valid()
    ensures turn.Runs? ==> k.active && k.current == t && dispatches <= k.n
    ensures turn.Waits? ==> k.active && k.tasks[t].state == Ready && dispatches < k.n
    ensures turn.Outranked? ==> k.active && k.current < k.n && k.tasks[k.current].priority < k.tasks[t].priority
    ensures turn.Aborted? ==> exists i :: 0 <= i < |steps| && Fault(steps[i])
  {
    hide LiveCount, AllOk, AtTime, Beats, Distance, StepForeign;
    dispatches := 0;
    DistanceBounds(k.n, Origin(k), t);
    for i := 0 to |steps|
      invariant k.Valid() && k.active && k.current != t && k.tasks[t].state == Ready
      invariant dispatches + Distance(k.n, Origin(k), t) <= k.n
    {
      DistanceBounds(k.n, Origin(k), t);
      var dispatched := CloserStep(k, t, steps[i]);
      if !k.active {
        return dispatches, Aborted;
      }
      if dispatched {
        dispatches := dispatches + 1;
        if k.current == t {
          return dispatches, Runs;
        }
        if k.tasks[k.current].priority < k.tasks[t].priority {
          return dispatches, Outranked;
        }
      }
    }
    DistanceBounds(k.n, Origin(k), t);
    turn := Waits;
  }

  /**
   Any step of the run beside a ready task that has not the processor: it stays ready, and every dispatch either gives it
   the processor, or gives it to a more urgent task, or brings it closer in the rotation. Nothing else moves it away.
   */
  method CloserStep(k: Kernel, t: nat, step: Step) returns (dispatched: bool)
    requires k.Valid() && k.active && t < k.n && k.current != t && k.tasks[t].state == Ready && StepRegular(step)
    modifies k, k.tasks
    ensures k.Valid() && k.tasks[t] == old(k.tasks[t]) && (k.active || Fault(step))
    ensures dispatched ==> k.active && k.current < k.n
    ensures dispatched ==>
              k.current == t || k.tasks[k.current].priority < k.tasks[t].priority || Distance(k.n, Origin(k), t) < old(Distance(k.n, Origin(k), t))
    ensures !dispatched && k.active ==> k.current == old(k.current)
  {
    hide LiveCount, AllOk, AtTime, Beats, Distance, StepForeign;
    ghost var from := Origin(k);
    dispatched := Take(k, step);
    ghost var live := Live(k.tasks[t]);
    if dispatched && k.current != t && k.tasks[t].priority <= k.tasks[k.current].priority {
      CloserToTurn(k.tasks[..], from, k.current, t);
    }
  }

  lemma DistanceBounds(n: nat, from: nat, to: nat)
    requires from < n && to < n
    ensures 1 <= Distance(n, from, to) <= n
  {
  }

  // ----- preemption -----

  /**
   A signal in a preemptive run, and the preemption it asks for, with more interrupts inside: whoever then runs is no
   less urgent than any task the signal woke.
   */
  method SignalPreempts(k: Kernel, events: Mask, schedule: seq<seq<Interrupt>>)
    requires k.Valid() && k.active && k.preempt && k.current < k.n && AllRegular(schedule)
    modifies k, k.tasks
    ensures k.Valid() && k.active && k.current < k.n && k.tasks[k.current].state == Ready
    ensures forall i :: 0 <= i < k.n && old(k.tasks[i]).state == Blocked && old(k.tasks[i]).wait * events != {} ==>
              && k.tasks[i].state == Ready && k.tasks[i].result == old(k.tasks[i]).wait * events
              && k.tasks[k.current].priority <= k.tasks[i].priority
  {
    hide LiveCount, AllOk, AtTime, Consumed, AllForeign;
    k.SignalEvents(events);
    ghost var woken := k.tasks[..];
    forall i | 0 <= i < k.n && Awaits(old(k.tasks[i]), events) ensures woken[i].state == Ready && k.pendSv {
    }
    if k.pendSv {
      k.PendSv(schedule);
    }
  }

  // ----- waiting for a deadline -----

  /**
   A task blocked with a deadline, and any steps of the run in which none of its events occurs: it wakes with the first
   step after which the unwrapped time has reached the deadline, not before, and it is told 1 after a sleep and 0 after a
   timeout.
   */
  method WakesOnTime(k: Kernel, task: nat, steps: seq<Step>) returns (woke: nat, ghost times: seq<nat>)
    requires k.Valid() && k.active && task < k.n && k.tasks[task].state == Blocked && k.tasks[task].timed
    requires forall i :: 0 <= i < |steps| ==> StepRegular(steps[i]) && StepForeign(steps[i], k.tasks[task].wait)
    modifies k, k.tasks
    ensures k.Valid() && woke <= |steps| && |times| == if woke < |steps| then woke + 1 else woke
    ensures forall i :: 0 <= i < woke ==> times[i] < old(k.due[task])
    ensures woke < |steps| && (k.active || !Fault(steps[woke])) ==>
              && times[woke] >= old(k.due[task]) && k.tasks[task].state == Ready && k.tasks[task].priority == old(k.tasks[task]).priority
              && k.tasks[task].wait == k.tasks[task].wake == {} && !k.tasks[task].timed
              && k.tasks[task].result == if old(k.tasks[task]).wait == {} then {0} else {}
    ensures woke == |steps| ==> k.tasks[task] == old(k.tasks[task])
  {
    hide LiveCount, AllOk, Consumed;
    ghost var was := k.tasks[task];
    woke, times := 0, [];
    while woke < |steps|
      invariant 0 <= woke <= |steps| && k.Valid() && k.active && k.tasks[task] == was && k.due[task] == old(k.due[task])
      invariant |times| == woke && forall i :: 0 <= i < woke ==> times[i] < k.due[task]
      decreases |steps| - woke
    {
      var _ := Take(k, steps[woke]);
      times := times + [k.time];
      ghost var live := Live(k.tasks[task]);
      if !k.active || k.tasks[task].state != Blocked {
        return;
      }
      woke := woke + 1;
    }
  }

  // ----- a whole run -----

  /**
   The books of a run: who is where, what blocked tasks wait for and what is latched, whether somebody more urgent than
   the running task is ready, and whether a switch is requested.
   */
  datatype Balance = Balance(completed: nat, ready: nat, blocked: nat, target: nat, awaited: Mask, pending: Mask,
                             outranked: bool, requested: bool)

  predicate Sane(b: Balance, preemptive: bool) {
    && b.completed + b.ready + b.blocked == b.target && b.awaited !! b.pending
    && (preemptive && b.outranked ==> b.requested)
  }

  /**
   After initialisation, any run, by any steps that can happen: after each of them the accounting holds, no blocked task
   waits for a latched event and, in a preemptive run, nobody more urgent than the running task is ready without a switch
   being requested. The run is never given up unless a task made a call no library function makes.
   */
  method RunTasks(n: nat, priorities: map<nat, nat>, prepared: seq<nat>, preemptive: bool, steps: seq<Step>)
    returns (books: seq<Balance>, active: bool, result: bool)
    requires n > 0 && forall i :: 0 <= i < |steps| ==> StepRegular(steps[i])
    ensures (forall b :: b in books ==> Sane(b, preemptive)) && |books| <= |steps| && (active ==> |books| == |steps|)
    ensures (exists i :: 0 <= i < |prepared| && prepared[i] < n) && (forall i :: 0 <= i < |steps| ==> !Fault(steps[i])) ==> active || result
  {
    hide LiveCount, AllOk, AtTime, Beats, StepForeign, Sane;
    var k := new Kernel(n);
    Setup(k, priorities, prepared);
    assert forall i :: 0 <= i < |prepared| && prepared[i] < n ==> k.tasks[prepared[i]].state == Ready;
    books := [];
    var started := k.Start(preemptive, []);
    if !started {
      return books, false, false;
    }
    books := RunSteps(k, steps);
    active, result := k.active, k.result;
  }

  /** Any steps from any state of a run, with the books after each of them. */
  method RunSteps(k: Kernel, steps: seq<Step>) returns (books: seq<Balance>)
    requires k.Valid() && k.active && forall i :: 0 <= i < |steps| ==> StepRegular(steps[i])
    modifies k, k.tasks
    ensures k.Valid() && forall b :: b in books ==> Sane(b, old(k.preempt))
    ensures |books| <= |steps| && (k.active ==> |books| == |steps|)
    ensures (forall i :: 0 <= i < |steps| ==> !Fault(steps[i])) ==> k.active || k.result
  {
    hide LiveCount, AllOk, AtTime, Beats, StepForeign, Sane;
    books := [];
    ghost var fault := false;
    for i := 0 to |steps|
      invariant k.Valid() && (k.active ==> k.preempt == old(k.preempt)) && |books| <= i && (k.active ==> |books| == i)
      invariant fault <==> exists j :: 0 <= j < i && Fault(steps[j])
      invariant !fault ==> k.active || k.result
      invariant forall b :: b in books ==> Sane(b, old(k.preempt))
    {
      var _ := Take(k, steps[i]);
      fault := fault || Fault(steps[i]);
      if k.active {
        var balance := Tally(k);
        books := books + [balance];
      }
    }
  }

  method Setup(k: Kernel, priorities: map<nat, nat>, prepared: seq<nat>)
    requires k.Valid() && !k.active && forall i :: 0 <= i < k.n ==> k.tasks[i] == EMPTY_TASK
    modifies k.tasks
    ensures k.Valid() && forall i :: 0 <= i < k.n ==> k.tasks[i].state == if i in prepared then Ready else Unused
    ensures forall i :: 0 <= i < k.n ==> k.tasks[i].priority == if i in priorities && priorities[i] <= 255 then priorities[i] else 128
  {
    hide LiveCount, AllOk;
    for i := 0 to k.n
      invariant k.Valid() && forall j :: 0 <= j < k.n ==> k.tasks[j].state == Unused
      invariant forall j :: 0 <= j < k.n ==>
                  k.tasks[j].priority == if j < i && j in priorities && priorities[j] <= 255 then priorities[j] else 128
    {
      if i in priorities {
        var ok := k.SetPriority(i, priorities[i]);
      }
    }
    for i := 0 to |prepared|
      invariant k.Valid() && forall j :: 0 <= j < k.n ==> k.tasks[j].state == if j in prepared[..i] then Ready else Unused
      invariant forall j :: 0 <= j < k.n ==> k.tasks[j].priority == if j in priorities && priorities[j] <= 255 then priorities[j] else 128
    {
      var ok := k.Prepare(prepared[i]);
      assert prepared[..i + 1] == prepared[..i] + [prepared[i]];
    }
    assert prepared[..|prepared|] == prepared;
  }

  /** Reads the books. */
  method Tally(k: Kernel) returns (b: Balance)
    requires k.Valid() && k.active
    ensures Sane(b, k.preempt) && b.completed == k.completed && b.target == k.target && b.pending == k.pending && b.requested == k.pendSv
    ensures b.outranked <==>
              k.current < k.n && exists i :: 0 <= i < k.n && k.tasks[i].state == Ready && k.tasks[i].priority < k.tasks[k.current].priority
    ensures b.ready == Count(k.tasks[..], Ready) && b.blocked == Count(k.tasks[..], Blocked)
    ensures forall i :: 0 <= i < k.n && k.tasks[i].state == Blocked ==> k.tasks[i].wait <= b.awaited
  {
    hide LiveCount;
    var ready, blocked, awaited: Mask := 0, 0, {};
    var outranked := false;
    for i := 0 to k.n
      invariant ready == Count(k.tasks[..i], Ready) && blocked == Count(k.tasks[..i], Blocked)
      invariant outranked <==>
                  k.current < k.n && exists j :: 0 <= j < i && k.tasks[j].state == Ready && k.tasks[j].priority < k.tasks[k.current].priority
      invariant awaited !! k.pending && forall j :: 0 <= j < i && k.tasks[j].state == Blocked ==> k.tasks[j].wait <= awaited
    {
      assert k.tasks[..i + 1][..i] == k.tasks[..i];
      assert TaskOk(k.tasks[..][i], k.pending, k.time, k.due[i], k.requested[i]);
      if k.tasks[i].state == Ready {
        ready := ready + 1;
        outranked := outranked || (k.current < k.n && k.tasks[i].priority < k.tasks[k.current].priority);
      } else if k.tasks[i].state == Blocked {
        blocked, awaited := blocked + 1, awaited + k.tasks[i].wait;
      }
    }
    assert k.tasks[..k.n] == k.tasks[..];
    LiveIsReadyOrBlocked(k.tasks[..]);
    b := Balance(k.completed, ready, blocked, k.target, awaited, k.pending, outranked, k.pendSv);
  }

  /** Where a signalled bit went: it is latched, or some task was blocked on it, and then every such task got it. */
  lemma NoLostWakeup(before: seq<Task>, latched: Mask, events: Mask, bit: nat)
    requires bit in events
    ensures bit in (latched + events) - Consumed(before, events) <==>
              forall i :: 0 <= i < |before| ==> !(before[i].state == Blocked && bit in before[i].wait)
    ensures forall i :: 0 <= i < |before| && before[i].state == Blocked && bit in before[i].wait ==>
              AfterSignal(before[i], events).state == Ready && bit in AfterSignal(before[i], events).result
    ensures forall i :: 0 <= i < |before| && before[i].state == Blocked && bit in before[i].wait ==>
              AfterSignal(before[i], events).result == AfterSignal(before[i], events).wake == before[i].wait * events
  {
    hide Consumed;
    ConsumedByWaiters(before, events, bit);
    forall i | 0 <= i < |before| ensures bit in Matched(before[i], events) <==> before[i].state == Blocked && bit in before[i].wait {
    }
  }
}
