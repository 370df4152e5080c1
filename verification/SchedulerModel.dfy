/** What the scheduler's parts mean: which task is chosen, what an event does to a task, when a deadline is reached. */
module SchedulerModel {
  import opened Bytes

  const LOWEST: nat := 255
  const DEFAULT_PRIORITY: nat := 128
  const MAX_TIMEOUT: nat := 0x7FFF_FFFF
  const HALF: nat := 0x8000_0000

  datatype State = Unused | Ready | Done | Blocked

  /** An event word, as the set of its bits. */
  type Mask = set<nat>

  /** A task control block; `result` is the stacked r0, which its code sees when it runs again. */
  datatype Task = Task(state: State, priority: nat, wait: Mask, wake: Mask, deadline: u32, timed: bool, result: Mask)

  const EMPTY_TASK := Task(Unused, DEFAULT_PRIORITY, {}, {}, 0, false, {})

  predicate Live(t: Task) {
    t.state == Ready || t.state == Blocked
  }

  function Count(s: seq<Task>, state: State): nat {
    if s == [] then 0 else (if s[|s| - 1].state == state then 1 else 0) + Count(s[..|s| - 1], state)
  }

  function LiveCount(s: seq<Task>): nat {
    if s == [] then 0 else (if Live(s[|s| - 1]) then 1 else 0) + LiveCount(s[..|s| - 1])
  }

  lemma {:induction false} LiveIsReadyOrBlocked(s: seq<Task>)
    ensures LiveCount(s) == Count(s, Ready) + Count(s, Blocked)
  {
    if s != [] {
      LiveIsReadyOrBlocked(s[..|s| - 1]);
    }
  }

  /** A start that counts the ready tasks counts all it will owe, if and only if no task is blocked by then. */
  lemma {:induction false} ReadyIsAllOwed(s: seq<Task>)
    ensures Count(s, Ready) == LiveCount(s) <==> forall i :: 0 <= i < |s| ==> s[i].state != Blocked
  {
    LiveIsReadyOrBlocked(s);
    NoneCounted(s, Blocked);
  }

  lemma {:induction false} NoneCounted(s: seq<Task>, state: State)
    ensures Count(s, state) == 0 <==> forall i :: 0 <= i < |s| ==> s[i].state != state
  {
    if s != [] {
      var front := s[..|s| - 1];
      NoneCounted(front, state);
      assert forall i :: 0 <= i < |front| ==> front[i] == s[i];
    }
  }

  lemma {:induction false} LiveSame(a: seq<Task>, b: seq<Task>)
    requires |a| == |b| && forall i :: 0 <= i < |a| ==> Live(a[i]) == Live(b[i])
    ensures LiveCount(a) == LiveCount(b)
  {
    if a != [] {
      LiveSame(a[..|a| - 1], b[..|b| - 1]);
    }
  }

  lemma {:induction false} LiveUpdate(a: seq<Task>, b: seq<Task>, i: nat)
    requires |a| == |b| && i < |a| && Live(a[i]) && !Live(b[i]) && forall j :: 0 <= j < |a| && j != i ==> a[j] == b[j]
    ensures LiveCount(a) == LiveCount(b) + 1
  {
    if i == |a| - 1 {
      LiveSame(a[..i], b[..i]);
    } else {
      LiveUpdate(a[..|a| - 1], b[..|b| - 1], i);
    }
  }

  lemma {:induction false} LiveExists(s: seq<Task>)
    ensures LiveCount(s) > 0 <==> exists i :: 0 <= i < |s| && Live(s[i])
  {
    if s != [] {
      var front := s[..|s| - 1];
      LiveExists(front);
      if LiveCount(front) > 0 {
        var i :| 0 <= i < |front| && Live(front[i]);
        assert Live(s[i]);
      } else if exists i :: 0 <= i < |s| && Live(s[i]) {
        var i :| 0 <= i < |s| && Live(s[i]);
        assert i < |front| ==> Live(front[i]);
      }
    }
  }

  // ----- selection -----

  /** How many steps the rotation takes from one index to the next occurrence of another: 1 to n. */
  function Distance(n: nat, from: nat, to: nat): nat
    requires from < n && to < n
  {
    if to > from then to - from else to + n - from
  }

  /** `k` is no worse than `j`: more urgent, or as urgent and reached no later. */
  predicate Beats(s: seq<Task>, from: nat, k: nat, j: nat)
    requires from < |s| && k < |s| && j < |s|
  {
    s[k].priority < s[j].priority || (s[k].priority == s[j].priority && Distance(|s|, from, k) <= Distance(|s|, from, j))
  }

  /** The choice: ready, of the most urgent priority among the ready ones, the first of those in rotation. */
  predicate Chosen(s: seq<Task>, from: nat, k: nat)
    requires from < |s|
  {
    k < |s| && s[k].state == Ready && forall j :: 0 <= j < |s| && s[j].state == Ready ==> Beats(s, from, k, j)
  }

  lemma ChoiceIsUnique(s: seq<Task>, from: nat, k: nat, m: nat)
    requires from < |s| && Chosen(s, from, k) && Chosen(s, from, m)
    ensures k == m
  {
    assert Beats(s, from, k, m) && Beats(s, from, m, k);
  }

  /** A task that loses a dispatch to one no more urgent is closer to its turn afterwards. */
  lemma CloserToTurn(s: seq<Task>, from: nat, chosen: nat, t: nat)
    requires from < |s| && chosen < |s| && t < |s| && chosen != t
    requires Beats(s, from, chosen, t) && s[t].priority <= s[chosen].priority
    ensures Distance(|s|, chosen, t) < Distance(|s|, from, t)
  {
  }

  // ----- events -----

  /** What a task gets from a signal. */
  function Matched(t: Task, events: Mask): Mask {
    if t.state == Blocked then t.wait * events else {}
  }

  /** A signal of these events wakes a task like this. */
  predicate Awaits(t: Task, events: Mask) {
    t.state == Blocked && t.wait * events != {}
  }

  function AfterSignal(t: Task, events: Mask): Task {
    var m := Matched(t, events);
    if m == {} then t else t.(state := Ready, wait := {}, wake := m, deadline := 0, timed := false, result := m)
  }

  /** The bits that found a waiter. */
  function Consumed(s: seq<Task>, events: Mask): Mask {
    if s == [] then {} else Consumed(s[..|s| - 1], events) + Matched(s[|s| - 1], events)
  }

  /** A bit is consumed exactly when some task blocked at the time was waiting for it. */
  lemma {:induction false} ConsumedByWaiters(s: seq<Task>, events: Mask, bit: nat)
    ensures bit in Consumed(s, events) <==> exists i :: 0 <= i < |s| && bit in Matched(s[i], events)
  {
    if s != [] {
      var front := s[..|s| - 1];
      ConsumedByWaiters(front, events, bit);
      if bit in Consumed(front, events) {
        var i :| 0 <= i < |front| && bit in Matched(front[i], events);
        assert bit in Matched(s[i], events);
      } else if exists i :: 0 <= i < |s| && bit in Matched(s[i], events) {
        var i :| 0 <= i < |s| && bit in Matched(s[i], events);
        assert i < |front| ==> bit in Matched(front[i], events);
      }
    }
  }

  // ----- deadlines -----

  predicate TimeReached(now: u32, deadline: u32) {
    (now as int - deadline as int) % WORD < HALF
  }

  /** The signed comparison of wrapped times is the comparison of the times themselves, as long as they are close. */
  lemma WrapSafe(time: nat, due: nat)
    requires due - HALF <= time < due + HALF
    ensures TimeReached(time % WORD, due % WORD) <==> time >= due
  {
    var a, b := time / WORD, due / WORD;
    var d := time % WORD - due % WORD;
    assert d == (time - due) + WORD * (b - a);
    if time >= due {
      WordRemainder(d, b - a, time - due);
    } else {
      WordRemainder(d, b - a - 1, time - due + WORD);
    }
  }

  /** A tick finds that a reached deadline lies behind by less than half the range, or not at all. */
  lemma LateTickIsMissed(due: nat)
    ensures !TimeReached((due + HALF) % WORD, due % WORD)
  {
    var d := (due + HALF) % WORD - due % WORD;
    assert d == HALF + WORD * (due / WORD - (due + HALF) / WORD);
    WordRemainder(d, due / WORD - (due + HALF) / WORD, HALF);
  }

  /** What a reached deadline makes of a task: 1 after a sleep, 0 after a wait for events. */
  function Woken(t: Task): Task {
    t.(state := Ready, wait := {}, wake := {}, deadline := 0, timed := false, result := if t.wait == {} then {0} else {})
  }

  function AfterTick(t: Task, now: u32): Task {
    if t.state == Blocked && t.timed && TimeReached(now, t.deadline) then Woken(t) else t
  }

  /** The same with the times themselves. */
  function AtTime(t: Task, time: nat, due: nat): Task {
    if t.state == Blocked && t.timed && time >= due then Woken(t) else t
  }
}
