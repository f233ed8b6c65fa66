// Round-robin fairness: how long a task that can run waits for its turn.
module Fairness {
  import opened Machine
  import opened Tasks
  import opened TaskLaws

  // Slots from the current task to slot i, going up cyclically.
  function Distance(cur: nat, i: nat): (d: nat)
    requires cur < MAX_TASKS && i < MAX_TASKS
    ensures d < MAX_TASKS && (d == 0 <==> i == cur)
    ensures Slot(cur, d) == i
  {
    if i >= cur then i - cur else i + MAX_TASKS - cur
  }

  lemma DistanceAfter(cur: nat, k: nat, i: nat)
    requires cur < MAX_TASKS && i < MAX_TASKS && i != cur && 1 <= k <= Distance(cur, i)
    ensures Distance(Slot(cur, k), i) == Distance(cur, i) - k
  {
  }

  // Task i is waiting for its turn: ready, or asleep past its wake tick.
  predicate Waiting(s: Sys, i: nat)
    requires |s.st| == |s.wake| == MAX_TASKS && i < MAX_TASKS
  {
    s.st[i] == Ready || Expired(s, i)
  }

  // One call of task_schedule brings a waiting task nearer, or runs it.
  lemma ScheduleBringsNearer(s: Sys, i: nat)
    requires Schedulable(s) && i < MAX_TASKS && i != s.cur && Waiting(s, i)
    ensures var t := Schedule(s);
      Distance(t.cur, i) < Distance(s.cur, i) && (if i == t.cur then t.st[i] == Running else t.st[i] == Ready)
  {
    var w := WakeExpired(s);
    var d := Distance(s.cur, i);
    assert w.st[Slot(w.cur, d)] == Ready;
    var k := ReadyOffset(w.st, w.cur, 1);
    assert k <= d;
    DistanceAfter(s.cur, k, i);
  }

  // How often the steps call task_schedule.
  ghost function Calls(s: Sys, events: seq<Event>): nat
    requires LegalRun(s, events)
    decreases |events|
  {
    if events == [] then 0
    else (if Schedules(s, events[0]) then 1 else 0) + Calls(Step(s, events[0]), events[1..])
  }

  // Task i is the running task after some prefix of the steps.
  ghost predicate GetsToRun(s: Sys, events: seq<Event>, i: nat)
    requires LegalRun(s, events) && i < MAX_TASKS
    decreases |events|
  {
    (Shape(s) && s.cur == i && s.st[i] == Running) || (events != [] && GetsToRun(Step(s, events[0]), events[1..], i))
  }

  // The tick counter does not wrap around before the first step that calls
  // task_schedule, that step included.
  ghost predicate NoWrapBeforeCall(s: Sys, events: seq<Event>)
    requires LegalRun(s, events)
    decreases |events|
  {
    events == []
    || ((events[0].Tick? ==> s.tick + 1 < TWO_32)
        && (Schedules(s, events[0]) || NoWrapBeforeCall(Step(s, events[0]), events[1..])))
  }

  // The next call of task_schedule will find task i waiting.
  ghost predicate WaitsForCall(s: Sys, events: seq<Event>, i: nat)
    requires LegalRun(s, events) && |s.st| == |s.wake| == MAX_TASKS && i < MAX_TASKS
  {
    s.st[i] == Ready || (Expired(s, i) && NoWrapBeforeCall(s, events))
  }

  lemma StepBringsNearer(s: Sys, e: Event, i: nat)
    requires Inv(s) && Legal(s, e) && e != Kill(i) && i < MAX_TASKS && i != s.cur
    requires s.st[i] == Ready || (Expired(s, i) && (e.Tick? ==> s.tick + 1 < TWO_32))
    ensures var t := Step(s, e);
      && Inv(t)
      && Distance(t.cur, i) <= Distance(s.cur, i) - (if Schedules(s, e) then 1 else 0)
      && (if i == t.cur then t.st[i] == Running
          else t.st[i] == Ready || (!Schedules(s, e) && s.st[i] == Sleeping && Expired(t, i)))
  {
    StepInv(s, e);
    if Schedules(s, e) {
      hide Schedule;
      StepIsSchedule(s, e);
      ScheduleBringsNearer(BeforeSchedule(s, e), i);
    }
  }

  // A waiting task that is not killed runs before task_schedule has been called
  // as often as it is away from the current task, whatever else happens.
  lemma {:induction false} RunsWithinDistance(s: Sys, events: seq<Event>, i: nat)
    requires Inv(s) && LegalRun(s, events) && i < MAX_TASKS && i != s.cur && WaitsForCall(s, events, i)
    requires Kill(i) !in events
    requires Calls(s, events) >= Distance(s.cur, i)
    ensures GetsToRun(s, events, i)
    decreases |events|
  {
    hide Step, Schedules;
    var e, t := events[0], Step(s, events[0]);
    StepBringsNearer(s, e, i);
    if i != t.cur {
      RunsWithinDistance(t, events[1..], i);
    }
  }

  // Fifteen calls are always enough.
  lemma RunsWithinFifteenCalls(s: Sys, events: seq<Event>, i: nat)
    requires Inv(s) && LegalRun(s, events) && i < MAX_TASKS && i != s.cur && WaitsForCall(s, events, i)
    requires Kill(i) !in events
    requires Calls(s, events) >= 15
    ensures GetsToRun(s, events, i)
  {
    RunsWithinDistance(s, events, i);
  }

  // With preemption on, at least every fifth tick calls task_schedule.
  lemma {:induction false} TicksForceCalls(s: Sys, events: seq<Event>)
    requires Inv(s) && LegalRun(s, events) && s.preempt
    requires SetPreempt(false) !in events
    ensures 5 * Calls(s, events) + 4 >= Ticks(events) + s.tick % 5
    decreases |events|
  {
    if events != [] {
      var e, t := events[0], Step(s, events[0]);
      StepInv(s, e);
      StepTick(s, e);
      StepPreempt(s, e);
      TicksForceCalls(t, events[1..]);
      if e.Tick? { NextTick(s.tick); }
    }
  }

  lemma NextTick(tick: Word)
    ensures var n := (tick + 1) % TWO_32;
      if n % 5 == 0 then tick % 5 + 1 <= 5 else n % 5 == tick % 5 + 1
  {
  }

  lemma StepPreempt(s: Sys, e: Event)
    requires Inv(s) && Legal(s, e) && s.preempt && e != SetPreempt(false)
    ensures Step(s, e).preempt
  {
    hide Schedule;
    if Schedules(s, e) {
      StepIsSchedule(s, e);
      ScheduleSlot(BeforeSchedule(s, e), 0);
    }
  }

  // With preemption on, the last tick before the wrap calls task_schedule.
  lemma {:induction false} PreemptCallsBeforeWrap(s: Sys, events: seq<Event>)
    requires Inv(s) && LegalRun(s, events) && s.preempt && SetPreempt(false) !in events
    requires s.tick + 1 < TWO_32
    ensures NoWrapBeforeCall(s, events)
    decreases |events|
  {
    if events != [] {
      var e, t := events[0], Step(s, events[0]);
      if !Schedules(s, e) {
        StepInv(s, e);
        StepTick(s, e);
        StepPreempt(s, e);
        hide Step;
        PreemptCallsBeforeWrap(t, events[1..]);
      }
    }
  }

  // With preemption on, a ready task that is not killed runs within 75 ticks; so
  // does a sleeper whose wake tick has come, unless the counter is about to wrap.
  lemma RunsWithin75Ticks(s: Sys, events: seq<Event>, i: nat)
    requires Inv(s) && LegalRun(s, events) && i < MAX_TASKS && i != s.cur
    requires s.st[i] == Ready || (Expired(s, i) && s.tick + 1 < TWO_32)
    requires s.preempt && SetPreempt(false) !in events && Kill(i) !in events
    requires Ticks(events) >= 75
    ensures GetsToRun(s, events, i)
  {
    TicksForceCalls(s, events);
    if s.st[i] != Ready { PreemptCallsBeforeWrap(s, events); }
    RunsWithinFifteenCalls(s, events, i);
  }

  // At the last tick before the wrap, a sleeper past its wake tick is passed over
  // by the next tick exactly when its wake tick is not 0: then it goes on sleeping.
  lemma WrapLosesSleeper(s: Sys, i: nat)
    requires Inv(s) && i < MAX_TASKS && s.preempt && Expired(s, i) && s.tick == TWO_32 - 1
    ensures var t := Step(s, Tick); t.st[i] == Sleeping && !Expired(t, i) <==> s.wake[i] != 0
  {
    hide Schedule;
    assert (s.tick + 1) % TWO_32 == 0;
    var b := BeforeSchedule(s, Tick);
    StepIsSchedule(s, Tick);
    ScheduleSlot(b, i);
    if s.wake[i] == 0 {
      WokenIsNotSleeping(b, i);
    }
  }

  // One step of a sleeper that is not killed before its wake tick.
  lemma SleeperStep(s: Sys, e: Event, i: nat)
    requires Inv(s) && Legal(s, e) && e != Kill(i) && i < MAX_TASKS && i != s.cur
    requires s.st[i] == Sleeping && s.tick < s.wake[i] && s.preempt
    ensures var t := Step(s, e);
      if t.tick < s.wake[i] then t.st[i] == Sleeping && t.wake[i] == s.wake[i] && i != t.cur
      else
        && t.tick == s.wake[i] == s.tick + 1 && e.Tick?
        && (if i == t.cur then t.st[i] == Running else t.st[i] == Ready || (Expired(t, i) && t.tick + 1 < TWO_32))
  {
    hide Schedule;
    StepTick(s, e);
    StepKeepsSlot(s, e, i);
    if Schedules(s, e) {
      var b := BeforeSchedule(s, e);
      StepIsSchedule(s, e);
      ScheduleSlot(b, i);
      if Expired(b, i) { WokenIsNotSleeping(b, i); }
    }
  }

  // With preemption on, a sleeper that is not killed runs within 75 ticks of its
  // wake tick, wherever the counter stands.
  lemma {:induction false} SleeperRunsAfterWakeTick(s: Sys, events: seq<Event>, i: nat)
    requires Inv(s) && LegalRun(s, events) && i < MAX_TASKS && i != s.cur
    requires s.st[i] == Sleeping && s.tick < s.wake[i]
    requires s.preempt && SetPreempt(false) !in events && Kill(i) !in events
    requires Ticks(events) >= s.wake[i] - s.tick + 75
    ensures GetsToRun(s, events, i)
    decreases |events|
  {
    hide Step;
    var e, t := events[0], Step(s, events[0]);
    StepInv(s, e);
    StepTick(s, e);
    StepPreempt(s, e);
    SleeperStep(s, e, i);
    if t.tick < s.wake[i] {
      SleeperRunsAfterWakeTick(t, events[1..], i);
    } else if i != t.cur {
      RunsWithin75Ticks(t, events[1..], i);
    }
  }
}
