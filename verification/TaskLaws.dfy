// Scheduling over whole runs: safety, accounting and bounded fairness.
module TaskLaws {
  import opened Machine
  import opened Tasks

  ghost predicate LegalRun(s: Sys, events: seq<Event>)
    decreases |events|
  {
    events == [] || (Shape(s) && Legal(s, events[0]) && LegalRun(Step(s, events[0]), events[1..]))
  }

  ghost function Run(s: Sys, events: seq<Event>): Sys
    requires LegalRun(s, events)
    decreases |events|
  {
    if events == [] then s else Run(Step(s, events[0]), events[1..])
  }

  ghost predicate Reachable(s: Sys) {
    exists events: seq<Event> :: LegalRun(Initial(), events) && Run(Initial(), events) == s
  }

  lemma {:induction false} RunInv(s: Sys, events: seq<Event>)
    requires Inv(s) && LegalRun(s, events)
    ensures Inv(Run(s, events))
    decreases |events|
  {
    if events != [] {
      StepInv(s, events[0]);
      RunInv(Step(s, events[0]), events[1..]);
    }
  }

  // In every reachable state task 0 can run, nothing but the current task is
  // running, and task_schedule makes exactly the current task running.
  lemma ReachableIsSafe(s: Sys)
    requires Reachable(s)
    ensures Inv(s)
    ensures forall i :: 0 <= i < MAX_TASKS ==> (Schedule(s).st[i] == Running <==> i == Schedule(s).cur)
    ensures s.st[Schedule(s).cur] == Ready || s.st[Schedule(s).cur] == Running || Expired(s, Schedule(s).cur)
  {
    var events: seq<Event> :| LegalRun(Initial(), events) && Run(Initial(), events) == s;
    RunInv(Initial(), events);
    ScheduleLaw(s);
  }

  // -- what happens to one slot ----------------------------------------------------

  // How one call of task_schedule changes slot i.
  lemma ScheduleSlot(s: Sys, i: nat)
    requires Schedulable(s) && i < MAX_TASKS
    ensures var t := Schedule(s);
      && t.wake == s.wake && t.tick == s.tick && t.count == s.count && t.preempt == s.preempt
      && (s.st[i] == Unused || s.st[i] == Dead ==> t.st[i] == s.st[i])
      && (s.st[i] != Unused && s.st[i] != Dead ==> t.st[i] != Unused && t.st[i] != Dead)
      && (s.st[i] == Sleeping && !Expired(s, i) ==> t.st[i] == Sleeping)
      && (t.st[i] == Running <==> i == t.cur)
  {
    hide ReadyOffset;
    ScheduleLaw(s);
  }

  // A slot once used is never unused again, and a dead task that is not current
  // is neither current nor alive ever after.
  lemma {:induction false} RunKeepsSlot(s: Sys, events: seq<Event>, i: nat)
    requires Inv(s) && LegalRun(s, events) && i < MAX_TASKS
    ensures var t := Run(s, events);
      && Inv(t)
      && (s.st[i] != Unused ==> t.st[i] != Unused)
      && (s.st[i] == Dead && i != s.cur ==> t.st[i] == Dead && i != t.cur)
    decreases |events|
  {
    if events != [] {
      StepInv(s, events[0]);
      StepKeepsSlot(s, events[0], i);
      RunKeepsSlot(Step(s, events[0]), events[1..], i);
    }
  }

  // The state task_schedule starts from in each step that calls it.
  function BeforeSchedule(s: Sys, e: Event): Sys
    requires Shape(s)
  {
    match e
    case Exit => s.(st := s.st[s.cur := Dead], count := s.count - 1)
    case Sleep(n) => s.(st := s.st[s.cur := Sleeping], wake := s.wake[s.cur := (s.tick + n) % TWO_32])
    case Tick => s.(tick := (s.tick + 1) % TWO_32)
    case _ => s
  }

  // Whether a step calls task_schedule.
  predicate Schedules(s: Sys, e: Event) {
    e.Yield? || e.Exit? || e.Sleep? || (e.Tick? && s.preempt && (s.tick + 1) % TWO_32 % 5 == 0)
  }

  lemma StepIsSchedule(s: Sys, e: Event)
    requires Inv(s) && Legal(s, e) && Schedules(s, e)
    ensures Schedulable(BeforeSchedule(s, e)) && Step(s, e) == Schedule(BeforeSchedule(s, e))
  {
    hide Schedule;
  }

  lemma StepKeepsSlot(s: Sys, e: Event, i: nat)
    requires Inv(s) && Legal(s, e) && i < MAX_TASKS
    ensures var t := Step(s, e);
      && (s.st[i] != Unused ==> t.st[i] != Unused)
      && (s.st[i] == Dead && i != s.cur ==> t.st[i] == Dead && i != t.cur)
      && (s.st[i] == Sleeping && t.tick < s.wake[i] ==>
        t.wake[i] == s.wake[i] && (t.st[i] == Sleeping || (t.st[i] == Dead && i != t.cur)))
  {
    hide Schedule;
    if Schedules(s, e) {
      StepIsSchedule(s, e);
      ScheduleSlot(BeforeSchedule(s, e), i);
    }
  }

  // -- tasks that are killed while current -------------------------------------------

  // A dead task stays dead in a step unless it is current and goes to sleep.
  lemma StepKeepsDead(s: Sys, e: Event, i: nat)
    requires Inv(s) && Legal(s, e) && i < MAX_TASKS && s.st[i] == Dead
    ensures Step(s, e).st[i] == Dead <==> !(e.Sleep? && i == s.cur)
  {
    hide Schedule;
    if Schedules(s, e) {
      StepIsSchedule(s, e);
      ScheduleSlot(BeforeSchedule(s, e), i);
    }
  }

  ghost predicate StaysDead(s: Sys, events: seq<Event>, i: nat)
    requires LegalRun(s, events) && |s.st| == MAX_TASKS && i < MAX_TASKS
    decreases |events|
  {
    s.st[i] == Dead && (events == [] || (Shape(Step(s, events[0])) && StaysDead(Step(s, events[0]), events[1..], i)))
  }

  // Some step of the run puts task i to sleep while it is current.
  ghost predicate FallsAsleep(s: Sys, events: seq<Event>, i: nat)
    requires LegalRun(s, events)
    decreases |events|
  {
    events != []
    && ((events[0].Sleep? && s.cur == i) || FallsAsleep(Step(s, events[0]), events[1..], i))
  }

  // Over every run a dead task stays dead exactly when it does not go to sleep
  // while it is still current.
  lemma {:induction false} DeadStaysDeadUnlessAsleep(s: Sys, events: seq<Event>, i: nat)
    requires Inv(s) && LegalRun(s, events) && i < MAX_TASKS && s.st[i] == Dead
    ensures StaysDead(s, events, i) <==> !FallsAsleep(s, events, i)
    decreases |events|
  {
    hide Step;
    if events != [] {
      StepInv(s, events[0]);
      StepKeepsDead(s, events[0], i);
      if !(events[0].Sleep? && s.cur == i) {
        DeadStaysDeadUnlessAsleep(Step(s, events[0]), events[1..], i);
      }
    }
  }

  // The current task, killed and then asking to sleep, is alive again.
  lemma KilledSleeperRevives(s: Sys, n: Word)
    requires Inv(s) && s.cur != 0 && s.st[s.cur] == Running
    ensures var t := Step(s, Kill(s.cur)); t.st[s.cur] == Dead && t.cur == s.cur && Legal(t, Sleep(n))
    ensures IsLive(Step(Step(s, Kill(s.cur)), Sleep(n)).st[s.cur])
  {
    hide Schedule;
    var t := Step(s, Kill(s.cur));
    StepInv(s, Kill(s.cur));
    StepIsSchedule(t, Sleep(n));
    ScheduleSlot(BeforeSchedule(t, Sleep(n)), s.cur);
  }

  // -- sleeping ----------------------------------------------------------------

  function Ticks(events: seq<Event>): nat {
    if events == [] then 0 else (if events[0].Tick? then 1 else 0) + Ticks(events[1..])
  }

  // Without wraparound of the tick counter a sleeper stays asleep, or is killed,
  // until its wake tick.
  lemma {:induction false} SleepsUntilWakeTick(s: Sys, events: seq<Event>, i: nat)
    requires Inv(s) && LegalRun(s, events) && i < MAX_TASKS
    requires s.st[i] == Sleeping || (s.st[i] == Dead && i != s.cur)
    requires s.tick + Ticks(events) < s.wake[i]
    ensures var t := Run(s, events);
      Inv(t) && t.tick == s.tick + Ticks(events) && i != t.cur && (t.st[i] == Sleeping || t.st[i] == Dead)
    decreases |events|
  {
    hide Step;
    if events != [] {
      var t := Step(s, events[0]);
      StepInv(s, events[0]);
      StepTick(s, events[0]);
      StepKeepsSlot(s, events[0], i);
      if s.st[i] == Dead { DeadKeepsWake(s, events[0], i); }
      SleepsUntilWakeTick(t, events[1..], i);
    }
  }

  lemma StepTick(s: Sys, e: Event)
    requires Inv(s) && Legal(s, e)
    ensures Step(s, e).tick == if e.Tick? then (s.tick + 1) % TWO_32 else s.tick
  {
    hide Schedule;
    if Schedules(s, e) {
      StepIsSchedule(s, e);
      ScheduleSlot(BeforeSchedule(s, e), 0);
    }
  }

  lemma DeadKeepsWake(s: Sys, e: Event, i: nat)
    requires Inv(s) && Legal(s, e) && i < MAX_TASKS && s.st[i] == Dead && i != s.cur
    ensures Step(s, e).wake[i] == s.wake[i]
  {
    hide Schedule;
    if Schedules(s, e) {
      StepIsSchedule(s, e);
      ScheduleSlot(BeforeSchedule(s, e), i);
    }
  }

  // A task that asks to sleep for n > 0 ticks goes to sleep exactly when its wake
  // tick does not wrap around; otherwise the same call makes it ready again.
  lemma SleepTakesEffect(s: Sys, n: Word)
    requires Inv(s) && s.cur != 0 && n > 0
    ensures Step(s, Sleep(n)).st[s.cur] == Sleeping <==> s.tick + n < TWO_32
  {
    hide Schedule;
    var b := BeforeSchedule(s, Sleep(n));
    StepIsSchedule(s, Sleep(n));
    ScheduleSlot(b, s.cur);
    if s.tick + n >= TWO_32 {
      assert (s.tick + n) % TWO_32 == s.tick + n - TWO_32;
      WokenIsNotSleeping(b, s.cur);
    }
  }

  lemma WokenIsNotSleeping(s: Sys, i: nat)
    requires Schedulable(s) && i < MAX_TASKS && Expired(s, i)
    ensures Schedule(s).st[i] == Ready || Schedule(s).st[i] == Running
  {
    hide ReadyOffset;
  }

  // -- task_count_val ------------------------------------------------------------

  predicate IsLive(t: TaskState) { t != Unused && t != Dead }

  function LiveCount(st: seq<TaskState>): nat {
    if st == [] then 0 else (if IsLive(st[0]) then 1 else 0) + LiveCount(st[1..])
  }

  lemma {:induction false} LiveCountUpdate(st: seq<TaskState>, i: nat, x: TaskState)
    requires i < |st|
    ensures LiveCount(st[i := x]) ==
      LiveCount(st) + (if IsLive(x) then 1 else 0) - (if IsLive(st[i]) then 1 else 0)
  {
    if i > 0 {
      LiveCountUpdate(st[1..], i - 1, x);
      assert st[i := x][1..] == st[1..][i - 1 := x];
    } else {
      assert st[i := x][1..] == st[1..];
    }
  }

  lemma {:induction false} LiveCountSame(a: seq<TaskState>, b: seq<TaskState>)
    requires |a| == |b| && forall i :: 0 <= i < |a| ==> (IsLive(a[i]) <==> IsLive(b[i]))
    ensures LiveCount(a) == LiveCount(b)
  {
    if a != [] {
      LiveCountSame(a[1..], b[1..]);
    }
  }

  // How much task_count_val runs ahead of the live tasks after one more step: a
  // kill is not counted down, and a task killed while current is counted down
  // when it exits and counted again among the live when it sleeps.
  function Drift(s: Sys, e: Event): int
    requires Shape(s)
  {
    match e
    case Kill(id) => if Killable(s, id) then 1 else 0
    case Exit => if s.st[s.cur] == Dead then -1 else 0
    case Sleep(_) => if s.st[s.cur] == Dead then -1 else 0
    case _ => 0
  }

  lemma StepCount(s: Sys, e: Event)
    requires Inv(s) && Legal(s, e)
    ensures var t := Step(s, e);
      t.count - LiveCount(t.st) == s.count - LiveCount(s.st) + Drift(s, e)
  {
    hide Schedule, LiveCount;
    var b := BeforeSchedule(s, e);
    if Schedules(s, e) {
      StepIsSchedule(s, e);
      forall i: nat | i < MAX_TASKS ensures IsLive(Schedule(b).st[i]) <==> IsLive(b.st[i]) {
        ScheduleSlot(b, i);
      }
      ScheduleSlot(b, 0);
      LiveCountSame(Schedule(b).st, b.st);
    }
    match e {
      case Exit => LiveCountUpdate(s.st, s.cur, Dead);
      case Sleep(n) => LiveCountUpdate(s.st, s.cur, Sleeping);
      case Create =>
        var k := FreeSlot(s.st, 0);
        if k < MAX_TASKS { LiveCountUpdate(s.st, k, Ready); }
      case Kill(id) =>
        if id < MAX_TASKS { LiveCountUpdate(s.st, id, Dead); }
      case _ =>
    }
  }

  ghost function TotalDrift(s: Sys, events: seq<Event>): int
    requires LegalRun(s, events)
    decreases |events|
  {
    if events == [] then 0 else Drift(s, events[0]) + TotalDrift(Step(s, events[0]), events[1..])
  }

  // task_count_val is the number of live tasks plus the drift, over every run;
  // without kills the drift is zero.
  lemma {:induction false} CountIsLivePlusDrift(s: Sys, events: seq<Event>)
    requires Inv(s) && LegalRun(s, events)
    ensures var t := Run(s, events);
      t.count - LiveCount(t.st) == s.count - LiveCount(s.st) + TotalDrift(s, events)
    ensures (forall e :: e in events ==> !e.Kill?) && s.st[s.cur] == Running ==> TotalDrift(s, events) == 0
    decreases |events|
  {
    if events != [] {
      var e, t := events[0], Step(s, events[0]);
      StepInv(s, e);
      StepCount(s, e);
      CountIsLivePlusDrift(t, events[1..]);
      if (forall e :: e in events ==> !e.Kill?) && s.st[s.cur] == Running {
        assert e in events && forall x :: x in events[1..] ==> x in events;
        CurrentKeepsRunning(s, e);
      }
    }
  }

  lemma CurrentKeepsRunning(s: Sys, e: Event)
    requires Inv(s) && Legal(s, e) && !e.Kill? && s.st[s.cur] == Running
    ensures Step(s, e).st[Step(s, e).cur] == Running
  {
    hide Schedule;
    if Schedules(s, e) {
      StepIsSchedule(s, e);
      ScheduleLaw(BeforeSchedule(s, e));
    }
  }

  // From boot, without kills, task_count is the number of live tasks.
  lemma KillFreeCountIsExact(events: seq<Event>)
    requires LegalRun(Initial(), events) && forall e :: e in events ==> !e.Kill?
    ensures Run(Initial(), events).count == LiveCount(Run(Initial(), events).st)
  {
    hide Step, LegalRun, Run, TotalDrift;
    hide LiveCount, Initial;
    InitialCount();
    CountIsLivePlusDrift(Initial(), events);
  }

  lemma InitialCount()
    ensures var s := Initial(); Inv(s) && s.st[s.cur] == Running && s.count == LiveCount(s.st)
  {
    hide LiveCount;
    var none := seq(MAX_TASKS, i => Unused);
    assert Initial().st == none[0 := Running];
    LiveCountUpdate(none, 0, Running);
    NoneLive(none);
  }

  lemma {:induction false} NoneLive(st: seq<TaskState>)
    requires forall i :: 0 <= i < |st| ==> !IsLive(st[i])
    ensures LiveCount(st) == 0
  {
    if st != [] {
      NoneLive(st[1..]);
    }
  }
}
