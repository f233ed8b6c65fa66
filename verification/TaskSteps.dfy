// What each step does to the task table, slot by slot.
module TaskSteps {
  import opened Machine
  import opened Tasks
  import opened TaskLaws

  // The table that task_init leaves.
  lemma InitialExactly()
    ensures var s := Initial();
      && |s.st| == |s.wake| == 16
      && (forall i: nat :: i < 16 ==> s.st[i] == (if i == 0 then Running else Unused) && s.wake[i] == 0)
      && s.cur == 0 && s.count == 1 && s.tick == 0 && !s.preempt
  {
  }

  // task_create gives the lowest unused slot to a ready task, and changes nothing
  // if there is none.
  lemma CreateExactly(s: Sys)
    requires Shape(s)
    ensures var t := Step(s, Create);
      && |t.st| == |t.wake| == 16
      && t.cur == s.cur && t.tick == s.tick && t.preempt == s.preempt
      && (forall k: nat :: k < 16 && s.st[k] == Unused && (forall j: nat :: j < k ==> s.st[j] != Unused) ==>
        && t.st == s.st[k := Ready] && t.wake == s.wake[k := 0] && t.count == s.count + 1)
      && ((forall j: nat :: j < 16 ==> s.st[j] != Unused) ==> t == s)
  {
    var f := FreeSlot(s.st, 0);
    if f < MAX_TASKS {
      assert s.st[f] == Unused;
    }
  }

  // task_schedule: expired sleepers and the task that was running become ready,
  // the next task runs, and nothing else changes.
  lemma ScheduleExactly(s: Sys)
    requires Schedulable(s)
    ensures Step(s, Yield) == Schedule(s)
    ensures var t := Schedule(s);
      && t == s.(st := t.st, cur := t.cur) && |t.st| == 16 && t.cur < 16
      && (forall i: nat :: i < 16 ==>
        t.st[i] ==
        if i == t.cur then Running
        else if s.st[i] == Running || (s.st[i] == Sleeping && s.tick >= s.wake[i]) then Ready
        else s.st[i])
  {
    hide ReadyOffset;
    ScheduleLaw(s);
  }

  // The task d slots after the current one, going up cyclically, is ready or an
  // expired sleeper.
  predicate CanRun(s: Sys, d: nat)
    requires |s.st| == |s.wake| == 16
  {
    var i := (s.cur + d) % 16;
    s.st[i] == Ready || (s.st[i] == Sleeping && s.tick >= s.wake[i])
  }

  // The first such task is d slots ahead; or there is none, and the current one,
  // 16 slots ahead of itself, goes on.
  ghost predicate NextAhead(s: Sys, d: nat)
    requires |s.st| == |s.wake| == 16 && s.cur < 16
  {
    && 1 <= d <= 16 && (forall e: nat :: 1 <= e < d ==> !CanRun(s, e))
    && (CanRun(s, d) || (d == 16 && s.st[s.cur] == Running))
  }

  lemma NextTaskExactly(s: Sys)
    requires Schedulable(s)
    ensures exists d: nat :: NextAhead(s, d) && Schedule(s).cur == (s.cur + d) % 16
  {
    hide ReadyOffset, WakeExpired, CanRun;
    ScheduleLaw(s);
    CanRunIsReady(s);
    var w := WakeExpired(s);
    var k := ReadyOffset(w.st, w.cur, 1);
    var d := if k <= 16 then k else 16;
    assert NextAhead(s, d) && Schedule(s).cur == (s.cur + d) % 16;
  }

  lemma CanRunIsReady(s: Sys)
    requires Shape(s)
    ensures var w := WakeExpired(s);
      && Shape(w) && w.cur == s.cur && w.st[s.cur] == (if Expired(s, s.cur) then Ready else s.st[s.cur])
      && forall d: nat :: CanRun(s, d) <==> w.st[Slot(w.cur, d)] == Ready
  {
  }

  // task_exit: the current task is dead, and the scheduler has run.
  lemma ExitExactly(s: Sys)
    requires Inv(s) && s.cur != 0
    ensures var t := Step(s, Exit);
      && t.st[s.cur] == Dead && t.count == s.count - 1 && t.cur != s.cur && t.wake == s.wake
      && Schedulable(s.(st := s.st[s.cur := Dead], count := s.count - 1))
      && t == Schedule(s.(st := s.st[s.cur := Dead], count := s.count - 1))
  {
    hide Schedule;
    var b := s.(st := s.st[s.cur := Dead], count := s.count - 1);
    BlockedIsSchedulable(s, Dead);
    ScheduleSlot(b, s.cur);
  }

  // task_sleep_ticks: the wake tick of the current task is the tick plus the
  // duration in 32 bits, the task sleeps, and the scheduler has run.
  lemma SleepExactly(s: Sys, n: Word)
    requires Inv(s) && s.cur != 0
    ensures var t := Step(s, Sleep(n));
      && (t.wake[s.cur] == s.tick + n || t.wake[s.cur] == s.tick + n - 0x1_0000_0000)
      && t.count == s.count && (forall i: nat :: i < 16 && i != s.cur ==> t.wake[i] == s.wake[i])
      && Schedulable(s.(st := s.st[s.cur := Sleeping], wake := t.wake))
      && t == Schedule(s.(st := s.st[s.cur := Sleeping], wake := t.wake))
  {
    hide Schedule;
    BlockedIsSchedulable(s, Sleeping);
    var b := s.(st := s.st[s.cur := Sleeping], wake := s.wake[s.cur := (s.tick + n) % TWO_32]);
    ScheduleSlot(b, s.cur);
  }

  // The kill command: a task other than task 0 that is used and not dead dies, and
  // nothing else changes; any other number is refused.
  lemma KillExactly(s: Sys, id: nat)
    requires Shape(s)
    ensures Step(s, Kill(id)) ==
      if 1 <= id <= 15 && s.st[id] != Unused && s.st[id] != Dead then s.(st := s.st[id := Dead]) else s
  {
  }

  // The timer: the tick counts up in 32 bits, and with preemption on every multiple
  // of five calls the scheduler.
  lemma TickExactly(s: Sys)
    requires Shape(s)
    ensures var next := if s.tick == 0xFFFF_FFFF then 0 else s.tick + 1;
      Step(s, Tick) ==
      if s.preempt && next % 5 == 0 then Schedule(s.(tick := next)) else s.(tick := next)
  {
    hide Schedule;
  }
}
