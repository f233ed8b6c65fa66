// The task table of kernel/task.c as a value, and every step that changes it:
// the calls of task.c, the timer callback and the kill command of the shell.
module Tasks {
  import opened Machine

  const MAX_TASKS := 16

  datatype TaskState = Unused | Ready | Running | Sleeping | Dead

  datatype Sys = Sys(
    st: seq<TaskState>, wake: seq<Word>,  // tasks[i].state, tasks[i].wake_tick
    cur: nat, count: int,                 // current_task, task_count_val
    tick: Word, preempt: bool)            // tick_count, preempt_enabled

  datatype Event =
    | Create | Yield | Exit | Sleep(ticks: Word) | Kill(id: nat) | Tick | SetPreempt(on: bool)

  ghost predicate Shape(s: Sys) {
    |s.st| == |s.wake| == MAX_TASKS && s.cur < MAX_TASKS
  }

  // task_init, with the timer not yet running.
  function Initial(): Sys {
    Sys(seq(MAX_TASKS, i => if i == 0 then Running else Unused), seq(MAX_TASKS, i => 0), 0, 1, 0, false)
  }

  // -- task_schedule -----------------------------------------------------------

  predicate Expired(s: Sys, i: nat)
    requires |s.st| == |s.wake| == MAX_TASKS && i < MAX_TASKS
  {
    s.st[i] == Sleeping && s.tick >= s.wake[i]
  }

  // The first loop of find_next_task.
  function WakeExpired(s: Sys): Sys
    requires |s.st| == |s.wake| == MAX_TASKS
  {
    s.(st := seq(MAX_TASKS, i requires 0 <= i < MAX_TASKS => if Expired(s, i) then Ready else s.st[i]))
  }

  function Slot(cur: nat, i: nat): (j: nat)
    ensures j < MAX_TASKS
  {
    (cur + i) % MAX_TASKS
  }

  // The second loop, from offset i on: the offset of the first ready task, or 17.
  function ReadyOffset(st: seq<TaskState>, cur: nat, i: nat): (k: nat)
    requires |st| == MAX_TASKS && i <= MAX_TASKS + 1
    ensures i <= k <= MAX_TASKS + 1
    ensures k <= MAX_TASKS ==> st[Slot(cur, k)] == Ready
    ensures forall j :: i <= j < k ==> st[Slot(cur, j)] != Ready
    decreases MAX_TASKS + 1 - i, st
  {
    if i == MAX_TASKS + 1 || st[Slot(cur, i)] == Ready then i else ReadyOffset(st, cur, i + 1)
  }

  // What find_next_task returns once the expired sleepers are ready.
  function FindNext(s: Sys): (n: nat)
    requires Shape(s)
    ensures n < MAX_TASKS
  {
    var k := ReadyOffset(s.st, s.cur, 1);
    if k <= MAX_TASKS then Slot(s.cur, k)
    else if s.st[s.cur] == Running then s.cur
    else 0
  }

  function SwitchTo(s: Sys, n: nat): Sys
    requires Shape(s) && n < MAX_TASKS
  {
    if n == s.cur && s.st[s.cur] == Running then s
    else
      var st := if s.st[s.cur] == Running then s.st[s.cur := Ready] else s.st;
      s.(st := st[n := Running], cur := n)
  }

  function Schedule(s: Sys): (t: Sys)
    requires Shape(s)
    ensures Shape(t)
  {
    SwitchTo(WakeExpired(s), FindNext(WakeExpired(s)))
  }

  // -- the steps -----------------------------------------------------------------

  // The lowest unused slot from i on, or MAX_TASKS.
  function FreeSlot(st: seq<TaskState>, i: nat): (k: nat)
    requires |st| == MAX_TASKS && i <= MAX_TASKS
    ensures i <= k <= MAX_TASKS
    ensures k < MAX_TASKS ==> st[k] == Unused
    ensures forall j :: i <= j < k ==> st[j] != Unused
    decreases MAX_TASKS - i, st
  {
    if i == MAX_TASKS || st[i] == Unused then i else FreeSlot(st, i + 1)
  }

  function CreateTask(s: Sys): Sys
    requires Shape(s)
  {
    var k := FreeSlot(s.st, 0);
    if k == MAX_TASKS then s
    else s.(st := s.st[k := Ready], wake := s.wake[k := 0], count := s.count + 1)
  }

  function ExitTask(s: Sys): Sys
    requires Shape(s)
  {
    Schedule(s.(st := s.st[s.cur := Dead], count := s.count - 1))
  }

  function SleepTask(s: Sys, ticks: Word): Sys
    requires Shape(s)
  {
    Schedule(s.(st := s.st[s.cur := Sleeping], wake := s.wake[s.cur := (s.tick + ticks) % TWO_32]))
  }

  predicate Killable(s: Sys, id: nat)
    requires |s.st| == MAX_TASKS
  {
    0 < id < MAX_TASKS && s.st[id] != Unused && s.st[id] != Dead
  }

  function KillTask(s: Sys, id: nat): Sys
    requires Shape(s)
  {
    if Killable(s, id) then s.(st := s.st[id := Dead]) else s
  }

  function TimerTick(s: Sys): Sys
    requires Shape(s)
  {
    var t := s.(tick := (s.tick + 1) % TWO_32);
    if t.preempt && t.tick % 5 == 0 then Schedule(t) else t
  }

  function Step(s: Sys, e: Event): Sys
    requires Shape(s)
  {
    match e
    case Create => CreateTask(s)
    case Yield => Schedule(s)
    case Exit => ExitTask(s)
    case Sleep(n) => SleepTask(s, n)
    case Kill(id) => KillTask(s, id)
    case Tick => TimerTick(s)
    case SetPreempt(on) => s.(preempt := on)
  }

  // Task 0 is the idle loop: it neither exits nor sleeps.
  predicate Legal(s: Sys, e: Event) {
    (e.Exit? || e.Sleep? ==> s.cur != 0)
  }

  // -- the invariant -----------------------------------------------------------

  // Before task_schedule: task 0 can run, and at most the current task is running.
  ghost predicate Schedulable(s: Sys) {
    && Shape(s)
    && (s.st[0] == Ready || s.st[0] == Running) && (s.cur == 0 ==> s.st[0] == Running)
    && (forall i :: 0 <= i < MAX_TASKS && s.st[i] == Running ==> i == s.cur)
  }

  // Between steps: the current task runs, unless it has just been killed.
  ghost predicate Inv(s: Sys) {
    Schedulable(s) && (s.st[s.cur] == Running || s.st[s.cur] == Dead)
  }

  // After task_schedule exactly one task is running and it is the current one;
  // it was ready or running before, so the fallback to task 0 is never used.
  lemma ScheduleLaw(s: Sys)
    requires Schedulable(s)
    ensures var t := Schedule(s);
      && Inv(t)
      && (forall i :: 0 <= i < MAX_TASKS ==> (t.st[i] == Running <==> i == t.cur))
      && (s.st[t.cur] == Ready || s.st[t.cur] == Running || Expired(s, t.cur))
    ensures var w := WakeExpired(s);
      ReadyOffset(w.st, w.cur, 1) <= MAX_TASKS || w.st[w.cur] == Running
  {
    var w := WakeExpired(s);
    if w.st[w.cur] != Running {
      ZeroIsAhead(w.cur);
    }
  }

  lemma ZeroIsAhead(cur: nat)
    requires 0 < cur < MAX_TASKS
    ensures Slot(cur, MAX_TASKS - cur) == 0 && 1 <= MAX_TASKS - cur <= MAX_TASKS
  {
  }

  lemma BlockedIsSchedulable(s: Sys, x: TaskState)
    requires Inv(s) && s.cur != 0 && x != Running
    ensures Schedulable(s.(st := s.st[s.cur := x]))
  {
  }

  lemma CreateInv(s: Sys)
    requires Inv(s)
    ensures Inv(CreateTask(s))
  {
  }

  lemma KillInv(s: Sys, id: nat)
    requires Inv(s)
    ensures Inv(KillTask(s, id))
  {
  }

  lemma StepInv(s: Sys, e: Event)
    requires Inv(s) && Legal(s, e)
    ensures Inv(Step(s, e))
  {
    hide Schedule, CreateTask, KillTask;
    match e {
      case Create => CreateInv(s);
      case Yield => ScheduleLaw(s);
      case Exit =>
        BlockedIsSchedulable(s, Dead);
        ScheduleLaw(s.(st := s.st[s.cur := Dead], count := s.count - 1));
      case Sleep(n) =>
        BlockedIsSchedulable(s, Sleeping);
        ScheduleLaw(s.(st := s.st[s.cur := Sleeping], wake := s.wake[s.cur := (s.tick + n) % TWO_32]));
      case Kill(id) => KillInv(s, id);
      case Tick => ScheduleLaw(s.(tick := (s.tick + 1) % TWO_32));
      case SetPreempt(on) =>
    }
  }
}
