// kernel/task.c, drivers/timer.c and the kill command: the code over the static
// task table. switch_context is control passing to the current task.
module Scheduler {
  import opened Machine
  import opened Tasks

  class Kernel {
    const state: array<TaskState>
    const wakeTick: array<Word>
    var currentTask: nat
    var taskCount: int
    var tickCount: Word
    var preemptEnabled: bool

    ghost predicate Valid()
      reads this
    {
      state.Length == wakeTick.Length == MAX_TASKS && currentTask < MAX_TASKS && state as object != wakeTick
    }

    ghost function Value(): (s: Sys)
      requires Valid()
      reads this, state, wakeTick
      ensures Shape(s)
    {
      Sys(state[..], wakeTick[..], currentTask, taskCount, tickCount, preemptEnabled)
    }

    // task_init
    constructor ()
      ensures Valid() && Value() == Initial() && fresh(state) && fresh(wakeTick)
    {
      state := new TaskState[MAX_TASKS](i => if i == 0 then Running else Unused);
      wakeTick := new Word[MAX_TASKS](_ => 0);
      currentTask, taskCount, tickCount, preemptEnabled := 0, 1, 0, false;
    }

    method FindNextTask() returns (next: nat)
      requires Valid()
      modifies state
      ensures Value() == WakeExpired(old(Value()))
      ensures next == FindNext(Value())
    {
      for i := 0 to MAX_TASKS
        invariant forall j :: 0 <= j < MAX_TASKS ==>
          state[j] == if j < i && Expired(old(Value()), j) then Ready else old(state[j])
      {
        if state[i] == Sleeping && tickCount >= wakeTick[i] {
          state[i] := Ready;
        }
      }
      assert state[..] == WakeExpired(old(Value())).st;
      for i := 1 to MAX_TASKS + 1
        invariant ReadyOffset(state[..], currentTask, 1) == ReadyOffset(state[..], currentTask, i)
        invariant Value() == WakeExpired(old(Value()))
      {
        var idx := (currentTask + i) % MAX_TASKS;
        if state[idx] == Ready {
          return idx;
        }
      }
      if state[currentTask] == Running {
        return currentTask;
      }
      return 0;
    }

    method TaskSchedule()
      requires Valid()
      modifies this`currentTask, state
      ensures Valid() && Value() == Schedule(old(Value()))
    {
      var next := FindNextTask();
      if next == currentTask && state[currentTask] == Running {
        return;
      }
      var previous := currentTask;
      if state[previous] == Running {
        state[previous] := Ready;
      }
      currentTask := next;
      state[next] := Running;
    }

    method TaskCreate() returns (slot: int)
      requires Valid()
      modifies this`taskCount, state, wakeTick
      ensures Valid() && Value() == CreateTask(old(Value()))
      ensures var k := FreeSlot(old(state[..]), 0); slot == if k < MAX_TASKS then k else -1
      ensures slot == -1 <==> forall j :: 0 <= j < 16 ==> old(state[j]) != Unused
      ensures slot != -1 ==>
        && 0 <= slot < 16 && old(state[slot]) == Unused && (forall j :: 0 <= j < slot ==> old(state[j]) != Unused)
        && state[slot] == Ready && taskCount == old(taskCount) + 1
    {
      slot := -1;
      for i := 0 to MAX_TASKS
        invariant slot == -1 && FreeSlot(state[..], 0) == FreeSlot(state[..], i)
        invariant forall j :: 0 <= j < i ==> state[j] != Unused
      {
        if state[i] == Unused {
          slot := i;
          break;
        }
      }
      if slot < 0 { return -1; }
      wakeTick[slot] := 0;
      state[slot] := Ready;
      taskCount := taskCount + 1;
    }

    method TaskYield()
      requires Valid()
      modifies this`currentTask, state
      ensures Valid() && Value() == Schedule(old(Value()))
    {
      TaskSchedule();
    }

    method TaskExit()
      requires Valid()
      modifies this`currentTask, this`taskCount, state
      ensures Valid() && Value() == ExitTask(old(Value()))
    {
      state[currentTask] := Dead;
      taskCount := taskCount - 1;
      TaskSchedule();
    }

    method TaskSleepTicks(ticks: Word)
      requires Valid()
      modifies this`currentTask, state, wakeTick
      ensures Valid() && Value() == SleepTask(old(Value()), ticks)
    {
      state[currentTask] := Sleeping;
      wakeTick[currentTask] := (tickCount + ticks) % TWO_32;
      TaskSchedule();
    }

    // The table update of cmd_kill; id is the number it has parsed.
    method Kill(id: nat) returns (killed: bool)
      requires Valid()
      modifies state
      ensures Valid() && Value() == KillTask(old(Value()), id)
      ensures killed <==> Killable(old(Value()), id)
    {
      if id == 0 { return false; }
      if id >= MAX_TASKS || state[id] == Unused || state[id] == Dead { return false; }
      state[id] := Dead;
      return true;
    }

    method TimerCallback()
      requires Valid()
      modifies this`tickCount, this`currentTask, state
      ensures Valid() && Value() == TimerTick(old(Value()))
    {
      tickCount := (tickCount + 1) % TWO_32;
      if preemptEnabled && tickCount % 5 == 0 {
        TaskSchedule();
      }
    }
  }
}
