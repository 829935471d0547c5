/** src/scheduler/scheduler.c and src/lib/software_timer.c as they run: loops over the task array and the
    timer slots.  Each operation is one step of the transition system. */
module Scheduler {
  import opened Wrappers
  import opened SchedulerModel
  import opened SchedulerInvariant
  import SchedulerRuns
  import SchedulerEffects

  class Scheduler {
    /** `task_array[0 .. n_tasks]`; the entries after it are null. */
    var tasks: seq<Task>
    var current: nat
    const timer_arr: array<Timer>
    var current_tick: nat

    function View(): State
      reads this, timer_arr
    {
      State(tasks, current, timer_arr[..], current_tick)
    }

    constructor ()
      ensures View() == INITIAL && fresh(timer_arr) && Valid() && Inv(View())
    {
      tasks := [Task(RUNNING, 0, 1, 0)];
      current := 0;
      timer_arr := new Timer[N_TIMERS](_ => FREE_TIMER);
      current_tick := 0;
      new;
      InitialInv();
      assert View() == INITIAL;
    }

    /** `check_timers`. */
    method CheckTimers()
      requires timer_arr.Length == N_TIMERS
      requires forall i | 0 <= i < N_TIMERS && timer_arr[i].task.Some? :: timer_arr[i].task.value < |tasks|
      modifies this`tasks, timer_arr
      ensures View() == SchedulerModel.CheckTimers(old(View()))
    {
      ghost var s := View();
      var i := 0;
      while i < N_TIMERS
        invariant 0 <= i <= N_TIMERS && |tasks| == |s.tasks|
        invariant forall j | 0 <= j < N_TIMERS ::
          timer_arr[j] == if j < i && Expired(s.timers[j], s.tick) then FREE_TIMER else s.timers[j]
        invariant forall k: nat | k < |tasks| ::
          tasks[k] == if Wakes(s.timers[..i], s.tick, k) then s.tasks[k].(state := RUNNING) else s.tasks[k]
      {
        WakesOneMore(s.timers, s.tick, i);
        if timer_arr[i].task.Some? {
          if timer_arr[i].finish_time <= current_tick {
            var t := timer_arr[i].task.value;
            tasks := tasks[t := tasks[t].(state := RUNNING)];
            timer_arr[i] := FREE_TIMER;
          }
        }
        i := i + 1;
      }
      assert s.timers[..i] == s.timers;
      assert timer_arr[..] == SchedulerModel.CheckTimers(s).timers;
      assert tasks == SchedulerModel.CheckTimers(s).tasks;
    }

    /** One pass of the selection loop of `_schedule`. */
    method PickNext() returns (c: int, next: nat)
      requires current < N_TASKS
      ensures (c, next) == Pick(tasks, current)
    {
      c, next := -1, 0;
      var startIdx := current;
      var i := 0;
      while i < N_TASKS
        invariant 0 <= i <= N_TASKS
        invariant PickFrom(tasks, startIdx, i, c, next) == Pick(tasks, startIdx)
      {
        var k := (startIdx + i) % N_TASKS;
        if k < |tasks| && tasks[k].state == RUNNING && Low32(tasks[k].counter) > c {
          c := Low32(tasks[k].counter);
          next := (startIdx + i) % N_TASKS;
        }
        i := i + 1;
      }
    }

    /** The recharge loop of `_schedule`. */
    method RechargeAll()
      requires |tasks| <= N_TASKS
      modifies this`tasks
      ensures tasks == Recharge(old(tasks))
      ensures forall k | 0 <= k < |tasks| ::
        0 <= old(tasks)[k].counter - 2 * (tasks[k].counter - tasks[k].priority) <= 1
    {
      ghost var before := tasks;
      var i := 0;
      while i < N_TASKS
        invariant 0 <= i <= N_TASKS && |tasks| == |before|
        invariant forall k | 0 <= k < |tasks| :: tasks[k] == if k < i then Recharged(before[k]) else before[k]
      {
        if i < |tasks| {
          tasks := tasks[i := tasks[i].(counter := tasks[i].counter / 2 + tasks[i].priority)];
        }
        i := i + 1;
      }
    }

    /** The `for(;;)` of `_schedule`. */
    method SelectNext() returns (next: nat)
      requires current < N_TASKS && |tasks| <= N_TASKS && Hopeful(tasks)
      modifies this`tasks
      ensures (tasks, next) == Select(old(tasks), current)
    {
      ghost var before := tasks;
      while true
        invariant |tasks| <= N_TASKS && Hopeful(tasks) && Select(tasks, current) == Select(before, current)
        decreases Distance(tasks)
      {
        PickExhausted(tasks, current);
        var c;
        c, next := PickNext();
        if c > 0 {
          return;
        }
        RechargeProgress(tasks);
        RechargeAll();
      }
    }

    method PreemptDisable()
      requires current < |tasks|
      modifies this`tasks
      ensures var t := old(tasks)[current];
        tasks == old(tasks)[current := t.(preempt_count := t.preempt_count + 1)]
    {
      tasks := tasks[current := tasks[current].(preempt_count := tasks[current].preempt_count + 1)];
    }

    method PreemptEnable()
      requires current < |tasks|
      modifies this`tasks
      ensures var t := old(tasks)[current];
        tasks == old(tasks)[current := t.(preempt_count := t.preempt_count - 1)]
    {
      tasks := tasks[current := tasks[current].(preempt_count := tasks[current].preempt_count - 1)];
    }

    ghost predicate Valid()
      reads this, timer_arr
    {
      Shape(View()) && TimersInRange(View())
    }

    /** `_schedule`, up to the return in the task that it switches to. */
    method Schedule_()
      requires Valid()
      modifies this`tasks, this`current, timer_arr
      ensures View() == Decide(old(View()))
    {
      ghost var s := View();
      PreemptDisable();
      assert View() == Disabled(s);
      CheckTimers();
      assert View() == Woken(s);
      assert Hope(tasks, 0);
      var next := SelectNext();
      SwitchTo(next);
    }

    /** `switch_to`, and the enable in the task that resumes. */
    method SwitchTo(next: nat)
      requires next < |tasks|
      modifies this`tasks, this`current
      ensures View() == Switched(old(View()), old(tasks), next)
    {
      current := next;
      PreemptEnable();
    }

    /** `schedule`. */
    method Schedule()
      requires Valid()
      modifies this`tasks, this`current, timer_arr
      ensures View() == SchedulerModel.Schedule(old(View()))
    {
      tasks := tasks[current := tasks[current].(counter := 0)];
      Schedule_();
    }

    /** `scheduler_tick`. */
    method SchedulerTick()
      requires Valid()
      modifies this, timer_arr
      ensures View() == Step(old(View()), Tick) && Valid() && current_tick == old(current_tick) + 1
      ensures old(Inv(View())) ==> Inv(View())
    {
      ghost var s := View();
      StepStays(s, Tick);
      tasks := tasks[current := tasks[current].(counter := tasks[current].counter - 1)];
      current_tick := current_tick + 1;
      if tasks[current].counter > 0 || tasks[current].preempt_count > 0 {
        return;
      }
      tasks := tasks[current := tasks[current].(counter := 0)];
      assert View() == CounterZeroed(Ticked(s));
      Schedule_();
    }

    /** The idle loop of `main`, and every other voluntary `schedule`. */
    method YieldProcessor()
      requires Valid()
      modifies this`tasks, this`current, timer_arr
      ensures View() == Step(old(View()), Yield) && Valid()
      ensures old(Inv(View())) ==> Inv(View())
    {
      StepStays(View(), Yield);
      Schedule();
    }

    /** `kernel_fork`, with the page that the allocator gave for the new task, or 0; the result is its pid, or 255.
        Without a page the count that was taken stays taken. */
    method KernelFork(page: int) returns (pid: nat)
      requires Valid() && Enabled(View(), Fork)
      modifies this`tasks
      ensures View() == (if page != 0 then Step(old(View()), Fork) else FailedFork(old(View()))) && Valid()
      ensures page == 0 ==> pid == 0xFF
      ensures page != 0 ==>
        var p := old(tasks[current]).priority; pid == |old(tasks)| && tasks == old(tasks) + [Task(RUNNING, p, p, 1)]
      ensures old(Inv(View())) ==> (HandOff(View()) <==> page != 0) && (Inv(View()) <==> page != 0)
    {
      ghost var s := View();
      ForkStays(s, page);
      PreemptDisable();
      if page == 0 {
        return 0xFF;
      }
      var new_task := Task(RUNNING, tasks[current].priority, tasks[current].priority, 1);
      pid := |tasks|;
      tasks := tasks + [new_task];
      PreemptEnable();
      assert tasks == s.tasks + [new_task];
    }

    /** The current task goes to sleep in slot `i`. */
    method SetTimer(i: nat, delay_in_ms: nat)
      requires Valid() && i < N_TIMERS && current != 0
      modifies this`tasks, timer_arr
      ensures View() == Asleep(old(View()), i, delay_in_ms) && Valid()
    {
      timer_arr[i] := Timer(Unsigned32(current_tick + delay_in_ms / SOFTWARE_TIMER_PRESCALER), Some(current));
      tasks := tasks[current := tasks[current].(state := BLOCKED)];
    }

    /** `register_one_hit`. */
    method RegisterOneHit(delay_in_ms: nat)
      requires Valid() && Enabled(View(), Sleep(delay_in_ms))
      modifies this`tasks, this`current, timer_arr
      ensures View() == Step(old(View()), Sleep(delay_in_ms)) && Valid()
      ensures old(Inv(View())) ==> Inv(View())
    {
      ghost var s := View();
      StepStays(s, Sleep(delay_in_ms));
      var i := 0;
      while i < N_TIMERS
        invariant 0 <= i <= N_TIMERS && View() == s && Valid()
        invariant FreeSlot(s.timers, i) == FreeSlot(s.timers, 0)
      {
        if timer_arr[i].finish_time == 0 {
          SetTimer(i, delay_in_ms);
          Schedule();
          return;
        }
        i := i + 1;
      }
    }

    /** `exit_task`. */
    method ExitTask()
      requires Valid() && Enabled(View(), Exit)
      modifies this`tasks, this`current, timer_arr
      ensures View() == Step(old(View()), Exit) && Valid()
      ensures old(Inv(View())) ==> Inv(View()) && tasks[old(current)].state == ZOMBIE
    {
      StepStays(View(), Exit);
      ghost var s := View();
      if Inv(s) {
        SchedulerEffects.ExitEffect(s, Step(s, Exit));
      }
      EndTask();
      Schedule();
    }

    /** The task's end, between a disable and an enable. */
    method EndTask()
      requires Valid() && current != 0
      modifies this`tasks
      ensures View() == Exited(old(View())) && Valid()
    {
      PreemptDisable();
      tasks := tasks[current := tasks[current].(state := ZOMBIE)];
      PreemptEnable();
      assert View() == Exited(old(View()));
    }

    /** `set_task_priority`. */
    method SetTaskPriority(taskId: nat, priority: Priority)
      requires Valid() && Enabled(View(), SetPriority(taskId, priority))
      modifies this`tasks
      ensures View() == Step(old(View()), SetPriority(taskId, priority)) && Valid()
      ensures tasks ==
        if taskId < |old(tasks)| then old(tasks)[taskId := old(tasks)[taskId].(priority := priority)] else old(tasks)
      ensures old(Inv(View())) ==> Inv(View())
    {
      StepStays(View(), SetPriority(taskId, priority));
      if taskId >= |tasks| {
        return;
      }
      tasks := tasks[taskId := tasks[taskId].(priority := priority)];
    }
  }

  /** From boot on: calls of the methods are runs of the transition system. */
  method BootAndRun(page: int) returns (s: Scheduler, ghost run: SchedulerRuns.Run)
    requires page != 0
    ensures fresh(s) && s.Valid() && Inv(s.View())
    ensures run.ops == [Fork, Tick, Yield] && |run.states| == 4
    ensures run.states[0] == INITIAL && run.states[3] == s.View()
    ensures var runs := SchedulerRuns.IsRun(run); runs
  {
    s := new Scheduler();
    ghost var s0 := s.View();
    var pid := s.KernelFork(page);
    ghost var s1 := s.View();
    s.SchedulerTick();
    ghost var s2 := s.View();
    s.YieldProcessor();
    run := SchedulerRuns.Run([s0, s1, s2, s.View()], [Fork, Tick, Yield]);
    ThreeSteps(run, Fork, Tick, Yield);
  }

  lemma ThreeSteps(run: SchedulerRuns.Run, a: Op, b: Op, c: Op)
    requires |run.states| == 4 && run.ops == [a, b, c] && (var inv := Inv(run.states[0]); inv)
    requires var step := SchedulerRuns.StepsTo(run.states[0], a, run.states[1]); step
    requires var step := SchedulerRuns.StepsTo(run.states[1], b, run.states[2]); step
    requires var step := SchedulerRuns.StepsTo(run.states[2], c, run.states[3]); step
    ensures var runs := SchedulerRuns.IsRun(run); runs
  {
    assert SchedulerRuns.StepAt(run, 0) && SchedulerRuns.StepAt(run, 1) && SchedulerRuns.StepAt(run, 2);
  }

  /** A step keeps the shape, the timers' tasks in range, and the invariant if it holds. */
  lemma StepStays(s: State, op: Op)
    requires Shape(s) && TimersInRange(s) && Enabled(s, op)
    ensures Shape(Step(s, op)) && TimersInRange(Step(s, op))
    ensures (var inv := Inv(s); inv) ==> var inv := Inv(Step(s, op)); inv
  {
    if Inv(s) {
      StepKeeps(s, op);
    }
    if IsDecision(s, op) {
      BeforeInRange(s, op);
      DecideInRange(BeforeDecision(s, op));
    }
  }

  lemma BeforeInRange(s: State, op: Op)
    requires Shape(s) && TimersInRange(s) && Enabled(s, op) && IsDecision(s, op)
    ensures TimersInRange(BeforeDecision(s, op))
  {
  }

  lemma DecideInRange(d: State)
    requires Shape(d) && TimersInRange(d)
    ensures Shape(Decide(d)) && TimersInRange(Decide(d))
  {
    DecideCounts(d);
  }

  lemma ForkStays(s: State, page: int)
    requires Shape(s) && TimersInRange(s) && Enabled(s, Fork)
    ensures page != 0 ==> Shape(Step(s, Fork)) && TimersInRange(Step(s, Fork))
    ensures (var inv := Inv(s); inv) && page != 0 ==> var inv := Inv(Step(s, Fork)); inv
    ensures (var inv := Inv(s); inv) && page == 0 ==> !HandOff(FailedFork(s))
  {
    StepStays(s, Fork);
    if Inv(s) {
      ForkHandOff(s, page);
    }
  }

  ghost predicate TimersInRange(s: State) {
    forall i | 0 <= i < |s.timers| && s.timers[i].task.Some? :: s.timers[i].task.value < |s.tasks|
  }

  /** One more slot wakes one more task. */
  lemma WakesOneMore(timers: seq<Timer>, tick: nat, i: nat)
    requires i < |timers|
    ensures forall k: nat ::
      Wakes(timers[..i + 1], tick, k) <==>
        Wakes(timers[..i], tick, k) || (Expired(timers[i], tick) && timers[i].task == Some(k))
  {
    forall k: nat
      ensures Wakes(timers[..i + 1], tick, k) <==>
        Wakes(timers[..i], tick, k) || (Expired(timers[i], tick) && timers[i].task == Some(k))
    {
      if Wakes(timers[..i], tick, k) {
        var j :| 0 <= j < i && Expired(timers[..i][j], tick) && timers[..i][j].task == Some(k);
        assert timers[..i + 1][j] == timers[j];
      }
      assert timers[..i + 1][i] == timers[i];
    }
  }
}
