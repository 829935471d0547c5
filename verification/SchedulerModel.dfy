/** The scheduler of src/scheduler/scheduler.c with the software timers of src/lib/software_timer.c, as
    one transition system on values.  Every step is atomic.  A task is named by its index in
    `task_array`, and `cpu_switch_to` is a change of `current`. */
module SchedulerModel {
  import opened Wrappers

  const N_TASKS := 64
  const N_TIMERS := 5
  const SOFTWARE_TIMER_PRESCALER := 100
  const MAX_PRIORITY := 255

  datatype TaskState = RUNNING | BLOCKED | SUSPENDED | WAITING | ZOMBIE

  /** `set_task_priority` takes a `uint8_t`. */
  type Priority = p: int | 0 <= p <= MAX_PRIORITY

  datatype Task = Task(state: TaskState, counter: int, priority: Priority, preempt_count: int)

  /** A one-hit timer: a 32-bit finish time and the sleeping task. */
  datatype Timer = Timer(finish_time: nat, task: Option<nat>)

  const FREE_TIMER := Timer(0, None)

  /** `task_array[0 .. n_tasks]`, the running task, the timer slots, and the tick count. */
  datatype State = State(tasks: seq<Task>, current: nat, timers: seq<Timer>, tick: nat)

  // ---------- Machine integers ----------

  /** A cast to `sint32_t`. */
  function Low32(x: int): (y: int)
    ensures -0x8000_0000 <= y < 0x8000_0000 && (x - y) % 0x1_0000_0000 == 0
  {
    (x + 0x8000_0000) % 0x1_0000_0000 - 0x8000_0000
  }

  /** An assignment to a `uint32_t`. */
  function Unsigned32(x: nat): (y: nat)
    ensures y < 0x1_0000_0000 && (x - y) % 0x1_0000_0000 == 0
  {
    x % 0x1_0000_0000
  }

  // ---------- Picking a task ----------

  predicate Ready(tasks: seq<Task>, k: nat) {
    k < |tasks| && tasks[k].state == RUNNING
  }

  /** The selection loop from its `i`-th round on: `c` and `next` are the best so far. */
  function PickFrom(tasks: seq<Task>, start: nat, i: nat, c: int, next: nat): (int, nat)
    requires i <= N_TASKS
    decreases N_TASKS - i
  {
    if i == N_TASKS then (c, next)
    else
      var k := (start + i) % N_TASKS;
      if Ready(tasks, k) && Low32(tasks[k].counter) > c then
        PickFrom(tasks, start, i + 1, Low32(tasks[k].counter), k)
      else
        PickFrom(tasks, start, i + 1, c, next)
  }

  function Pick(tasks: seq<Task>, start: nat): (int, nat) {
    PickFrom(tasks, start, 0, -1, 0)
  }

  /** The distance from `start` to `k` around the task array. */
  function Ahead(start: nat, k: nat): (d: nat)
    requires start < N_TASKS && k < N_TASKS
    ensures d < N_TASKS && (start + d) % N_TASKS == k
  {
    if k >= start then k - start else k + N_TASKS - start
  }

  /** `next` is the best of the ready tasks less than `n` ahead of `start`: the largest counter, and the
      nearest ahead of those that have it.  When there is no candidate, `c` is -1. */
  ghost predicate IsFirstMaximum(tasks: seq<Task>, start: nat, n: nat, c: int, next: nat)
    requires start < N_TASKS
  {
    && (forall k: nat | k < N_TASKS && Ready(tasks, k) && Ahead(start, k) < n :: Low32(tasks[k].counter) <= c)
    && (c == -1 || (
          && Ready(tasks, next) && next < N_TASKS && Ahead(start, next) < n && Low32(tasks[next].counter) == c
          && forall k: nat | k < N_TASKS && Ready(tasks, k) && Ahead(start, k) < Ahead(start, next) ::
               Low32(tasks[k].counter) < c))
  }

  lemma AheadOnly(start: nat, i: nat, k: nat)
    requires start < N_TASKS && i < N_TASKS && k < N_TASKS && Ahead(start, k) == i
    ensures k == (start + i) % N_TASKS
  {
  }

  /** One round that finds a larger counter, and one that does not. */
  lemma RoundFinds(tasks: seq<Task>, start: nat, i: nat, c: int, next: nat, k: nat)
    requires i < N_TASKS && start < N_TASKS && k < N_TASKS && Ahead(start, k) == i
    requires IsFirstMaximum(tasks, start, i, c, next) && Ready(tasks, k) && Low32(tasks[k].counter) > c
    ensures var first := IsFirstMaximum(tasks, start, i + 1, Low32(tasks[k].counter), k); first
  {
    forall j: nat | j < N_TASKS && Ahead(start, j) == i
      ensures j == k
    {
      AheadOnly(start, i, j);
      AheadOnly(start, i, k);
    }
  }

  lemma RoundPasses(tasks: seq<Task>, start: nat, i: nat, c: int, next: nat, k: nat)
    requires i < N_TASKS && start < N_TASKS && k < N_TASKS && Ahead(start, k) == i
    requires IsFirstMaximum(tasks, start, i, c, next) && !(Ready(tasks, k) && Low32(tasks[k].counter) > c)
    ensures var first := IsFirstMaximum(tasks, start, i + 1, c, next); first
  {
    forall j: nat | j < N_TASKS && Ahead(start, j) == i
      ensures j == k
    {
      AheadOnly(start, i, j);
      AheadOnly(start, i, k);
    }
  }

  /** The loop, from its `i`-th round on, ends with the first maximum. */
  ghost predicate EndsFirst(tasks: seq<Task>, start: nat, i: nat, c: int, next: nat)
    requires i <= N_TASKS && start < N_TASKS
  {
    var (c', next') := PickFrom(tasks, start, i, c, next);
    c' >= -1 && IsFirstMaximum(tasks, start, N_TASKS, c', next')
  }

  lemma {:induction false} PickFromIsFirstMaximum(tasks: seq<Task>, start: nat, i: nat, c: int, next: nat)
    requires i <= N_TASKS && start < N_TASKS && c >= -1
    requires var first := IsFirstMaximum(tasks, start, i, c, next); first
    ensures var ends := EndsFirst(tasks, start, i, c, next); ends
    decreases N_TASKS - i
  {
    if i < N_TASKS {
      var k := (start + i) % N_TASKS;
      if Ready(tasks, k) && Low32(tasks[k].counter) > c {
        RoundFinds(tasks, start, i, c, next, k);
        PickFromIsFirstMaximum(tasks, start, i + 1, Low32(tasks[k].counter), k);
      } else {
        RoundPasses(tasks, start, i, c, next, k);
        PickFromIsFirstMaximum(tasks, start, i + 1, c, next);
      }
    }
  }

  /** The choice is the first maximum in cyclic order from the current task. */
  lemma PickIsFirstMaximum(tasks: seq<Task>, start: nat)
    requires start < N_TASKS
    ensures var (c, next) := Pick(tasks, start); c >= -1 && IsFirstMaximum(tasks, start, N_TASKS, c, next)
  {
    PickFromIsFirstMaximum(tasks, start, 0, -1, 0);
  }

  // ---------- Recharging, and the loop ----------

  /** `(counter >> 1) + priority`: the shift is arithmetic, so it rounds down. */
  function Recharged(t: Task): (r: Task)
    ensures 0 <= t.counter - 2 * (r.counter - t.priority) <= 1 && r == t.(counter := r.counter)
  {
    t.(counter := t.counter / 2 + t.priority)
  }

  function Recharge(tasks: seq<Task>): (r: seq<Task>)
    ensures |r| == |tasks|
  {
    seq(|tasks|, k requires 0 <= k < |tasks| => Recharged(tasks[k]))
  }

  /** Task `k` is ready, with a positive priority or a positive counter. */
  predicate Hope(tasks: seq<Task>, k: nat) {
    Ready(tasks, k) && (tasks[k].priority > 0 || tasks[k].counter > 0)
  }

  ghost predicate Hopeful(tasks: seq<Task>) {
    exists k: nat :: k < |tasks| && Hope(tasks, k)
  }

  /** The first task from `k` on that gives hope. */
  ghost function FirstHope(tasks: seq<Task>, k: nat): (f: nat)
    ensures (exists j: nat :: k <= j < |tasks| && Hope(tasks, j)) ==> k <= f < |tasks| && Hope(tasks, f)
    decreases |tasks| - k
  {
    if k >= |tasks| || Hope(tasks, k) then k else FirstHope(tasks, k + 1)
  }

  /** How far a counter is from where recharging takes it. */
  function Gap(t: Task): nat {
    if t.counter < 2 * t.priority then 2 * t.priority - t.counter else t.counter - 2 * t.priority
  }

  ghost function Distance(tasks: seq<Task>): nat {
    var k := FirstHope(tasks, 0);
    if k < |tasks| then Gap(tasks[k]) else 0
  }

  /** No ready task has a positive counter, as the loop sees it. */
  ghost predicate Exhausted(tasks: seq<Task>) {
    forall k: nat | Ready(tasks, k) :: Low32(tasks[k].counter) <= 0
  }

  /** Recharging an exhausted task list brings the first hopeful task closer to a positive counter. */
  lemma RechargeProgress(tasks: seq<Task>)
    requires Exhausted(tasks) && Hopeful(tasks)
    ensures Hopeful(Recharge(tasks)) && Distance(Recharge(tasks)) < Distance(tasks)
  {
    var r := Recharge(tasks);
    forall k: nat | k < |tasks|
      ensures Hope(r, k) <==> Hope(tasks, k)
    {
    }
    SameFirstHope(tasks, r, 0);
    var k := FirstHope(tasks, 0);
    assert Ready(tasks, k);
  }

  lemma {:induction false} SameFirstHope(tasks: seq<Task>, r: seq<Task>, k: nat)
    requires |r| == |tasks| && forall j: nat | j < |tasks| :: Hope(r, j) <==> Hope(tasks, j)
    ensures FirstHope(r, k) == FirstHope(tasks, k)
    decreases |tasks| - k
  {
    if k < |tasks| {
      SameFirstHope(tasks, r, k + 1);
    }
  }

  lemma PickExhausted(tasks: seq<Task>, start: nat)
    requires start < N_TASKS && |tasks| <= N_TASKS
    ensures Pick(tasks, start).0 <= 0 <==> Exhausted(tasks)
    ensures Pick(tasks, start).0 > 0 ==>
      var next := Pick(tasks, start).1; Ready(tasks, next) && Low32(tasks[next].counter) > 0
  {
    PickIsFirstMaximum(tasks, start);
    var (c, next) := Pick(tasks, start);
    forall k: nat | Ready(tasks, k)
      ensures Low32(tasks[k].counter) <= c
    {
      assert Ahead(start, k) < N_TASKS;
    }
  }

  /** The `for(;;)` of `_schedule`: pick, or recharge and try again.  It ends whenever some ready task has
      a positive priority or a positive counter, whatever the counters are, even negative ones. */
  function Select(tasks: seq<Task>, start: nat): (r: (seq<Task>, nat))
    requires start < N_TASKS && |tasks| <= N_TASKS && Hopeful(tasks)
    ensures |r.0| == |tasks| && Ready(r.0, r.1)
    decreases Distance(tasks)
  {
    PickExhausted(tasks, start);
    var (c, next) := Pick(tasks, start);
    if c > 0 then (tasks, next)
    else
      RechargeProgress(tasks);
      Select(Recharge(tasks), start)
  }

  function RechargeTimes(tasks: seq<Task>, n: nat): seq<Task>
    decreases n
  {
    if n == 0 then tasks else RechargeTimes(Recharge(tasks), n - 1)
  }

  /** Without such a task no number of rounds ends the loop. */
  lemma {:induction false} HopelessLoops(tasks: seq<Task>, start: nat, n: nat)
    requires start < N_TASKS && |tasks| <= N_TASKS && !Hopeful(tasks)
    requires forall k: nat | Ready(tasks, k) :: tasks[k].counter >= -0x8000_0000
    ensures Pick(RechargeTimes(tasks, n), start).0 <= 0
    decreases n
  {
    if n == 0 {
      forall k: nat | Ready(tasks, k)
        ensures Low32(tasks[k].counter) <= 0
      {
        assert !Hope(tasks, k);
      }
      PickExhausted(tasks, start);
    } else {
      var r := Recharge(tasks);
      forall k: nat | k < |r|
        ensures !Hope(r, k)
      {
        assert !Hope(tasks, k);
      }
      HopelessLoops(r, start, n - 1);
    }
  }

  // ---------- Timers ----------

  predicate Expired(timer: Timer, tick: nat) {
    timer.task.Some? && timer.finish_time <= tick
  }

  /** Some timer that wakes task `k` has run out. */
  predicate Wakes(timers: seq<Timer>, tick: nat, k: nat) {
    exists i :: 0 <= i < |timers| && Expired(timers[i], tick) && timers[i].task == Some(k)
  }

  /** `check_timers`: every task whose timer has run out is RUNNING, and the timer is free. */
  function CheckTimers(s: State): State {
    s.(tasks := seq(|s.tasks|, k requires 0 <= k < |s.tasks| =>
         if Wakes(s.timers, s.tick, k) then s.tasks[k].(state := RUNNING) else s.tasks[k]),
       timers := seq(|s.timers|, i requires 0 <= i < |s.timers| =>
         if Expired(s.timers[i], s.tick) then FREE_TIMER else s.timers[i]))
  }

  /** The first timer slot that `register_one_hit` takes for free, from slot `i` on. */
  function FreeSlot(timers: seq<Timer>, i: nat): (f: nat)
    requires i <= |timers|
    ensures i <= f <= |timers|
    ensures f < |timers| ==> timers[f].finish_time == 0
    ensures forall j | i <= j < f :: timers[j].finish_time != 0
    decreases |timers| - i
  {
    if i == |timers| || timers[i].finish_time == 0 then i else FreeSlot(timers, i + 1)
  }

  // ---------- Steps ----------

  datatype Op =
    | Tick
    | Yield
    | Fork
    | Sleep(delay_in_ms: nat)
    | Exit
    | SetPriority(id: nat, priority: Priority)

  /** The shape of the state, and the standing assumption that task 0 stays RUNNING, as `main` does. */
  predicate Shape(s: State) {
    && 1 <= |s.tasks| <= N_TASKS && s.current < |s.tasks| && |s.timers| == N_TIMERS
    && s.tasks[0].state == RUNNING && s.tasks[0].priority > 0
  }

  predicate Enabled(s: State, op: Op)
    requires Shape(s)
  {
    match op
    case Fork => |s.tasks| < N_TASKS
    case Sleep(delay) => s.current != 0 && delay < 0x1_0000_0000
    case Exit => s.current != 0
    case SetPriority(id, priority) => id < N_TASKS && (id == 0 ==> priority > 0)
    case _ => true
  }

  function WithTask(s: State, k: nat, t: Task): State
    requires k < |s.tasks|
  {
    s.(tasks := s.tasks[k := t])
  }

  function Disabled(s: State): State
    requires Shape(s)
  {
    WithTask(s, s.current, s.tasks[s.current].(preempt_count := s.tasks[s.current].preempt_count + 1))
  }

  function Woken(s: State): State
    requires Shape(s)
  {
    CheckTimers(Disabled(s))
  }

  /** `_schedule`: the outgoing task disables preemption, and the task that resumes enables it again, in
      `_schedule` or in `end_of_sched`. */
  function Decide(s: State): State
    requires Shape(s)
  {
    var woken := Woken(s);
    assert Hope(woken.tasks, 0);
    var (tasks, next) := Select(woken.tasks, s.current);
    Switched(woken, tasks, next)
  }

  /** The switch to task `next`, and its enable. */
  function Switched(s: State, tasks: seq<Task>, next: nat): State
    requires next < |tasks|
  {
    s.(tasks := tasks[next := tasks[next].(preempt_count := tasks[next].preempt_count - 1)], current := next)
  }

  /** `schedule`. */
  function Schedule(s: State): State
    requires Shape(s)
  {
    Decide(CounterZeroed(s))
  }

  function CounterZeroed(s: State): State
    requires Shape(s)
  {
    WithTask(s, s.current, s.tasks[s.current].(counter := 0))
  }

  /** `scheduler_tick`. */
  function TickStep(s: State): State
    requires Shape(s)
  {
    var t := s.tasks[s.current];
    if t.counter - 1 > 0 || t.preempt_count > 0 then Ticked(s) else Schedule(Ticked(s))
  }

  function Ticked(s: State): State
    requires Shape(s)
  {
    var t := s.tasks[s.current];
    WithTask(s, s.current, t.(counter := t.counter - 1)).(tick := s.tick + 1)
  }

  /** `kernel_fork`, when the page for the new task was allocated. */
  function ForkStep(s: State): State
    requires Shape(s)
  {
    var t := s.tasks[s.current];
    s.(tasks := s.tasks + [Task(RUNNING, t.priority, t.priority, 1)])
  }

  /** `register_one_hit`: with every slot taken it changes nothing. */
  function SleepStep(s: State, delay_in_ms: nat): State
    requires Shape(s) && s.current != 0
  {
    var slot := FreeSlot(s.timers, 0);
    if slot == N_TIMERS then s
    else Schedule(Asleep(s, slot, delay_in_ms))
  }

  /** The current task asleep in a timer slot, before `register_one_hit` schedules. */
  function Asleep(s: State, slot: nat, delay_in_ms: nat): State
    requires Shape(s) && slot < N_TIMERS
  {
    var finish := Unsigned32(s.tick + delay_in_ms / SOFTWARE_TIMER_PRESCALER);
    var blocked := WithTask(s, s.current, s.tasks[s.current].(state := BLOCKED));
    blocked.(timers := s.timers[slot := Timer(finish, Some(s.current))])
  }

  /** `exit_task`. */
  function ExitStep(s: State): State
    requires Shape(s) && s.current != 0
  {
    Schedule(Exited(s))
  }

  function Exited(s: State): State
    requires Shape(s)
  {
    WithTask(s, s.current, s.tasks[s.current].(state := ZOMBIE))
  }

  /** `set_task_priority`: an entry of the array without a task is ignored. */
  function SetPriorityStep(s: State, id: nat, priority: Priority): State {
    if id < |s.tasks| then WithTask(s, id, s.tasks[id].(priority := priority)) else s
  }

  function Step(s: State, op: Op): State
    requires Shape(s) && Enabled(s, op)
  {
    match op
    case Tick => TickStep(s)
    case Yield => Schedule(s)
    case Fork => ForkStep(s)
    case Sleep(delay) => SleepStep(s, delay)
    case Exit => ExitStep(s)
    case SetPriority(id, priority) => SetPriorityStep(s, id, priority)
  }

  /** The steps that run `_schedule`. */
  predicate IsDecision(s: State, op: Op)
    requires Shape(s)
  {
    match op
    case Tick => s.tasks[s.current].counter <= 1 && s.tasks[s.current].preempt_count <= 0
    case Yield => true
    case Sleep(_) => FreeSlot(s.timers, 0) < N_TIMERS
    case Exit => true
    case _ => false
  }

  /** The state that `_schedule` starts from in such a step; the outgoing counter is 0 in it. */
  function BeforeDecision(s: State, op: Op): (d: State)
    requires Shape(s) && Enabled(s, op) && IsDecision(s, op)
    ensures Shape(d) && Step(s, op) == Decide(d)
    ensures d.current == s.current && |d.tasks| == |s.tasks| && d.tasks[d.current].counter == 0
    ensures forall k: nat | k < |s.tasks| && k != s.current :: d.tasks[k] == s.tasks[k]
    ensures d.tasks[s.current].priority == s.tasks[s.current].priority
    ensures d.tasks[s.current].preempt_count == s.tasks[s.current].preempt_count
  {
    match op
    case Tick => CounterZeroed(Ticked(s))
    case Yield => CounterZeroed(s)
    case Sleep(delay) => CounterZeroed(Asleep(s, FreeSlot(s.timers, 0), delay))
    case Exit => CounterZeroed(Exited(s))
  }
}
