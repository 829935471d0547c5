/** What the steps do to the tasks, in numbers: recharging, time slices, ticks, sleeps, forks, exits and priorities. */
module SchedulerEffects {
  import opened Wrappers
  import opened SchedulerModel
  import opened SchedulerInvariant
  import opened SchedulerRuns

  // ---------- Recharging ----------

  /** The new counter is half the old one, rounded down, and the priority. */
  predicate HalfPlus(old_counter: int, priority: int, new_counter: int) {
    0 <= old_counter - 2 * (new_counter - priority) <= 1
  }

  /** The loop recharges exhausted tasks exactly once: the first task is ready and has a priority. */
  lemma SelectOnce(tasks: seq<Task>, start: nat)
    requires start < N_TASKS && 1 <= |tasks| <= N_TASKS && CountersUpTo(tasks, 2 * MAX_PRIORITY - 1)
    requires tasks[0].state == RUNNING && tasks[0].priority > 0
    ensures Hope(tasks, 0)
    ensures var tasks' := Select(tasks, start).0;
      if Exhausted(tasks) then
        |tasks'| == |tasks| && forall k | 0 <= k < |tasks| ::
          HalfPlus(tasks[k].counter, tasks[k].priority, tasks'[k].counter)
      else tasks' == tasks
  {
    assert Hope(tasks, 0);
    PickExhausted(tasks, start);
    if Exhausted(tasks) {
      var r := Recharge(tasks);
      RechargeProgress(tasks);
      RechargeEffect(tasks, MAX_PRIORITY);
      assert Ready(r, 0) && r[0].counter > 0;
      SmallCounter(r[0].counter);
      PickExhausted(r, start);
    }
  }

  /** What is left of a task's counter when a decision begins: the outgoing task gives up the rest. */
  function Left(s: State, k: nat): int
    requires k < |s.tasks|
  {
    if k == s.current then 0 else s.tasks[k].counter
  }

  /** No task that is RUNNING after the decision, sleepers that it wakes included, had anything left. */
  ghost predicate UsedUp(s: State, s': State)
    requires |s.tasks| == |s'.tasks|
  {
    forall k | 0 <= k < |s.tasks| && s'.tasks[k].state == RUNNING :: Left(s, k) <= 0
  }

  /** After a decision, task `k` has what it had left, or, when all was used up, half of it and its priority. */
  ghost predicate Charged(s: State, s': State) {
    |s'.tasks| == |s.tasks| && forall k | 0 <= k < |s.tasks| ::
      if UsedUp(s, s') then HalfPlus(Left(s, k), s.tasks[k].priority, s'.tasks[k].counter)
      else s'.tasks[k].counter == Left(s, k)
  }

  lemma DecisionCharges(s: State, op: Op, s': State)
    requires var ok := Inv(s) && StepsTo(s, op, s'); ok && IsDecision(s, op)
    ensures var charged := Charged(s, s'); charged
  {
    BeforeKeeps(s, op);
    WokenLeft(s, op);
    DecideCharges(s, BeforeDecision(s, op), s');
  }

  lemma WokenLeft(s: State, op: Op)
    requires Inv(s) && Enabled(s, op) && IsDecision(s, op)
    ensures BeforeDecision(s, op).current == s.current && var left := HasLeft(s, Woken(BeforeDecision(s, op))); left
  {
    BeforeKeeps(s, op);
    WokenKeeps(BeforeDecision(s, op));
    LeftOf(s, op, BeforeDecision(s, op), Woken(BeforeDecision(s, op)));
  }

  lemma DecideCharges(s: State, d: State, s': State)
    requires Shape(d) && d.current == s.current && s' == Decide(d) && var left := HasLeft(s, Woken(d)); left
    ensures var charged := Charged(s, s'); charged
  {
    var w := Woken(d);
    WokenShape(d);
    SelectOnce(w.tasks, d.current);
    SelectSame(w.tasks, d.current);
    var (tasks, next) := Select(w.tasks, d.current);
    SwitchedSame(w, tasks, next, s');
    SwitchedCharges(s, w, tasks, s');
  }

  /** Up to the selection nothing is charged. */
  ghost predicate HasLeft(s: State, w: State) {
    && |w.tasks| == |s.tasks| && CountersUpTo(w.tasks, 2 * MAX_PRIORITY - 1)
    && forall k | 0 <= k < |s.tasks| ::
         w.tasks[k].counter == Left(s, k) && w.tasks[k].priority == s.tasks[k].priority
  }

  lemma LeftOf(s: State, op: Op, d: State, w: State)
    requires Inv(s) && Enabled(s, op) && IsDecision(s, op) && d == BeforeDecision(s, op)
    requires WokenFrom(d, w)
    ensures var left := HasLeft(s, w); left
  {
  }

  lemma SwitchedCharges(s: State, w: State, tasks: seq<Task>, s': State)
    requires (var left := HasLeft(s, w); left) && SameButCounters(w.tasks, tasks)
    requires
      if Exhausted(w.tasks) then
        |tasks| == |w.tasks| && forall k | 0 <= k < |w.tasks| ::
          HalfPlus(w.tasks[k].counter, w.tasks[k].priority, tasks[k].counter)
      else tasks == w.tasks
    requires |s'.tasks| == |tasks| && forall k | 0 <= k < |tasks| ::
      s'.tasks[k].counter == tasks[k].counter && s'.tasks[k].state == tasks[k].state
    ensures var charged := Charged(s, s'); charged
  {
    forall k: nat | k < |w.tasks|
      ensures Low32(w.tasks[k].counter) == w.tasks[k].counter == Left(s, k) && s'.tasks[k].state == w.tasks[k].state
    {
      SmallCounter(w.tasks[k].counter);
    }
    if Exhausted(w.tasks) {
      forall k | 0 <= k < |s.tasks| && s'.tasks[k].state == RUNNING
        ensures Left(s, k) <= 0
      {
        assert Ready(w.tasks, k);
      }
    } else {
      var k: nat :| Ready(w.tasks, k) && Low32(w.tasks[k].counter) > 0;
      assert s'.tasks[k].state == RUNNING;
    }
  }

  /** A yield gives up what is left, and goes on with the first maximum of what the others have. */
  lemma YieldEffect(s: State, s': State)
    requires var ok := Inv(s) && StepsTo(s, Yield, s'); ok
    ensures var charged := Charged(s, s'); charged
    ensures Ready(s'.tasks, s'.current) && s'.tasks[s'.current].counter > 0
    ensures var first := IsFirstMaximum(s'.tasks, s.current, N_TASKS, s'.tasks[s'.current].counter, s'.current); first
  {
    DecisionCharges(s, Yield, s');
    DecisionPicks(s, Yield, s');
  }

  // ---------- Ticks and time slices ----------

  /** Only the counter of the current task differs, and it is one less. */
  ghost predicate OneTickOff(s: State, s': State) {
    && s.current < |s.tasks| && |s'.tasks| == |s.tasks| && s'.current == s.current && s'.timers == s.timers
    && s'.tasks[s.current] == s.tasks[s.current].(counter := s.tasks[s.current].counter - 1)
    && forall k | 0 <= k < |s.tasks| && k != s.current :: s'.tasks[k] == s.tasks[k]
  }

  /** A tick takes one from the counter of the current task, and nothing else happens, unless that was the last. */
  lemma TickEffect(s: State, s': State)
    requires var ok := Inv(s) && StepsTo(s, Tick, s'); ok
    ensures s'.tick == s.tick + 1
    ensures if s.tasks[s.current].counter > 1 then OneTickOff(s, s') else IsDecision(s, Tick)
  {
    TickCounted(s, Tick, s');
  }

  /** A step counts exactly if it is a tick. */
  lemma TickCounted(s: State, op: Op, s': State)
    requires var ok := Inv(s) && StepsTo(s, op, s'); ok
    ensures s'.tick == s.tick + if op == Tick then 1 else 0
  {
    if IsDecision(s, op) {
      BeforeKeeps(s, op);
      DecideTimers(BeforeDecision(s, op));
    }
  }

  ghost predicate OnlyTicks(run: Run, i: nat, j: nat)
    requires j <= |run.ops|
  {
    forall m | i <= m < j :: run.ops[m] == Tick
  }

  /** Task `t` is on the processor, with so much left. */
  ghost predicate OnFor(s: State, t: nat, left: int) {
    s.current == t < |s.tasks| && s.tasks[t].counter == left
  }

  lemma SliceStep(run: Run, j: nat, t: nat, left: int)
    requires IsRun(run) && j < |run.ops| && run.ops[j] == Tick && OnFor(run.states[j], t, left)
    ensures DecidesAt(run, j) <==> left <= 1
    ensures left > 1 ==> var on := OnFor(run.states[j + 1], t, left - 1); on
  {
    RunStep(run, j);
    TickEffect(run.states[j], run.states[j + 1]);
    CurrentPreempts(run.states[j]);
  }

  /** A task with `c` left keeps the processor for `c - 1` ticks, and the one after that takes it off. */
  lemma {:induction false} TimeSlice(run: Run, i: nat, j: nat, t: nat, c: int)
    requires IsRun(run) && i <= j < |run.ops| && OnlyTicks(run, i, j + 1)
    requires (var on := OnFor(run.states[i], t, c); on) && j - i < c
    ensures (var on := OnFor(run.states[j], t, c - (j - i)); on) && (DecidesAt(run, j) <==> j - i == c - 1)
    decreases j
  {
    if i < j {
      TimeSlice(run, i, j - 1, t, c);
      SliceStep(run, j - 1, t, c - (j - 1 - i));
      assert c - (j - 1 - i) - 1 == c - (j - i);
    }
    SliceStep(run, j, t, c - (j - i));
  }

  lemma CurrentPreempts(s: State)
    requires Inv(s)
    ensures Shape(s) && s.current < |s.tasks| && s.tasks[s.current].preempt_count == 0
  {
  }

  /** The number of ticks among the steps from `i` up to `j`. */
  function TickCount(ops: seq<Op>, i: nat, j: nat): nat
    requires i <= j <= |ops|
    decreases j
  {
    if i == j then 0 else TickCount(ops, i, j - 1) + if ops[j - 1] == Tick then 1 else 0
  }

  lemma TickOnce(run: Run, i: nat)
    requires IsRun(run) && i < |run.ops|
    ensures run.states[i + 1].tick == run.states[i].tick + if run.ops[i] == Tick then 1 else 0
  {
    RunStep(run, i);
    TickCounted(run.states[i], run.ops[i], run.states[i + 1]);
  }

  /** Over every run the clock counts the ticks. */
  lemma {:induction false} TicksCounted(run: Run, i: nat, j: nat)
    requires IsRun(run) && i <= j <= |run.ops|
    ensures run.states[j].tick - run.states[i].tick == TickCount(run.ops, i, j)
    decreases j
  {
    if i < j {
      TicksCounted(run, i, j - 1);
      TickOnce(run, j - 1);
    }
  }

  // ---------- Sleeping, by the number of ticks ----------

  /** Some slot is free, and the call of `delay` at step `i` has a finish time that fits. */
  ghost predicate SleepsAt(run: Run, i: nat, delay: nat)
    requires i < |run.ops| < |run.states|
  {
    && run.ops[i] == Sleep(delay) && delay >= 100 && run.states[i].tick + delay / 100 < 0x1_0000_0000
    && exists n :: 0 <= n < |run.states[i].timers| && run.states[i].timers[n].task == None
  }

  lemma SlotThere(s: State, n: nat)
    requires Inv(s) && n < N_TIMERS && s.timers[n].task == None
    ensures FreeSlot(s.timers, 0) < N_TIMERS
  {
  }

  lemma FallsAsleepAt(run: Run, i: nat, delay: nat, finish: nat)
    requires IsRun(run) && i < |run.ops| && SleepsAt(run, i, delay) && finish == run.states[i].tick + delay / 100
    ensures var asleep := AsleepUntil(run.states[i + 1], run.states[i].current, finish); asleep
  {
    RunInv(run, i);
    var n :| 0 <= n < |run.states[i].timers| && run.states[i].timers[n].task == None;
    SlotThere(run.states[i], n);
    FallsAsleep(run, i, delay, run.states[i].current, finish);
  }

  /** No decision after step `i` and before step `j` came after `delay / 100` ticks. */
  ghost predicate TooEarly(run: Run, i: nat, j: nat, delay: nat)
    requires i < j <= |run.ops| < |run.states|
  {
    forall m | i < m < j && DecidesAt(run, m) :: TickCount(run.ops, i, m + 1) < delay / 100
  }

  /** A sleeper is BLOCKED until the first decision that comes `delay / 100` ticks or more after it fell asleep, and
      RUNNING right after that decision. */
  lemma SleepEnds(run: Run, i: nat, j: nat, delay: nat)
    requires IsRun(run) && i < j < |run.ops| && (var sleeps := SleepsAt(run, i, delay); sleeps)
    requires var early := TooEarly(run, i, j, delay); early
    ensures var t := run.states[i].current;
      && t < |run.states[j].tasks| && run.states[j].tasks[t].state == BLOCKED
      && (DecidesAt(run, j) && TickCount(run.ops, i, j + 1) >= delay / 100 ==>
            t < |run.states[j + 1].tasks| && run.states[j + 1].tasks[t].state == RUNNING)
  {
    var t, finish := run.states[i].current, run.states[i].tick + delay / 100;
    FallsAsleepAt(run, i, delay, finish);
    NotLate(run, i, j, delay, finish);
    TicksCounted(run, i, j + 1);
    WakesOnTime(run, i + 1, j, t, finish);
  }

  lemma NotLate(run: Run, i: nat, j: nat, delay: nat, finish: nat)
    requires IsRun(run) && i < j < |run.ops| && TooEarly(run, i, j, delay)
    requires finish == run.states[i].tick + delay / 100
    ensures var late := NoLateDecision(run, i + 1, j, finish); late
  {
    forall m | i + 1 <= m < j && DecidesAt(run, m)
      ensures run.states[m + 1].tick < finish
    {
      TicksCounted(run, i, m + 1);
    }
  }

  // ---------- Forks, exits, priorities ----------

  /** A fork adds one task, RUNNING and with a counter of its priority, which is its creator's. */
  lemma ForkEffect(s: State, s': State)
    requires Inv(s) && StepsTo(s, Fork, s')
    ensures |s'.tasks| == |s.tasks| + 1 && s'.tasks[..|s.tasks|] == s.tasks
    ensures var child, creator := s'.tasks[|s.tasks|], s.tasks[s.current];
      && child.state == RUNNING && child.counter == child.priority == creator.priority && child.preempt_count == 1
    ensures s'.current == s.current && s'.timers == s.timers && s'.tick == s.tick
  {
  }

  lemma ExitEffect(s: State, s': State)
    requires var ok := Inv(s) && StepsTo(s, Exit, s'); ok
    ensures s.current < |s'.tasks| && s'.tasks[s.current].state == ZOMBIE
  {
    var d := BeforeDecision(s, Exit);
    BeforeKeeps(s, Exit);
    DecideTimers(d);
    WakesSleeper(d, s.current);
  }

  lemma ExitsAt(run: Run, i: nat)
    requires IsRun(run) && i < |run.ops| && run.ops[i] == Exit
    ensures var exited := HasExited(run.states[i + 1], run.states[i].current); exited
  {
    RunStep(run, i);
    ExitEffect(run.states[i], run.states[i + 1]);
  }

  lemma ExitedState(s: State, t: nat)
    requires HasExited(s, t)
    ensures t < |s.tasks| && s.tasks[t].state == ZOMBIE
  {
  }

  /** A task that calls `exit_task` is a ZOMBIE ever after, and never runs again. */
  lemma ExitIsFinal(run: Run, i: nat, j: nat)
    requires IsRun(run) && i < j <= |run.ops| && run.ops[i] == Exit
    ensures var t := run.states[i].current;
      t < |run.states[j].tasks| && run.states[j].tasks[t].state == ZOMBIE && run.states[j].current != t
  {
    ExitsAt(run, i);
    ZombieForever(run, i + 1, j, run.states[i].current);
    ExitedState(run.states[j], run.states[i].current);
  }

  /** The step sets the priority of task `k`. */
  predicate Sets(op: Op, k: nat) {
    op.SetPriority? && op.id == k
  }

  /** A priority changes exactly when it is set, and then to what it is set to. */
  lemma PriorityEffect(s: State, op: Op, s': State, k: nat)
    requires (var ok := Inv(s) && StepsTo(s, op, s'); ok) && k < |s.tasks|
    ensures k < |s'.tasks| && s'.tasks[k].priority == if Sets(op, k) then op.priority else s.tasks[k].priority
  {
    if IsDecision(s, op) {
      DecisionCounters(s, op);
    }
  }

  /** Setting a priority does nothing else. */
  lemma SetPriorityEffect(s: State, id: nat, p: Priority, s': State)
    requires Inv(s) && StepsTo(s, SetPriority(id, p), s')
    ensures |s'.tasks| == |s.tasks| && s'.current == s.current && s'.timers == s.timers && s'.tick == s.tick
    ensures forall k | 0 <= k < |s.tasks| :: s'.tasks[k] == if k == id then s.tasks[k].(priority := p) else s.tasks[k]
  {
  }

  ghost predicate HasPriority(s: State, k: nat, p: int) {
    k < |s.tasks| && s.tasks[k].priority == p
  }

  lemma PriorityOnce(run: Run, i: nat, k: nat)
    requires IsRun(run) && i < |run.ops| && k < |run.states[i].tasks|
    ensures var p := if Sets(run.ops[i], k) then run.ops[i].priority else run.states[i].tasks[k].priority;
      var has := HasPriority(run.states[i + 1], k, p); has
  {
    RunStep(run, i);
    PriorityEffect(run.states[i], run.ops[i], run.states[i + 1], k);
  }

  /** Over every run a priority lasts until it is set again. */
  lemma {:induction false} PriorityLasts(run: Run, i: nat, j: nat, k: nat)
    requires IsRun(run) && i < j <= |run.ops| && Sets(run.ops[i], k) && k < |run.states[i].tasks|
    requires forall m | i < m < j :: !Sets(run.ops[m], k)
    ensures var has := HasPriority(run.states[j], k, run.ops[i].priority); has
    decreases j
  {
    if i + 1 < j {
      PriorityLasts(run, i, j - 1, k);
    }
    PriorityOnce(run, j - 1, k);
  }
}
