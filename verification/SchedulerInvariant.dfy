/** What every step of the scheduler keeps: the preemption hand-off, the counter range, and the match
    between sleeping tasks and timer slots. */
module SchedulerInvariant {
  import opened Wrappers
  import opened SchedulerModel

  // ---------- The selection loop ----------

  ghost predicate CountersUpTo(tasks: seq<Task>, bound: int) {
    forall k | 0 <= k < |tasks| :: 0 <= tasks[k].counter <= bound
  }

  ghost predicate PrioritiesUpTo(tasks: seq<Task>, p: int) {
    forall k | 0 <= k < |tasks| :: tasks[k].priority <= p
  }

  /** Only counters differ. */
  ghost predicate SameButCounters(a: seq<Task>, b: seq<Task>) {
    |a| == |b| && forall k | 0 <= k < |a| :: b[k] == a[k].(counter := b[k].counter)
  }

  lemma SmallCounter(x: int)
    requires 0 <= x <= 2 * MAX_PRIORITY - 1
    ensures Low32(x) == x
  {
  }

  /** One recharge keeps the bound, and gives every task with a priority a positive counter. */
  lemma RechargeEffect(tasks: seq<Task>, p: nat)
    requires 1 <= p <= MAX_PRIORITY && PrioritiesUpTo(tasks, p) && CountersUpTo(tasks, 2 * p - 1)
    ensures var r := Recharge(tasks);
      && SameButCounters(tasks, r) && PrioritiesUpTo(r, p) && CountersUpTo(r, 2 * p - 1)
      && forall k | 0 <= k < |tasks| && tasks[k].priority > 0 :: r[k].counter > 0
  {
  }

  /** What the loop hands on: the tasks with other counters, and the first maximum among them. */
  ghost predicate Selected(tasks: seq<Task>, start: nat, bound: int, tasks': seq<Task>, next: nat)
    requires start < N_TASKS
  {
    && SameButCounters(tasks, tasks') && CountersUpTo(tasks', bound)
    && Ready(tasks', next) && tasks'[next].counter > 0
    && IsFirstMaximum(tasks', start, N_TASKS, tasks'[next].counter, next)
    && (!Exhausted(tasks) ==> tasks' == tasks)
    && (Exhausted(tasks) ==> forall k | 0 <= k < |tasks| && tasks[k].priority > 0 :: tasks'[k].counter > 0)
  }

  lemma PickSelects(tasks: seq<Task>, start: nat, bound: int)
    requires start < N_TASKS && |tasks| <= N_TASKS && CountersUpTo(tasks, bound) && bound <= 2 * MAX_PRIORITY - 1
    requires Pick(tasks, start).0 > 0
    ensures !Exhausted(tasks) && Selected(tasks, start, bound, tasks, Pick(tasks, start).1)
  {
    PickExhausted(tasks, start);
    PickIsFirstMaximum(tasks, start);
    var (c, next) := Pick(tasks, start);
    SmallCounter(tasks[next].counter);
  }

  /** The loop leaves the counters alone unless every ready task's counter is used up, and then gives
      every task with a priority a positive one.  It stays within the bound 2P - 1, and its choice has
      the first maximum. */
  lemma {:induction false} SelectEffect(tasks: seq<Task>, start: nat, p: nat)
    requires start < N_TASKS && |tasks| <= N_TASKS && Hopeful(tasks)
    requires 1 <= p <= MAX_PRIORITY && PrioritiesUpTo(tasks, p) && CountersUpTo(tasks, 2 * p - 1)
    ensures Selected(tasks, start, 2 * p - 1, Select(tasks, start).0, Select(tasks, start).1)
    decreases Distance(tasks)
  {
    PickExhausted(tasks, start);
    if Pick(tasks, start).0 > 0 {
      PickSelects(tasks, start, 2 * p - 1);
    } else {
      RechargeProgress(tasks);
      RechargeEffect(tasks, p);
      SelectEffect(Recharge(tasks), start, p);
      var (r, next) := Select(Recharge(tasks), start);
      SelectedAgain(tasks, Recharge(tasks), start, 2 * p - 1, r, next);
    }
  }

  lemma SelectedAgain(tasks: seq<Task>, r: seq<Task>, start: nat, bound: int, tasks': seq<Task>, next: nat)
    requires start < N_TASKS && Exhausted(tasks) && SameButCounters(tasks, r)
    requires forall k | 0 <= k < |tasks| && tasks[k].priority > 0 :: r[k].counter > 0
    requires Selected(r, start, bound, tasks', next)
    ensures Selected(tasks, start, bound, tasks', next)
  {
    forall k | 0 <= k < |tasks| && tasks[k].priority > 0
      ensures tasks'[k].counter > 0
    {
      assert r[k].priority > 0;
    }
  }

  // ---------- The invariant ----------

  /** At a step boundary the current task may be preempted, and every other task holds the one disable
      that the enable after its next switch will undo. */
  ghost predicate HandOff(s: State) {
    forall k | 0 <= k < |s.tasks| :: s.tasks[k].preempt_count == if k == s.current then 0 else 1
  }

  ghost predicate Sleeper(s: State, i: nat, k: nat) {
    i < |s.timers| && s.timers[i].task == Some(k)
  }

  /** Each sleeping task has exactly one timer slot, and no other task has one. */
  ghost predicate TimersMatch(s: State) {
    && (forall i: nat, k: nat | Sleeper(s, i, k) :: k < |s.tasks| && s.tasks[k].state == BLOCKED)
    && (forall i: nat, j: nat, k: nat | Sleeper(s, i, k) && Sleeper(s, j, k) :: i == j)
    && (forall k: nat | k < |s.tasks| && s.tasks[k].state == BLOCKED :: exists i: nat :: Sleeper(s, i, k))
    && (forall i | 0 <= i < |s.timers| && s.timers[i].task == None :: s.timers[i].finish_time == 0)
  }

  /** A slot is free exactly when its finish time is 0, which is how `register_one_hit` finds one. */
  ghost predicate SlotsMarked(s: State) {
    forall i | 0 <= i < |s.timers| :: s.timers[i].task.Some? <==> s.timers[i].finish_time != 0
  }

  ghost predicate Inv(s: State) {
    && Shape(s) && s.tasks[s.current].state == RUNNING
    && CountersUpTo(s.tasks, 2 * MAX_PRIORITY - 1)
    && HandOff(s) && TimersMatch(s) && SlotsMarked(s)
  }

  // ---------- A decision ----------

  /** Whoever is woken is asleep, and woken by its own timer. */
  lemma WakesSleeper(s: State, k: nat)
    requires TimersMatch(s)
    ensures Wakes(s.timers, s.tick, k) ==> k < |s.tasks| && s.tasks[k].state == BLOCKED
  {
    if Wakes(s.timers, s.tick, k) {
      var i :| 0 <= i < |s.timers| && Expired(s.timers[i], s.tick) && s.timers[i].task == Some(k);
      assert Sleeper(s, i, k);
    }
  }

  lemma WakesByOwn(s: State, i: nat, k: nat)
    requires TimersMatch(s) && Sleeper(s, i, k)
    ensures Wakes(s.timers, s.tick, k) ==> Expired(s.timers[i], s.tick)
  {
    if Wakes(s.timers, s.tick, k) {
      var j :| 0 <= j < |s.timers| && Expired(s.timers[j], s.tick) && s.timers[j].task == Some(k);
      assert Sleeper(s, j, k);
    }
  }

  lemma CheckTimersKeeps(s: State)
    requires Shape(s) && TimersMatch(s)
    ensures var w := CheckTimers(s);
      && Shape(w) && TimersMatch(w) && SlotsMarked(w)
      && |w.tasks| == |s.tasks|
      && forall k | 0 <= k < |s.tasks| :: w.tasks[k] == s.tasks[k].(state := w.tasks[k].state)
  {
    var w := CheckTimers(s);
    forall k: nat | k < |w.tasks| && w.tasks[k].state == BLOCKED
      ensures exists i: nat :: Sleeper(w, i, k)
    {
      assert s.tasks[k].state == BLOCKED && !Wakes(s.timers, s.tick, k);
      var i: nat :| Sleeper(s, i, k);
      assert Sleeper(w, i, k);
    }
    forall i: nat, k: nat | Sleeper(w, i, k)
      ensures Sleeper(s, i, k) && k < |w.tasks| && w.tasks[k].state == BLOCKED
    {
      assert Sleeper(s, i, k);
      WakesByOwn(s, i, k);
    }
  }

  /** What `_schedule` has done before the selection: preemption disabled, then expired timers fired. */
  ghost predicate WokenFrom(d: State, w: State) {
    && Shape(w) && TimersMatch(w) && SlotsMarked(w) && |w.tasks| == |d.tasks| && Hopeful(w.tasks)
    && w.current == d.current && w.tick == d.tick
    && forall k | 0 <= k < |d.tasks| ::
         && w.tasks[k].counter == d.tasks[k].counter && w.tasks[k].priority == d.tasks[k].priority
         && w.tasks[k].preempt_count == d.tasks[k].preempt_count + if k == d.current then 1 else 0
  }

  lemma DisabledKeeps(d: State)
    requires Shape(d) && TimersMatch(d)
    ensures Shape(Disabled(d)) && TimersMatch(Disabled(d))
  {
    var disabled := Disabled(d);
    forall k: nat | k < |disabled.tasks| && disabled.tasks[k].state == BLOCKED
      ensures exists i: nat :: Sleeper(disabled, i, k)
    {
      var i: nat :| Sleeper(d, i, k);
      assert Sleeper(disabled, i, k);
    }
    forall i: nat, k: nat | Sleeper(disabled, i, k)
      ensures Sleeper(d, i, k)
    {
    }
    forall i | 0 <= i < |disabled.timers| && disabled.timers[i].task == None
      ensures disabled.timers[i].finish_time == 0
    {
      assert d.timers[i].task == None;
    }
  }

  lemma WokenKeeps(d: State)
    requires Shape(d) && TimersMatch(d)
    ensures var woken := WokenFrom(d, Woken(d)); woken
  {
    DisabledKeeps(d);
    CheckTimersKeeps(Disabled(d));
    assert Hope(Woken(d).tasks, 0);
  }

  /** A decision in two parts: what is woken, and what is selected among it. */
  lemma DecideSelects(d: State, p: nat) returns (w: State, tasks: seq<Task>, next: nat)
    requires Shape(d) && (var timers := TimersMatch(d); timers)
    requires 1 <= p <= MAX_PRIORITY && PrioritiesUpTo(d.tasks, p) && CountersUpTo(d.tasks, 2 * p - 1)
    ensures w == Woken(d) && var woken := WokenFrom(d, w); woken
    ensures var selected := Selected(w.tasks, d.current, 2 * p - 1, tasks, next); selected
    ensures next < |tasks| && Decide(d) == Switched(w, tasks, next)
  {
    w := Woken(d);
    WokenKeeps(d);
    SelectEffect(w.tasks, d.current, p);
    tasks, next := Select(w.tasks, d.current).0, Select(w.tasks, d.current).1;
  }

  /** The switch keeps counters, priorities and states. */
  lemma SwitchedSame(w: State, tasks: seq<Task>, next: nat, s: State)
    requires next < |tasks| && s == Switched(w, tasks, next)
    ensures |s.tasks| == |tasks| && s.current == next && s.timers == w.timers && s.tick == w.tick
    ensures forall k | 0 <= k < |tasks| ::
      && s.tasks[k].counter == tasks[k].counter && s.tasks[k].priority == tasks[k].priority
      && s.tasks[k].state == tasks[k].state
  {
  }

  lemma SwitchedHandOff(d: State, w: State, tasks: seq<Task>, next: nat)
    requires HandOff(d) && WokenFrom(d, w) && SameButCounters(w.tasks, tasks) && next < |tasks|
    ensures var handOff := HandOff(Switched(w, tasks, next)); handOff
    ensures Shape(Switched(w, tasks, next))
  {
  }

  /** From any state with the hand-off and the timers in order, `_schedule` re-establishes the invariant. */
  lemma DecideKeeps(d: State)
    requires Shape(d) && HandOff(d) && TimersMatch(d)
    requires CountersUpTo(d.tasks, 2 * MAX_PRIORITY - 1)
    ensures var inv := Inv(Decide(d)); inv
  {
    var w, tasks, next := DecideSelects(d, MAX_PRIORITY);
    var s := Decide(d);
    SwitchedSame(w, tasks, next, s);
    SwitchedHandOff(d, w, tasks, next);
    SelectedParts(w.tasks, d.current, 2 * MAX_PRIORITY - 1, tasks, next);
    AfterSelect(w, tasks, s);
    assert CountersUpTo(s.tasks, 2 * MAX_PRIORITY - 1);
  }

  lemma SelectedParts(tasks: seq<Task>, start: nat, bound: int, tasks': seq<Task>, next: nat)
    requires start < N_TASKS && Selected(tasks, start, bound, tasks', next)
    ensures SameButCounters(tasks, tasks') && CountersUpTo(tasks', bound) && Ready(tasks', next)
    ensures tasks'[next].counter > 0
    ensures var first := IsFirstMaximum(tasks', start, N_TASKS, tasks'[next].counter, next); first
  {
  }

  /** Counters and preemption counts do not matter to the timers. */
  lemma AfterSelect(w: State, tasks: seq<Task>, s: State)
    requires TimersMatch(w) && SlotsMarked(w) && SameButCounters(w.tasks, tasks)
    requires s.timers == w.timers && |s.tasks| == |tasks|
    requires forall k | 0 <= k < |tasks| :: s.tasks[k].state == tasks[k].state
    ensures (var timers := TimersMatch(s); timers) && var slots := SlotsMarked(s); slots
  {
    forall i: nat, k: nat | Sleeper(s, i, k)
      ensures Sleeper(w, i, k)
    {
    }
    forall k: nat | k < |s.tasks| && s.tasks[k].state == BLOCKED
      ensures exists i: nat :: Sleeper(s, i, k)
    {
      var i: nat :| Sleeper(w, i, k);
      assert Sleeper(s, i, k);
    }
  }

  // ---------- Every step ----------

  lemma SleepingKeeps(s: State, slot: nat, delay: nat)
    requires Inv(s) && s.current != 0 && slot < N_TIMERS && s.timers[slot].finish_time == 0
    ensures var d := CounterZeroed(Asleep(s, slot, delay));
            Shape(d) && HandOff(d) && TimersMatch(d) && CountersUpTo(d.tasks, 2 * MAX_PRIORITY - 1)
  {
    var d := CounterZeroed(Asleep(s, slot, delay));
    forall i: nat, k: nat | Sleeper(d, i, k)
      ensures if i == slot then k == s.current else Sleeper(s, i, k)
    {
    }
    forall k: nat | k < |d.tasks| && d.tasks[k].state == BLOCKED
      ensures exists i: nat :: Sleeper(d, i, k)
    {
      if k == s.current {
        assert Sleeper(d, slot, k);
      } else {
        var i: nat :| Sleeper(s, i, k);
        assert Sleeper(d, i, k);
      }
    }
    forall i | 0 <= i < |d.timers| && d.timers[i].task == None
      ensures d.timers[i].finish_time == 0
    {
      assert i != slot && d.timers[i] == s.timers[i];
    }
  }

  /** A change of the current task that leaves it awake, or ends it, leaves the timers in order. */
  lemma AwakeKeeps(s: State, d: State)
    requires Inv(s) && Shape(d) && d.timers == s.timers && d.current == s.current
    requires |d.tasks| == |s.tasks| && d.tasks[s.current].state != BLOCKED
    requires forall k: nat | k < |s.tasks| && k != s.current :: d.tasks[k].state == s.tasks[k].state
    ensures TimersMatch(d)
  {
    forall k: nat | k < |d.tasks| && d.tasks[k].state == BLOCKED
      ensures exists i: nat :: Sleeper(d, i, k)
    {
      var i: nat :| Sleeper(s, i, k);
      assert Sleeper(d, i, k);
    }
    forall i: nat, k: nat | Sleeper(d, i, k)
      ensures Sleeper(s, i, k) && k != s.current
    {
      assert Sleeper(s, i, k);
    }
  }

  lemma BeforeKeeps(s: State, op: Op)
    requires Inv(s) && Enabled(s, op) && IsDecision(s, op)
    ensures var d := BeforeDecision(s, op);
            Shape(d) && HandOff(d) && TimersMatch(d) && CountersUpTo(d.tasks, 2 * MAX_PRIORITY - 1)
  {
    if op.Sleep? {
      SleepingKeeps(s, FreeSlot(s.timers, 0), op.delay_in_ms);
    } else {
      AwakeKeeps(s, BeforeDecision(s, op));
    }
  }

  lemma QuietKeeps(s: State, op: Op)
    requires Inv(s) && Enabled(s, op) && !IsDecision(s, op)
    ensures Inv(Step(s, op))
  {
    var s' := Step(s, op);
    forall k: nat | k < |s'.tasks| && s'.tasks[k].state == BLOCKED
      ensures exists i: nat :: Sleeper(s', i, k)
    {
      assert k < |s.tasks| && s.tasks[k].state == BLOCKED;
      var i: nat :| Sleeper(s, i, k);
      assert Sleeper(s', i, k);
    }
    forall i: nat, k: nat | Sleeper(s', i, k)
      ensures Sleeper(s, i, k)
    {
      assert Sleeper(s, i, k);
    }
  }

  /** The invariant holds after every enabled step. */
  lemma StepKeeps(s: State, op: Op)
    requires Inv(s) && Enabled(s, op)
    ensures Inv(Step(s, op))
  {
    if IsDecision(s, op) {
      BeforeKeeps(s, op);
      DecideKeeps(BeforeDecision(s, op));
    } else {
      QuietKeeps(s, op);
    }
  }

  /** As `main` starts: only the initial task, with priority 1 and no counter. */
  const INITIAL := State([Task(RUNNING, 0, 1, 0)], 0, [FREE_TIMER, FREE_TIMER, FREE_TIMER, FREE_TIMER, FREE_TIMER], 0)

  lemma InitialInv()
    ensures Inv(INITIAL)
  {
    assert forall i: nat, k: nat :: !Sleeper(INITIAL, i, k);
  }

  // ---------- Preemption counts, and the failed fork ----------

  /** The loop changes nothing but counters, from any counters. */
  lemma {:induction false} SelectSame(tasks: seq<Task>, start: nat)
    requires start < N_TASKS && |tasks| <= N_TASKS && Hopeful(tasks)
    ensures SameButCounters(tasks, Select(tasks, start).0)
    decreases Distance(tasks)
  {
    PickExhausted(tasks, start);
    if Pick(tasks, start).0 <= 0 {
      RechargeProgress(tasks);
      SelectSame(Recharge(tasks), start);
    }
  }

  /** `_schedule` up to the selection, from any shape. */
  lemma WokenShape(d: State)
    requires Shape(d)
    ensures var w := Woken(d);
      && Shape(w) && |w.tasks| == |d.tasks| && w.current == d.current && Hopeful(w.tasks)
      && (forall k | 0 <= k < |d.tasks| ::
            w.tasks[k].preempt_count == d.tasks[k].preempt_count + if k == d.current then 1 else 0)
      && (forall i | 0 <= i < |d.timers| :: w.timers[i] == FREE_TIMER || w.timers[i] == d.timers[i])
  {
    assert Hope(Woken(d).tasks, 0);
  }

  /** A decision adds one to the count of the task it takes off, and takes one off the count of the task it switches
      to, whatever the counts, counters and timers are. */
  lemma DecideCounts(d: State)
    requires Shape(d)
    ensures var s := Decide(d);
      && Shape(s) && |s.tasks| == |d.tasks|
      && (forall k | 0 <= k < |d.tasks| ::
            s.tasks[k].preempt_count == d.tasks[k].preempt_count
              + (if k == d.current then 1 else 0) - (if k == s.current then 1 else 0))
      && (forall i | 0 <= i < |d.timers| :: s.timers[i] == FREE_TIMER || s.timers[i] == d.timers[i])
  {
    WokenShape(d);
    SelectSame(Woken(d).tasks, d.current);
    CountsAfter(d, Woken(d), Select(Woken(d).tasks, d.current).0, Decide(d));
  }

  lemma CountsAfter(d: State, w: State, tasks: seq<Task>, s: State)
    requires Shape(w) && |w.tasks| == |d.tasks| && SameButCounters(w.tasks, tasks) && s.current < |tasks|
    requires forall k | 0 <= k < |d.tasks| ::
      w.tasks[k].preempt_count == d.tasks[k].preempt_count + if k == d.current then 1 else 0
    requires s == Switched(w, tasks, s.current)
    ensures Shape(s) && |s.tasks| == |d.tasks|
    ensures forall k | 0 <= k < |d.tasks| ::
      s.tasks[k].preempt_count == d.tasks[k].preempt_count
        + (if k == d.current then 1 else 0) - (if k == s.current then 1 else 0)
  {
  }

  /** `kernel_fork` when no page is left: it returns between the disable and the enable. */
  function FailedFork(s: State): State
    requires Shape(s)
  {
    Disabled(s)
  }

  /** The hand-off holds after a fork exactly when the page was allocated. */
  lemma ForkHandOff(s: State, page: int)
    requires Inv(s) && Enabled(s, Fork)
    ensures HandOff(if page != 0 then Step(s, Fork) else FailedFork(s)) <==> page != 0
  {
    if page != 0 {
      StepKeeps(s, Fork);
    } else {
      assert FailedFork(s).tasks[s.current].preempt_count == 1;
    }
  }
}
