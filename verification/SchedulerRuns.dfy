/** The scheduler over whole runs: no starvation, bounded counters, exact sleeping, and final exits. */
module SchedulerRuns {
  import opened Collections
  import opened Wrappers
  import opened SchedulerModel
  import opened SchedulerInvariant

  /** The states of a run, and the steps between them, from any state that meets the invariant. */
  datatype Run = Run(states: seq<State>, ops: seq<Op>)

  ghost predicate IsRun(run: Run) {
    && |run.states| == |run.ops| + 1
    && Inv(run.states[0])
    && forall i | 0 <= i < |run.ops| :: StepAt(run, i)
  }

  ghost predicate StepAt(run: Run, i: nat)
    requires i < |run.ops| && |run.states| == |run.ops| + 1
  {
    StepsTo(run.states[i], run.ops[i], run.states[i + 1])
  }

  ghost predicate StepsTo(s: State, op: Op, s': State) {
    Shape(s) && Enabled(s, op) && s' == Step(s, op)
  }

  /** The invariant holds throughout: the hand-off, and the match of sleepers and timer slots. */
  lemma {:induction false} RunInv(run: Run, n: nat)
    requires IsRun(run) && n <= |run.ops|
    ensures var inv := Inv(run.states[n]); inv
    decreases n
  {
    if n > 0 {
      RunInv(run, n - 1);
      assert StepAt(run, n - 1);
      StepKeeps(run.states[n - 1], run.ops[n - 1]);
    }
  }

  lemma RunStep(run: Run, n: nat)
    requires IsRun(run) && n < |run.ops|
    ensures var step := Inv(run.states[n]) && StepsTo(run.states[n], run.ops[n], run.states[n + 1]); step
  {
    RunInv(run, n);
    assert StepAt(run, n);
  }

  ghost predicate DecidesAt(run: Run, i: nat)
    requires i < |run.ops| && i < |run.states|
  {
    Shape(run.states[i]) && IsDecision(run.states[i], run.ops[i])
  }

  /** How many of the first `n` steps run `_schedule`. */
  ghost function Decisions(run: Run, n: nat): nat
    requires n <= |run.ops| && n <= |run.states|
  {
    if n == 0 then 0 else Decisions(run, n - 1) + if DecidesAt(run, n - 1) then 1 else 0
  }

  // ---------- No starvation ----------

  /** The tasks that can still be picked before task `t`: not yet created, or with a counter left. */
  ghost function Rivals(s: State, t: nat): set<nat> {
    set u: nat | u < N_TASKS && u != t && u != s.current && (u >= |s.tasks| || s.tasks[u].counter > 0)
  }

  /** A bound on the decisions before `t` is picked. */
  ghost function Wait(s: State, t: nat): nat
    requires t < |s.tasks|
  {
    |Rivals(s, t)| + if s.tasks[t].counter > 0 then 0 else N_TASKS - 1
  }

  ghost predicate Eager(s: State, t: nat) {
    Ready(s.tasks, t) && s.tasks[t].priority > 0
  }

  lemma {:induction false} SetBound(a: set<nat>, n: nat)
    requires forall u | u in a :: u < n
    ensures |a| <= n
    decreases n
  {
    if n > 0 {
      SetBound(a - {n - 1}, n - 1);
    } else {
      assert a == {};
    }
  }

  lemma RivalsBound(s: State, t: nat)
    requires t < N_TASKS && s.current < N_TASKS && t != s.current
    ensures |Rivals(s, t)| <= N_TASKS - 2
  {
    SetBound(Rivals(s, t) + {t} + {s.current}, N_TASKS);
  }

  /** A step that does not decide never lengthens the wait. */
  lemma QuietWait(s: State, op: Op, t: nat)
    requires Inv(s) && Enabled(s, op) && !IsDecision(s, op) && t < |s.tasks|
    ensures Step(s, op).current == s.current && Wait(Step(s, op), t) <= Wait(s, t)
  {
    SubsetSize(Rivals(Step(s, op), t), Rivals(s, t));
  }

  lemma DecideRecharges(d: State)
    requires Shape(d) && TimersMatch(d) && CountersUpTo(d.tasks, 2 * MAX_PRIORITY - 1)
    ensures var recharging := Recharging(Woken(d), Decide(d)); recharging
  {
    var w, tasks, next := DecideSelects(d, MAX_PRIORITY);
    SwitchedSame(w, tasks, next, Decide(d));
    SelectedRecharges(w, d.current, tasks, next, Decide(d));
  }

  lemma SelectedRecharges(w: State, start: nat, tasks: seq<Task>, next: nat, s: State)
    requires start < N_TASKS && Selected(w.tasks, start, 2 * MAX_PRIORITY - 1, tasks, next)
    requires |s.tasks| == |tasks| && s.current == next
    requires forall k | 0 <= k < |tasks| ::
      s.tasks[k].counter == tasks[k].counter && s.tasks[k].priority == tasks[k].priority
    ensures var recharging := Recharging(w, s); recharging
  {
  }

  lemma BeforeWoken(s: State, op: Op)
    requires Inv(s) && Enabled(s, op) && IsDecision(s, op)
    ensures WokenFor(s, Woken(BeforeDecision(s, op)))
  {
    BeforeKeeps(s, op);
    WokenKeeps(BeforeDecision(s, op));
  }

  /** What a decision does to the other tasks' counters. */
  lemma DecisionCounters(s: State, op: Op)
    requires Inv(s) && Enabled(s, op) && IsDecision(s, op)
    ensures WokenFor(s, Woken(BeforeDecision(s, op)))
    ensures Recharging(Woken(BeforeDecision(s, op)), Step(s, op))
  {
    BeforeWoken(s, op);
    BeforeKeeps(s, op);
    DecideRecharges(BeforeDecision(s, op));
  }

  /** Up to the selection: the outgoing counter is 0, and the other tasks are as ready as before. */
  ghost predicate WokenFor(s: State, w: State) {
    && |w.tasks| == |s.tasks| && s.current < |s.tasks| && w.tasks[s.current].counter == 0
    && forall k | 0 <= k < |s.tasks| && k != s.current ::
         && w.tasks[k].counter == s.tasks[k].counter && w.tasks[k].priority == s.tasks[k].priority
         && (s.tasks[k].state == RUNNING ==> w.tasks[k].state == RUNNING)
  }

  /** The selection: counters change only when they are exhausted, and then all become positive. */
  ghost predicate Recharging(w: State, s': State) {
    && |s'.tasks| == |w.tasks| && s'.current < |s'.tasks| && s'.tasks[s'.current].counter > 0
    && (forall k | 0 <= k < |w.tasks| :: s'.tasks[k].priority == w.tasks[k].priority)
    && (!Exhausted(w.tasks) ==> forall k | 0 <= k < |w.tasks| :: s'.tasks[k].counter == w.tasks[k].counter)
    && (Exhausted(w.tasks) ==> forall k | 0 <= k < |w.tasks| && w.tasks[k].priority > 0 :: s'.tasks[k].counter > 0)
  }

  /** A decision that does not pick a waiting task shortens its wait. */
  lemma DecisionWait(s: State, op: Op, t: nat)
    requires Inv(s) && Enabled(s, op) && IsDecision(s, op)
    requires Eager(s, t) && s.current != t && Step(s, op).current != t
    ensures Wait(Step(s, op), t) < Wait(s, t)
  {
    DecisionCounters(s, op);
    var s', w := Step(s, op), Woken(BeforeDecision(s, op));
    if Exhausted(w.tasks) {
      assert Ready(w.tasks, t);
      SmallCounter(w.tasks[t].counter);
      RivalsBound(s', t);
    } else {
      assert s'.current in Rivals(s, t);
      SubsetSize(Rivals(s', t), Rivals(s, t) - {s'.current});
    }
  }

  ghost predicate PickedBy(run: Run, n: nat, t: nat)
    requires n <= |run.ops| < |run.states|
  {
    exists i: nat :: i < n && DecidesAt(run, i) && run.states[i + 1].current == t
  }

  /** After `k` decisions that passed `t` over, so much of the budget is left. */
  ghost predicate Budget(s: State, t: nat, k: nat) {
    k > 0 ==> t < |s.tasks| && s.current != t && Wait(s, t) + k <= 2 * N_TASKS - 2
  }

  lemma BudgetStep(s: State, op: Op, s': State, t: nat, k: nat)
    requires var ok := Inv(s) && StepsTo(s, op, s') && Inv(s'); ok && Eager(s, t) && Eager(s', t)
    requires var budget := Budget(s, t, k); budget
    requires IsDecision(s, op) ==> s'.current != t
    ensures Budget(s', t, if IsDecision(s, op) then k + 1 else k)
  {
    if IsDecision(s, op) {
      RivalsBound(s', t);
      if k > 0 {
        DecisionWait(s, op, t);
      }
    } else {
      QuietWait(s, op, t);
    }
  }

  ghost predicate AlwaysEager(run: Run, t: nat) {
    forall i | 0 <= i < |run.states| :: Eager(run.states[i], t)
  }

  /** While `t` is passed over, each decision uses up one unit of a fixed budget. */
  lemma {:induction false} PassedOver(run: Run, n: nat, t: nat)
    requires IsRun(run) && n <= |run.ops| && (var eager := AlwaysEager(run, t); eager)
    requires var picked := PickedBy(run, n, t); !picked
    ensures Budget(run.states[n], t, Decisions(run, n))
    decreases n
  {
    if n > 0 {
      NotPickedBefore(run, n - 1, t);
      PassedOver(run, n - 1, t);
      PassedOnce(run, n - 1, t);
    }
  }

  lemma NotPickedBefore(run: Run, n: nat, t: nat)
    requires n < |run.ops| < |run.states| && !PickedBy(run, n + 1, t)
    ensures var picked := PickedBy(run, n, t); !picked
    ensures DecidesAt(run, n) ==> run.states[n + 1].current != t
  {
  }

  lemma PassedOnce(run: Run, n: nat, t: nat)
    requires IsRun(run) && n < |run.ops| && (var eager := AlwaysEager(run, t); eager)
    requires DecidesAt(run, n) ==> run.states[n + 1].current != t
    requires var budget := Budget(run.states[n], t, Decisions(run, n)); budget
    ensures var budget := Budget(run.states[n + 1], t, Decisions(run, n + 1)); budget
  {
    RunStep(run, n);
    RunInv(run, n + 1);
    EagerAt(run, n, t);
    EagerAt(run, n + 1, t);
    OneMoreDecision(run, n);
    BudgetStep(run.states[n], run.ops[n], run.states[n + 1], t, Decisions(run, n));
  }

  lemma EagerAt(run: Run, n: nat, t: nat)
    requires n < |run.states| && AlwaysEager(run, t)
    ensures var eager := Eager(run.states[n], t); eager
  {
  }

  lemma OneMoreDecision(run: Run, n: nat)
    requires IsRun(run) && n < |run.ops|
    ensures Shape(run.states[n]) && (DecidesAt(run, n) <==> IsDecision(run.states[n], run.ops[n]))
    ensures Decisions(run, n + 1) == if DecidesAt(run, n) then Decisions(run, n) + 1 else Decisions(run, n)
  {
    RunInv(run, n);
  }

  /** No starvation: a task that stays RUNNING with a priority of at least 1 is picked within
      2 * N_TASKS - 1 scheduling decisions, whatever forks, ticks, sleeps, exits and priority changes
      happen meanwhile. */
  lemma NoStarvation(run: Run, t: nat)
    requires IsRun(run) && AlwaysEager(run, t)
    requires Decisions(run, |run.ops|) >= 2 * N_TASKS - 1
    ensures PickedBy(run, |run.ops|, t)
  {
    if !PickedBy(run, |run.ops|, t) {
      PassedOver(run, |run.ops|, t);
    }
  }

  // ---------- The choice ----------

  /** A decision picks the first maximum: the largest counter among the ready tasks, and of those that
      have it the nearest ahead of the outgoing task. */
  lemma DecisionPicks(s: State, op: Op, s': State)
    requires var ok := Inv(s) && StepsTo(s, op, s'); ok && IsDecision(s, op)
    ensures Ready(s'.tasks, s'.current) && s'.tasks[s'.current].counter > 0
    ensures IsFirstMaximum(s'.tasks, s.current, N_TASKS, s'.tasks[s'.current].counter, s'.current)
  {
    BeforeKeeps(s, op);
    DecidePicks(BeforeDecision(s, op), s');
  }

  lemma DecidePicks(d: State, s': State)
    requires Shape(d) && TimersMatch(d) && CountersUpTo(d.tasks, 2 * MAX_PRIORITY - 1) && s' == Decide(d)
    ensures Ready(s'.tasks, s'.current) && s'.tasks[s'.current].counter > 0
    ensures var first := IsFirstMaximum(s'.tasks, d.current, N_TASKS, s'.tasks[s'.current].counter, s'.current); first
  {
    var w, tasks, next := DecideSelects(d, MAX_PRIORITY);
    SwitchedSame(w, tasks, next, s');
    SelectedParts(w.tasks, d.current, 2 * MAX_PRIORITY - 1, tasks, next);
    SameChoice(tasks, s'.tasks, d.current, tasks[next].counter, next);
  }

  lemma SameChoice(a: seq<Task>, b: seq<Task>, start: nat, c: int, next: nat)
    requires start < N_TASKS && |a| == |b|
    requires forall k | 0 <= k < |a| :: a[k].state == b[k].state && a[k].counter == b[k].counter
    requires IsFirstMaximum(a, start, N_TASKS, c, next)
    ensures var first := IsFirstMaximum(b, start, N_TASKS, c, next); first
  {
    forall k: nat | k < N_TASKS && Ready(b, k)
      ensures Ready(a, k)
    {
    }
  }

  // ---------- Counters ----------

  lemma StepCounters(s: State, op: Op, s': State, p: nat)
    requires var ok := Inv(s) && StepsTo(s, op, s'); ok && 1 <= p <= MAX_PRIORITY
    requires var bounded := PrioritiesUpTo(s.tasks, p) && CountersUpTo(s.tasks, 2 * p - 1); bounded
    ensures var bounded := CountersUpTo(s'.tasks, 2 * p - 1); bounded
  {
    if IsDecision(s, op) {
      BeforeKeeps(s, op);
      BeforeBounded(s, op, p);
      DecideCounters(BeforeDecision(s, op), p);
    } else {
      QuietCounters(s, op, p);
    }
  }

  lemma BeforeBounded(s: State, op: Op, p: nat)
    requires Shape(s) && Enabled(s, op) && IsDecision(s, op) && 1 <= p <= MAX_PRIORITY
    requires PrioritiesUpTo(s.tasks, p) && CountersUpTo(s.tasks, 2 * p - 1)
    ensures PrioritiesUpTo(BeforeDecision(s, op).tasks, p) && CountersUpTo(BeforeDecision(s, op).tasks, 2 * p - 1)
  {
  }

  lemma DecideCounters(d: State, p: nat)
    requires Shape(d) && TimersMatch(d) && 1 <= p <= MAX_PRIORITY
    requires PrioritiesUpTo(d.tasks, p) && CountersUpTo(d.tasks, 2 * p - 1)
    ensures var bounded := CountersUpTo(Decide(d).tasks, 2 * p - 1); bounded
  {
    var w, tasks, next := DecideSelects(d, p);
    SwitchedSame(w, tasks, next, Decide(d));
    SelectedParts(w.tasks, d.current, 2 * p - 1, tasks, next);
  }

  lemma QuietCounters(s: State, op: Op, p: nat)
    requires Inv(s) && Enabled(s, op) && !IsDecision(s, op) && 1 <= p <= MAX_PRIORITY
    requires PrioritiesUpTo(s.tasks, p) && CountersUpTo(s.tasks, 2 * p - 1)
    ensures CountersUpTo(Step(s, op).tasks, 2 * p - 1)
  {
  }

  ghost predicate PrioritiesAt(run: Run, i: nat, p: nat)
    requires i < |run.states|
  {
    PrioritiesUpTo(run.states[i].tasks, p)
  }

  /** If no priority exceeds P, no counter ever exceeds 2P - 1. */
  lemma {:induction false} CountersBounded(run: Run, n: nat, p: nat)
    requires IsRun(run) && n <= |run.ops| && 1 <= p <= MAX_PRIORITY
    requires forall i | 0 <= i < |run.states| :: PrioritiesAt(run, i, p)
    requires CountersUpTo(run.states[0].tasks, 2 * p - 1)
    ensures var bounded := CountersUpTo(run.states[n].tasks, 2 * p - 1); bounded
    decreases n
  {
    if n > 0 {
      CountersBounded(run, n - 1, p);
      assert PrioritiesAt(run, n - 1, p);
      BoundedStep(run, n - 1, p);
    }
  }

  lemma BoundedStep(run: Run, i: nat, p: nat)
    requires IsRun(run) && i < |run.ops| && 1 <= p <= MAX_PRIORITY && PrioritiesAt(run, i, p)
    requires var bounded := CountersUpTo(run.states[i].tasks, 2 * p - 1); bounded
    ensures var bounded := CountersUpTo(run.states[i + 1].tasks, 2 * p - 1); bounded
  {
    RunStep(run, i);
    StepCounters(run.states[i], run.ops[i], run.states[i + 1], p);
  }

  // ---------- Sleeping ----------

  /** Task `t` is BLOCKED, and its timer runs out at tick `finish`. */
  ghost predicate AsleepUntil(s: State, t: nat, finish: nat) {
    && t < |s.tasks| && s.tasks[t].state == BLOCKED
    && exists i: nat :: i < |s.timers| && s.timers[i] == Timer(finish, Some(t))
  }

  /** What a decision does to a sleeper that is asleep when `_schedule` starts. */
  lemma DecideSleeper(d: State, t: nat, finish: nat)
    requires Shape(d) && HandOff(d) && TimersMatch(d) && CountersUpTo(d.tasks, 2 * MAX_PRIORITY - 1)
    requires AsleepUntil(d, t, finish)
    ensures Decide(d).tick == d.tick
    ensures
      if finish <= d.tick then t < |Decide(d).tasks| && Decide(d).tasks[t].state == RUNNING
      else AsleepUntil(Decide(d), t, finish)
  {
    var i: nat :| i < |d.timers| && d.timers[i] == Timer(finish, Some(t));
    assert Sleeper(d, i, t);
    if finish <= d.tick {
      assert Expired(d.timers[i], d.tick);
    }
    WakesByOwn(d, i, t);
    DecideTimers(d);
    assert Decide(d).timers[i] == if finish <= d.tick then FREE_TIMER else d.timers[i];
  }

  /** A decision fires exactly the expired timers. */
  lemma DecideTimers(d: State)
    requires Shape(d) && TimersMatch(d) && CountersUpTo(d.tasks, 2 * MAX_PRIORITY - 1)
    ensures var s := Decide(d);
      && s.tick == d.tick && |s.tasks| == |d.tasks| && |s.timers| == |d.timers|
      && (forall k: nat | k < |d.tasks| ::
            s.tasks[k].state == if Wakes(d.timers, d.tick, k) then RUNNING else d.tasks[k].state)
      && (forall i: nat | i < |d.timers| ::
            s.timers[i] == if Expired(d.timers[i], d.tick) then FREE_TIMER else d.timers[i])
  {
    var w, tasks, next := DecideSelects(d, MAX_PRIORITY);
    SwitchedSame(w, tasks, next, Decide(d));
    SelectedParts(w.tasks, d.current, 2 * MAX_PRIORITY - 1, tasks, next);
  }

  /** One step of a sleeper: it wakes exactly at a decision whose tick has reached its finish time. */
  lemma SleeperStep(s: State, op: Op, s': State, t: nat, finish: nat)
    requires var ok := Inv(s) && StepsTo(s, op, s'); ok && AsleepUntil(s, t, finish)
    ensures
      if IsDecision(s, op) && finish <= s'.tick then t < |s'.tasks| && s'.tasks[t].state == RUNNING
      else AsleepUntil(s', t, finish)
  {
    var i: nat :| i < |s.timers| && s.timers[i] == Timer(finish, Some(t));
    assert Sleeper(s, i, t);
    if IsDecision(s, op) {
      var d := BeforeDecision(s, op);
      BeforeKeeps(s, op);
      assert d.timers[i] == s.timers[i];
      DecideSleeper(d, t, finish);
    } else {
      assert s'.timers[i] == s.timers[i];
    }
  }

  /** No decision from step `i` up to step `j` came at or after tick `finish`. */
  ghost predicate NoLateDecision(run: Run, i: nat, j: nat, finish: nat)
    requires j <= |run.ops| < |run.states|
  {
    forall m | i <= m < j && DecidesAt(run, m) :: run.states[m + 1].tick < finish
  }

  lemma {:induction false} SleepsOn(run: Run, i: nat, j: nat, t: nat, finish: nat)
    requires IsRun(run) && i <= j <= |run.ops| && AsleepUntil(run.states[i], t, finish)
    requires NoLateDecision(run, i, j, finish)
    ensures AsleepUntil(run.states[j], t, finish)
    decreases j
  {
    if i < j {
      SleepsOn(run, i, j - 1, t, finish);
      RunStep(run, j - 1);
      SleeperStep(run.states[j - 1], run.ops[j - 1], run.states[j], t, finish);
      assert DecidesAt(run, j - 1) ==> run.states[j].tick < finish;
    }
  }

  /** A sleeper wakes at the first decision at or past its finish time: before that it is BLOCKED, and
      right after that it is RUNNING. */
  lemma WakesOnTime(run: Run, i: nat, j: nat, t: nat, finish: nat)
    requires IsRun(run) && i <= j < |run.ops| && AsleepUntil(run.states[i], t, finish)
    requires NoLateDecision(run, i, j, finish)
    ensures t < |run.states[j].tasks| && run.states[j].tasks[t].state == BLOCKED
    ensures DecidesAt(run, j) && run.states[j + 1].tick >= finish ==>
      t < |run.states[j + 1].tasks| && run.states[j + 1].tasks[t].state == RUNNING
  {
    SleepsOn(run, i, j, t, finish);
    RunStep(run, j);
    SleeperStep(run.states[j], run.ops[j], run.states[j + 1], t, finish);
  }

  /** Ticks only count up. */
  lemma {:induction false} TicksGrow(run: Run, i: nat, j: nat)
    requires IsRun(run) && i <= j <= |run.ops|
    ensures run.states[i].tick <= run.states[j].tick
    decreases j
  {
    if i < j {
      TicksGrow(run, i, j - 1);
      TickGrowsAt(run, j - 1);
    }
  }

  lemma TickGrowsAt(run: Run, i: nat)
    requires IsRun(run) && i < |run.ops|
    ensures run.states[i].tick <= run.states[i + 1].tick
  {
    RunStep(run, i);
    TickStepGrows(run.states[i], run.ops[i], run.states[i + 1]);
  }

  lemma TickStepGrows(s: State, op: Op, s': State)
    requires var ok := Inv(s) && StepsTo(s, op, s'); ok
    ensures s.tick <= s'.tick
  {
    if IsDecision(s, op) {
      BeforeKeeps(s, op);
      DecideTimers(BeforeDecision(s, op));
    }
  }

  /** Registering: the task sleeps until the requested tick exactly when that tick lies ahead and fits in
      32 bits.  Otherwise the timer runs out in the very call that sets it. */
  lemma SleepHonoured(s: State, delay: nat, s': State)
    requires var ok := Inv(s) && StepsTo(s, Sleep(delay), s'); ok && FreeSlot(s.timers, 0) < N_TIMERS
    ensures var finish := s.tick + delay / SOFTWARE_TIMER_PRESCALER;
      && (AsleepUntil(s', s.current, finish) <==> s.tick < finish < 0x1_0000_0000)
      && (!(s.tick < finish < 0x1_0000_0000) ==> s.current < |s'.tasks| && s'.tasks[s.current].state == RUNNING)
  {
    var finish := s.tick + delay / SOFTWARE_TIMER_PRESCALER;
    DelayBound(s, delay);
    SleepDecided(s, delay, s', finish);
    SleepOutcome(s.tick, finish, s.current, s');
  }

  /** A delay of less than 100 ms is no delay at all. */
  lemma ShortSleep(s: State, delay: nat, s': State)
    requires Inv(s) && StepsTo(s, Sleep(delay), s') && FreeSlot(s.timers, 0) < N_TIMERS
    requires delay < SOFTWARE_TIMER_PRESCALER
    ensures s.current < |s'.tasks| && s'.tasks[s.current].state == RUNNING
  {
    SleepHonoured(s, delay, s');
  }

  lemma DelayBound(s: State, delay: nat)
    requires var ok := Shape(s) && Enabled(s, Sleep(delay)); ok
    ensures 0 <= delay / SOFTWARE_TIMER_PRESCALER < 0x1_0000_0000
  {
  }

  lemma SleepOutcome(tick: nat, finish: nat, t: nat, s': State)
    requires tick <= finish < tick + 0x1_0000_0000
    requires
      if Unsigned32(finish) <= tick then t < |s'.tasks| && s'.tasks[t].state == RUNNING
      else AsleepUntil(s', t, Unsigned32(finish))
    ensures AsleepUntil(s', t, finish) <==> tick < finish < 0x1_0000_0000
    ensures !(tick < finish < 0x1_0000_0000) ==> t < |s'.tasks| && s'.tasks[t].state == RUNNING
  {
    WrapsEarly(tick, finish);
  }

  lemma SleepDecided(s: State, delay: nat, s': State, finish: nat)
    requires var ok := Inv(s) && StepsTo(s, Sleep(delay), s'); ok && FreeSlot(s.timers, 0) < N_TIMERS
    requires finish == s.tick + delay / SOFTWARE_TIMER_PRESCALER
    ensures if Unsigned32(finish) <= s.tick then s.current < |s'.tasks| && s'.tasks[s.current].state == RUNNING
            else AsleepUntil(s', s.current, Unsigned32(finish))
  {
    SleepRegistered(s, delay, finish);
    BeforeKeeps(s, Sleep(delay));
    DecideSleeper(BeforeDecision(s, Sleep(delay)), s.current, Unsigned32(finish));
  }

  lemma SleepRegistered(s: State, delay: nat, finish: nat)
    requires var ok := Shape(s) && Enabled(s, Sleep(delay)); ok && FreeSlot(s.timers, 0) < N_TIMERS
    requires finish == s.tick + delay / SOFTWARE_TIMER_PRESCALER
    ensures BeforeDecision(s, Sleep(delay)).tick == s.tick
    ensures AsleepUntil(BeforeDecision(s, Sleep(delay)), s.current, Unsigned32(finish))
  {
    AsleepBefore(s, delay, FreeSlot(s.timers, 0), finish);
  }

  lemma AsleepBefore(s: State, delay: nat, slot: nat, finish: nat)
    requires Shape(s) && slot < N_TIMERS && finish == s.tick + delay / SOFTWARE_TIMER_PRESCALER && s.current != 0
    ensures var d := CounterZeroed(Asleep(s, slot, delay));
      d.tick == s.tick && AsleepUntil(d, s.current, Unsigned32(finish))
  {
    var d := CounterZeroed(Asleep(s, slot, delay));
    assert d.timers[slot] == Timer(Unsigned32(finish), Some(s.current));
  }

  /** A wrapped finish time already lies behind. */
  lemma WrapsEarly(tick: nat, finish: nat)
    requires tick <= finish < tick + 0x1_0000_0000
    ensures Unsigned32(finish) <= tick <==> !(tick < finish < 0x1_0000_0000)
    ensures finish < 0x1_0000_0000 ==> Unsigned32(finish) == finish
  {
  }

  /** No early wake-up, over the whole run: a task that went to sleep at step `i` for a delay that fits is
      BLOCKED in every later state before its finish tick. */
  lemma NeverEarly(run: Run, i: nat, j: nat, delay: nat)
    requires IsRun(run) && i < j <= |run.ops| && run.ops[i] == Sleep(delay)
    requires FreeSlot(run.states[i].timers, 0) < N_TIMERS
    requires var finish := run.states[i].tick + delay / SOFTWARE_TIMER_PRESCALER;
      run.states[j].tick < finish < 0x1_0000_0000
    ensures var t := run.states[i].current; t < |run.states[j].tasks| && run.states[j].tasks[t].state == BLOCKED
  {
    var t, finish := run.states[i].current, run.states[i].tick + delay / SOFTWARE_TIMER_PRESCALER;
    TicksGrow(run, i, j);
    FallsAsleep(run, i, delay, t, finish);
    StillAsleep(run, i + 1, j, t, finish);
    IsBlocked(run.states[j], t, finish);
  }

  lemma FallsAsleep(run: Run, i: nat, delay: nat, t: nat, finish: nat)
    requires IsRun(run) && i < |run.ops| && run.ops[i] == Sleep(delay) && FreeSlot(run.states[i].timers, 0) < N_TIMERS
    requires t == run.states[i].current && finish == run.states[i].tick + delay / SOFTWARE_TIMER_PRESCALER
    requires run.states[i].tick < finish < 0x1_0000_0000
    ensures var asleep := AsleepUntil(run.states[i + 1], t, finish); asleep
  {
    RunStep(run, i);
    SleepHonoured(run.states[i], delay, run.states[i + 1]);
  }

  lemma IsBlocked(s: State, t: nat, finish: nat)
    requires AsleepUntil(s, t, finish)
    ensures t < |s.tasks| && s.tasks[t].state == BLOCKED
  {
  }

  /** Before its finish tick a sleeper is BLOCKED: all decisions so far came earlier still. */
  lemma StillAsleep(run: Run, i: nat, j: nat, t: nat, finish: nat)
    requires IsRun(run) && i <= j <= |run.ops| && run.states[j].tick < finish
    requires var asleep := AsleepUntil(run.states[i], t, finish); asleep
    ensures var asleep := AsleepUntil(run.states[j], t, finish); asleep
  {
    forall m | i <= m < j && DecidesAt(run, m)
      ensures run.states[m + 1].tick < finish
    {
      TicksGrow(run, m + 1, j);
    }
    SleepsOn(run, i, j, t, finish);
  }

  /** With every slot taken the call changes nothing. */
  lemma SleepWithoutSlot(s: State, delay: nat)
    requires Inv(s) && Enabled(s, Sleep(delay))
    ensures (forall i | 0 <= i < N_TIMERS :: s.timers[i].task.Some?) <==>
      Step(s, Sleep(delay)) == s && !IsDecision(s, Sleep(delay))
  {
    var slot := FreeSlot(s.timers, 0);
    if slot < N_TIMERS {
      assert s.timers[slot].task == None;
    }
  }

  // ---------- Exits ----------

  predicate HasExited(s: State, t: nat) {
    t < |s.tasks| && s.tasks[t].state == ZOMBIE
  }

  lemma ZombieStep(s: State, op: Op, s': State, t: nat)
    requires var ok := Inv(s) && StepsTo(s, op, s'); ok && HasExited(s, t)
    ensures HasExited(s', t)
  {
    if IsDecision(s, op) {
      var d := BeforeDecision(s, op);
      BeforeKeeps(s, op);
      DecideTimers(d);
      WakesSleeper(d, t);
    }
  }

  lemma ZombieOnce(run: Run, n: nat, t: nat)
    requires IsRun(run) && n < |run.ops| && (var exited := HasExited(run.states[n], t); exited)
    ensures var exited := HasExited(run.states[n + 1], t); exited
  {
    RunStep(run, n);
    ZombieStep(run.states[n], run.ops[n], run.states[n + 1], t);
  }

  lemma NotCurrent(s: State, t: nat)
    requires Inv(s) && HasExited(s, t)
    ensures s.current != t
  {
  }

  /** A task that has exited never runs again. */
  lemma {:induction false} ZombieForever(run: Run, i: nat, j: nat, t: nat)
    requires IsRun(run) && i <= j <= |run.ops| && (var exited := HasExited(run.states[i], t); exited)
    ensures (var exited := HasExited(run.states[j], t); exited) && run.states[j].current != t
    decreases j
  {
    if i < j {
      ZombieForever(run, i, j - 1, t);
      ZombieOnce(run, j - 1, t);
    }
    RunInv(run, j);
    NotCurrent(run.states[j], t);
  }
}
