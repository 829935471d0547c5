/** Runs in which some forks find no page: what the missing enable costs, for ever. */
module SchedulerForks {
  import opened SchedulerModel
  import opened SchedulerInvariant

  /** A step of the scheduler, or a `kernel_fork` that finds no page. */
  datatype Event = Does(op: Op) | ForkFails

  datatype ForkRun = ForkRun(states: seq<State>, events: seq<Event>)

  ghost predicate IsForkRun(run: ForkRun) {
    && |run.states| == |run.events| + 1
    && Shape(run.states[0]) && HandOff(run.states[0])
    && forall i | 0 <= i < |run.events| :: EventAt(run, i)
  }

  ghost predicate EventAt(run: ForkRun, i: nat)
    requires i < |run.events| && |run.states| == |run.events| + 1
  {
    Happens(run.states[i], run.events[i], run.states[i + 1])
  }

  ghost predicate Happens(s: State, e: Event, s': State) {
    && Shape(s)
    && match e
       case Does(op) => Enabled(s, op) && s' == Step(s, op)
       case ForkFails => s' == FailedFork(s)
  }

  /** How many of the first `n` events are forks of task `k` that failed. */
  ghost function Owed(run: ForkRun, n: nat, k: nat): nat
    requires n <= |run.events| && n <= |run.states|
  {
    if n == 0 then 0
    else
      Owed(run, n - 1, k) +
      if run.events[n - 1].ForkFails? && run.states[n - 1].current == k then 1 else 0
  }

  /** The count of task `k` is the hand-off's, 0 for the current task and 1 for the others, and `owed` more. */
  predicate CountIs(s: State, k: nat, owed: nat) {
    k < |s.tasks| && s.tasks[k].preempt_count == (if k == s.current then 0 else 1) + owed
  }

  /** One step: the counts of the tasks there are move with the hand-off only, and a new task starts with the
      hand-off's. */
  lemma StepCounts(s: State, op: Op, k: nat, owed: nat)
    requires Shape(s) && Enabled(s, op) && (if k < |s.tasks| then CountIs(s, k, owed) else owed == 0)
    ensures Shape(Step(s, op)) && |Step(s, op).tasks| >= |s.tasks|
    ensures k < |Step(s, op).tasks| ==> CountIs(Step(s, op), k, owed)
  {
    if IsDecision(s, op) {
      DecideCounts(BeforeDecision(s, op));
    }
  }

  lemma EventCounts(s: State, e: Event, s': State, k: nat, owed: nat)
    requires Happens(s, e, s') && (if k < |s.tasks| then CountIs(s, k, owed) else owed == 0)
    ensures Shape(s') && |s'.tasks| >= |s.tasks|
    ensures k < |s'.tasks| ==> CountIs(s', k, owed + if e.ForkFails? && k == s.current then 1 else 0)
  {
    if e.Does? {
      StepCounts(s, e.op, k, owed);
    }
  }

  lemma {:induction false} NothingOwed(run: ForkRun, n: nat, k: nat)
    requires IsForkRun(run) && n <= |run.events|
    ensures Shape(run.states[n])
    ensures if k < |run.states[n].tasks| then CountIs(run.states[n], k, Owed(run, n, k)) else Owed(run, n, k) == 0
    decreases n
  {
    if n > 0 {
      NothingOwed(run, n - 1, k);
      assert EventAt(run, n - 1);
      EventCounts(run.states[n - 1], run.events[n - 1], run.states[n], k, Owed(run, n - 1, k));
    }
  }

  /** In every state of every run, each task's count is above the hand-off's by the number of its forks that have
      failed, whatever forks, ticks, yields, sleeps, exits and priority changes happen: none of them pays it back. */
  lemma CountsOwed(run: ForkRun, n: nat, k: nat)
    requires IsForkRun(run) && n <= |run.events| && k < |run.states[n].tasks|
    ensures CountIs(run.states[n], k, Owed(run, n, k))
  {
    NothingOwed(run, n, k);
  }

  /** Task `k` has had a fork fail in the first `n` events. */
  ghost predicate Owes(run: ForkRun, n: nat, k: nat)
    requires n <= |run.events| && n <= |run.states|
  {
    Owed(run, n, k) > 0
  }

  /** The hand-off holds in a state of a run exactly if no fork of a task has failed before. */
  lemma HandOffIff(run: ForkRun, n: nat)
    requires IsForkRun(run) && n <= |run.events|
    ensures HandOff(run.states[n]) <==> forall k | 0 <= k < |run.states[n].tasks| :: !Owes(run, n, k)
  {
    var s := run.states[n];
    forall k | 0 <= k < |s.tasks|
      ensures s.tasks[k].preempt_count == (if k == s.current then 0 else 1) <==> !Owes(run, n, k)
    {
      CountsOwed(run, n, k);
    }
  }

  /** A task with a failed fork is never taken off the processor by a tick again, however many ticks there are. */
  lemma NeverPreempted(run: ForkRun, n: nat)
    requires IsForkRun(run) && n < |run.events| && run.events[n] == Does(Tick)
    requires Owes(run, n, run.states[n].current)
    ensures run.states[n + 1].current == run.states[n].current
    ensures Owes(run, n + 1, run.states[n + 1].current)
  {
    NothingOwed(run, n, run.states[n].current);
    assert EventAt(run, n);
  }
}
