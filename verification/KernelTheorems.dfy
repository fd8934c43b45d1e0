/** What holds of the scheduler in every state it can reach from boot, and of every run from there. */
module KernelTheorems {
  import opened Sequences
  import opened KernelState
  import opened SchedulerInvariant
  import opened SchedulerRuns
  import opened SleepRuns
  import opened SyncRuns
  import opened StepEffects
  import opened EffectRuns

  /** s is the state after some interleaving of steps from boot, for some idle and first task. */
  ghost predicate Reachable(s: KState) {
    exists idle: Tid, first: Tid, steps: seq<Step> ::
      idle != first && CanRun(Boot(idle, first), steps) && s == Run(Boot(idle, first), steps)
  }

  lemma ReachableInv(s: KState)
    requires Reachable(s)
    ensures Inv(s)
  {
    var idle: Tid, first: Tid, steps: seq<Step> :|
      idle != first && CanRun(Boot(idle, first), steps) && s == Run(Boot(idle, first), steps);
    BootInv(idle, first);
    RunInv(Boot(idle, first), steps);
  }

  /** In every reachable state the running task is the head of the ready list, or idle exactly when that
      list is empty; no task is queued twice and idle never; slices and sleepers have ticks left; a task
      is in state SLEEP exactly while it is on the sleep list; a semaphore with a count has no waiter. */
  lemma ReachableSafety(s: KState, t: Tid, k: nat)
    requires Reachable(s)
    ensures s.curr == if s.ready == [] then s.idle else s.ready[0]
    ensures (s.curr == s.idle) <==> s.ready == []
    ensures Placed(s)[t] <= 1 && Placed(s)[s.idle] == 0
    ensures t in s.tasks ==> 1 <= s.tasks[t].sliceTicks <= TASK_TIME_SLICE_DEFAULT
    ensures t in s.tasks ==> (s.tasks[t].state == TaskSleep <==> t in s.sleeping)
    ensures t in s.sleeping ==> t in s.tasks && s.tasks[t].sleepTicks >= 1
    ensures IsSem(s, k) ==> s.objects[k].count >= 0 && (s.objects[k].count > 0 ==> s.objects[k].waiting == [])
  {
    ReachableInv(s);
    Queues(s);
    if s.ready != [] { assert s.ready[0] in s.ready; }
    assert t !in Placed(s) ==> Placed(s)[t] == 0;
    assert s.idle !in Placed(s);
    if IsSem(s, k) { assert ObjectOk(s.objects[k], s.idle, s.tasks); }
  }

  /** From boot on, the queued tasks are exactly the first one and those started since, each once, if and only
      if no sys_msleep of the run asked for more than LONGEST_SLEEP_MS. */
  lemma NoTaskLostSinceBoot(idle: Tid, first: Tid, steps: seq<Step>)
    requires idle != first && CanRun(Boot(idle, first), steps)
    ensures Placed(Run(Boot(idle, first), steps)) == multiset{first} + Started(steps) <==> AllShortSleeps(steps)
    ensures forall t :: Placed(Run(Boot(idle, first), steps))[t] <= 1
  {
    BootInv(idle, first);
    assert Placed(Boot(idle, first)) == multiset{first};
    NoTaskLost(Boot(idle, first), steps);
  }

  /** The task at position p of the ready list runs within TASK_TIME_SLICE_DEFAULT * p ticks. */
  lemma RoundRobin(s: KState, steps: seq<Step>, p: nat) returns (k: nat)
    requires Reachable(s) && CanRun(s, steps) && p < |s.ready|
    requires Ticks(steps) >= TASK_TIME_SLICE_DEFAULT * p
    ensures k <= |steps| && Run(s, steps[..k]).curr == s.ready[p]
    ensures Ticks(steps[..k]) <= TASK_TIME_SLICE_DEFAULT * p
  {
    ReachableInv(s);
    CoreKnown(s);
    Queues(s);
    AheadBounds(s.ready, s.tasks, p);
    k := BoundedWaiting(s, steps, s.ready[p]);
  }

  /** sys_msleep(ms) sleeps for max(1, ceil(ms / OS_TICK_MS)) ticks and then is ready until it runs. */
  lemma SleepsAsAsked(s: KState, ms: nat, steps: seq<Step>, n: nat)
    requires Reachable(s) && s.curr != s.idle && ms <= LONGEST_SLEEP_MS
    requires CanRun(Next(s, Msleep(ms)), steps)
    requires n == if ms == 0 then 1 else (ms + OS_TICK_MS - 1) / OS_TICK_MS
    ensures var r := Run(Next(s, Msleep(ms)), steps);
            && (Ticks(steps) < n ==> s.curr in r.sleeping && s.curr !in r.ready)
            && (Ticks(steps) >= n && NotYetCurrent(Next(s, Msleep(ms)), steps, s.curr) ==> s.curr in r.ready)
  {
    ReachableInv(s);
    SleepsExactly(s, ms, steps, n);
  }

  /** The whole of a sleep: ready exactly at the n-th tick, behind p tasks, and running within
      n + TASK_TIME_SLICE_DEFAULT * p ticks of the call. */
  lemma SleepsThenRuns(s: KState, ms: nat, steps: seq<Step>, n: nat) returns (w: nat, p: nat, k: nat)
    requires Reachable(s) && s.curr != s.idle && ms <= LONGEST_SLEEP_MS
    requires CanRun(Next(s, Msleep(ms)), steps)
    requires n == if ms == 0 then 1 else (ms + OS_TICK_MS - 1) / OS_TICK_MS
    requires Ticks(steps) >= n
    ensures 0 < w <= |steps| && steps[w - 1] == Tick && Ticks(steps[..w]) == n
    ensures var woken := Run(Next(s, Msleep(ms)), steps[..w]);
            && p < |woken.ready| && woken.ready[p] == s.curr
            && (Ticks(steps) >= n + TASK_TIME_SLICE_DEFAULT * p ==>
                  && w <= k <= |steps| && Run(Next(s, Msleep(ms)), steps[..k]).curr == s.curr
                  && Ticks(steps[..k]) <= n + TASK_TIME_SLICE_DEFAULT * p)
  {
    ReachableInv(s);
    w, p, k := SleepsAndRuns(s, ms, steps, n);
  }

  /** A call of sys_msleep with a longer delay takes the caller off the ready list and puts it nowhere. */
  lemma OverlongSleepLosesCaller(s: KState, ms: nat)
    requires Reachable(s) && s.curr != s.idle && ms < UINT32
    ensures s.curr in Placed(Next(s, Msleep(ms))) <==> ms <= LONGEST_SLEEP_MS
  {
    hide Core, Placed, Known, Apply, SleepTicks;
    ReachableInv(s);
    NextInv(s, Msleep(ms));
    StepKeepsInv(s, Msleep(ms));
    CurrentPlacedOnce(s);
  }

  lemma CurrentPlacedOnce(s: KState)
    requires Inv(s) && s.curr != s.idle
    ensures Placed(s)[s.curr] == 1
  {
    assert s.curr in s.ready && s.curr in Placed(s);
  }

  /** The tasks whose sem_wait has completed are the first callers since sem_init, in the order of their
      calls, and as many as there were notifies if that many called. */
  lemma SemaphoreFirstComeFirstServed(s: KState, initCount: int, steps: seq<Step>)
    requires Reachable(s) && CanRun(Next(s, NewSem(initCount)), steps)
    ensures var s0, k := Next(s, NewSem(initCount)), |s.objects|;
            var calls, grants := Calls(s0, steps, k), Grants(s0, steps, k);
            && grants <= calls
            && |grants| == (if |calls| < Notifies(steps, k) then |calls| else Notifies(steps, k))
  {
    ReachableInv(s);
    SemaphoreFifo(s, initCount, steps);
  }

  /** The first task starts with a whole slice of 10 ticks: without giving up the processor it runs for 10 ticks,
      whatever it starts, and after the tenth the next in line runs, if there is one. */
  lemma FirstSlice(idle: Tid, first: Tid, steps: seq<Step>)
    requires idle != first && CanRun(Boot(idle, first), steps + [Tick]) && CanRun(Boot(idle, first), steps)
    requires KeepsOn(Boot(idle, first), steps) && Ticks(steps) <= 9
    ensures Boot(idle, first).tasks[first] == TaskInfo(TaskReady, 10, 0)
    ensures Boot(idle, first).tasks[idle] == TaskInfo(TaskCreated, 10, 0)
    ensures Run(Boot(idle, first), steps).curr == first
    ensures var mid, r := Run(Boot(idle, first), steps), Run(Boot(idle, first), steps + [Tick]);
            Ticks(steps) == 9 ==> r.curr == if |mid.ready| > 1 then mid.ready[1] else first
  {
    BootInv(idle, first);
    SliceLasts(Boot(idle, first), steps);
    if Ticks(steps) == 9 {
      SliceEnds(Boot(idle, first), steps);
    }
  }

  /** A task that is started runs within TASK_TIME_SLICE_DEFAULT ticks for each task that is ready at its start. */
  lemma StartedTaskRuns(s: KState, t: Tid, steps: seq<Step>) returns (k: nat)
    requires Reachable(s) && Enabled(s, Start(t)) && CanRun(Next(s, Start(t)), steps)
    requires Ticks(steps) >= TASK_TIME_SLICE_DEFAULT * |s.ready|
    ensures k <= |steps| && Run(Next(s, Start(t)), steps[..k]).curr == t
    ensures Ticks(steps[..k]) <= TASK_TIME_SLICE_DEFAULT * |s.ready|
  {
    ReachableInv(s);
    k := StartedRuns(s, t, steps);
  }
}
