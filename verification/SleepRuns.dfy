/** sys_msleep sleeps for exactly the number of ticks it asks for, over every run. */
module SleepRuns {
  import opened Sequences
  import opened KernelState
  import opened SchedulerInvariant
  import opened SchedulerRuns

  lemma TickOnSleeper(s: KState, t: Tid)
    requires Known(s) && t in s.sleeping && t != s.curr
    ensures var r := TickStep(s);
            if s.tasks[t].sleepTicks == 1 then t in r.ready
            else t in r.sleeping && r.tasks[t].sleepTicks == s.tasks[t].sleepTicks - 1
  {
    hide Woken, Dozing;
    var charged := ChargeSlice(s);
    SplitSleepers(charged.sleeping, charged.tasks);
    assert charged.tasks[t] == s.tasks[t];
  }

  lemma PlainStepOnSleeper(s: KState, st: Step, t: Tid)
    requires Known(s) && Enabled(s, st) && st != Tick && t in s.sleeping && t != s.curr
    requires !st.SemWait? && !st.SemNotify? && !st.MutexLock? && !st.MutexUnlock?
    ensures var r := Apply(s, st);
            t in r.sleeping && t in r.tasks && r.tasks[t].sleepTicks == s.tasks[t].sleepTicks
  {
    hide SemWaitStep, SemNotifyStep, MutexLockStep, MutexUnlockStep, TickStep, SleepTicks, Without;
  }

  lemma SyncStepOnSleeper(s: KState, st: Step, t: Tid)
    requires Known(s) && Enabled(s, st) && t in s.sleeping
    requires st.SemWait? || st.SemNotify? || st.MutexLock? || st.MutexUnlock?
    ensures var r := Apply(s, st);
            t in r.sleeping && t in r.tasks && r.tasks[t].sleepTicks == s.tasks[t].sleepTicks
  {
    hide MsleepStep, YieldStep, CreateStep, TickStep, Without;
  }

  lemma OtherStepOnSleeper(s: KState, st: Step, t: Tid)
    requires Known(s) && Enabled(s, st) && st != Tick && t in s.sleeping && t != s.curr
    ensures var r := Apply(s, st);
            t in r.sleeping && t in r.tasks && r.tasks[t].sleepTicks == s.tasks[t].sleepTicks
  {
    hide Apply;
    if st.SemWait? || st.SemNotify? || st.MutexLock? || st.MutexUnlock? {
      SyncStepOnSleeper(s, st, t);
    } else {
      PlainStepOnSleeper(s, st, t);
    }
  }

  lemma SleeperIsNotCurrent(s: KState, t: Tid)
    requires Inv(s) && t in s.sleeping
    ensures Known(s) && t != s.curr && t !in s.ready && s.tasks[t].sleepTicks >= 1
  {
    CoreKnown(s);
    Queues(s);
  }

  /** One step of a run, as a sleeper sees it. */
  lemma SleeperStep(s: KState, st: Step, t: Tid)
    requires Inv(s) && Enabled(s, st) && t in s.sleeping
    ensures t in s.tasks && s.tasks[t].sleepTicks >= 1 && t != s.curr && t !in s.ready
    ensures var r := Next(s, st);
            && Inv(r)
            && if st == Tick && s.tasks[t].sleepTicks == 1 then t in r.ready && t !in r.sleeping
               else t in r.sleeping && t in r.tasks
                    && r.tasks[t].sleepTicks == s.tasks[t].sleepTicks - if st == Tick then 1 else 0
  {
    SleeperIsNotCurrent(s, t);
    NextInv(s, st);
    SleeperIsKnown(s, t);
    ReadyOrAsleep(Next(s, st), t);
    hide Inv, TickStep;
    if st == Tick {
      SleeperIsKnown(Next(s, st), t);
      TickOnSleeper(s, t);
    } else {
      OtherStepOnSleeper(s, st, t);
    }
  }

  lemma ReadyOrAsleep(s: KState, t: Tid)
    requires Inv(s)
    ensures t in s.ready ==> t !in s.sleeping
  {
    Queues(s);
  }

  lemma SleeperIsKnown(s: KState, t: Tid)
    requires Inv(s)
    ensures t in s.sleeping ==> t in s.tasks
  {
  }

  /** Task t is current in none of the states the run passes through before its last one. */
  predicate NotYetCurrent(s: KState, steps: seq<Step>, t: Tid)
    decreases |steps|
  {
    steps == [] || (s.curr != t && NotYetCurrent(Next(s, steps[0]), steps[1..], t))
  }

  lemma InvKnown(s: KState)
    requires Inv(s)
    ensures Known(s)
  {
    CoreKnown(s);
  }

  lemma {:induction false} ReadyUntilCurrent(s: KState, steps: seq<Step>, t: Tid)
    requires Inv(s) && CanRun(s, steps) && t in s.ready && NotYetCurrent(s, steps, t)
    ensures t in Run(s, steps).ready
    decreases |steps|
  {
    if steps != [] {
      InvKnown(s);
      hide Inv, Next, Enabled, Ahead;
      WaitShrinks(s, steps[0], t);
      ReadyUntilCurrent(Next(s, steps[0]), steps[1..], t);
    }
  }

  /** While fewer ticks have come than t asked for it is asleep and not ready; from the last of them on it is
      ready until it gets the processor. */
  lemma {:induction false} SleeperOverRun(s: KState, steps: seq<Step>, t: Tid)
    requires Inv(s) && CanRun(s, steps) && t in s.sleeping
    ensures t in s.tasks
    ensures var r, n := Run(s, steps), s.tasks[t].sleepTicks;
            && (Ticks(steps) < n ==>
                  t in r.sleeping && t !in r.ready && t in r.tasks && r.tasks[t].sleepTicks == n - Ticks(steps))
            && (Ticks(steps) >= n && NotYetCurrent(s, steps, t) ==> t in r.ready)
    decreases |steps|
  {
    hide Inv, Next, Enabled;
    if steps != [] {
      var st := steps[0];
      SleeperStep(s, st, t);
      if t in Next(s, st).sleeping {
        SleeperOverRun(Next(s, st), steps[1..], t);
      } else if NotYetCurrent(s, steps, t) {
        ReadyUntilCurrent(Next(s, st), steps[1..], t);
      }
    } else {
      SleeperIsNotCurrent(s, t);
      SleeperIsKnown(s, t);
    }
  }

  lemma MsleepPuts(s: KState, ms: nat)
    requires Known(s) && s.curr != s.idle && 0 < SleepTicks(ms)
    ensures var r, t := MsleepStep(s, ms), s.curr;
            t in r.sleeping && r.tasks[t].sleepTicks == SleepTicks(ms)
  {
  }

  /** A task that calls sys_msleep(ms) without wrap-around sleeps for n = max(1, ceil(ms / OS_TICK_MS))
      ticks: asleep after every run with fewer, ready after every longer one in which it has not run yet. */
  lemma SleepsExactly(s: KState, ms: nat, steps: seq<Step>, n: nat)
    requires Inv(s) && Enabled(s, Msleep(ms)) && ms <= LONGEST_SLEEP_MS
    requires CanRun(Next(s, Msleep(ms)), steps)
    requires n == if ms == 0 then 1 else (ms + OS_TICK_MS - 1) / OS_TICK_MS
    ensures var r := Run(Next(s, Msleep(ms)), steps);
            && (Ticks(steps) < n ==> s.curr in r.sleeping && s.curr !in r.ready)
            && (Ticks(steps) >= n && NotYetCurrent(Next(s, Msleep(ms)), steps, s.curr) ==> s.curr in r.ready)
  {
    NextInv(s, Msleep(ms));
    SleepTicksValue(ms);
    MsleepPuts(s, ms);
    SleeperOverRun(Next(s, Msleep(ms)), steps, s.curr);
  }

  /** After exactly the tick its delay ends with, the sleeper is ready, with no condition on the run. */
  lemma {:induction false} ReadyAtItsTick(s: KState, steps: seq<Step>, t: Tid)
    requires Inv(s) && CanRun(s, steps) && t in s.sleeping
    requires steps != [] && steps[|steps| - 1] == Tick
    requires t in s.tasks && Ticks(steps) == s.tasks[t].sleepTicks
    ensures t in Run(s, steps).ready
    decreases |steps|
  {
    hide Inv, Next, Enabled;
    var st, rest := steps[0], steps[1..];
    SleeperStep(s, st, t);
    if rest == [] {
      assert Run(s, steps) == Next(s, st);
    } else {
      TickInRest(rest);
      assert rest[|rest| - 1] == Tick;
      ReadyAtItsTick(Next(s, st), rest, t);
    }
  }

  lemma {:induction false} TickInRest(steps: seq<Step>)
    requires steps != [] && steps[|steps| - 1] == Tick
    ensures Ticks(steps) >= 1
  {
    if |steps| > 1 {
      TickInRest(steps[1..]);
    }
  }

  /** Every run with at least n ticks has a prefix that ends with its n-th tick. */
  lemma {:induction false} NthTick(steps: seq<Step>, n: nat) returns (w: nat)
    requires 0 < n <= Ticks(steps)
    ensures 0 < w <= |steps| && steps[w - 1] == Tick && Ticks(steps[..w]) == n
  {
    if steps[0] == Tick && n == 1 {
      w := 1;
      assert steps[..1] == [Tick] && steps[..1][1..] == [];
    } else {
      w := NthTick(steps[1..], if steps[0] == Tick then n - 1 else n);
      w := w + 1;
      assert steps[..w][1..] == steps[1..][..w - 1];
    }
  }

  /** From the call of sys_msleep to running again: the caller is ready at its n-th tick, behind p tasks, and runs
      within TASK_TIME_SLICE_DEFAULT * p ticks of it. */
  lemma SleepsAndRuns(s: KState, ms: nat, steps: seq<Step>, n: nat) returns (w: nat, p: nat, k: nat)
    requires Inv(s) && Enabled(s, Msleep(ms)) && ms <= LONGEST_SLEEP_MS
    requires CanRun(Next(s, Msleep(ms)), steps)
    requires n == if ms == 0 then 1 else (ms + OS_TICK_MS - 1) / OS_TICK_MS
    requires Ticks(steps) >= n
    ensures 0 < w <= |steps| && steps[w - 1] == Tick && Ticks(steps[..w]) == n
    ensures var woken := Run(Next(s, Msleep(ms)), steps[..w]);
            && p < |woken.ready| && woken.ready[p] == s.curr
            && (Ticks(steps) >= n + TASK_TIME_SLICE_DEFAULT * p ==>
                  && w <= k <= |steps| && Run(Next(s, Msleep(ms)), steps[..k]).curr == s.curr
                  && Ticks(steps[..k]) <= n + TASK_TIME_SLICE_DEFAULT * p)
  {
    hide *;
    var s0 := Next(s, Msleep(ms));
    SleepStarts(s, ms, n);
    w := NthTick(steps, n);
    RunSplit(s0, steps, w);
    assert steps[..w][|steps[..w]| - 1] == Tick;
    ReadyAtItsTick(s0, steps[..w], s.curr);
    var woken := Run(s0, steps[..w]);
    p :| 0 <= p < |woken.ready| && woken.ready[p] == s.curr;
    k := w;
    RunInv(s0, steps[..w]);
    if Ticks(steps) >= n + TASK_TIME_SLICE_DEFAULT * p {
      k := RunsFrom(s0, steps, w, woken, p);
    }
  }

  lemma SleepStarts(s: KState, ms: nat, n: nat)
    requires Inv(s) && Enabled(s, Msleep(ms)) && ms <= LONGEST_SLEEP_MS
    requires n == if ms == 0 then 1 else (ms + OS_TICK_MS - 1) / OS_TICK_MS
    ensures var s0 := Next(s, Msleep(ms));
            Inv(s0) && s.curr in s0.sleeping && s.curr in s0.tasks && s0.tasks[s.curr].sleepTicks == n && n > 0
  {
    NextInv(s, Msleep(ms));
    SleepTicksValue(ms);
    MsleepPuts(s, ms);
  }

  /** Bounded waiting from the middle of a run. */
  lemma RunsFrom(s: KState, steps: seq<Step>, w: nat, r: KState, p: nat) returns (k: nat)
    requires CanRun(s, steps) && w <= |steps| && r == Run(s, steps[..w]) && Inv(r) && p < |r.ready|
    requires Ticks(steps) >= Ticks(steps[..w]) + TASK_TIME_SLICE_DEFAULT * p
    ensures w <= k <= |steps| && Run(s, steps[..k]).curr == r.ready[p]
    ensures Ticks(steps[..k]) <= Ticks(steps[..w]) + TASK_TIME_SLICE_DEFAULT * p
  {
    RunSplit(s, steps, w);
    CoreKnown(r);
    Queues(r);
    AheadBounds(r.ready, r.tasks, p);
    var j := BoundedWaiting(r, steps[w..], r.ready[p]);
    k := w + j;
    RunSplit(s, steps, k);
    RunSplit(s, steps[..k], w);
    assert steps[..k][..w] == steps[..w] && steps[..k][w..] == steps[w..][..j];
  }
}
