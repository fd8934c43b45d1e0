/** From the effect of each step to whole runs: who keeps the processor and for how long, when a started task and a task
    waiting for a semaphore run, and in which order sleepers wake. */
module EffectRuns {
  import opened Sequences
  import opened KernelState
  import opened SchedulerInvariant
  import opened SchedulerRuns
  import opened SleepRuns
  import opened SyncRuns
  import opened StepEffects

  // ---------- a started task ----------

  /** A task that is started is behind all that are ready, and runs within TASK_TIME_SLICE_DEFAULT ticks for each
      of them. */
  lemma StartedRuns(s: KState, t: Tid, steps: seq<Step>) returns (k: nat)
    requires Inv(s) && Enabled(s, Start(t)) && CanRun(Next(s, Start(t)), steps)
    requires Ticks(steps) >= TASK_TIME_SLICE_DEFAULT * |s.ready|
    ensures k <= |steps| && Run(Next(s, Start(t)), steps[..k]).curr == t
    ensures Ticks(steps[..k]) <= TASK_TIME_SLICE_DEFAULT * |s.ready|
  {
    var s0 := Next(s, Start(t));
    NextInv(s, Start(t));
    StartEffect(s, t);
    hide Inv, Next, Enabled;
    NothingRun(s0, steps);
    k := RunsFrom(s0, steps, 0, s0, |s.ready|);
  }

  lemma NothingRun(s: KState, steps: seq<Step>)
    ensures steps[..0] == [] && Run(s, steps[..0]) == s && Ticks(steps[..0]) == 0
  {
  }

  // ---------- the running task ----------

  /** No step of the run takes the processor from the task that has it. */
  ghost predicate NeverSwitches(s: KState, steps: seq<Step>)
    requires Inv(s) && CanRun(s, steps)
    decreases |steps|
  {
    if steps == [] then true
    else
      SwitchesIff(s, steps[0]);
      NextInv(s, steps[0]);
      !Switches(s, steps[0]) && NeverSwitches(Next(s, steps[0]), steps[1..])
  }

  /** One task runs throughout, if and only if no step of the run is one of those that switch. */
  lemma {:induction false} RunsThroughout(s: KState, steps: seq<Step>)
    requires Inv(s) && CanRun(s, steps)
    ensures NeverSwitches(s, steps) <==> forall k :: 0 <= k <= |steps| ==> Run(s, steps[..k]).curr == s.curr
    decreases |steps|
  {
    if steps == [] {
      NothingRun(s, steps);
    } else {
      var r, rest := Next(s, steps[0]), steps[1..];
      SwitchesIff(s, steps[0]);
      NextInv(s, steps[0]);
      RunsThroughout(r, rest);
      hide Inv, Next, Enabled, Switches;
      NothingRun(s, steps);
      NothingRun(r, rest);
      forall k | 0 < k <= |steps| ensures Run(s, steps[..k]) == Run(r, rest[..k - 1]) {
        RunPrefix(s, steps, k);
      }
      if forall k :: 0 <= k <= |steps| ==> Run(s, steps[..k]).curr == s.curr {
        assert Run(s, steps[..1]) == r;
        forall k | 0 <= k <= |rest| ensures Run(r, rest[..k]).curr == r.curr {
          assert Run(s, steps[..k + 1]).curr == s.curr;
        }
      }
    }
  }

  /** The running task does not give up the processor itself. */
  predicate KeepsOn(s: KState, steps: seq<Step>)
    requires CanRun(s, steps)
    decreases |steps|
  {
    steps == [] ||
    (steps[0] != Yield && !steps[0].Msleep? && !Blocks(s, steps[0]) && KeepsOn(Next(s, steps[0]), steps[1..]))
  }

  lemma KeepsOnStep(s: KState, st: Step)
    requires Inv(s) && Enabled(s, st) && s.curr != s.idle && st != Yield && !st.Msleep? && !Blocks(s, st)
    requires s.curr in s.tasks && (st == Tick ==> s.tasks[s.curr].sliceTicks > 1)
    ensures var r, c := Next(s, st), s.curr;
            && Inv(r) && r.curr == c != r.idle && c in r.tasks
            && r.tasks[c].sliceTicks == s.tasks[c].sliceTicks - if st == Tick then 1 else 0
  {
    NextInv(s, st);
    SwitchesIff(s, st);
    StepOnRecords(s, st);
    IdleStays(s, st);
    hide Inv, Next, Blocks, Enabled;
  }

  lemma IdleStays(s: KState, st: Step)
    requires Inv(s) && Enabled(s, st)
    ensures Next(s, st).idle == s.idle
  {
    if st == Tick {
      SettledInv(s);
      TickKeys(s);
      Apart(s, s.curr);
      TickRecord(s, s.curr);
    } else {
      StepEffect(s, st);
    }
    hide *;
  }

  /** A task that does not give up the processor keeps it until it has used up its slice. */
  lemma {:induction false} SliceLasts(s: KState, steps: seq<Step>)
    requires Inv(s) && CanRun(s, steps) && KeepsOn(s, steps) && s.curr != s.idle && s.curr in s.tasks
    requires Ticks(steps) < s.tasks[s.curr].sliceTicks
    ensures var r, c := Run(s, steps), s.curr;
            && Inv(r) && r.curr == c != r.idle && c in r.tasks
            && r.tasks[c].sliceTicks == s.tasks[c].sliceTicks - Ticks(steps)
    decreases |steps|
  {
    if steps != [] {
      hide Inv, Next, Enabled, Blocks;
      KeepsOnStep(s, steps[0]);
      SliceLasts(Next(s, steps[0]), steps[1..]);
    }
  }

  /** With the tick that uses its slice up it goes behind all that are ready, with a new slice, and the next in line
      runs. */
  lemma SliceEnds(s: KState, steps: seq<Step>)
    requires Inv(s) && CanRun(s, steps + [Tick]) && CanRun(s, steps) && KeepsOn(s, steps)
    requires s.curr != s.idle && s.curr in s.tasks && Ticks(steps) + 1 == s.tasks[s.curr].sliceTicks
    ensures var mid, r, c := Run(s, steps), Run(s, steps + [Tick]), s.curr;
            && mid.curr == c && mid.ready != [] && mid.ready[0] == c
            && mid.ready[1..] + [c] <= r.ready && r.curr == (mid.ready[1..] + [c])[0]
            && c in r.tasks && r.tasks[c].sliceTicks == TASK_TIME_SLICE_DEFAULT
  {
    SliceLasts(s, steps);
    var mid := Run(s, steps);
    LastStep(s, steps, Tick);
    NextInv(mid, Tick);
    StepOnRecords(mid, Tick);
    SettledInv(mid);
    HeadOut(mid);
    TickEffect(mid);
    TickHead(mid);
    hide Inv, Run, CanRun, TickStep, Settled, KeepsOn, Ticks;
    assert Rotated(mid) == mid.ready[1..] + [mid.curr];
  }

  lemma {:induction false} LastStep(s: KState, steps: seq<Step>, st: Step)
    requires CanRun(s, steps + [st])
    ensures CanRun(s, steps) && Enabled(Run(s, steps), st)
    ensures Run(s, steps + [st]) == Next(Run(s, steps), st)
    ensures Ticks(steps + [st]) == Ticks(steps) + if st == Tick then 1 else 0
    decreases |steps|
  {
    hide Next, Enabled;
    if steps == [] {
      assert steps + [st] == [st];
      assert Run(s, [st]) == Run(Next(s, st), [st][1..]) == Next(s, st);
    } else {
      assert (steps + [st])[1..] == steps[1..] + [st];
      LastStep(Next(s, steps[0]), steps[1..], st);
    }
  }

  // ---------- the order of sleepers ----------

  lemma SleepOrderStep(s: KState, st: Step, a: Tid, b: Tid)
    requires Inv(s) && Enabled(s, st) && Before(s.sleeping, a, b)
    requires a in Next(s, st).sleeping && b in Next(s, st).sleeping
    ensures Before(Next(s, st).sleeping, a, b)
  {
    NextInv(s, st);
    if st == Tick {
      TickEffect(s);
    } else {
      StepEffect(s, st);
      hide Inv, Next, Enabled, Before;
      KeptOrder(s.sleeping, [s.curr], a, b);
    }
  }

  /** Two sleepers stay in their order while both sleep. */
  lemma {:induction false} SleepOrderKept(s: KState, steps: seq<Step>, a: Tid, b: Tid)
    requires Inv(s) && CanRun(s, steps) && Before(s.sleeping, a, b)
    requires a in s.tasks && b in s.tasks
    requires Ticks(steps) < s.tasks[a].sleepTicks && Ticks(steps) < s.tasks[b].sleepTicks
    ensures var r := Run(s, steps);
            && Inv(r) && Before(r.sleeping, a, b) && a in r.tasks && b in r.tasks
            && r.tasks[a].sleepTicks == s.tasks[a].sleepTicks - Ticks(steps)
            && r.tasks[b].sleepTicks == s.tasks[b].sleepTicks - Ticks(steps)
    decreases |steps|
  {
    if steps != [] {
      var st := steps[0];
      BeforeIsIn(s.sleeping, a, b);
      hide Inv, Next, Enabled, Before;
      SleeperStep(s, st, a);
      SleeperStep(s, st, b);
      SleepOrderStep(s, st, a, b);
      SleepOrderKept(Next(s, st), steps[1..], a, b);
    }
  }

  /** Two sleepers whose delays end with one and the same tick get ready in the order in which they went to sleep. */
  lemma WakeInOrder(s: KState, steps: seq<Step>, a: Tid, b: Tid)
    requires Inv(s) && CanRun(s, steps + [Tick]) && Before(s.sleeping, a, b)
    requires a in s.tasks && b in s.tasks
    requires s.tasks[a].sleepTicks == s.tasks[b].sleepTicks == Ticks(steps) + 1
    ensures Before(Run(s, steps + [Tick]).ready, a, b)
  {
    LastStep(s, steps, Tick);
    SleepOrderKept(s, steps, a, b);
    var mid := Run(s, steps);
    NextInv(mid, Tick);
    hide Inv, Run, CanRun, TickStep, Ticks;
    TickEffect(mid);
    BeforeIsIn(mid.sleeping, a, b);
  }

  /** A task that goes to sleep is behind all that sleep. */
  lemma GoesToSleep(s: KState, ms: nat, a: Tid)
    requires Inv(s) && Enabled(s, Msleep(ms)) && ms <= LONGEST_SLEEP_MS
    ensures var r := Next(s, Msleep(ms));
            && Inv(r) && s.curr in r.sleeping && s.curr in r.tasks && r.tasks[s.curr].sleepTicks == CeilTicks(ms)
            && (a in s.sleeping ==>
                  && Before(r.sleeping, a, s.curr) && a in s.tasks && a in r.tasks
                  && r.tasks[a].sleepTicks == s.tasks[a].sleepTicks)
  {
    NextInv(s, Msleep(ms));
    StepEffect(s, Msleep(ms));
    SettledInv(s);
    HeadOut(s);
    if a in s.sleeping {
      SleeperIsNotCurrent(s, a);
      BeforeLast(s.sleeping, a, s.curr);
    }
    hide Inv, Next, Before, Settled;
  }

  /** The same for two calls of sys_msleep: b's call comes mid after a's, and both delays end with the same tick. */
  lemma SleepersInCallOrder(s: KState, ms: nat, mid: seq<Step>, ms': nat, steps: seq<Step>)
    requires Inv(s) && Enabled(s, Msleep(ms)) && ms <= LONGEST_SLEEP_MS && CanRun(Next(s, Msleep(ms)), mid)
    requires var s1 := Run(Next(s, Msleep(ms)), mid);
             && Enabled(s1, Msleep(ms')) && ms' <= LONGEST_SLEEP_MS && CanRun(Next(s1, Msleep(ms')), steps + [Tick])
    requires CeilTicks(ms) == Ticks(mid) + Ticks(steps) + 1 && CeilTicks(ms') == Ticks(steps) + 1
    ensures var s1 := Run(Next(s, Msleep(ms)), mid);
            Before(Run(Next(s1, Msleep(ms')), steps + [Tick]).ready, s.curr, s1.curr)
  {
    hide *;
    var s0 := Next(s, Msleep(ms));
    var s1 := Run(s0, mid);
    GoesToSleep(s, ms, s.curr);
    RunInv(s0, mid);
    SleeperOverRun(s0, mid, s.curr);
    GoesToSleep(s1, ms', s.curr);
    WakeInOrder(Next(s1, Msleep(ms')), steps, s.curr, s1.curr);
  }

  // ---------- waiting for a semaphore ----------

  lemma {:induction false} NotifiesSplit(steps: seq<Step>, k: nat, w: nat)
    requires w < |steps|
    ensures Notifies(steps[..w + 1], k) == Notifies(steps[..w], k) + if steps[w] == SemNotify(k) then 1 else 0
  {
    if w > 0 {
      assert steps[..w + 1][1..] == steps[1..][..w] && steps[..w][1..] == steps[1..][..w - 1];
      NotifiesSplit(steps[1..], k, w - 1);
    } else {
      assert steps[..1][1..] == [];
    }
  }

  /** Every run with more than j notifies has a prefix that ends before its notify number j, counted from 0. */
  lemma {:induction false} NotifyNumber(steps: seq<Step>, k: nat, j: nat) returns (w: nat)
    requires j < Notifies(steps, k)
    ensures w < |steps| && steps[w] == SemNotify(k) && Notifies(steps[..w], k) == j
  {
    if steps[0] == SemNotify(k) && j == 0 {
      w := 0;
    } else {
      w := NotifyNumber(steps[1..], k, if steps[0] == SemNotify(k) then j - 1 else j);
      assert steps[..w + 1][1..] == steps[1..][..w];
      w := w + 1;
    }
  }

  /** Who is number j in a semaphore's queue moves up by one with each notify, and with nothing else. */
  lemma WaiterMovesUp(s: KState, steps: seq<Step>, k: nat, j: nat)
    requires Inv(s) && CanRun(s, steps) && IsSem(s, k) && Notifies(steps, k) <= j < |Queue(s, k)|
    ensures var r := Run(s, steps);
            Inv(r) && IsSem(r, k) && j - Notifies(steps, k) < |Queue(r, k)|
            && Queue(r, k)[j - Notifies(steps, k)] == Queue(s, k)[j]
  {
    hide *;
    SemAccounting(s, steps, k);
    SemQueue(s, k);
    SemQueue(Run(s, steps), k);
    MovedUp(Queue(s, k), Calls(s, steps, k), Grants(s, steps, k), Queue(Run(s, steps), k), j, Notifies(steps, k),
            s.objects[k].count, Run(s, steps).objects[k].count);
  }

  lemma SemQueue(s: KState, k: nat)
    requires Inv(s) && IsSem(s, k)
    ensures k < |s.objects| && s.objects[k].Sem? && s.objects[k].count >= 0
    ensures s.objects[k].count > 0 ==> Queue(s, k) == []
  {
    ObjectIsOk(s, k);
  }

  lemma MovedUp(q: seq<Tid>, calls: seq<Tid>, grants: seq<Tid>, q': seq<Tid>, j: nat, n: nat, count: int, count': int)
    requires q + calls == grants + q' && count' + |grants| == count + n && n <= j < |q|
    requires count >= 0 && count' >= 0 && (count > 0 ==> q == []) && (count' > 0 ==> q' == [])
    ensures j - n < |q'| && q'[j - n] == q[j]
  {
    assert |q| + |calls| == |grants| + |q'|;
    assert (q + calls)[j] == (grants + q')[j];
  }

  /** Number j in a semaphore's queue is ready at the notify number j + 1, behind p tasks, and runs within
      TASK_TIME_SLICE_DEFAULT * p ticks of it. */
  lemma WaiterRuns(s: KState, steps: seq<Step>, k: nat, j: nat) returns (w: nat, p: nat, n: nat)
    requires Inv(s) && CanRun(s, steps) && IsSem(s, k) && j < |Queue(s, k)| && j < Notifies(steps, k)
    ensures 0 < w <= |steps| && steps[w - 1] == SemNotify(k) && Notifies(steps[..w], k) == j + 1
    ensures var woken, t := Run(s, steps[..w]), Queue(s, k)[j];
            && |woken.ready| == p + 1 && woken.ready[p] == t
            && (Ticks(steps) >= Ticks(steps[..w]) + TASK_TIME_SLICE_DEFAULT * p ==>
                  && w <= n <= |steps| && Run(s, steps[..n]).curr == t
                  && Ticks(steps[..n]) <= Ticks(steps[..w]) + TASK_TIME_SLICE_DEFAULT * p)
  {
    hide *;
    var v := NotifyNumber(steps, k, j);
    NotifiesSplit(steps, k, v);
    RunSplit(s, steps, v);
    WaiterMovesUp(s, steps[..v], k, j);
    w := v + 1;
    RunSplit(s, steps, w);
    assert steps[..w] == steps[..v] + [SemNotify(k)];
    LastStep(s, steps[..v], SemNotify(k));
    var mid, woken := Run(s, steps[..v]), Run(s, steps[..w]);
    NotifyEffect(mid, k);
    p := |mid.ready|;
    n := w;
    if Ticks(steps) >= Ticks(steps[..w]) + TASK_TIME_SLICE_DEFAULT * p {
      n := RunsFrom(s, steps, w, woken, p);
    }
  }

  lemma NotifyEffect(s: KState, k: nat)
    requires Inv(s) && Enabled(s, SemNotify(k)) && Queue(s, k) != []
    ensures Inv(Next(s, SemNotify(k))) && Next(s, SemNotify(k)).ready == s.ready + [Queue(s, k)[0]]
  {
    NextInv(s, SemNotify(k));
    StepEffect(s, SemNotify(k));
    NotifyJoins(s, k);
    hide *;
    ReadyIs(s, Next(s, SemNotify(k)), SemNotify(k));
  }

  lemma NotifyJoins(s: KState, k: nat)
    requires Enabled(s, SemNotify(k)) && Queue(s, k) != [] && s.curr in s.tasks
    ensures ReadyAfter(s, SemNotify(k)) == s.ready + [Queue(s, k)[0]]
  {
  }

  lemma ReadyIs(s: KState, r: KState, st: Step)
    requires s.curr in s.tasks && Enabled(s, st) && QueuesAfter(s, r, st)
    ensures r.ready == ReadyAfter(s, st)
  {
  }
}
