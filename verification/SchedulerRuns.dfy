/** Properties of whole runs: any interleaving of atomic steps from any state satisfying the invariant. */
module SchedulerRuns {
  import opened Sequences
  import opened KernelState
  import opened SchedulerInvariant

  predicate CanRun(s: KState, steps: seq<Step>)
    decreases |steps|
  {
    steps == [] || (Enabled(s, steps[0]) && CanRun(Next(s, steps[0]), steps[1..]))
  }

  function Run(s: KState, steps: seq<Step>): KState
    decreases |steps|
  {
    if steps == [] then s else Run(Next(s, steps[0]), steps[1..])
  }

  lemma {:induction false} RunInv(s: KState, steps: seq<Step>)
    requires Inv(s) && CanRun(s, steps)
    ensures Inv(Run(s, steps))
    decreases |steps|
  {
    if steps != [] {
      NextInv(s, steps[0]);
      RunInv(Next(s, steps[0]), steps[1..]);
    }
  }

  function Ticks(steps: seq<Step>): nat {
    if steps == [] then 0 else (if steps[0] == Tick then 1 else 0) + Ticks(steps[1..])
  }

  // ---------- no task is lost or duplicated ----------

  function Started(steps: seq<Step>): multiset<Tid> {
    if steps == [] then multiset{} else Arrivals(steps[0]) + Started(steps[1..])
  }

  function Lost(s: KState, steps: seq<Step>): multiset<Tid>
    decreases |steps|
  {
    if steps == [] then multiset{} else Losses(s, steps[0]) + Lost(Next(s, steps[0]), steps[1..])
  }

  predicate OverlongSleep(st: Step) { st.Msleep? && st.ms > LONGEST_SLEEP_MS }

  lemma {:induction false} RunConserves(s: KState, steps: seq<Step>)
    requires Inv(s) && CanRun(s, steps)
    ensures Placed(Run(s, steps)) + Lost(s, steps) == Placed(s) + Started(steps)
    decreases |steps|
  {
    if steps != [] {
      var r := Next(s, steps[0]);
      NextInv(s, steps[0]);
      StepConserves(s, steps[0]);
      RunConserves(r, steps[1..]);
      Balance(Placed(s), Losses(s, steps[0]), Arrivals(steps[0]),
              Placed(Run(s, steps)), Lost(r, steps[1..]), Started(steps[1..]));
    }
  }

  lemma Balance(p: multiset<Tid>, l: multiset<Tid>, a: multiset<Tid>,
                q: multiset<Tid>, ls: multiset<Tid>, ss: multiset<Tid>)
    requires l <= p && q + ls == p - l + a + ss
    ensures q + (l + ls) == p + (a + ss)
  {
    assert p - l + l == p;
    assert q + (l + ls) == (q + ls) + l;
  }

  predicate AllShortSleeps(steps: seq<Step>) {
    forall st :: st in steps ==> !OverlongSleep(st)
  }

  lemma ShortSleepsCons(steps: seq<Step>)
    requires steps != []
    ensures AllShortSleeps(steps) <==> !OverlongSleep(steps[0]) && AllShortSleeps(steps[1..])
  {
    assert steps == [steps[0]] + steps[1..];
  }

  lemma {:induction false} LostNobody(s: KState, steps: seq<Step>)
    ensures Lost(s, steps) == multiset{} <==> AllShortSleeps(steps)
    decreases |steps|
  {
    if steps != [] {
      LostNobody(Next(s, steps[0]), steps[1..]);
      ShortSleepsCons(steps);
      EmptySum(Losses(s, steps[0]), Lost(Next(s, steps[0]), steps[1..]));
      if OverlongSleep(steps[0]) {
        assert s.curr in Losses(s, steps[0]);
      }
    }
  }

  lemma EmptySum(a: multiset<Tid>, b: multiset<Tid>)
    ensures a + b == multiset{} <==> a == multiset{} && b == multiset{}
  {
    if a + b == multiset{} {
      assert forall t :: (a + b)[t] == a[t] + b[t];
    }
  }

  lemma AddedNothing(p: multiset<Tid>, l: multiset<Tid>)
    ensures p + l == p <==> l == multiset{}
    ensures p <= p + l
  {
    if p + l == p {
      assert forall t :: (p + l)[t] == p[t] + l[t];
    }
  }

  /** The tasks on the queues after a run are exactly those there before and those started meanwhile,
      each once, if and only if no sys_msleep of the run asked for more than LONGEST_SLEEP_MS. */
  lemma NoTaskLost(s: KState, steps: seq<Step>)
    requires Inv(s) && CanRun(s, steps)
    ensures Placed(Run(s, steps)) == Placed(s) + Started(steps) <==> AllShortSleeps(steps)
    ensures Placed(Run(s, steps)) <= Placed(s) + Started(steps)
    ensures forall t :: Placed(Run(s, steps))[t] <= 1
  {
    RunInv(s, steps);
    RunConserves(s, steps);
    LostNobody(s, steps);
    AddedNothing(Placed(Run(s, steps)), Lost(s, steps));
    var p := Placed(Run(s, steps));
    assert forall t :: p[t] <= 1 by {
      assert forall t :: t !in p ==> p[t] == 0;
    }
  }

  // ---------- one tick ----------

  /** a stands before b in q. */
  ghost predicate Before(q: seq<Tid>, a: Tid, b: Tid) {
    exists i, j :: 0 <= i < j < |q| && q[i] == a && q[j] == b
  }

  lemma BeforeLast(q: seq<Tid>, a: Tid, b: Tid)
    requires a in q
    ensures Before(q + [b], a, b)
  {
    var i :| 0 <= i < |q| && q[i] == a;
    assert (q + [b])[i] == a && (q + [b])[|q|] == b;
  }

  lemma BeforeExtends(p: seq<Tid>, q: seq<Tid>, r: seq<Tid>, a: Tid, b: Tid)
    requires Before(q, a, b)
    ensures Before(p + q + r, a, b)
  {
    var i, j :| 0 <= i < j < |q| && q[i] == a && q[j] == b;
    assert (p + q + r)[|p| + i] == a && (p + q + r)[|p| + j] == b;
  }

  /** Neither the tasks woken nor those that sleep on change their order. */
  lemma {:induction false} WakingKeepsOrder(ids: seq<Tid>, tasks: map<Tid, TaskInfo>, a: Tid, b: Tid)
    requires (forall t :: t in ids ==> t in tasks) && Before(ids, a, b)
    ensures a in tasks && b in tasks
    ensures tasks[a].sleepTicks == 1 && tasks[b].sleepTicks == 1 ==> Before(Woken(ids, tasks), a, b)
    ensures tasks[a].sleepTicks != 1 && tasks[b].sleepTicks != 1 ==> Before(Dozing(ids, tasks), a, b)
    decreases |ids|
  {
    hide *;
    var rest, last := BeforeCases(ids, a, b);
    WokenNext(rest, tasks, last);
    SplitSleepers(rest, tasks);
    var w, d := Woken(rest, tasks), Dozing(rest, tasks);
    if Before(rest, a, b) {
      WakingKeepsOrder(rest, tasks, a, b);
      KeptOrder(w, if tasks[last].sleepTicks == 1 then [last] else [], a, b);
      KeptOrder(d, if tasks[last].sleepTicks == 1 then [] else [last], a, b);
    } else if tasks[a].sleepTicks == 1 {
      BeforeLast(w, a, b);
    } else {
      BeforeLast(d, a, b);
    }
  }

  lemma BeforeCases(ids: seq<Tid>, a: Tid, b: Tid) returns (rest: seq<Tid>, last: Tid)
    requires Before(ids, a, b)
    ensures ids == rest + [last] && a in rest && (Before(rest, a, b) || b == last)
    ensures Before(rest, a, b) ==> b in rest
  {
    var i, j :| 0 <= i < j < |ids| && ids[i] == a && ids[j] == b;
    rest, last := ids[..|ids| - 1], ids[|ids| - 1];
    assert rest[i] == a && (j < |rest| ==> rest[j] == b);
  }

  lemma KeptOrder(q: seq<Tid>, r: seq<Tid>, a: Tid, b: Tid)
    ensures Before(q, a, b) ==> Before(q + r, a, b)
  {
    if Before(q, a, b) {
      BeforeExtends([], q, r, a, b);
      assert [] + q + r == q + r;
    }
  }

  /** The ready list after the slice of the running task is charged, before anybody wakes up. */
  function Rotated(s: KState): seq<Tid>
    requires s.curr in s.tasks && CurrentIsHead(s)
  {
    if s.tasks[s.curr].sliceTicks == 1 && s.curr != s.idle && s.ready != [] then s.ready[1..] + [s.curr] else s.ready
  }

  /** What one tick does, sleeper by sleeper: each loses one tick; those with none left are ready behind the
      rotated running task, the others sleep on, and both keep the order of the sleep list. */
  lemma TickEffect(s: KState)
    requires Inv(s) && Known(s)
    ensures var r := TickStep(s);
            && Rotated(s) <= r.ready
            && |r.ready| + |r.sleeping| == |s.ready| + |s.sleeping|
            && r.objects == s.objects
            && forall t :: t in s.sleeping ==> t in r.tasks && r.tasks[t].sleepTicks == s.tasks[t].sleepTicks - 1
    ensures var r := TickStep(s);
            forall t :: t in s.sleeping ==>
              if s.tasks[t].sleepTicks == 1 then t in r.ready[|Rotated(s)|..] && t !in r.sleeping
              else t in r.sleeping && t !in r.ready
    ensures var r := TickStep(s);
            forall a, b :: Before(s.sleeping, a, b) ==>
              && (a in r.ready && b in r.ready ==> Before(r.ready, a, b))
              && (a in r.sleeping && b in r.sleeping ==> Before(r.sleeping, a, b))
  {
    hide *;
    ApartAfterTick(s);
    var r, charged := TickStep(s), ChargeSlice(s);
    TickOnQueues(s);
    SplitSleepers(s.sleeping, charged.tasks);
    var w, d := Woken(s.sleeping, charged.tasks), Dozing(s.sleeping, charged.tasks);
    SameNumber(s.sleeping, w, d);
    RotatedNumber(s);
    assert r.ready[|Rotated(s)|..] == w;
    forall a, b | Before(s.sleeping, a, b)
      ensures a in r.ready && b in r.ready ==> Before(r.ready, a, b)
      ensures a in r.sleeping && b in r.sleeping ==> Before(r.sleeping, a, b)
    {
      BeforeIsIn(s.sleeping, a, b);
      WakingKeepsOrder(s.sleeping, charged.tasks, a, b);
      if a in r.ready && b in r.ready {
        BeforeExtends(Rotated(s), w, [], a, b);
        assert Rotated(s) + w + [] == r.ready;
      }
    }
  }

  lemma SameNumber(ids: seq<Tid>, w: seq<Tid>, d: seq<Tid>)
    requires multiset(w) + multiset(d) == multiset(ids)
    ensures |w| + |d| == |ids|
  {
    assert |multiset(w) + multiset(d)| == |multiset(ids)|;
  }

  lemma RotatedNumber(s: KState)
    requires s.curr in s.tasks && CurrentIsHead(s)
    ensures |Rotated(s)| == |s.ready|
  {
  }

  /** Nobody is ready and asleep, before the tick or after it. */
  lemma ApartAfterTick(s: KState)
    requires Inv(s) && Known(s)
    ensures forall t :: t in TickStep(s).ready ==> t !in TickStep(s).sleeping
    ensures s.curr in s.tasks && CurrentIsHead(s)
  {
    hide TickStep, Core;
    TickInv(s);
    ReadyNotAsleep(TickStep(s));
  }

  lemma ReadyNotAsleep(s: KState)
    requires Inv(s)
    ensures forall t :: t in s.ready ==> t !in s.sleeping
  {
    Queues(s);
  }

  lemma BeforeIsIn(q: seq<Tid>, a: Tid, b: Tid)
    requires Before(q, a, b)
    ensures a in q && b in q
  {
  }

  lemma ChargedQueues(s: KState)
    requires Inv(s) && Known(s)
    ensures var c := ChargeSlice(s);
            && c.ready == Rotated(s) && c.sleeping == s.sleeping && c.objects == s.objects
            && forall t :: t in s.sleeping ==> t in c.tasks && c.tasks[t].sleepTicks == s.tasks[t].sleepTicks
  {
    Queues(s);
  }

  lemma DispatchedQueues(s: KState)
    requires NextRun(s) in s.tasks
    ensures var r := Dispatch(s);
            && r.ready == s.ready && r.sleeping == s.sleeping && r.objects == s.objects && r.tasks.Keys == s.tasks.Keys
            && forall t :: t in s.tasks ==> r.tasks[t].sleepTicks == s.tasks[t].sleepTicks
  {
  }

  lemma WakingQueues(s: KState)
    requires Known(s)
    ensures var r := WakeSleepers(s);
            && r.ready == s.ready + Woken(s.sleeping, s.tasks) && r.sleeping == Dozing(s.sleeping, s.tasks)
            && r.objects == s.objects && r.idle == s.idle && r.tasks.Keys == s.tasks.Keys
            && (forall t :: t in s.sleeping ==> t in r.tasks && r.tasks[t].sleepTicks == s.tasks[t].sleepTicks - 1)
  {
    hide Woken, Dozing;
  }

  lemma TickOnQueues(s: KState)
    requires Inv(s) && Known(s)
    ensures var r, c := TickStep(s), ChargeSlice(s);
            && (forall t :: t in s.sleeping ==> t in c.tasks && c.tasks[t].sleepTicks == s.tasks[t].sleepTicks)
            && r.ready == Rotated(s) + Woken(s.sleeping, c.tasks)
            && r.sleeping == Dozing(s.sleeping, c.tasks)
            && r.objects == s.objects
            && (forall t :: t in s.sleeping ==> t in r.tasks && r.tasks[t].sleepTicks == s.tasks[t].sleepTicks - 1)
  {
    ChargedQueues(s);
    ChargeSliceCore(s);
    WakeSleepersCore(ChargeSlice(s));
    CoreKnown(WakeSleepers(ChargeSlice(s)));
    hide Woken, Dozing, Rotated, ChargeSlice, Dispatch, Core, WakeSleepers, CountDown, CurrentIsHead, SlicesOk;
    WakingQueues(ChargeSlice(s));
    DispatchedQueues(WakeSleepers(ChargeSlice(s)));
  }

  /** sys_yield: the next task in line runs and the caller is last in line, its time slice not reloaded; a task
      alone on the ready list goes on. */
  lemma YieldEffect(s: KState)
    requires Inv(s) && Known(s)
    ensures var r := YieldStep(s);
            && (|s.ready| > 1 ==> r.curr == s.ready[1] && r.ready == s.ready[1..] + [s.ready[0]])
            && (|s.ready| <= 1 ==> r == s)
            && r.sleeping == s.sleeping && r.objects == s.objects && SameSlices(s, r)
  {
    Queues(s);
    YieldShape(s);
  }

  // ---------- bounded waiting ----------

  /** What can happen to the ready list in one step: tasks join at the back, and at most the head leaves. */
  predicate OnlyHeadLeaves(before: seq<Tid>, after: seq<Tid>) {
    before <= after || (before != [] && before[1..] <= after)
  }

  predicate SameSlices(s: KState, r: KState) {
    s.tasks.Keys <= r.tasks.Keys && forall t :: t in s.tasks ==> r.tasks[t].sliceTicks == s.tasks[t].sliceTicks
  }

  lemma DispatchShape(s: KState)
    requires NextRun(s) in s.tasks
    ensures Dispatch(s).ready == s.ready && SameSlices(s, Dispatch(s))
  {
  }

  lemma BlockOnShape(s: KState, k: nat)
    requires Known(s) && CurrentIsHead(s) && s.curr != s.idle && k < |s.objects|
    ensures BlockOn(s, k).ready == s.ready[1..] && SameSlices(s, BlockOn(s, k))
  {
    hide Dispatch;
    DispatchShape(WithObject(SetBlock(s, s.curr), k, Enqueue(s.objects[k], s.curr)));
  }

  lemma ResumeShape(s: KState, t: Tid)
    requires Known(s) && t in s.tasks
    ensures NextRun(SetReady(s, t)) in s.tasks
    ensures s.ready <= Dispatch(SetReady(s, t)).ready && SameSlices(s, Dispatch(SetReady(s, t)))
  {
    DispatchShape(SetReady(s, t));
  }

  lemma YieldShape(s: KState)
    requires Known(s) && CurrentIsHead(s)
    ensures OnlyHeadLeaves(s.ready, YieldStep(s).ready) && SameSlices(s, YieldStep(s))
  {
    if |s.ready| > 1 {
      DispatchShape(SetReady(SetBlock(s, s.curr), s.curr));
    }
  }

  lemma MsleepShape(s: KState, ms: nat)
    requires Known(s) && CurrentIsHead(s) && s.curr != s.idle
    ensures OnlyHeadLeaves(s.ready, MsleepStep(s, ms).ready) && SameSlices(s, MsleepStep(s, ms))
  {
    DispatchShape(SetSleep(SetBlock(s, s.curr), s.curr, SleepTicks(ms)));
  }

  lemma SyncShape(s: KState, st: Step)
    requires Known(s) && CurrentIsHead(s) && Enabled(s, st)
    requires st.SemWait? || st.SemNotify? || st.MutexLock? || st.MutexUnlock?
    ensures OnlyHeadLeaves(s.ready, Apply(s, st).ready) && SameSlices(s, Apply(s, st))
  {
    hide Dispatch, BlockOn, SetReady, TickStep, YieldStep, MsleepStep, CreateStep;
    var k, o := st.k, s.objects[st.k];
    assert o in s.objects;
    match st
    case SemWait(_) =>
      if o.count <= 0 { BlockOnShape(s, k); }
    case SemNotify(_) =>
      if o.waiting != [] { ResumeShape(WithObject(s, k, Sem(o.count, o.waiting[1..])), o.waiting[0]); }
    case MutexLock(_) =>
      if o.lockedCount != 0 && o.owner != Some(s.curr) { BlockOnShape(s, k); }
    case MutexUnlock(_) =>
      if o.waiting != [] { ResumeShape(WithObject(s, k, Mutex(Some(o.waiting[0]), 1, o.waiting[1..])), o.waiting[0]); }
  }

  lemma StepShape(s: KState, st: Step)
    requires Known(s) && CurrentIsHead(s) && Enabled(s, st) && st != Tick
    ensures OnlyHeadLeaves(s.ready, Apply(s, st).ready)
    ensures SameSlices(s, Apply(s, st))
  {
    match st
    case Tick =>
    case Yield => YieldShape(s);
    case Msleep(ms) => MsleepShape(s, ms);
    case SemWait(k) => SyncShape(s, st);
    case SemNotify(k) => SyncShape(s, st);
    case MutexLock(k) => SyncShape(s, st);
    case MutexUnlock(k) => SyncShape(s, st);
    case Create(t) =>
    case Start(t) =>
    case NewSem(_) =>
    case NewMutex =>
  }

  lemma ChargeShape(s: KState)
    requires Known(s) && CurrentIsHead(s)
    ensures var c := ChargeSlice(s);
            && c.tasks.Keys == s.tasks.Keys && c.sleeping == s.sleeping
            && (forall t :: t in s.tasks && t != s.curr ==> c.tasks[t].sliceTicks == s.tasks[t].sliceTicks)
            && c.tasks[s.curr].sliceTicks ==
               (if s.tasks[s.curr].sliceTicks == 1 then TASK_TIME_SLICE_DEFAULT else s.tasks[s.curr].sliceTicks - 1)
            && c.ready == Rotated(s) && forall t :: t in c.ready ==> t in c.tasks
  {
  }

  lemma WakeShape(s: KState)
    requires (forall t :: t in s.sleeping ==> t in s.tasks) && (forall t :: t in s.ready ==> t in s.tasks)
    ensures s.ready <= WakeSleepers(s).ready && SameSlices(s, WakeSleepers(s))
    ensures WakeSleepers(s).tasks.Keys == s.tasks.Keys && WakeSleepers(s).idle == s.idle
    ensures forall t :: t in WakeSleepers(s).ready ==> t in WakeSleepers(s).tasks
  {
    hide Woken, Dozing;
  }

  lemma TickShape(s: KState)
    requires Known(s) && CurrentIsHead(s) && s.curr !in s.sleeping
    ensures var r, c := TickStep(s), s.curr;
            && r.tasks.Keys == s.tasks.Keys
            && (forall t :: t in s.tasks && t != c ==> r.tasks[t].sliceTicks == s.tasks[t].sliceTicks)
            && r.tasks[c].sliceTicks ==
               (if s.tasks[c].sliceTicks == 1 then TASK_TIME_SLICE_DEFAULT else s.tasks[c].sliceTicks - 1)
            && (if s.tasks[c].sliceTicks == 1 && c != s.idle
                then s.ready[1..] + [c] <= r.ready
                else s.ready <= r.ready)
  {
    var charged := ChargeSlice(s);
    ChargeShape(s);
    IdleKept(s);
    hide ChargeSlice, WakeSleepers, Dispatch;
    WakeShape(charged);
    var woken := WakeSleepers(charged);
    assert NextRun(woken) in woken.tasks by {
      if woken.ready != [] { assert woken.ready[0] in woken.ready; }
    }
    DispatchShape(woken);
    DispatchKeys(woken);
  }

  lemma IdleKept(s: KState)
    requires s.curr in s.tasks
    ensures ChargeSlice(s).idle == s.idle
  {
  }

  lemma DispatchKeys(s: KState)
    requires NextRun(s) in s.tasks
    ensures Dispatch(s).tasks.Keys == s.tasks.Keys
  {
  }

  /** The time slices still to be used up before task t gets to the head of ids. */
  function Ahead(ids: seq<Tid>, tasks: map<Tid, TaskInfo>, t: Tid): int
    requires forall u :: u in ids ==> u in tasks
  {
    if ids == [] || ids[0] == t then 0
    else tasks[ids[0]].sliceTicks + Ahead(ids[1..], tasks, t)
  }

  /** Only the tasks in front of t count, wherever the list goes on behind it. */
  lemma {:induction false} AheadExtends(a: seq<Tid>, b: seq<Tid>, t: Tid,
                                        tasks: map<Tid, TaskInfo>, tasks': map<Tid, TaskInfo>)
    requires a <= b && t in a
    requires (forall u :: u in a ==> u in tasks) && (forall u :: u in b ==> u in tasks')
    requires forall u :: u in a && u != t ==> tasks'[u].sliceTicks == tasks[u].sliceTicks
    ensures Ahead(b, tasks', t) == Ahead(a, tasks, t)
  {
    if a[0] != t {
      AheadExtends(a[1..], b[1..], t, tasks, tasks');
    }
  }

  /** With at most TASK_TIME_SLICE_DEFAULT ticks each for the p tasks in front. */
  lemma {:induction false} AheadBounds(ids: seq<Tid>, tasks: map<Tid, TaskInfo>, p: nat)
    requires SlicesOk(tasks) && p < |ids| && forall u :: u in ids ==> u in tasks
    requires forall i :: 0 <= i < p ==> ids[i] != ids[p]
    ensures p <= Ahead(ids, tasks, ids[p]) <= TASK_TIME_SLICE_DEFAULT * p
  {
    if p > 0 {
      assert forall i :: 0 <= i < p - 1 ==> ids[1..][i] == ids[i + 1];
      AheadBounds(ids[1..], tasks, p - 1);
    }
  }

  /** What a step needs of its start state in order not to delay a ready task. */
  ghost predicate Waits(s: KState, t: Tid) {
    && Known(s) && CurrentIsHead(s) && SlicesOk(s.tasks) && NoDup(s.ready)
    && s.idle !in s.ready && s.curr !in s.sleeping && t in s.ready && t != s.curr
  }

  lemma TickShortensWait(s: KState, t: Tid)
    requires Waits(s, t) && Known(TickStep(s))
    ensures var r := TickStep(s);
            t in r.ready && Ahead(r.ready, r.tasks, t) == Ahead(s.ready, s.tasks, t) - 1
  {
    var r, c := TickStep(s), s.curr;
    TickShape(s);
    var behind := s.ready[1..];
    assert s.ready == [c] + behind;
    if s.tasks[c].sliceTicks == 1 {
      AheadExtends(behind, behind + [c], t, s.tasks, r.tasks);
      AheadExtends(behind + [c], r.ready, t, r.tasks, r.tasks);
    } else {
      assert r.ready[1..][..|behind|] == behind;
      AheadExtends(behind, r.ready[1..], t, s.tasks, r.tasks);
    }
  }

  lemma StepKeepsWait(s: KState, st: Step, t: Tid)
    requires Waits(s, t) && Enabled(s, st) && st != Tick && Known(Apply(s, st))
    ensures var r := Apply(s, st);
            t in r.ready && Ahead(r.ready, r.tasks, t) <= Ahead(s.ready, s.tasks, t)
  {
    var r := Apply(s, st);
    StepShape(s, st);
    if s.ready <= r.ready {
      AheadExtends(s.ready, r.ready, t, s.tasks, r.tasks);
    } else {
      AheadExtends(s.ready[1..], r.ready, t, s.tasks, r.tasks);
    }
  }

  /** A ready task that is not running stays ready; its wait never grows, and each tick shortens it by 1. */
  lemma WaitShrinks(s: KState, st: Step, t: Tid)
    requires Inv(s) && Known(s) && Enabled(s, st) && t in s.ready && t != s.curr
    ensures var r := Next(s, st);
            && Inv(r) && Known(r) && t in r.ready
            && (if st == Tick then Ahead(r.ready, r.tasks, t) == Ahead(s.ready, s.tasks, t) - 1
                else Ahead(r.ready, r.tasks, t) <= Ahead(s.ready, s.tasks, t))
  {
    NextInv(s, st);
    CoreKnown(Next(s, st));
    Queues(s);
    if st == Tick {
      TickShortensWait(s, t);
    } else {
      StepKeepsWait(s, st, t);
    }
  }

  /** A run can be cut anywhere. */
  lemma {:induction false} RunSplit(s: KState, steps: seq<Step>, k: nat)
    requires CanRun(s, steps) && k <= |steps|
    ensures CanRun(s, steps[..k]) && CanRun(Run(s, steps[..k]), steps[k..])
    ensures Run(Run(s, steps[..k]), steps[k..]) == Run(s, steps)
    ensures Ticks(steps[..k]) + Ticks(steps[k..]) == Ticks(steps)
    decreases |steps|
  {
    hide Next, Enabled;
    if k == 0 {
      assert steps[..0] == [] && steps[0..] == steps;
    } else {
      var st, rest := steps[0], steps[1..];
      RunSplit(Next(s, st), rest, k - 1);
      assert steps[..k] == [st] + rest[..k - 1] && steps[..k][1..] == rest[..k - 1];
      assert steps[k..] == rest[k - 1..];
    }
  }

  lemma {:induction false} RunPrefix(s: KState, steps: seq<Step>, k: nat)
    requires CanRun(s, steps) && 0 < k <= |steps|
    ensures Run(s, steps[..k]) == Run(Next(s, steps[0]), steps[1..][..k - 1])
    ensures Ticks(steps[..k]) == (if steps[0] == Tick then 1 else 0) + Ticks(steps[1..][..k - 1])
  {
    assert steps[..k][1..] == steps[1..][..k - 1];
  }

  /** Bounded waiting: in any run with at least Ahead ticks, task t gets the processor within the
      first Ahead of them, however ticks and other steps interleave. */
  lemma {:induction false} BoundedWaiting(s: KState, steps: seq<Step>, t: Tid) returns (k: nat)
    requires Inv(s) && Known(s) && CanRun(s, steps) && t in s.ready
    requires Ticks(steps) >= Ahead(s.ready, s.tasks, t)
    ensures k <= |steps| && Run(s, steps[..k]).curr == t
    ensures Ticks(steps[..k]) <= Ahead(s.ready, s.tasks, t)
    decreases |steps|
  {
    hide Inv, Next, Enabled, Ahead, Known;
    if t == s.curr {
      k := 0;
      AheadPositive(s, t);
    } else {
      AheadPositive(s, t);
      WaitShrinks(s, steps[0], t);
      k := BoundedWaiting(Next(s, steps[0]), steps[1..], t);
      k := k + 1;
      RunPrefix(s, steps, k);
    }
  }

  lemma AheadPositive(s: KState, t: Tid)
    requires Inv(s) && Known(s) && t in s.ready
    ensures Ahead(s.ready, s.tasks, t) >= 0
    ensures t != s.curr ==> Ahead(s.ready, s.tasks, t) > 0
  {
    Queues(s);
    var p :| 0 <= p < |s.ready| && s.ready[p] == t;
    AheadBounds(s.ready, s.tasks, p);
  }
}
