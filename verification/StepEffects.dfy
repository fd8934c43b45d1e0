/** What every step leaves behind, queue by queue and record by record, read off the state before it: the ready list,
    the sleep list, the running task and each task's record. */
module StepEffects {
  import opened Sequences
  import opened KernelState
  import opened SchedulerInvariant
  import opened SchedulerRuns
  import opened SyncRuns

  /** The caller has to wait: the semaphore has no count, or somebody else holds the mutex. */
  predicate Blocks(s: KState, st: Step)
    requires Enabled(s, st)
  {
    match st
    case SemWait(k) => s.objects[k].count == 0
    case MutexLock(k) => s.objects[k].owner != None && s.objects[k].owner != Some(s.curr)
    case _ => false
  }

  /** Somebody is taken off a wait list. */
  predicate Wakes(s: KState, st: Step)
    requires Enabled(s, st)
  {
    (st.SemNotify? || st.MutexUnlock?) && HandsOver(s, st, st.k)
  }

  /** The running task goes to the end of the ready list. */
  predicate Rotates(s: KState, st: Step)
    requires s.curr in s.tasks
  {
    || (st == Yield && |s.ready| > 1)
    || (st == Tick && s.curr != s.idle && s.tasks[s.curr].sliceTicks == 1)
  }

  function Rest(q: seq<Tid>): seq<Tid> { if q == [] then [] else q[1..] }

  /** The ready list after any step but a tick. */
  function ReadyAfter(s: KState, st: Step): seq<Tid>
    requires s.curr in s.tasks && Enabled(s, st)
  {
    if st.Msleep? || Blocks(s, st) then Rest(s.ready)
    else if Rotates(s, st) then Rest(s.ready) + [s.curr]
    else if Wakes(s, st) then s.ready + [s.objects[st.k].waiting[0]]
    else if st.Start? then s.ready + [st.t]
    else s.ready
  }

  function SleepingAfter(s: KState, st: Step): seq<Tid> {
    if st.Msleep? && st.ms <= LONGEST_SLEEP_MS then s.sleeping + [s.curr] else s.sleeping
  }

  /** The ticks a sleep takes: the delay in units of OS_TICK_MS, rounded up, and at least one. */
  function CeilTicks(ms: nat): nat { if ms == 0 then 1 else (ms + OS_TICK_MS - 1) / OS_TICK_MS }

  /** A task's state changes when it gets the processor, when it goes to sleep and when it joins the ready list's end,
      and never otherwise. */
  function StateAfter(s: KState, r: KState, st: Step, t: Tid): TaskState
    requires s.curr in s.tasks && t in s.tasks
  {
    if t == r.curr && t != s.curr then TaskRunning
    else if t in r.sleeping && t !in s.sleeping then TaskSleep
    else if (t in r.ready && t !in s.ready) || (t == s.curr && Rotates(s, st)) then TaskReady
    else s.tasks[t].state
  }

  function SliceAfter(s: KState, st: Step, t: Tid): int
    requires t in s.tasks
  {
    var left := s.tasks[t].sliceTicks;
    if st != Tick || t != s.curr then left else if left == 1 then TASK_TIME_SLICE_DEFAULT else left - 1
  }

  function SleepAfter(s: KState, st: Step, t: Tid): int
    requires t in s.tasks
  {
    if st == Tick && t in s.sleeping then s.tasks[t].sleepTicks - 1
    else if st.Msleep? && st.ms <= LONGEST_SLEEP_MS && t == s.curr then CeilTicks(st.ms)
    else s.tasks[t].sleepTicks
  }

  /** Every record of r is what the step makes of it. */
  ghost predicate RecordsAfter(s: KState, r: KState, st: Step)
    requires s.curr in s.tasks
  {
    && (forall t :: t in s.tasks ==>
          t in r.tasks && r.tasks[t] == TaskInfo(StateAfter(s, r, st, t), SliceAfter(s, st, t), SleepAfter(s, st, t)))
    && forall t :: t in r.tasks && t !in s.tasks ==>
          st == Create(t) && r.tasks[t] == TaskInfo(TaskCreated, TASK_TIME_SLICE_DEFAULT, 0)
  }

  /** The queues and the running task of r, for any step but a tick. */
  ghost predicate QueuesAfter(s: KState, r: KState, st: Step)
    requires s.curr in s.tasks && Enabled(s, st)
  {
    && r.ready == ReadyAfter(s, st) && r.sleeping == SleepingAfter(s, st) && r.idle == s.idle
    && r.curr == (if r.ready == [] then r.idle else r.ready[0])
  }

  // ---------- step by step ----------

  /** What a step can rely on. */
  ghost predicate Settled(s: KState) {
    && Known(s) && CurrentIsHead(s) && NoDup(s.ready) && s.idle !in s.ready && s.idle !in s.sleeping
    && (forall t :: t in s.ready ==> t !in s.sleeping)
    && (forall o :: o in s.objects ==> forall t :: t in o.waiting ==> t != s.idle && t !in s.ready && t !in s.sleeping)
  }

  lemma SettledInv(s: KState)
    requires Inv(s)
    ensures Settled(s)
  {
    CoreKnown(s);
    Queues(s);
    assert s.idle !in Placed(s);
    forall o | o in s.objects
      ensures forall t :: t in o.waiting ==> t != s.idle && t !in s.ready && t !in s.sleeping
    {
      var k :| 0 <= k < |s.objects| && s.objects[k] == o;
      QueueDistinct(s, k);
    }
  }

  lemma HeadOut(s: KState)
    requires Settled(s)
    ensures SetBlock(s, s.curr) == s.(ready := Rest(s.ready))
    ensures s.curr !in Rest(s.ready)
    ensures s.curr != s.idle ==> s.ready != [] && s.ready == [s.curr] + Rest(s.ready)
  {
  }

  lemma MsleepEffect(s: KState, ms: nat)
    requires Settled(s) && Enabled(s, Msleep(ms))
    ensures QueuesAfter(s, MsleepStep(s, ms), Msleep(ms)) && RecordsAfter(s, MsleepStep(s, ms), Msleep(ms))
  {
    HeadOut(s);
    TicksAsked(ms);
    hide SetBlock, SleepTicks, CeilTicks, Rest, NoDup;
  }

  lemma TicksAsked(ms: nat)
    requires ms < UINT32
    ensures SleepTicks(ms) == if ms <= LONGEST_SLEEP_MS then CeilTicks(ms) else 0
    ensures CeilTicks(ms) > 0
  {
  }

  lemma YieldStepEffect(s: KState)
    requires Settled(s)
    ensures QueuesAfter(s, YieldStep(s), Yield) && RecordsAfter(s, YieldStep(s), Yield)
  {
    HeadOut(s);
    hide SetBlock, NoDup;
  }

  lemma BlockEffect(s: KState, st: Step)
    requires Settled(s) && Enabled(s, st) && Blocks(s, st)
    ensures QueuesAfter(s, BlockOn(s, st.k), st) && RecordsAfter(s, BlockOn(s, st.k), st)
  {
    HeadOut(s);
    hide SetBlock, NoDup, Enqueue, Rest;
  }

  lemma HandOverEffect(s: KState, st: Step, o: SyncObject)
    requires Settled(s) && Enabled(s, st) && Wakes(s, st)
    ensures s.objects[st.k].waiting[0] in s.tasks
    ensures var r := Dispatch(SetReady(WithObject(s, st.k, o), s.objects[st.k].waiting[0]));
            QueuesAfter(s, r, st) && RecordsAfter(s, r, st)
  {
    hide NoDup;
    var t := s.objects[st.k].waiting[0];
    assert s.objects[st.k] in s.objects && t in s.objects[st.k].waiting;
  }

  lemma SyncEffect(s: KState, st: Step)
    requires Settled(s) && Enabled(s, st)
    requires st.SemWait? || st.SemNotify? || st.MutexLock? || st.MutexUnlock?
    requires ObjectOk(s.objects[st.k], s.idle, s.tasks)
    ensures QueuesAfter(s, Apply(s, st), st) && RecordsAfter(s, Apply(s, st), st)
  {
    SettledKnown(s);
    hide Settled, Known, BlockOn, Dispatch, SetReady, QueuesAfter, RecordsAfter, TickStep, YieldStep, MsleepStep;
    var o := s.objects[st.k];
    if Blocks(s, st) {
      BlockEffect(s, st);
    } else if Wakes(s, st) {
      var left := o.waiting[1..];
      HandOverEffect(s, st, if st.SemNotify? then Sem(o.count, left) else Mutex(Some(o.waiting[0]), 1, left));
    } else {
      CountersOnly(s, st, Apply(s, st));
    }
  }

  lemma CountersOnly(s: KState, st: Step, r: KState)
    requires Settled(s) && Enabled(s, st) && r == s.(objects := r.objects)
    requires !st.Msleep? && !st.Start? && !Blocks(s, st) && !Rotates(s, st) && !Wakes(s, st) && st != Tick
    ensures QueuesAfter(s, r, st) && RecordsAfter(s, r, st)
  {
    hide Blocks, Wakes, NoDup;
  }

  lemma SettledKnown(s: KState)
    requires Settled(s)
    ensures Known(s)
  {
  }

  /** task_start puts the task, in state READY, at the end of the ready list and changes nothing else: it neither
      runs nor sleeps, and the caller runs on. */
  lemma StartEffect(s: KState, t: Tid)
    requires Inv(s) && Enabled(s, Start(t))
    ensures t in s.tasks && t !in s.ready && t !in s.sleeping
    ensures Next(s, Start(t)) == s.(ready := s.ready + [t], tasks := s.tasks[t := s.tasks[t].(state := TaskReady)])
    ensures Next(s, Start(t)).curr == s.curr
  {
    StartRelies(s, t);
  }

  /** Every step but a tick: what is on the ready list and on the sleep list afterwards and in which order, who runs,
      and what each record says. */
  lemma StepEffect(s: KState, st: Step)
    requires Inv(s) && Enabled(s, st) && st != Tick
    ensures s.curr in s.tasks && QueuesAfter(s, Next(s, st), st) && RecordsAfter(s, Next(s, st), st)
  {
    SettledInv(s);
    SettledKnown(s);
    if st.SemWait? || st.SemNotify? || st.MutexLock? || st.MutexUnlock? {
      ObjectIsOk(s, st.k);
      hide Inv, Apply, ObjectOk, QueuesAfter, RecordsAfter;
      SyncEffect(s, st);
    } else if st == Yield {
      hide Inv, QueuesAfter, RecordsAfter;
      YieldStepEffect(s);
    } else if st.Msleep? {
      hide Inv, QueuesAfter, RecordsAfter;
      MsleepEffect(s, st.ms);
    } else {
      if st.Start? { StartRelies(s, st.t); }
      hide Inv, Apply, QueuesAfter, RecordsAfter;
      OtherEffect(s, st);
    }
  }

  lemma ObjectIsOk(s: KState, k: nat)
    requires Inv(s) && k < |s.objects|
    ensures ObjectOk(s.objects[k], s.idle, s.tasks)
  {
  }

  lemma OtherEffect(s: KState, st: Step)
    requires Settled(s) && Enabled(s, st) && (st.Create? || st.Start? || st.NewSem? || st.NewMutex?)
    requires st.Start? ==> st.t !in s.ready
    ensures QueuesAfter(s, Apply(s, st), st) && RecordsAfter(s, Apply(s, st), st)
  {
    hide NoDup, TickStep, YieldStep, MsleepStep, SemWaitStep, SemNotifyStep, MutexLockStep, MutexUnlockStep;
    if st.NewSem? || st.NewMutex? {
      CountersOnly(s, st, Apply(s, st));
    } else if st.Create? {
      CreateEffect(s, st.t);
    } else {
      StartedEffect(s, st.t);
    }
  }

  lemma CreateEffect(s: KState, t: Tid)
    requires Settled(s) && t !in s.tasks
    ensures QueuesAfter(s, CreateStep(s, t), Create(t)) && RecordsAfter(s, CreateStep(s, t), Create(t))
  {
    hide NoDup;
  }

  lemma StartedEffect(s: KState, t: Tid)
    requires Settled(s) && Enabled(s, Start(t)) && t !in s.ready
    ensures QueuesAfter(s, SetReady(s, t), Start(t)) && RecordsAfter(s, SetReady(s, t), Start(t))
  {
    hide NoDup;
  }

  // ---------- a tick ----------

  lemma ChargedRecords(s: KState, t: Tid)
    requires Settled(s) && t in s.tasks && SlicesOk(s.tasks)
    ensures var c := ChargeSlice(s);
            && t in c.tasks && c.sleeping == s.sleeping && c.curr == s.curr && c.idle == s.idle
            && c.objects == s.objects && c.ready == Rotated(s)
            && c.tasks[t] == TaskInfo(if t == s.curr && Rotates(s, Tick) then TaskReady else s.tasks[t].state,
                                      SliceAfter(s, Tick, t), s.tasks[t].sleepTicks)
  {
    HeadOut(s);
    hide SetBlock, NoDup;
  }

  lemma WokenRecords(s: KState, t: Tid)
    requires (forall u :: u in s.sleeping ==> u in s.tasks) && t in s.tasks
    ensures var w := WakeSleepers(s);
            && t in w.tasks && w.curr == s.curr && w.idle == s.idle && w.objects == s.objects
            && (t in w.ready <==> t in s.ready || (t in s.sleeping && s.tasks[t].sleepTicks == 1))
            && (t in w.sleeping <==> t in s.sleeping && s.tasks[t].sleepTicks != 1)
            && w.tasks[t] == s.tasks[t].(sleepTicks := s.tasks[t].sleepTicks - if t in s.sleeping then 1 else 0,
                                         state := if t in s.sleeping && s.tasks[t].sleepTicks == 1 then TaskReady
                                                  else s.tasks[t].state)
  {
    SplitSleepers(s.sleeping, s.tasks);
    hide Woken, Dozing;
  }

  lemma DispatchedRecords(s: KState, t: Tid)
    requires NextRun(s) in s.tasks && t in s.tasks
    ensures var r := Dispatch(s);
            && r.curr == NextRun(s) && t in r.tasks && r.ready == s.ready && r.sleeping == s.sleeping
            && r.tasks[t] == s.tasks[t].(state := if t == r.curr && t != s.curr then TaskRunning else s.tasks[t].state)
  {
  }

  lemma ChargedKnown(s: KState)
    requires Settled(s)
    ensures var c := ChargeSlice(s);
            && c.tasks.Keys == s.tasks.Keys && c.ready == Rotated(s) && c.sleeping == s.sleeping
            && c.curr == s.curr && c.idle == s.idle && c.idle in c.tasks
            && (forall u :: u in c.sleeping ==> u in c.tasks) && (forall u :: u in c.ready ==> u in c.tasks)
            && forall u :: u in c.ready <==> u in s.ready
  {
    HeadOut(s);
    hide SetBlock, NoDup;
  }

  lemma NextKnown(c: KState)
    requires (forall u :: u in c.sleeping ==> u in c.tasks) && (forall u :: u in c.ready ==> u in c.tasks)
    requires c.idle in c.tasks
    ensures NextRun(WakeSleepers(c)) in WakeSleepers(c).tasks
  {
    hide Woken, Dozing;
    var w := WakeSleepers(c);
    if w.ready != [] {
      assert w.ready[0] in w.ready;
    }
  }

  lemma TickRecord(s: KState, t: Tid)
    requires Settled(s) && SlicesOk(s.tasks) && t in s.tasks
    ensures var r := TickStep(s);
            && t in r.tasks && r.curr == NextRun(r) && r.idle == s.idle
            && r.tasks[t] == TaskInfo(StateAfter(s, r, Tick, t), SliceAfter(s, Tick, t), SleepAfter(s, Tick, t))
  {
    var c := ChargeSlice(s);
    ChargedRecords(s, t);
    ChargedKnown(s);
    Apart(s, t);
    hide ChargeSlice, WakeSleepers, Dispatch, Settled, Rotated, SliceAfter, Rotates, NextRun;
    WokenRecords(c, t);
    NextKnown(c);
    DispatchedRecords(WakeSleepers(c), t);
  }

  lemma Apart(s: KState, t: Tid)
    requires Settled(s) && t in s.tasks
    ensures Known(s) && s.curr !in s.sleeping && (t in s.ready ==> t !in s.sleeping)
  {
  }

  /** A tick, record by record. */
  lemma TickRecords(s: KState)
    requires Inv(s)
    ensures Known(s) && s.curr in s.tasks && RecordsAfter(s, TickStep(s), Tick)
  {
    SettledInv(s);
    SettledKnown(s);
    TickKeys(s);
    hide Inv, Settled, TickStep;
    forall t | t in s.tasks
      ensures t in TickStep(s).tasks
      ensures TickStep(s).tasks[t] ==
              TaskInfo(StateAfter(s, TickStep(s), Tick, t), SliceAfter(s, Tick, t), SleepAfter(s, Tick, t))
    {
      TickRecord(s, t);
    }
  }

  lemma TickKeys(s: KState)
    requires Inv(s) && Settled(s)
    ensures TickStep(s).tasks.Keys == s.tasks.Keys && SlicesOk(s.tasks)
  {
    Apart(s, s.curr);
    hide Core;
    TickShape(s);
  }

  /** Every step, a tick or not, record by record: the state changes exactly on the way to the processor, to sleep or
      to the end of the ready list; the slice with the ticks the task runs for; the ticks to sleep with the ticks. */
  lemma StepOnRecords(s: KState, st: Step)
    requires Inv(s) && Enabled(s, st)
    ensures s.curr in s.tasks && RecordsAfter(s, Next(s, st), st)
  {
    if st == Tick {
      hide RecordsAfter, TickStep;
      TickRecords(s);
    } else {
      hide *;
      StepEffect(s, st);
    }
  }

  // ---------- who runs ----------

  /** The step takes the processor from the running task: its slice ends or it yields with another task ready, it goes
      to sleep, it has to wait; or idle was running, and somebody gets ready. */
  predicate Switches(s: KState, st: Step)
    requires s.curr in s.tasks && Enabled(s, st) && forall t :: t in s.sleeping ==> t in s.tasks
  {
    match st
    case Tick =>
      if s.curr == s.idle then exists t :: t in s.sleeping && s.tasks[t].sleepTicks == 1
      else s.tasks[s.curr].sliceTicks == 1 && |s.ready| > 1
    case Yield => |s.ready| > 1
    case Msleep(_) => true
    case SemNotify(k) => s.curr == s.idle && s.objects[k].waiting != []
    case _ => Blocks(s, st)
  }

  /** The head of the ready list after a tick. */
  lemma TickHead(s: KState)
    requires Inv(s) && Known(s)
    ensures var r := TickStep(s);
            && r.curr == (if r.ready == [] then s.idle else r.ready[0]) && s.idle !in r.ready
            && (s.curr == s.idle ==>
                  s.ready == [] && forall t :: t in r.ready <==> t in s.sleeping && s.tasks[t].sleepTicks == 1)
            && (s.curr != s.idle ==> Rotated(s) != [] && r.ready != [] && r.ready[0] == Rotated(s)[0])
  {
    SettledInv(s);
    HeadOut(s);
    TickInv(s);
    ChargedKnown(s);
    SettledInv(TickStep(s));
    Apart(s, s.curr);
    TickRecord(s, s.curr);
    hide Inv, TickStep, NoDup, SetBlock;
    TickOnQueues(s);
    SplitSleepers(s.sleeping, ChargeSlice(s).tasks);
  }

  lemma TickSwitches(s: KState)
    requires Inv(s) && Known(s)
    ensures TickStep(s).curr != s.curr <==> Switches(s, Tick)
  {
    SettledInv(s);
    HeadOut(s);
    TickHead(s);
    hide TickStep, Inv, NoDup, Known;
    var r := TickStep(s);
    if s.curr == s.idle {
      assert r.ready != [] ==> r.ready[0] in r.ready;
    }
  }

  /** The running task changes with these steps and with no other. */
  lemma SwitchesIff(s: KState, st: Step)
    requires Inv(s) && Enabled(s, st)
    ensures s.curr in s.tasks && forall t :: t in s.sleeping ==> t in s.tasks
    ensures Next(s, st).curr != s.curr <==> Switches(s, st)
  {
    SettledInv(s);
    SettledKnown(s);
    if st == Tick {
      hide Inv, Settled, TickStep, Switches;
      TickSwitches(s);
    } else {
      StepEffect(s, st);
      OtherSwitches(s, st);
    }
  }

  /** Who is at the head of the ready list once its head has left it, or has gone to its end, or nothing but its end
      has changed. */
  lemma HeadAfter(s: KState, r: KState, last: seq<Tid>)
    requires Settled(s) && r.idle == s.idle && r.curr == if r.ready == [] then r.idle else r.ready[0]
    requires s.idle !in last && s.curr !in last
    ensures s.curr != s.idle && r.ready == Rest(s.ready) ==> r.curr != s.curr
    ensures |s.ready| > 1 && r.ready == Rest(s.ready) + [s.curr] ==> r.curr != s.curr
    ensures r.ready == s.ready + last ==> (r.curr != s.curr <==> s.curr == s.idle && last != [])
  {
    HeadOut(s);
    hide NoDup, Known;
    assert Rest(s.ready) != [] ==> Rest(s.ready)[0] in Rest(s.ready);
    assert last != [] ==> last[0] in last;
  }

  /** Who joins the ready list's end. */
  function Joins(s: KState, st: Step): seq<Tid>
    requires Enabled(s, st)
  {
    if Wakes(s, st) then [s.objects[st.k].waiting[0]] else if st.Start? then [st.t] else []
  }

  /** Where the ready list only grows, it grows by those who join it. */
  lemma OnlyJoined(s: KState, st: Step)
    requires Settled(s) && Enabled(s, st)
    ensures Rotates(s, st) && st != Tick ==> |s.ready| > 1 && ReadyAfter(s, st) == Rest(s.ready) + [s.curr]
    ensures st.Msleep? || Blocks(s, st) ==> ReadyAfter(s, st) == Rest(s.ready)
    ensures !st.Msleep? && !Blocks(s, st) && !Rotates(s, st) ==> ReadyAfter(s, st) == s.ready + Joins(s, st)
  {
    hide NoDup, Known, Rest, HandsOver;
  }

  lemma SwitchesMeans(s: KState, st: Step)
    requires s.curr in s.tasks && Enabled(s, st) && st != Tick && forall t :: t in s.sleeping ==> t in s.tasks
    ensures Switches(s, st) <==>
            || st.Msleep? || Blocks(s, st) || Rotates(s, st)
            || (st.SemNotify? && s.curr == s.idle && s.objects[st.k].waiting != [])
  {
  }

  lemma OtherSwitches(s: KState, st: Step)
    requires Inv(s) && Enabled(s, st) && st != Tick && s.curr in s.tasks && QueuesAfter(s, Next(s, st), st)
    requires forall t :: t in s.sleeping ==> t in s.tasks
    ensures Next(s, st).curr != s.curr <==> Switches(s, st)
  {
    SettledInv(s);
    JoinersAreNew(s, st);
    HeadAfter(s, Next(s, st), Joins(s, st));
    BlocksInTurn(s, st);
    OnlyJoined(s, st);
    SwitchesMeans(s, st);
    hide Inv, Next, Known, NoDup, Blocks, Settled, Rest, Enabled, Switches, Rotates, ReadyAfter, Wakes;
  }

  lemma BlocksInTurn(s: KState, st: Step)
    requires Inv(s) && Enabled(s, st)
    ensures Blocks(s, st) || st.Msleep? || st.Start? ==> s.curr != s.idle
    ensures Blocks(s, st) ==> st.SemWait? || st.MutexLock?
    ensures Wakes(s, st) && s.curr == s.idle ==> st.SemNotify?
    ensures st.SemNotify? ==> (Wakes(s, st) <==> s.objects[st.k].waiting != [])
  {
    if st.MutexUnlock? { ObjectIsOk(s, st.k); }
    hide Inv;
  }

  lemma JoinersAreNew(s: KState, st: Step)
    requires Inv(s) && Settled(s) && Enabled(s, st)
    ensures s.idle !in Joins(s, st) && s.curr !in Joins(s, st)
  {
    if st.Start? {
      StartRelies(s, st.t);
      HeadOut(s);
    } else if Wakes(s, st) {
      assert s.objects[st.k] in s.objects && s.objects[st.k].waiting[0] in s.objects[st.k].waiting;
      HeadOut(s);
    }
  }

  /** A call that neither blocks its caller nor wakes anybody changes the object it names, or makes a new one, and
      nothing else: the caller runs on, no queue moves, every record is as before. */
  lemma UnblockedEffect(s: KState, st: Step)
    requires Inv(s) && Enabled(s, st) && !Blocks(s, st) && !Wakes(s, st)
    requires st.SemWait? || st.SemNotify? || st.MutexLock? || st.MutexUnlock? || st.NewSem? || st.NewMutex?
    ensures Next(s, st) == s.(objects := Next(s, st).objects)
  {
    StepEffect(s, st);
    SwitchesIff(s, st);
    BlocksInTurn(s, st);
    hide Inv, Next, Enabled;
    SameRecords(s, Next(s, st), st);
  }

  lemma SameRecords(s: KState, r: KState, st: Step)
    requires s.curr in s.tasks && RecordsAfter(s, r, st) && !st.Create? && !st.Msleep? && st != Tick && st != Yield
    requires r.curr == s.curr && r.ready == s.ready && r.sleeping == s.sleeping
    ensures r.tasks == s.tasks
  {
  }
}
