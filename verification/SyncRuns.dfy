/** Semaphores and mutexes over whole runs: first come, first served; no wake-up lost; mutual exclusion. */
module SyncRuns {
  import opened Sequences
  import opened KernelState
  import opened SchedulerInvariant
  import opened SchedulerRuns

  function Queue(s: KState, k: nat): seq<Tid> {
    if k < |s.objects| then s.objects[k].waiting else []
  }

  /** The elements of s that are not in t, in order. */
  function Missing<T(==)>(s: seq<T>, t: seq<T>): seq<T> {
    if s == [] then [] else (if s[0] in t then [] else [s[0]]) + Missing(s[1..], t)
  }

  lemma {:induction false} NoneMissing<T>(s: seq<T>, t: seq<T>)
    requires forall x :: x in s ==> x in t
    ensures Missing(s, t) == []
  {
    if s != [] {
      assert s[0] in t;
      NoneMissing(s[1..], t);
    }
  }

  lemma MissingHead<T>(s: seq<T>)
    requires NoDup(s) && s != []
    ensures Missing(s, s[1..]) == [s[0]]
  {
    assert s[0] !in s[1..];
    NoneMissing(s[1..], s[1..]);
  }

  /** The step gives object k to the head of its queue. */
  predicate HandsOver(s: KState, st: Step, k: nat)
    requires Enabled(s, st) && k < |s.objects|
  {
    var o := s.objects[k];
    && o.waiting != []
    && (st == SemNotify(k) || (st == MutexUnlock(k) && o.owner == Some(s.curr) && o.lockedCount == 1))
  }

  /** Object k after a step on it. */
  function ObjectAfter(s: KState, st: Step, k: nat): SyncObject
    requires Enabled(s, st) && k < |s.objects|
  {
    var o := s.objects[k];
    match o
    case Sem(count, w) =>
      if st == SemWait(k) then (if count > 0 then Sem(count - 1, w) else Sem(count, w + [s.curr]))
      else if st == SemNotify(k) then (if w != [] then Sem(count, w[1..]) else Sem(count + 1, w))
      else o
    case Mutex(owner, depth, w) =>
      if st == MutexLock(k) then
        (if depth == 0 then Mutex(Some(s.curr), 1, w)
         else if owner == Some(s.curr) then Mutex(owner, depth + 1, w)
         else Mutex(owner, depth, w + [s.curr]))
      else if st == MutexUnlock(k) && owner == Some(s.curr) then
        (if depth != 1 then Mutex(owner, depth - 1, w)
         else if w != [] then Mutex(Some(w[0]), 1, w[1..])
         else Mutex(None, 0, w))
      else o
  }

  lemma BlockOnObjects(s: KState, k: nat)
    requires Known(s) && k < |s.objects|
    ensures BlockOn(s, k).objects == s.objects[k := Enqueue(s.objects[k], s.curr)]
  {
  }

  lemma HandOverObjects(s: KState, k: nat, o: SyncObject, t: Tid)
    requires Known(s) && k < |s.objects| && t in s.tasks
    ensures var r := Dispatch(SetReady(WithObject(s, k, o), t));
            r.objects == s.objects[k := o] && (t != s.idle ==> t in r.ready)
  {
  }

  lemma PlainStepOnObjects(s: KState, st: Step, k: nat)
    requires Known(s) && Enabled(s, st) && k < |s.objects|
    requires !st.SemWait? && !st.SemNotify? && !st.MutexLock? && !st.MutexUnlock?
    ensures k < |Apply(s, st).objects| && Apply(s, st).objects[k] == s.objects[k]
  {
    hide SemWaitStep, SemNotifyStep, MutexLockStep, MutexUnlockStep, Woken, Dozing, CountDown;
  }

  lemma SyncStepOnObjects(s: KState, st: Step)
    requires Known(s) && Enabled(s, st)
    requires st.SemWait? || st.SemNotify? || st.MutexLock? || st.MutexUnlock?
    ensures Apply(s, st).objects == s.objects[st.k := ObjectAfter(s, st, st.k)]
    ensures HandsOver(s, st, st.k) && s.objects[st.k].waiting[0] != s.idle ==>
              s.objects[st.k].waiting[0] in Apply(s, st).ready
  {
    hide Dispatch, BlockOn, SetReady, TickStep, YieldStep, MsleepStep, CreateStep;
    var k, o := st.k, s.objects[st.k];
    assert o in s.objects;
    match st
    case SemWait(_) =>
      if o.count <= 0 { BlockOnObjects(s, k); }
    case SemNotify(_) =>
      if o.waiting != [] { HandOverObjects(s, k, Sem(o.count, o.waiting[1..]), o.waiting[0]); }
    case MutexLock(_) =>
      if o.lockedCount != 0 && o.owner != Some(s.curr) { BlockOnObjects(s, k); }
    case MutexUnlock(_) =>
      if o.waiting != [] { HandOverObjects(s, k, Mutex(Some(o.waiting[0]), 1, o.waiting[1..]), o.waiting[0]); }
  }

  /** A step changes the object it names, as ObjectAfter says, and no other. */
  lemma StepOnObjects(s: KState, st: Step, k: nat)
    requires Known(s) && Enabled(s, st) && k < |s.objects|
    ensures k < |Apply(s, st).objects| && Apply(s, st).objects[k] == ObjectAfter(s, st, k)
    ensures HandsOver(s, st, k) && s.objects[k].waiting[0] != s.idle ==> s.objects[k].waiting[0] in Apply(s, st).ready
  {
    hide Apply, Known;
    if st.SemWait? || st.SemNotify? || st.MutexLock? || st.MutexUnlock? {
      SyncStepOnObjects(s, st);
    } else {
      PlainStepOnObjects(s, st, k);
    }
  }

  // ---------- semaphores ----------

  /** The caller of sem_wait on semaphore k, if the step is such a call. */
  function CalledBy(s: KState, st: Step, k: nat): seq<Tid> {
    if st == SemWait(k) then [s.curr] else []
  }

  /** The tasks whose sem_wait on k completes in this step: those that leave the queue, and a caller that
      does not enter it. */
  function GrantedBy(s: KState, st: Step, k: nat): seq<Tid> {
    var after := Queue(Next(s, st), k);
    Missing(Queue(s, k), after) + if st == SemWait(k) && s.curr !in after then [s.curr] else []
  }

  function Calls(s: KState, steps: seq<Step>, k: nat): seq<Tid>
    decreases |steps|
  {
    if steps == [] then [] else CalledBy(s, steps[0], k) + Calls(Next(s, steps[0]), steps[1..], k)
  }

  function Grants(s: KState, steps: seq<Step>, k: nat): seq<Tid>
    decreases |steps|
  {
    if steps == [] then [] else GrantedBy(s, steps[0], k) + Grants(Next(s, steps[0]), steps[1..], k)
  }

  function Notifies(steps: seq<Step>, k: nat): nat {
    if steps == [] then 0 else (if steps[0] == SemNotify(k) then 1 else 0) + Notifies(steps[1..], k)
  }

  /** A queue as one step can leave it. */
  lemma QueueChange(s: KState, st: Step, k: nat)
    requires Inv(s) && Enabled(s, st) && k < |s.objects|
    ensures Known(s) && k < |Next(s, st).objects|
    ensures Next(s, st).objects[k] == ObjectAfter(s, st, k)
    ensures ObjectOk(s.objects[k], s.idle, s.tasks)
    ensures NoDup(Queue(s, k)) && (s.curr != s.idle ==> s.curr !in Queue(s, k))
    ensures s.idle !in Queue(s, k)
  {
    CoreKnown(s);
    QueueDistinct(s, k);
    StepOnObjects(s, st, k);
  }

  lemma SemGrants(s: KState, st: Step, k: nat)
    requires Enabled(s, st) && IsSem(s, k) && Queue(Next(s, st), k) == ObjectAfter(s, st, k).waiting
    requires NoDup(Queue(s, k)) && (s.curr != s.idle ==> s.curr !in Queue(s, k))
    requires s.objects[k].count >= 0 && (s.objects[k].count > 0 ==> Queue(s, k) == [])
    ensures GrantedBy(s, st, k) ==
            (if st == SemWait(k) && s.objects[k].count > 0 then [s.curr]
             else if st == SemNotify(k) && Queue(s, k) != [] then [Queue(s, k)[0]]
             else [])
  {
    var w := Queue(s, k);
    if st == SemNotify(k) {
      if w != [] { MissingHead(w); }
    } else if st == SemWait(k) {
      NoneMissing(w, w + [s.curr]);
    } else {
      NoneMissing(w, w);
    }
  }

  lemma SemObjectStep(s: KState, st: Step, k: nat)
    requires Enabled(s, st) && IsSem(s, k) && ObjectOk(s.objects[k], s.idle, s.tasks)
    requires k < |Next(s, st).objects| && Next(s, st).objects[k] == ObjectAfter(s, st, k)
    requires NoDup(Queue(s, k)) && (s.curr != s.idle ==> s.curr !in Queue(s, k))
    ensures IsSem(Next(s, st), k)
    ensures Queue(s, k) + CalledBy(s, st, k) == GrantedBy(s, st, k) + Queue(Next(s, st), k)
    ensures Next(s, st).objects[k].count + |GrantedBy(s, st, k)| ==
            s.objects[k].count + if st == SemNotify(k) then 1 else 0
  {
    hide Next, Apply, Missing, GrantedBy, NoDup;
    SemGrants(s, st, k);
    var w := Queue(s, k);
    assert w != [] ==> w == [w[0]] + w[1..];
    assert w + [] == [] + w;
  }

  lemma SemStep(s: KState, st: Step, k: nat)
    requires Inv(s) && Enabled(s, st) && IsSem(s, k)
    ensures IsSem(Next(s, st), k)
    ensures Queue(s, k) + CalledBy(s, st, k) == GrantedBy(s, st, k) + Queue(Next(s, st), k)
    ensures Next(s, st).objects[k].count + |GrantedBy(s, st, k)| ==
            s.objects[k].count + if st == SemNotify(k) then 1 else 0
  {
    QueueChange(s, st, k);
    SemObjectStep(s, st, k);
  }

  lemma Chain<T>(q: seq<T>, c: seq<T>, cs: seq<T>, g: seq<T>, q1: seq<T>, gs: seq<T>, q2: seq<T>)
    requires q + c == g + q1 && q1 + cs == gs + q2
    ensures q + (c + cs) == (g + gs) + q2
  {
    assert q + (c + cs) == (q + c) + cs;
    assert (g + q1) + cs == g + (q1 + cs);
    assert g + (gs + q2) == (g + gs) + q2;
  }

  /** First come, first served, and every notify either completes a wait or is counted. */
  lemma {:induction false} SemAccounting(s: KState, steps: seq<Step>, k: nat)
    requires Inv(s) && CanRun(s, steps) && IsSem(s, k)
    ensures Inv(Run(s, steps)) && IsSem(Run(s, steps), k)
    ensures Queue(s, k) + Calls(s, steps, k) == Grants(s, steps, k) + Queue(Run(s, steps), k)
    ensures Run(s, steps).objects[k].count + |Grants(s, steps, k)| == s.objects[k].count + Notifies(steps, k)
    decreases |steps|
  {
    if steps == [] {
      assert Queue(s, k) + [] == [] + Queue(s, k);
    } else {
      var st, rest := steps[0], steps[1..];
      var r := Next(s, st);
      NextInv(s, st);
      SemStep(s, st, k);
      SemAccounting(r, rest, k);
      Chain(Queue(s, k), CalledBy(s, st, k), Calls(r, rest, k), GrantedBy(s, st, k), Queue(r, k),
            Grants(r, rest, k), Queue(Run(s, steps), k));
    }
  }

  /** From sem_init on, whatever initial count it was given: the waits completed are the first ones called,
      in the order of the calls, as many as min(waits, notifies), and a count is kept only while nobody waits. */
  lemma SemaphoreFifo(s: KState, initCount: int, steps: seq<Step>)
    requires Inv(s) && CanRun(Next(s, NewSem(initCount)), steps)
    ensures var s0, k := Next(s, NewSem(initCount)), |s.objects|;
            var r, calls, grants := Run(s0, steps), Calls(s0, steps, k), Grants(s0, steps, k);
            && IsSem(r, k)
            && calls == grants + Queue(r, k)
            && |grants| == (if |calls| < Notifies(steps, k) then |calls| else Notifies(steps, k))
            && r.objects[k].count == Notifies(steps, k) - |grants|
            && (r.objects[k].count > 0 ==> Queue(r, k) == [])
  {
    var s0, k := Next(s, NewSem(initCount)), |s.objects|;
    NextInv(s, NewSem(initCount));
    SemAccounting(s0, steps, k);
    var r := Run(s0, steps);
    assert ObjectOk(r.objects[k], r.idle, r.tasks);
    assert Queue(s0, k) + Calls(s0, steps, k) == Calls(s0, steps, k);
  }

  /** Only a handover takes anybody off a queue, and then it takes the head. */
  lemma OnlyHeadLeavesQueue(s: KState, st: Step, k: nat, t: Tid)
    requires Enabled(s, st) && k < |s.objects|
    requires t in s.objects[k].waiting && t !in ObjectAfter(s, st, k).waiting
    ensures HandsOver(s, st, k) && t == s.objects[k].waiting[0]
  {
    hide Enabled;
    var w := s.objects[k].waiting;
    assert w == [w[0]] + w[1..];
  }

  /** A wake-up puts the waiter on the ready list and leaves a running caller running. */
  lemma HandOverWakes(s: KState, st: Step, k: nat)
    requires Inv(s) && Enabled(s, st) && k < |s.objects| && (st == SemNotify(k) || st == MutexUnlock(k))
    ensures forall t :: t in Queue(s, k) && t !in Queue(Next(s, st), k) ==> t in Next(s, st).ready
    ensures s.curr != s.idle ==> Next(s, st).curr == s.curr
  {
    NextInv(s, st);
    QueueChange(s, st, k);
    StepOnObjects(s, st, k);
    if s.curr != s.idle { NotPreempted(s, st, k); }
    hide *;
    forall t | t in s.objects[k].waiting && t !in ObjectAfter(s, st, k).waiting ensures t in Next(s, st).ready {
      OnlyHeadLeavesQueue(s, st, k, t);
    }
    QueueIs(s, k);
    QueueIs(Next(s, st), k);
  }

  lemma QueueIs(s: KState, k: nat)
    requires k < |s.objects|
    ensures Queue(s, k) == s.objects[k].waiting
  {
  }

  lemma NotPreempted(s: KState, st: Step, k: nat)
    requires Known(s) && CurrentIsHead(s) && Enabled(s, st) && (st == SemNotify(k) || st == MutexUnlock(k))
    requires s.curr != s.idle
    ensures Apply(s, st).curr == s.curr
  {
  }

  // ---------- mutexes ----------

  /** How many of t's mutex_lock calls on k have returned and not yet been undone by its own mutex_unlock.
      A call returns at once if it does not put its caller on the queue, otherwise when t leaves the queue. */
  function HeldAfter(s: KState, st: Step, k: nat, t: Tid, held: nat): nat {
    var before, after := Queue(s, k), Queue(Next(s, st), k);
    (if st == MutexUnlock(k) && s.curr == t && held > 0 then held - 1 else held) +
    (if st == MutexLock(k) && s.curr == t && t !in after then 1 else 0) +
    (if t in before && t !in after then 1 else 0)
  }

  function Held(s: KState, steps: seq<Step>, k: nat, t: Tid, held: nat): nat
    decreases |steps|
  {
    if steps == [] then held
    else Held(Next(s, steps[0]), steps[1..], k, t, HeldAfter(s, steps[0], k, t, held))
  }

  /** The mutex's own record of how deep t holds it. */
  function Depth(o: SyncObject, t: Tid): int
    requires o.Mutex?
  {
    if o.owner == Some(t) then o.lockedCount else 0
  }

  /** Callers of mutex_lock on k that have to queue. */
  function BlockedBy(s: KState, st: Step, k: nat): seq<Tid> {
    if st == MutexLock(k) && s.curr in Queue(Next(s, st), k) then [s.curr] else []
  }

  lemma MutexObjectStep(s: KState, st: Step, k: nat, t: Tid, held: nat)
    requires Enabled(s, st) && IsMutex(s, k) && ObjectOk(s.objects[k], s.idle, s.tasks)
    requires k < |Next(s, st).objects| && Next(s, st).objects[k] == ObjectAfter(s, st, k)
    requires NoDup(Queue(s, k)) && (s.curr != s.idle ==> s.curr !in Queue(s, k))
    requires held == Depth(s.objects[k], t)
    ensures IsMutex(Next(s, st), k)
    ensures HeldAfter(s, st, k, t, held) == Depth(Next(s, st).objects[k], t)
  {
    hide Next, Apply;
    var w := Queue(s, k);
    if w != [] {
      assert w == [w[0]] + w[1..];
      assert w[0] !in w[1..];
    }
  }

  lemma MutexQueueStep(s: KState, st: Step, k: nat)
    requires Enabled(s, st) && IsMutex(s, k) && ObjectOk(s.objects[k], s.idle, s.tasks)
    requires k < |Next(s, st).objects| && Next(s, st).objects[k] == ObjectAfter(s, st, k)
    requires NoDup(Queue(s, k)) && (s.curr != s.idle ==> s.curr !in Queue(s, k))
    ensures Queue(s, k) + BlockedBy(s, st, k) ==
            Missing(Queue(s, k), Queue(Next(s, st), k)) + Queue(Next(s, st), k)
  {
    hide Next, Apply, Missing, NoDup;
    var w, after := Queue(s, k), Queue(Next(s, st), k);
    if after == w || after == w + [s.curr] {
      NoneMissing(w, after);
    } else {
      MissingHead(w);
      assert w == [w[0]] + w[1..];
    }
  }

  lemma {:induction false} HeldIsDepth(s: KState, steps: seq<Step>, k: nat, t: Tid, held: nat)
    requires Inv(s) && CanRun(s, steps) && IsMutex(s, k) && held == Depth(s.objects[k], t)
    ensures Inv(Run(s, steps)) && IsMutex(Run(s, steps), k)
    ensures Held(s, steps, k, t, held) == Depth(Run(s, steps).objects[k], t)
    decreases |steps|
  {
    if steps != [] {
      var st := steps[0];
      NextInv(s, st);
      QueueChange(s, st, k);
      MutexObjectStep(s, st, k, t, held);
      HeldIsDepth(Next(s, st), steps[1..], k, t, HeldAfter(s, st, k, t, held));
    }
  }

  /** Mutual exclusion: from mutex_init on, at any moment at most one task is between the return of a
      mutex_lock call and its matching mutex_unlock, and then the mutex is locked exactly that deep by it. */
  lemma MutualExclusion(s: KState, steps: seq<Step>, t: Tid, u: Tid)
    requires Inv(s) && CanRun(Next(s, NewMutex), steps)
    ensures var s0, k := Next(s, NewMutex), |s.objects|;
            var o := Run(s0, steps).objects;
            && k < |o| && o[k].Mutex?
            && (Held(s0, steps, k, t, 0) > 0 ==> o[k].owner == Some(t) && o[k].lockedCount == Held(s0, steps, k, t, 0))
            && (Held(s0, steps, k, t, 0) > 0 && Held(s0, steps, k, u, 0) > 0 ==> t == u)
  {
    NextInv(s, NewMutex);
    HeldIsDepth(Next(s, NewMutex), steps, |s.objects|, t, 0);
    HeldIsDepth(Next(s, NewMutex), steps, |s.objects|, u, 0);
  }

  function Blocked(s: KState, steps: seq<Step>, k: nat): seq<Tid>
    decreases |steps|
  {
    if steps == [] then [] else BlockedBy(s, steps[0], k) + Blocked(Next(s, steps[0]), steps[1..], k)
  }

  function Released(s: KState, steps: seq<Step>, k: nat): seq<Tid>
    decreases |steps|
  {
    if steps == [] then []
    else Missing(Queue(s, k), Queue(Next(s, steps[0]), k)) + Released(Next(s, steps[0]), steps[1..], k)
  }

  /** Tasks that block on a mutex get it in the order in which they blocked, and none is forgotten. */
  lemma {:induction false} MutexFifo(s: KState, steps: seq<Step>, k: nat)
    requires Inv(s) && CanRun(s, steps) && IsMutex(s, k)
    ensures Queue(s, k) + Blocked(s, steps, k) == Released(s, steps, k) + Queue(Run(s, steps), k)
    decreases |steps|
  {
    if steps == [] {
      assert Queue(s, k) + [] == [] + Queue(s, k);
    } else {
      var st, rest := steps[0], steps[1..];
      var r := Next(s, st);
      NextInv(s, st);
      QueueChange(s, st, k);
      MutexQueueStep(s, st, k);
      MutexFifo(r, rest, k);
      Chain(Queue(s, k), BlockedBy(s, st, k), Blocked(r, rest, k), Missing(Queue(s, k), Queue(r, k)), Queue(r, k),
            Released(r, rest, k), Queue(Run(s, steps), k));
    }
  }
}
