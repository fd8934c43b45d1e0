/** The scheduler, its sleep queue, semaphores and mutexes as a state machine over sequences:
    the effect of source/kernel/core/task.c, source/kernel/ipc/sem.c and source/kernel/ipc/mutex.c
    with the pointers taken away.  A task is named by its address (its pid in the source). */
module KernelState {
  import opened Sequences

  const OS_TICK_MS: nat := 10
  const TASK_TIME_SLICE_DEFAULT: nat := 10
  const UINT32: nat := 0x1_0000_0000
  /** The longest delay whose rounding up to ticks does not wrap around in 32 bits. */
  const LONGEST_SLEEP_MS: nat := UINT32 - OS_TICK_MS

  type Tid = nat

  datatype Option<T> = None | Some(value: T)

  datatype TaskState = TaskCreated | TaskRunning | TaskSleep | TaskReady | TaskWaiting

  datatype TaskInfo = TaskInfo(state: TaskState, sliceTicks: int, sleepTicks: int)

  /** A semaphore or a mutex with the tasks blocked on it, longest waiting first. */
  datatype SyncObject =
    | Sem(count: int, waiting: seq<Tid>)
    | Mutex(owner: Option<Tid>, lockedCount: int, waiting: seq<Tid>)

  datatype KState = KState(
    curr: Tid,
    idle: Tid,
    ready: seq<Tid>,
    sleeping: seq<Tid>,
    objects: seq<SyncObject>,
    tasks: map<Tid, TaskInfo>)

  // ---------- what the scheduler's own functions do ----------

  function SetReady(s: KState, t: Tid): KState
    requires t in s.tasks
  {
    if t == s.idle then s
    else s.(ready := s.ready + [t], tasks := s.tasks[t := s.tasks[t].(state := TaskReady)])
  }

  function SetBlock(s: KState, t: Tid): KState {
    if t == s.idle then s else s.(ready := Without(s.ready, t))
  }

  function NextRun(s: KState): Tid {
    if s.ready == [] then s.idle else s.ready[0]
  }

  function Dispatch(s: KState): KState
    requires NextRun(s) in s.tasks
  {
    var to := NextRun(s);
    if to == s.curr then s
    else s.(curr := to, tasks := s.tasks[to := s.tasks[to].(state := TaskRunning)])
  }

  /** The number of ticks sys_msleep asks for, in the source's 32-bit arithmetic. */
  function SleepTicks(ms: nat): nat {
    ((if ms < OS_TICK_MS then OS_TICK_MS else ms) + (OS_TICK_MS - 1)) % UINT32 / OS_TICK_MS
  }

  function SetSleep(s: KState, t: Tid, ticks: nat): KState
    requires t in s.tasks
  {
    if ticks == 0 then s
    else s.(sleeping := s.sleeping + [t],
            tasks := s.tasks[t := s.tasks[t].(state := TaskSleep, sleepTicks := ticks)])
  }

  /** The tasks among ids whose delay ends with the next tick, in order. */
  function Woken(ids: seq<Tid>, tasks: map<Tid, TaskInfo>): (r: seq<Tid>)
    requires forall t :: t in ids ==> t in tasks
    ensures forall t :: t in r ==> t in ids
  {
    if ids == [] then []
    else
      var t := ids[|ids| - 1];
      Woken(ids[..|ids| - 1], tasks) + if tasks[t].sleepTicks == 1 then [t] else []
  }

  /** The tasks among ids that sleep on after the next tick, in order. */
  function Dozing(ids: seq<Tid>, tasks: map<Tid, TaskInfo>): (r: seq<Tid>)
    requires forall t :: t in ids ==> t in tasks
    ensures forall t :: t in r ==> t in ids
  {
    if ids == [] then []
    else
      var t := ids[|ids| - 1];
      Dozing(ids[..|ids| - 1], tasks) + if tasks[t].sleepTicks == 1 then [] else [t]
  }

  function SleeperAfterTick(i: TaskInfo): TaskInfo {
    if i.sleepTicks == 1 then i.(sleepTicks := 0, state := TaskReady)
    else i.(sleepTicks := i.sleepTicks - 1)
  }

  function CountDown(ids: seq<Tid>, tasks: map<Tid, TaskInfo>): map<Tid, TaskInfo> {
    map t | t in tasks :: if t in ids then SleeperAfterTick(tasks[t]) else tasks[t]
  }

  /** WakeSleepers after the walk along the sleep list has passed its first i nodes. */
  function WakePrefix(s: KState, i: nat): KState
    requires i <= |s.sleeping| && forall t :: t in s.sleeping ==> t in s.tasks
  {
    s.(ready := s.ready + Woken(s.sleeping[..i], s.tasks),
       sleeping := Dozing(s.sleeping[..i], s.tasks) + s.sleeping[i..],
       tasks := CountDown(s.sleeping[..i], s.tasks))
  }

  /** First half of a tick: the current task pays for it, and goes to the back when its slice is used up. */
  function ChargeSlice(s: KState): KState
    requires s.curr in s.tasks
  {
    var c := s.curr;
    var left := s.tasks[c].sliceTicks - 1;
    if left != 0 then s.(tasks := s.tasks[c := s.tasks[c].(sliceTicks := left)])
    else
      var reloaded := s.(tasks := s.tasks[c := s.tasks[c].(sliceTicks := TASK_TIME_SLICE_DEFAULT)]);
      SetReady(SetBlock(reloaded, c), c)
  }

  /** Second half of a tick: all sleepers are counted down at once and those that reach 0 get ready. */
  function WakeSleepers(s: KState): KState
    requires forall t :: t in s.sleeping ==> t in s.tasks
  {
    s.(ready := s.ready + Woken(s.sleeping, s.tasks),
       sleeping := Dozing(s.sleeping, s.tasks),
       tasks := CountDown(s.sleeping, s.tasks))
  }

  // ---------- the atomic steps ----------

  datatype Step =
    | Tick
    | Yield
    | Msleep(ms: nat)
    | SemWait(k: nat)
    | SemNotify(k: nat)
    | MutexLock(k: nat)
    | MutexUnlock(k: nat)
    | Create(t: Tid)
    | Start(t: Tid)
    | NewSem(initCount: int)
    | NewMutex

  predicate IsSem(s: KState, k: nat) { k < |s.objects| && s.objects[k].Sem? }

  predicate IsMutex(s: KState, k: nat) { k < |s.objects| && s.objects[k].Mutex? }

  /** Who may take a step: the idle task only ever halts, so it neither sleeps, waits, locks nor forks. */
  predicate Enabled(s: KState, st: Step) {
    match st
    case Tick => true
    case Yield => true
    case Msleep(ms) => s.curr != s.idle && ms < UINT32
    case SemWait(k) => s.curr != s.idle && IsSem(s, k)
    case SemNotify(k) => IsSem(s, k)
    case MutexLock(k) => s.curr != s.idle && IsMutex(s, k)
    case MutexUnlock(k) => IsMutex(s, k)
    case Create(t) => t !in s.tasks
    case Start(t) => s.curr != s.idle && t in s.tasks && t != s.idle && s.tasks[t].state == TaskCreated
    case NewSem(_) => true
    case NewMutex => true
  }

  /** Every queued task, the current one and the idle one have a task_t. */
  predicate Known(s: KState) {
    && s.idle in s.tasks && s.curr in s.tasks
    && (forall t :: t in s.ready ==> t in s.tasks)
    && (forall t :: t in s.sleeping ==> t in s.tasks)
    && (forall o :: o in s.objects ==> forall t :: t in o.waiting ==> t in s.tasks)
  }

  function TickStep(s: KState): KState
    requires Known(s)
  {
    var charged := ChargeSlice(s);
    var woken := WakeSleepers(charged);
    Dispatch(woken)
  }

  function YieldStep(s: KState): KState
    requires Known(s)
  {
    if |s.ready| > 1 then Dispatch(SetReady(SetBlock(s, s.curr), s.curr)) else s
  }

  function MsleepStep(s: KState, ms: nat): KState
    requires Known(s)
  {
    Dispatch(SetSleep(SetBlock(s, s.curr), s.curr, SleepTicks(ms)))
  }

  function WithObject(s: KState, k: nat, o: SyncObject): KState
    requires k < |s.objects|
  {
    s.(objects := s.objects[k := o])
  }

  function Enqueue(o: SyncObject, t: Tid): SyncObject {
    match o
    case Sem(count, waiting) => Sem(count, waiting + [t])
    case Mutex(owner, depth, waiting) => Mutex(owner, depth, waiting + [t])
  }

  /** The current task leaves the ready list for the end of object k's queue, and another one runs. */
  function BlockOn(s: KState, k: nat): KState
    requires Known(s) && k < |s.objects|
  {
    Dispatch(WithObject(SetBlock(s, s.curr), k, Enqueue(s.objects[k], s.curr)))
  }

  function SemWaitStep(s: KState, k: nat): KState
    requires Known(s) && IsSem(s, k)
  {
    var o := s.objects[k];
    if o.count > 0 then WithObject(s, k, Sem(o.count - 1, o.waiting)) else BlockOn(s, k)
  }

  function SemNotifyStep(s: KState, k: nat): KState
    requires Known(s) && IsSem(s, k)
  {
    var o := s.objects[k];
    if o.waiting != [] then
      Dispatch(SetReady(WithObject(s, k, Sem(o.count, o.waiting[1..])), o.waiting[0]))
    else WithObject(s, k, Sem(o.count + 1, []))
  }

  function MutexLockStep(s: KState, k: nat): KState
    requires Known(s) && IsMutex(s, k)
  {
    var o := s.objects[k];
    if o.lockedCount == 0 then WithObject(s, k, Mutex(Some(s.curr), 1, o.waiting))
    else if o.owner == Some(s.curr) then WithObject(s, k, Mutex(o.owner, o.lockedCount + 1, o.waiting))
    else BlockOn(s, k)
  }

  function MutexUnlockStep(s: KState, k: nat): KState
    requires Known(s) && IsMutex(s, k)
  {
    var o := s.objects[k];
    if o.owner != Some(s.curr) then s
    else if o.lockedCount - 1 != 0 then WithObject(s, k, Mutex(o.owner, o.lockedCount - 1, o.waiting))
    else if o.waiting != [] then
      var handed := Mutex(Some(o.waiting[0]), 1, o.waiting[1..]);
      Dispatch(SetReady(WithObject(s, k, handed), o.waiting[0]))
    else WithObject(s, k, Mutex(None, 0, []))
  }

  function CreateStep(s: KState, t: Tid): KState {
    s.(tasks := s.tasks[t := TaskInfo(TaskCreated, TASK_TIME_SLICE_DEFAULT, 0)])
  }

  function Apply(s: KState, st: Step): KState
    requires Known(s) && Enabled(s, st)
  {
    match st
    case Tick => TickStep(s)
    case Yield => YieldStep(s)
    case Msleep(ms) => MsleepStep(s, ms)
    case SemWait(k) => SemWaitStep(s, k)
    case SemNotify(k) => SemNotifyStep(s, k)
    case MutexLock(k) => MutexLockStep(s, k)
    case MutexUnlock(k) => MutexUnlockStep(s, k)
    case Create(t) => CreateStep(s, t)
    case Start(t) => SetReady(s, t)
    case NewSem(_) => s.(objects := s.objects + [Sem(0, [])])
    case NewMutex => s.(objects := s.objects + [Mutex(None, 0, [])])
  }

  /** One atomic step; a step that is not enabled is not taken. */
  function Next(s: KState, st: Step): KState {
    if Known(s) && Enabled(s, st) then Apply(s, st) else s
  }

  // ---------- the invariant ----------

  function WaitingOn(objects: seq<SyncObject>): multiset<Tid> {
    if objects == [] then multiset{}
    else multiset(objects[0].waiting) + WaitingOn(objects[1..])
  }

  /** Every task that is on some queue, as often as it is on one. */
  function Placed(s: KState): multiset<Tid> {
    multiset(s.ready) + multiset(s.sleeping) + WaitingOn(s.objects)
  }

  /** The current task is the head of the ready list, or the idle task exactly when that list is empty. */
  predicate CurrentIsHead(s: KState) { s.curr == NextRun(s) }

  /** No task is queued twice; only started tasks other than the idle one are queued. */
  ghost predicate OnceEach(placed: multiset<Tid>, idle: Tid, tasks: map<Tid, TaskInfo>) {
    forall t :: t in placed ==>
      placed[t] == 1 && t != idle && t in tasks && tasks[t].state != TaskCreated
  }

  ghost predicate SlicesOk(tasks: map<Tid, TaskInfo>) {
    forall t :: t in tasks ==> 1 <= tasks[t].sliceTicks <= TASK_TIME_SLICE_DEFAULT
  }

  /** State SLEEP and the sleep list agree, and every sleeper has ticks left to sleep. */
  ghost predicate SleepersOk(sleeping: seq<Tid>, tasks: map<Tid, TaskInfo>) {
    && (forall t :: t in sleeping ==> t in tasks && tasks[t].sleepTicks >= 1)
    && (forall t :: t in tasks ==> (tasks[t].state == TaskSleep <==> t in sleeping))
  }

  predicate ObjectOk(o: SyncObject, idle: Tid, tasks: map<Tid, TaskInfo>) {
    match o
    case Sem(count, waiting) => count >= 0 && (count > 0 ==> waiting == [])
    case Mutex(owner, depth, waiting) =>
      match owner
      case None => depth == 0 && waiting == []
      case Some(t) => depth >= 1 && t in tasks && t != idle && t !in waiting
  }

  ghost predicate ObjectsOk(objects: seq<SyncObject>, idle: Tid, tasks: map<Tid, TaskInfo>) {
    forall k :: 0 <= k < |objects| ==> ObjectOk(objects[k], idle, tasks)
  }

  /** The part of the invariant that also holds in the middle of a step, before the dispatch. */
  ghost predicate Core(s: KState) {
    && s.idle in s.tasks && s.curr in s.tasks
    && OnceEach(Placed(s), s.idle, s.tasks)
    && SlicesOk(s.tasks)
    && SleepersOk(s.sleeping, s.tasks)
    && ObjectsOk(s.objects, s.idle, s.tasks)
  }

  ghost predicate Inv(s: KState) {
    Core(s) && CurrentIsHead(s)
  }

  /** The scheduler as task_manager_init and task_first_init leave it: the first task alone is ready. */
  function Boot(idle: Tid, first: Tid): KState {
    KState(first, idle, [first], [], [],
           map[idle := TaskInfo(TaskCreated, TASK_TIME_SLICE_DEFAULT, 0),
               first := TaskInfo(TaskReady, TASK_TIME_SLICE_DEFAULT, 0)])
  }
}
