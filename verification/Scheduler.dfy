/** The kernel's scheduler on its real data: task records updated in place and list nodes linked into the
    ready list, the sleep list and the wait lists.  Every method is proved to have, on the state the data
    stands for, the effect of the step of the same name in KernelState. */
module Scheduler {
  import opened Sequences
  import opened LinkedList
  import opened KernelState
  import opened SchedulerInvariant
  import opened TaskTable

  const READY: nat := 0
  const SLEEPING: nat := 1

  ghost function WithQueue(fields: SyncObject, waiting: seq<Tid>): SyncObject {
    match fields
    case Sem(count, _) => Sem(count, waiting)
    case Mutex(owner, depth, _) => Mutex(owner, depth, waiting)
  }

  ghost function WithQueues(fields: seq<SyncObject>, waiting: seq<seq<Tid>>): (r: seq<SyncObject>)
    requires |fields| == |waiting|
    ensures |r| == |fields|
    ensures forall k :: 0 <= k < |r| ==> r[k] == WithQueue(fields[k], waiting[k])
  {
    seq(|fields|, k requires 0 <= k < |fields| => WithQueue(fields[k], waiting[k]))
  }

  lemma WithQueuesAppend(fields: seq<SyncObject>, waiting: seq<seq<Tid>>, o: SyncObject)
    requires |fields| == |waiting| && o.waiting == []
    ensures WithQueues(fields + [o], waiting + [[]]) == WithQueues(fields, waiting) + [o]
  {
  }

  /** What the invariant says of the head of a mutex's queue. */
  ghost predicate MayRelease(s: KState, k: nat) {
    && IsMutex(s, k)
    && (s.objects[k].waiting != [] ==>
          var t := s.objects[k].waiting[0];
          && t in s.tasks && t != s.idle && t !in s.ready && t !in s.sleeping
          && Known(KernelState.SetReady(HandedOver(s, k), t)))
  }

  ghost function HandedOver(s: KState, k: nat): KState
    requires IsMutex(s, k) && s.objects[k].waiting != []
  {
    WithObject(s, k, Mutex(Some(s.objects[k].waiting[0]), 1, s.objects[k].waiting[1..]))
  }

  /** The state after the last lock on mutex k is undone. */
  ghost function Released(s: KState, k: nat): KState
    requires MayRelease(s, k)
  {
    if s.objects[k].waiting == [] then WithObject(s, k, Mutex(None, 0, []))
    else KernelState.Dispatch(KernelState.SetReady(HandedOver(s, k), s.objects[k].waiting[0]))
  }

  /** That the owner has been cleared already makes no difference to a handover. */
  lemma ReleasedTwice(s: KState, k: nat)
    requires MayRelease(s, k)
    ensures var r := WithObject(s, k, Mutex(None, 0, s.objects[k].waiting));
            MayRelease(r, k) && Released(r, k) == Released(s, k)
  {
    var w := s.objects[k].waiting;
    if w != [] {
      WithObjectTwice(s, k, Mutex(None, 0, w), Mutex(Some(w[0]), 1, w[1..]));
    } else {
      WithObjectTwice(s, k, Mutex(None, 0, w), Mutex(None, 0, []));
    }
  }

  class TaskManager {
    const idle: Tid
    var curr: Tid
    const runs: ListFamily   // the ready list and the sleep list, over the tasks' run_node
    const waits: ListFamily  // the wait lists, over the tasks' wait_node
    const tasks: Tasks
    const objects: SyncObjects

    /** The parts are well formed and have nothing in common. */
    ghost predicate Parts()
      reads this, runs, runs.Repr, waits, waits.Repr, tasks, tasks.Repr, objects, objects.Repr
    {
      && runs.Repr !! waits.Repr !! tasks.Repr !! objects.Repr !! {this}
      && runs.Valid() && waits.Valid() && tasks.Valid() && objects.Valid()
    }

    ghost predicate Valid()
      reads this, runs, runs.Repr, waits, waits.Repr, tasks, tasks.Repr, objects, objects.Repr
    {
      && Parts() && runs != waits
      && |runs.ids| == 2
      && |waits.ids| == |objects.fields|
      && runs.nodes.Keys == tasks.info.Keys && waits.nodes.Keys == tasks.info.Keys
      && idle in tasks.info && curr in tasks.info
    }

    /** The state over sequences that the data stands for. */
    ghost function State(): KState
      reads this, runs, runs.Repr, waits, waits.Repr, tasks, tasks.Repr, objects, objects.Repr
      requires Valid()
    {
      KState(curr, idle, runs.ids[READY], runs.ids[SLEEPING], WithQueues(objects.fields, waits.ids), tasks.info)
    }

    /** No record and no node has moved. */
    twostate predicate SameObjects()
      reads runs, waits, tasks, objects
    {
      runs.nodes == old(runs.nodes) &&
      runs.Repr == old(runs.Repr) && waits.Repr == old(waits.Repr) &&
      tasks.Repr == old(tasks.Repr) && objects.Repr == old(objects.Repr)
    }

    /** task_manager_init: empty lists, and the idle task on none of them. */
    constructor (idle: Tid)
      ensures Valid()
      ensures State() == KState(idle, idle, [], [], [], map[idle := TaskInfo(TaskCreated, TASK_TIME_SLICE_DEFAULT, 0)])
      ensures this.idle == idle
      ensures fresh({runs, waits, tasks, objects}) && fresh(runs.Repr + waits.Repr + tasks.Repr + objects.Repr)
    {
      hide ListFamily.Valid, Tasks.Valid, SyncObjects.Valid;
      this.idle, curr := idle, idle;
      runs := new ListFamily.Two(idle);
      waits := new ListFamily.Empty(idle);
      tasks := new Tasks(idle);
      objects := new SyncObjects();
    }

    /** task_set_ready */
    method SetReady(t: Tid)
      requires Valid() && t in tasks.info
      requires t != idle ==> t !in State().ready && t !in State().sleeping
      modifies runs.Repr, tasks.Repr
      ensures Valid() && SameObjects() && State() == KernelState.SetReady(old(State()), t)
    {
      hide ListFamily.Valid, Tasks.Valid, SyncObjects.Valid;
      if t == idle {
        return;
      }
      runs.Append(READY, t);
      tasks.SetState(t, TaskReady);
    }

    /** task_set_block */
    method SetBlock(t: Tid)
      requires Valid()
      requires t != idle ==> t in State().ready
      modifies runs.Repr
      ensures Valid() && SameObjects() && State() == KernelState.SetBlock(old(State()), t)
    {
      hide ListFamily.Valid, Tasks.Valid, SyncObjects.Valid;
      if t == idle {
        return;
      }
      runs.Remove(READY, t);
    }

    /** task_next_run */
    method NextRun() returns (t: Tid)
      requires Valid()
      ensures t == KernelState.NextRun(State())
    {
      var n := runs.Count(READY);
      if n == 0 {
        return idle;
      }
      var node := runs.First(READY);
      t := node.parent;
    }

    /** task_dispatch, with the hardware task switch reduced to the change of the current task. */
    method Dispatch()
      requires Valid() && Known(State())
      modifies this, tasks.Repr
      ensures Valid() && SameObjects() && State() == KernelState.Dispatch(old(State()))
    {
      hide ListFamily.Valid, Tasks.Valid, SyncObjects.Valid;
      var to := NextRun();
      if to != curr {
        curr := to;
        tasks.SetState(to, TaskRunning);
      }
    }

    /** task_set_wakeup */
    method SetWakeup(t: Tid)
      requires Valid() && t in State().sleeping
      modifies runs.Repr
      ensures Valid() && SameObjects()
      ensures State() == old(State()).(sleeping := Without(old(State()).sleeping, t))
    {
      hide ListFamily.Valid, Tasks.Valid, SyncObjects.Valid;
      runs.Remove(SLEEPING, t);
    }

    /** task_set_sleep */
    method SetSleep(t: Tid, ticks: nat)
      requires Valid() && t in tasks.info && t !in State().ready && t !in State().sleeping
      modifies runs.Repr, tasks.Repr
      ensures Valid() && SameObjects() && State() == KernelState.SetSleep(old(State()), t, ticks)
    {
      hide ListFamily.Valid, Tasks.Valid, SyncObjects.Valid;
      if ticks <= 0 {
        return;
      }
      tasks.PutToSleep(t, ticks);
      runs.Append(SLEEPING, t);
    }

    /** list_insert_last on the wait list of object k */
    method Enqueue(k: nat, t: Tid)
      requires Valid() && k < |State().objects| && t in tasks.info && t !in WaitingOn(State().objects)
      modifies waits.Repr
      ensures Valid() && SameObjects()
      ensures State() == WithObject(old(State()), k, KernelState.Enqueue(old(State()).objects[k], t))
    {
      hide ListFamily.Valid, Tasks.Valid, SyncObjects.Valid;
      forall j | 0 <= j < |waits.ids| ensures t !in waits.ids[j] {
        WaitingAfterUpdate(State().objects, j, State().objects[j]);
        assert t !in multiset(State().objects[j].waiting);
      }
      waits.Append(k, t);
    }

    /** list_remove_first on the wait list of object k */
    method Dequeue(k: nat) returns (t: Tid)
      requires Valid() && k < |State().objects| && State().objects[k].waiting != []
      modifies waits.Repr
      ensures Valid() && SameObjects()
      ensures var o := old(State()).objects[k];
              t == o.waiting[0] && State() == WithObject(old(State()), k, WithQueue(o, o.waiting[1..]))
    {
      hide ListFamily.Valid, Tasks.Valid, SyncObjects.Valid;
      t := waits.PopFirst(k);
    }

    // ---------- the timer ----------

    /** The head of task_time_tick: the running task's time slice. */
    method ChargeSlice()
      requires Valid() && (curr != idle ==> curr in State().ready && curr !in State().sleeping)
      requires NoDup(State().ready)
      modifies runs.Repr, tasks.Repr
      ensures Valid() && SameObjects() && curr == old(curr)
      ensures State() == KernelState.ChargeSlice(old(State()))
    {
      hide ListFamily.Valid, Tasks.Valid, SyncObjects.Valid, WithQueues, KernelState.SetBlock, KernelState.SetReady;
      ghost var info, c := tasks.info, curr;
      var left := tasks.DecSliceTicks(curr);
      if left == 0 {
        assert tasks.info[c := tasks.info[c].(sliceTicks := TASK_TIME_SLICE_DEFAULT)] ==
               info[c := info[c].(sliceTicks := TASK_TIME_SLICE_DEFAULT)];
        Rotate(curr);
      }
    }

    /** The running task, its slice reloaded, goes to the back. */
    method Rotate(c: Tid)
      requires Valid() && c in tasks.info && (c != idle ==> c in State().ready && c !in State().sleeping)
      requires NoDup(State().ready)
      modifies runs.Repr, tasks.Repr
      ensures Valid() && SameObjects()
      ensures var s := old(State());
              var reloaded := s.(tasks := s.tasks[c := s.tasks[c].(sliceTicks := TASK_TIME_SLICE_DEFAULT)]);
              State() == KernelState.SetReady(KernelState.SetBlock(reloaded, c), c)
    {
      hide ListFamily.Valid, Tasks.Valid, SyncObjects.Valid, WithQueues;
      WithoutLast(State().ready, c);
      tasks.ReloadSlice(c);
      SetBlock(c);
      SetReady(c);
    }

    /** The body of the walk along the sleep list: the sleeper at hand. */
    method WakeNode(t: Tid)
      requires Valid() && t in State().sleeping && t in tasks.info && t != idle && t !in State().ready
      requires NoDup(State().sleeping)
      modifies runs.Repr, tasks.Repr
      ensures Valid() && SameObjects() && State() == WakeOne(old(State()), t)
    {
      hide ListFamily.Valid, Tasks.Valid, SyncObjects.Valid, WithQueues, KernelState.SetReady;
      WithoutLast(State().sleeping, t);
      var left := tasks.DecSleepTicks(t);
      if left == 0 {
        WakeUp(t);
      }
    }

    method WakeUp(t: Tid)
      requires Valid() && t in State().sleeping && t in tasks.info && t != idle && t !in State().ready
      requires t !in Without(State().sleeping, t)
      modifies runs.Repr, tasks.Repr
      ensures Valid() && SameObjects()
      ensures var s := old(State());
              State() == KernelState.SetReady(s.(sleeping := Without(s.sleeping, t)), t)
    {
      hide ListFamily.Valid, Tasks.Valid, SyncObjects.Valid;
      SetWakeup(t);
      SetReady(t);
    }

    /** The walk of task_time_tick along the sleep list, which unlinks nodes from it on the way. */
    method WakeSleepers()
      requires Valid() && SleepersApart(State())
      modifies runs.Repr, tasks.Repr
      ensures Valid() && SameObjects() && State() == KernelState.WakeSleepers(old(State()))
    {
      hide ListFamily.Valid, Tasks.Valid, SyncObjects.Valid, WakePrefix, KernelState.WakeSleepers, WithQueues;
      ghost var s0 := State();
      ghost var i := 0;
      WakePrefixEnds(s0);
      var node := runs.First(SLEEPING);
      while node != null
        invariant Valid() && SameObjects()
        invariant i <= |s0.sleeping| && State() == WakePrefix(s0, i)
        invariant node == if i < |s0.sleeping| then runs.nodes[s0.sleeping[i]] else null
        decreases |s0.sleeping| - i
      {
        node := WalkOn(node, s0, i);
        i := i + 1;
      }
    }

    /** One round of the walk: the successor is read before the node may be moved to the ready list. */
    method WalkOn(node: ListNode, ghost s0: KState, ghost i: nat) returns (next: ListNode?)
      requires Valid() && SleepersApart(s0) && i < |s0.sleeping| && State() == WakePrefix(s0, i)
      requires s0.sleeping[i] in runs.nodes && node == runs.nodes[s0.sleeping[i]]
      modifies runs.Repr, tasks.Repr
      ensures Valid() && SameObjects() && State() == WakePrefix(s0, i + 1)
      ensures next == if i + 1 < |s0.sleeping| then runs.nodes[s0.sleeping[i + 1]] else null
    {
      hide ListFamily.Valid, Tasks.Valid, SyncObjects.Valid;
      WalkAt(s0, i);
      WakePrefixStep(s0, i);
      runs.NextOf(SLEEPING, |Dozing(s0.sleeping[..i], s0.tasks)|);
      runs.ParentOf(s0.sleeping[i]);
      next := node.next;
      var t := node.parent;
      WakeNode(t);
    }

    /** task_time_tick */
    method TimeTick()
      requires Valid() && Inv(State())
      modifies this, runs.Repr, tasks.Repr
      ensures Valid() && SameObjects() && State() == Next(old(State()), Step.Tick)
      ensures Inv(State())
    {
      hide ListFamily.Valid, Tasks.Valid, SyncObjects.Valid, Inv, WithQueues;
      hide KernelState.ChargeSlice, KernelState.WakeSleepers, KernelState.Dispatch, Known;
      InvRunning(State());
      NextInv(State(), Step.Tick);
      TickRelies(State());
      ChargeSlice();
      WakeSleepers();
      Dispatch();
    }

    // ---------- system calls ----------

    /** sys_yield */
    method Yield()
      requires Valid() && Inv(State())
      modifies this, runs.Repr, tasks.Repr
      ensures Valid() && SameObjects() && State() == Next(old(State()), Step.Yield)
      ensures Inv(State())
    {
      hide ListFamily.Valid, Tasks.Valid, SyncObjects.Valid, Inv, WithQueues;
      hide KernelState.Dispatch, KernelState.SetBlock, KernelState.SetReady, Known, Core;
      InvRunning(State());
      NextInv(State(), Step.Yield);
      var n := runs.Count(READY);
      if n > 1 {
        YieldRelies(State());
        BlockRelies(State());
        var c := curr;
        SetBlock(c);
        SetReady(c);
        Dispatch();
      }
    }

    /** sys_msleep */
    method Msleep(ms: nat)
      requires Valid() && Inv(State()) && Enabled(State(), Step.Msleep(ms))
      modifies this, runs.Repr, tasks.Repr
      ensures Valid() && SameObjects() && State() == Next(old(State()), Step.Msleep(ms))
      ensures Inv(State())
    {
      hide ListFamily.Valid, Tasks.Valid, SyncObjects.Valid, Inv, WithQueues;
      hide KernelState.Dispatch, KernelState.SetBlock, KernelState.SetSleep, Known, Core;
      MsleepRelies(State(), ms);
      NextInv(State(), Step.Msleep(ms));
      BlockRelies(State());
      var delay := ms;
      if delay < OS_TICK_MS {
        delay := OS_TICK_MS;
      }
      SetBlock(curr);
      SetSleep(curr, (delay + (OS_TICK_MS - 1)) % UINT32 / OS_TICK_MS);
      Dispatch();
    }

    // ---------- semaphores ----------

    method AddSemaphore() returns (sem: Semaphore)
      requires Parts()
      modifies objects
      ensures Parts() && curr == old(curr) && fresh(sem) && objects.Repr == old(objects.Repr) + {sem}
      ensures objects.fields == old(objects.fields) + [Sem(0, [])]
      ensures tasks.info == old(tasks.info) && runs.ids == old(runs.ids) && runs.nodes == old(runs.nodes)
      ensures waits.ids == old(waits.ids) && waits.nodes == old(waits.nodes) && waits.Repr == old(waits.Repr)
    {
      hide ListFamily.Valid, Tasks.Valid, SyncObjects.Valid;
      sem := objects.NewSem();
    }

    method AddMutex() returns (mutex: KernelMutex)
      requires Parts()
      modifies objects
      ensures Parts() && curr == old(curr) && fresh(mutex) && objects.Repr == old(objects.Repr) + {mutex}
      ensures objects.fields == old(objects.fields) + [Mutex(None, 0, [])]
      ensures tasks.info == old(tasks.info) && runs.ids == old(runs.ids) && runs.nodes == old(runs.nodes)
      ensures waits.ids == old(waits.ids) && waits.nodes == old(waits.nodes) && waits.Repr == old(waits.Repr)
    {
      hide ListFamily.Valid, Tasks.Valid, SyncObjects.Valid;
      mutex := objects.NewMutex();
    }

    /** list_init of a new wait list */
    method AddQueue() returns (list: List)
      requires Parts() && runs != waits
      modifies waits
      ensures Parts() && curr == old(curr) && fresh(list) && waits.Repr == old(waits.Repr) + {list}
      ensures waits.ids == old(waits.ids) + [[]] && waits.nodes == old(waits.nodes)
      ensures tasks.info == old(tasks.info) && runs.ids == old(runs.ids) && runs.nodes == old(runs.nodes)
      ensures objects.fields == old(objects.fields) && objects.Repr == old(objects.Repr)
    {
      hide ListFamily.Valid, Tasks.Valid, SyncObjects.Valid;
      list := waits.NewList();
    }

    method SetSem(k: nat, count: int)
      requires Valid() && IsSem(State(), k)
      modifies objects.Repr
      ensures Valid() && SameObjects()
      ensures State() == WithObject(old(State()), k, Sem(count, old(State()).objects[k].waiting))
    {
      hide ListFamily.Valid, Tasks.Valid, SyncObjects.Valid;
      objects.SetCount(k, count);
    }

    /** sem_init: the initial count it is given is not used. */
    method SemInit(initCount: int) returns (sem: Semaphore, list: List)
      requires Valid() && Inv(State())
      modifies waits, objects
      ensures Valid() && fresh(sem) && fresh(list)
      ensures objects.Repr == old(objects.Repr) + {sem} && waits.Repr == old(waits.Repr) + {list}
      ensures State() == Next(old(State()), Step.NewSem(initCount)) && Inv(State())
    {
      hide Parts, Inv, Known, Next, WithQueues;
      NewObjectRelies(State(), Step.NewSem(initCount));
      WithQueuesAppend(objects.fields, waits.ids, Sem(0, []));
      sem := AddSemaphore();
      list := AddQueue();
    }

    /** The current task leaves the ready list, joins the wait list of object k, and another task runs. */
    method BlockOnQueue(k: nat)
      requires Valid() && Inv(State()) && State().curr != idle && k < |State().objects|
      requires ObjectOk(KernelState.Enqueue(State().objects[k], State().curr), State().idle, State().tasks)
      modifies this, runs.Repr, waits.Repr, tasks.Repr
      ensures Valid() && SameObjects() && Known(old(State())) && State() == BlockOn(old(State()), k)
      ensures Inv(State())
    {
      hide ListFamily.Valid, Tasks.Valid, SyncObjects.Valid, Inv, WithQueues;
      hide KernelState.Dispatch, KernelState.SetBlock, Known, Core, BlockOn, ObjectOk;
      BlockOnRelies(State(), k);
      BlockRelies(State());
      var c := curr;
      SetBlock(c);
      Enqueue(k, c);
      Dispatch();
    }

    /** sem_wait */
    method SemWait(k: nat)
      requires Valid() && Inv(State()) && Enabled(State(), Step.SemWait(k))
      modifies this, runs.Repr, waits.Repr, tasks.Repr, objects.Repr
      ensures Valid() && SameObjects() && State() == Next(old(State()), Step.SemWait(k))
      ensures Inv(State())
    {
      hide ListFamily.Valid, Tasks.Valid, SyncObjects.Valid, Inv, BlockOn, Known, Core;
      NextInv(State(), Step.SemWait(k));
      SemRelies(State(), k);
      var count := objects.GetCount(k);
      if count > 0 {
        SetSem(k, count - 1);
      } else {
        BlockOnQueue(k);
      }
    }

    /** The last steps of sem_notify and mutex_unlock: the waiter taken off the wait list runs again. */
    method Resume(t: Tid)
      requires Valid() && t in tasks.info && Known(KernelState.SetReady(State(), t))
      requires t != idle && t !in State().ready && t !in State().sleeping
      modifies this, runs.Repr, tasks.Repr
      ensures Valid() && SameObjects()
      ensures State() == KernelState.Dispatch(KernelState.SetReady(old(State()), t))
    {
      hide ListFamily.Valid, Tasks.Valid, SyncObjects.Valid, KernelState.Dispatch, KernelState.SetReady, Known;
      SetReady(t);
      Dispatch();
    }

    /** sem_notify */
    method SemNotify(k: nat)
      requires Valid() && Inv(State()) && Enabled(State(), Step.SemNotify(k))
      modifies this, runs.Repr, waits.Repr, tasks.Repr, objects.Repr
      ensures Valid() && SameObjects() && State() == Next(old(State()), Step.SemNotify(k))
      ensures Inv(State())
    {
      hide ListFamily.Valid, Tasks.Valid, SyncObjects.Valid, Inv, Known, Core;
      hide KernelState.Dispatch, KernelState.SetReady;
      NextInv(State(), Step.SemNotify(k));
      SemRelies(State(), k);
      var n := waits.Count(k);
      if n != 0 {
        var t := Dequeue(k);
        Resume(t);
      } else {
        var count := objects.GetCount(k);
        SetSem(k, count + 1);
      }
    }

    // ---------- mutexes ----------

    method SetMutex(k: nat, owner: Option<Tid>, lockedCount: int)
      requires Valid() && IsMutex(State(), k)
      modifies objects.Repr
      ensures Valid() && SameObjects()
      ensures State() == WithObject(old(State()), k, Mutex(owner, lockedCount, old(State()).objects[k].waiting))
    {
      hide ListFamily.Valid, Tasks.Valid, SyncObjects.Valid;
      objects.SetOwner(k, owner, lockedCount);
    }

    /** mutex_init */
    method MutexInit() returns (mutex: KernelMutex, list: List)
      requires Valid() && Inv(State())
      modifies waits, objects
      ensures Valid() && fresh(mutex) && fresh(list)
      ensures objects.Repr == old(objects.Repr) + {mutex} && waits.Repr == old(waits.Repr) + {list}
      ensures State() == Next(old(State()), Step.NewMutex) && Inv(State())
    {
      hide Parts, Inv, Known, Next, WithQueues;
      NewObjectRelies(State(), Step.NewMutex);
      WithQueuesAppend(objects.fields, waits.ids, Mutex(None, 0, []));
      mutex := AddMutex();
      list := AddQueue();
    }

    /** mutex_lock */
    method MutexLock(k: nat)
      requires Valid() && Inv(State()) && Enabled(State(), Step.MutexLock(k))
      modifies this, runs.Repr, waits.Repr, tasks.Repr, objects.Repr
      ensures Valid() && SameObjects() && State() == Next(old(State()), Step.MutexLock(k))
      ensures Inv(State())
    {
      hide ListFamily.Valid, Tasks.Valid, SyncObjects.Valid, Inv, BlockOn, Known, Core;
      NextInv(State(), Step.MutexLock(k));
      MutexRelies(State(), k);
      var owner, lockedCount := objects.GetMutex(k);
      if lockedCount == 0 {
        SetMutex(k, Some(curr), 1);
      } else if owner == Some(curr) {
        SetMutex(k, owner, lockedCount + 1);
      } else {
        BlockOnQueue(k);
      }
    }

    /** mutex_unlock when the last lock is undone and a task is waiting: the mutex becomes its. */
    method HandOverMutex(k: nat)
      requires Valid() && MayRelease(State(), k) && State().objects[k].waiting != []
      modifies this, runs.Repr, waits.Repr, tasks.Repr, objects.Repr
      ensures Valid() && SameObjects() && State() == Released(old(State()), k)
    {
      hide ListFamily.Valid, Tasks.Valid, SyncObjects.Valid, KernelState.Dispatch, KernelState.SetReady;
      ghost var s, o := State(), State().objects[k];
      var t := Dequeue(k);
      SetMutex(k, Some(t), 1);
      WithObjectTwice(s, k, WithQueue(o, o.waiting[1..]), Mutex(Some(t), 1, o.waiting[1..]));
      Resume(t);
    }

    /** mutex_unlock when the last lock is undone. */
    method Release(k: nat)
      requires Valid() && MayRelease(State(), k)
      modifies this, runs.Repr, waits.Repr, tasks.Repr, objects.Repr
      ensures Valid() && SameObjects() && State() == Released(old(State()), k)
    {
      hide ListFamily.Valid, Tasks.Valid, SyncObjects.Valid, WithQueues;
      hide KernelState.Dispatch, KernelState.SetReady;
      ghost var s := State();
      SetMutex(k, None, 0);
      ReleasedTwice(s, k);
      var n := CountWaiting(k);
      if n != 0 {
        HandOverMutex(k);
      }
    }

    /** list_count of the wait list of object k */
    method CountWaiting(k: nat) returns (n: int)
      requires Valid() && k < |State().objects|
      ensures n == |State().objects[k].waiting|
    {
      hide ListFamily.Valid, Tasks.Valid, SyncObjects.Valid;
      n := waits.Count(k);
    }

    /** mutex_unlock */
    method MutexUnlock(k: nat)
      requires Valid() && Inv(State()) && Enabled(State(), Step.MutexUnlock(k))
      modifies this, runs.Repr, waits.Repr, tasks.Repr, objects.Repr
      ensures Valid() && SameObjects() && State() == Next(old(State()), Step.MutexUnlock(k))
      ensures Inv(State())
    {
      hide ListFamily.Valid, Tasks.Valid, SyncObjects.Valid, Inv, Known, Core, TickStep, YieldStep, MsleepStep;
      hide KernelState.Dispatch, KernelState.SetReady, WithQueues, ObjectOk, SemWaitStep, SemNotifyStep, MutexLockStep;
      NextInv(State(), Step.MutexUnlock(k));
      MutexRelies(State(), k);
      var owner, lockedCount := objects.GetMutex(k);
      if owner == Some(curr) {
        if lockedCount - 1 == 0 {
          Release(k);
        } else {
          SetMutex(k, owner, lockedCount - 1);
        }
      }
    }

    // ---------- new tasks ----------

    method AddRunNode(t: Tid) returns (node: ListNode)
      requires Parts() && t !in runs.nodes && runs.OnNone(t)
      modifies runs
      ensures Parts() && curr == old(curr) && fresh(node)
      ensures runs.Repr == old(runs.Repr) + {node} && runs.ids == old(runs.ids)
      ensures runs.nodes.Keys == old(runs.nodes).Keys + {t}
      ensures waits.ids == old(waits.ids) && waits.nodes == old(waits.nodes) && waits.Repr == old(waits.Repr)
      ensures tasks.Repr == old(tasks.Repr)
      ensures tasks.info == old(tasks.info) && objects.fields == old(objects.fields)
    {
      hide ListFamily.Valid, Tasks.Valid, SyncObjects.Valid, ListFamily.OnNone;
      node := runs.NewNode(t);
    }

    method AddWaitNode(t: Tid) returns (node: ListNode)
      requires Parts() && t !in waits.nodes && waits.OnNone(t)
      modifies waits
      ensures Parts() && curr == old(curr) && fresh(node)
      ensures waits.Repr == old(waits.Repr) + {node} && waits.ids == old(waits.ids)
      ensures waits.nodes.Keys == old(waits.nodes).Keys + {t}
      ensures runs.ids == old(runs.ids) && runs.nodes == old(runs.nodes) && runs.Repr == old(runs.Repr)
      ensures tasks.Repr == old(tasks.Repr)
      ensures tasks.info == old(tasks.info) && objects.fields == old(objects.fields)
    {
      hide ListFamily.Valid, Tasks.Valid, SyncObjects.Valid, ListFamily.OnNone;
      node := waits.NewNode(t);
    }

    method AddRecord(t: Tid) returns (task: Task)
      requires Parts() && t !in tasks.info
      modifies tasks
      ensures Parts() && curr == old(curr) && fresh(task) && tasks.Repr == old(tasks.Repr) + {task}
      ensures tasks.info == old(tasks.info)[t := TaskInfo(TaskCreated, TASK_TIME_SLICE_DEFAULT, 0)]
      ensures tasks.info.Keys == old(tasks.info).Keys + {t}
      ensures runs.ids == old(runs.ids) && runs.nodes == old(runs.nodes) && runs.Repr == old(runs.Repr)
      ensures waits.Repr == old(waits.Repr)
      ensures waits.ids == old(waits.ids) && waits.nodes == old(waits.nodes) && objects.fields == old(objects.fields)
    {
      hide ListFamily.Valid, Tasks.Valid, SyncObjects.Valid;
      task := tasks.New(t);
    }

    /** The nodes and the record of a new task_t. */
    method AddTask(t: Tid) returns (task: Task, run: ListNode, wait: ListNode)
      requires Valid() && Known(State()) && t !in tasks.info
      modifies runs, waits, tasks
      ensures Valid() && curr == old(curr)
      ensures fresh(task) && fresh(run) && fresh(wait) && tasks.Repr == old(tasks.Repr) + {task}
      ensures runs.Repr == old(runs.Repr) + {run} && waits.Repr == old(waits.Repr) + {wait}
      ensures State() == CreateStep(old(State()), t)
    {
      NewTaskIsOnNone(t);
      hide Parts, Known, WithQueues, ListFamily.OnNone;
      task := AddRecord(t);
      run := AddRunNode(t);
      wait := AddWaitNode(t);
    }

    lemma NewTaskIsOnNone(t: Tid)
      requires Valid() && Known(State()) && t !in tasks.info
      ensures runs.OnNone(t) && waits.OnNone(t)
    {
      hide ListFamily.Valid, Tasks.Valid, SyncObjects.Valid;
      forall j | 0 <= j < |waits.ids| ensures t !in waits.ids[j] {
        assert State().objects[j] in State().objects;
      }
    }

    /** task_init */
    method TaskInit(t: Tid) returns (task: Task, run: ListNode, wait: ListNode)
      requires Valid() && Inv(State()) && Enabled(State(), Create(t))
      modifies runs, waits, tasks
      ensures Valid() && State() == Next(old(State()), Create(t)) && Inv(State())
      ensures fresh(task) && fresh(run) && fresh(wait) && tasks.Repr == old(tasks.Repr) + {task}
      ensures runs.Repr == old(runs.Repr) + {run} && waits.Repr == old(waits.Repr) + {wait}
    {
      hide ListFamily.Valid, Tasks.Valid, SyncObjects.Valid, Inv, Known, WithQueues;
      NextInv(State(), Create(t));
      task, run, wait := AddTask(t);
    }

    /** task_start, called by the running task as sys_fork does */
    method TaskStart(t: Tid)
      requires Valid() && Inv(State()) && Enabled(State(), Start(t))
      modifies runs.Repr, tasks.Repr
      ensures Valid() && SameObjects() && State() == Next(old(State()), Start(t)) && Inv(State())
    {
      hide ListFamily.Valid, Tasks.Valid, SyncObjects.Valid, Inv, Known, WithQueues, KernelState.SetReady;
      NextInv(State(), Start(t));
      StartRelies(State(), t);
      SetReady(t);
    }

    /** task_first_init: the first task is made current and then ready. */
    method FirstInit(first: Tid)
      requires Valid() && first != idle
      requires State() == KState(idle, idle, [], [], [], map[idle := TaskInfo(TaskCreated, TASK_TIME_SLICE_DEFAULT, 0)])
      modifies this, runs, runs.Repr, waits, tasks, tasks.Repr
      ensures Valid() && State() == Boot(idle, first) && Inv(State()) && objects.Repr == old(objects.Repr)
      ensures fresh(runs.Repr - old(runs.Repr)) && fresh(waits.Repr - old(waits.Repr))
      ensures fresh(tasks.Repr - old(tasks.Repr))
    {
      hide ListFamily.Valid, Tasks.Valid, SyncObjects.Valid, WithQueues, Core, ListFamily.OnNone;
      var task, run, wait := AddTask(first);
      curr := first;
      SetReady(first);
      BootInv(idle, first);
    }
  }
}
