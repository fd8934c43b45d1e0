/** The records the scheduler updates in place beside its lists: task_t, sem_t and mutex_t. */
module TaskTable {
  import opened KernelState

  /** The scheduling fields of a task_t; its run_node and wait_node are nodes of a ListFamily. */
  class Task {
    const timeSlice: int
    var state: TaskState
    var sleepTicks: int
    var sliceTicks: int

    /** The scheduler's part of task_init. */
    constructor ()
      ensures timeSlice == TASK_TIME_SLICE_DEFAULT
      ensures state == TaskCreated && sleepTicks == 0 && sliceTicks == timeSlice
    {
      state := TaskCreated;
      timeSlice := TASK_TIME_SLICE_DEFAULT;
      sliceTicks := TASK_TIME_SLICE_DEFAULT;
      sleepTicks := 0;
    }
  }

  /** All task_t records, by address. */
  class Tasks {
    var at: map<Tid, Task>
    ghost var info: map<Tid, TaskInfo>
    ghost var Repr: set<object>

    ghost predicate Valid()
      reads this, Repr
      ensures Valid() ==> this in Repr
    {
      && this in Repr
      && at.Keys == info.Keys
      && (forall a :: a in at ==> at[a] in Repr && at[a].timeSlice == TASK_TIME_SLICE_DEFAULT
                                  && TaskInfo(at[a].state, at[a].sliceTicks, at[a].sleepTicks) == info[a])
      && forall a, b :: a in at && b in at && a != b ==> at[a] != at[b]
    }

    constructor (t: Tid)
      ensures Valid() && fresh(Repr) && info == map[t := TaskInfo(TaskCreated, TASK_TIME_SLICE_DEFAULT, 0)]
    {
      var task := new Task();
      at, info := map[t := task], map[t := TaskInfo(TaskCreated, TASK_TIME_SLICE_DEFAULT, 0)];
      Repr := {this, task};
    }

    method New(t: Tid) returns (task: Task)
      requires Valid() && t !in info
      modifies this
      ensures Valid() && fresh(task) && Repr == old(Repr) + {task}
      ensures info == old(info)[t := TaskInfo(TaskCreated, TASK_TIME_SLICE_DEFAULT, 0)]
    {
      task := new Task();
      at, Repr := at[t := task], Repr + {task};
      info := info[t := TaskInfo(TaskCreated, TASK_TIME_SLICE_DEFAULT, 0)];
    }

    method SetState(t: Tid, state: TaskState)
      requires Valid() && t in info
      modifies Repr
      ensures Valid() && Repr == old(Repr) && info == old(info)[t := old(info)[t].(state := state)]
    {
      at[t].state := state;
      info := info[t := info[t].(state := state)];
    }

    /** --task->sleep_ticks */
    method DecSleepTicks(t: Tid) returns (left: int)
      requires Valid() && t in info
      modifies Repr
      ensures Valid() && Repr == old(Repr) && left == old(info)[t].sleepTicks - 1
      ensures info == old(info)[t := old(info)[t].(sleepTicks := left)]
    {
      at[t].sleepTicks := at[t].sleepTicks - 1;
      left := at[t].sleepTicks;
      info := info[t := info[t].(sleepTicks := left)];
    }

    method PutToSleep(t: Tid, ticks: int)
      requires Valid() && t in info
      modifies Repr
      ensures Valid() && Repr == old(Repr)
      ensures info == old(info)[t := old(info)[t].(state := TaskSleep, sleepTicks := ticks)]
    {
      at[t].sleepTicks := ticks;
      at[t].state := TaskSleep;
      info := info[t := info[t].(state := TaskSleep, sleepTicks := ticks)];
    }

    /** --task->slice_ticks */
    method DecSliceTicks(t: Tid) returns (left: int)
      requires Valid() && t in info
      modifies Repr
      ensures Valid() && Repr == old(Repr) && left == old(info)[t].sliceTicks - 1
      ensures info == old(info)[t := old(info)[t].(sliceTicks := left)]
    {
      at[t].sliceTicks := at[t].sliceTicks - 1;
      left := at[t].sliceTicks;
      info := info[t := info[t].(sliceTicks := left)];
    }

    /** task->slice_ticks = task->time_slice */
    method ReloadSlice(t: Tid)
      requires Valid() && t in info
      modifies Repr
      ensures Valid() && Repr == old(Repr)
      ensures info == old(info)[t := old(info)[t].(sliceTicks := TASK_TIME_SLICE_DEFAULT)]
    {
      at[t].sliceTicks := at[t].timeSlice;
      info := info[t := info[t].(sliceTicks := TASK_TIME_SLICE_DEFAULT)];
    }
  }

  class Semaphore {
    var count: int

    constructor ()
      ensures count == 0
    {
      count := 0;
    }
  }

  class KernelMutex {
    var owner: Option<Tid>  // the address of the owning task, or null
    var lockedCount: int

    constructor ()
      ensures owner == None && lockedCount == 0
    {
      owner, lockedCount := None, 0;
    }
  }

  /** All semaphores and mutexes; number k has wait list k. */
  class SyncObjects {
    var sems: map<nat, Semaphore>
    var mutexes: map<nat, KernelMutex>
    var size: nat
    ghost var fields: seq<SyncObject>
    ghost var Repr: set<object>

    ghost predicate Valid()
      reads this, Repr
      ensures Valid() ==> this in Repr
    {
      && this in Repr
      && size == |fields|
      && (forall k :: k in sems ==> k < size && sems[k] in Repr)
      && (forall k :: k in mutexes ==> k < size && mutexes[k] in Repr)
      && (forall k :: 0 <= k < |fields| ==> fields[k].waiting == [])
      && (forall k :: 0 <= k < |fields| && fields[k].Sem? ==>
            k in sems && sems[k].count == fields[k].count)
      && (forall k :: 0 <= k < |fields| && fields[k].Mutex? ==>
            k in mutexes &&
            mutexes[k].owner == fields[k].owner && mutexes[k].lockedCount == fields[k].lockedCount)
      && (forall j, k :: j in sems && k in sems && j != k ==> sems[j] != sems[k])
      && (forall j, k :: j in mutexes && k in mutexes && j != k ==> mutexes[j] != mutexes[k])
    }

    constructor ()
      ensures Valid() && fresh(Repr) && fields == []
    {
      sems, mutexes, size, fields, Repr := map[], map[], 0, [], {this};
    }

    method GetCount(k: nat) returns (count: int)
      requires Valid() && k < |fields| && fields[k].Sem?
      ensures count == fields[k].count
    {
      count := sems[k].count;
    }

    method GetMutex(k: nat) returns (owner: Option<Tid>, lockedCount: int)
      requires Valid() && k < |fields| && fields[k].Mutex?
      ensures owner == fields[k].owner && lockedCount == fields[k].lockedCount
    {
      owner, lockedCount := mutexes[k].owner, mutexes[k].lockedCount;
    }

    method SetCount(k: nat, count: int)
      requires Valid() && k < |fields| && fields[k].Sem?
      modifies Repr
      ensures Valid() && Repr == old(Repr) && fields == old(fields)[k := Sem(count, [])]
    {
      sems[k].count := count;
      fields := fields[k := Sem(count, [])];
    }

    method SetOwner(k: nat, owner: Option<Tid>, lockedCount: int)
      requires Valid() && k < |fields| && fields[k].Mutex?
      modifies Repr
      ensures Valid() && Repr == old(Repr) && fields == old(fields)[k := Mutex(owner, lockedCount, [])]
    {
      mutexes[k].owner := owner;
      mutexes[k].lockedCount := lockedCount;
      fields := fields[k := Mutex(owner, lockedCount, [])];
    }

    method NewSem() returns (sem: Semaphore)
      requires Valid()
      modifies this
      ensures Valid() && fresh(sem) && Repr == old(Repr) + {sem} && fields == old(fields) + [Sem(0, [])]
    {
      sem := new Semaphore();
      sems, Repr := sems[size := sem], Repr + {sem};
      size, fields := size + 1, fields + [Sem(0, [])];
    }

    method NewMutex() returns (mutex: KernelMutex)
      requires Valid()
      modifies this
      ensures Valid() && fresh(mutex) && Repr == old(Repr) + {mutex} && fields == old(fields) + [Mutex(None, 0, [])]
    {
      mutex := new KernelMutex();
      mutexes, Repr := mutexes[size := mutex], Repr + {mutex};
      size, fields := size + 1, fields + [Mutex(None, 0, [])];
    }
  }
}
