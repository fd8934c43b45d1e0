/** A booted scheduler that takes any sequence of steps: its data stands for the state the abstract run reaches. */
module SchedulerDriver {
  import opened KernelState
  import opened SchedulerInvariant
  import opened SchedulerRuns
  import opened KernelTheorems
  import opened Scheduler

  /** The call that makes a step. */
  method Perform(m: TaskManager, st: Step)
    requires m.Valid() && Inv(m.State()) && Enabled(m.State(), st)
    modifies m, m.runs, m.runs.Repr, m.waits, m.waits.Repr, m.tasks, m.tasks.Repr, m.objects, m.objects.Repr
    ensures m.Valid() && Inv(m.State()) && m.State() == Next(old(m.State()), st)
    ensures fresh(m.runs.Repr - old(m.runs.Repr)) && fresh(m.waits.Repr - old(m.waits.Repr))
    ensures fresh(m.tasks.Repr - old(m.tasks.Repr)) && fresh(m.objects.Repr - old(m.objects.Repr))
  {
    hide Inv, TaskManager.Valid, TaskManager.State, Next, Enabled;
    match st {
      case Tick => m.TimeTick();
      case Yield => m.Yield();
      case Msleep(ms) => m.Msleep(ms);
      case SemWait(k) => m.SemWait(k);
      case SemNotify(k) => m.SemNotify(k);
      case MutexLock(k) => m.MutexLock(k);
      case MutexUnlock(k) => m.MutexUnlock(k);
      case Create(t) => var task, run, wait := m.TaskInit(t);
      case Start(t) => m.TaskStart(t);
      case NewSem(initCount) => var sem, list := m.SemInit(initCount);
      case NewMutex => var mutex, list := m.MutexInit();
    }
  }

  /** Any run, on the real data. */
  method Drive(m: TaskManager, steps: seq<Step>)
    requires m.Valid() && Inv(m.State()) && CanRun(m.State(), steps)
    modifies m, m.runs, m.runs.Repr, m.waits, m.waits.Repr, m.tasks, m.tasks.Repr, m.objects, m.objects.Repr
    ensures m.Valid() && Inv(m.State()) && m.State() == Run(old(m.State()), steps)
    ensures fresh(m.runs.Repr - old(m.runs.Repr)) && fresh(m.waits.Repr - old(m.waits.Repr))
    ensures fresh(m.tasks.Repr - old(m.tasks.Repr)) && fresh(m.objects.Repr - old(m.objects.Repr))
    decreases |steps|
  {
    hide Inv, TaskManager.Valid, TaskManager.State, Next, Enabled;
    if steps != [] {
      Perform(m, steps[0]);
      Drive(m, steps[1..]);
    }
  }

  /** From power-on: task_manager_init, task_first_init and any run. */
  method BootAndDrive(idle: Tid, first: Tid, steps: seq<Step>) returns (m: TaskManager)
    requires idle != first && CanRun(Boot(idle, first), steps)
    ensures m.Valid() && m.State() == Run(Boot(idle, first), steps) && Reachable(m.State())
  {
    hide *;
    m := new TaskManager(idle);
    m.FirstInit(first);
    Drive(m, steps);
    RunIsReachable(idle, first, steps);
  }

  lemma RunIsReachable(idle: Tid, first: Tid, steps: seq<Step>)
    requires idle != first && CanRun(Boot(idle, first), steps)
    ensures Reachable(Run(Boot(idle, first), steps))
  {
    hide Run, CanRun, Boot;
  }
}
