/** The scheduler's invariant holds in every reachable state, and no step loses or duplicates a task. */
module SchedulerInvariant {
  import opened Sequences
  import opened KernelState

  lemma BootInv(idle: Tid, first: Tid)
    requires idle != first
    ensures Inv(Boot(idle, first))
  {
    var s := Boot(idle, first);
    assert s.ready == [first];
    assert Placed(s) == multiset{first};
  }

  // ---------- the effect of each step ----------

  /** What OnceEach says about the single queues. */
  lemma Queues(s: KState)
    requires OnceEach(Placed(s), s.idle, s.tasks)
    ensures NoDup(s.ready) && NoDup(s.sleeping)
    ensures forall t :: t in s.ready ==> t in s.tasks && t != s.idle && t !in s.sleeping && t !in WaitingOn(s.objects)
    ensures forall t :: t in s.sleeping ==> t in s.tasks && t != s.idle && t !in WaitingOn(s.objects)
    ensures forall t :: t in WaitingOn(s.objects) ==> t in s.tasks && t != s.idle
  {
    assert forall t :: t in s.ready ==> t in Placed(s);
    assert forall t :: t in s.sleeping ==> t in Placed(s);
    assert forall t :: t in WaitingOn(s.objects) ==> t in Placed(s);
    NoDupFromMultiset(s.ready);
    NoDupFromMultiset(s.sleeping);
  }

  /** One queue of WaitingOn changes: the total changes by as much. */
  lemma {:induction false} WaitingAfterUpdate(objects: seq<SyncObject>, k: nat, o: SyncObject)
    requires k < |objects|
    ensures multiset(objects[k].waiting) <= WaitingOn(objects)
    ensures WaitingOn(objects[k := o]) == WaitingOn(objects) - multiset(objects[k].waiting) + multiset(o.waiting)
  {
    var updated := objects[k := o];
    if k == 0 {
      assert updated[1..] == objects[1..];
    } else {
      WaitingAfterUpdate(objects[1..], k - 1, o);
      assert updated[1..] == objects[1..][k - 1 := o];
      ReplacePart(multiset(objects[0].waiting), WaitingOn(objects[1..]),
                  multiset(objects[k].waiting), multiset(o.waiting));
    }
  }

  lemma {:induction false} WaitingAfterAppend(objects: seq<SyncObject>, o: SyncObject)
    ensures WaitingOn(objects + [o]) == WaitingOn(objects) + multiset(o.waiting)
  {
    if objects == [] {
      assert objects + [o] == [o];
    } else {
      assert (objects + [o])[1..] == objects[1..] + [o];
      WaitingAfterAppend(objects[1..], o);
    }
  }

  lemma {:induction false} SplitSleepers(ids: seq<Tid>, tasks: map<Tid, TaskInfo>)
    requires forall t :: t in ids ==> t in tasks
    ensures multiset(Woken(ids, tasks)) + multiset(Dozing(ids, tasks)) == multiset(ids)
    ensures forall t :: t in Woken(ids, tasks) <==> t in ids && tasks[t].sleepTicks == 1
    ensures forall t :: t in Dozing(ids, tasks) <==> t in ids && tasks[t].sleepTicks != 1
  {
    if ids != [] {
      var rest, t := ids[..|ids| - 1], ids[|ids| - 1];
      assert ids == rest + [t];
      SplitSleepers(rest, tasks);
    }
  }

  lemma CoreKnown(s: KState)
    requires Core(s)
    ensures Known(s)
  {
    Queues(s);
    forall o | o in s.objects
      ensures forall t :: t in o.waiting ==> t in s.tasks
    {
      var k :| 0 <= k < |s.objects| && s.objects[k] == o;
      WaitingAfterUpdate(s.objects, k, o);
      assert forall t :: t in o.waiting ==> t in multiset(o.waiting);
    }
  }

  lemma ReadyIsPlaced(s: KState, t: Tid)
    requires t in s.ready
    ensures t in Placed(s)
  {
  }

  lemma TakeOut(a: multiset<Tid>, b: multiset<Tid>, t: Tid)
    requires t in a
    ensures (a - multiset{t}) + b == a + b - multiset{t}
  {
  }

  lemma OnceEachBelow(p: multiset<Tid>, idle: Tid, tasks: map<Tid, TaskInfo>, t: Tid)
    requires OnceEach(p, idle, tasks)
    ensures OnceEach(p - multiset{t}, idle, tasks) && t !in p - multiset{t}
  {
  }

  /** Adding one task, or none, keeps each task placed at most once. */
  lemma OnceEachAfter(p: multiset<Tid>, q: multiset<Tid>, idle: Tid, tasks: map<Tid, TaskInfo>, t: Tid, i: TaskInfo)
    requires OnceEach(p, idle, tasks)
    requires q == p || (t !in p && t != idle && q == p + multiset{t})
    requires i.state != TaskCreated
    ensures OnceEach(q, idle, tasks[t := i])
  {
  }

  lemma ObjectsOkAfter(objects: seq<SyncObject>, idle: Tid, tasks: map<Tid, TaskInfo>, t: Tid, i: TaskInfo)
    requires ObjectsOk(objects, idle, tasks)
    ensures ObjectsOk(objects, idle, tasks[t := i])
  {
  }

  lemma SetBlockCore(s: KState, t: Tid)
    requires Core(s) && t in s.ready
    ensures Core(SetBlock(s, t)) && Known(SetBlock(s, t))
    ensures Placed(SetBlock(s, t)) == Placed(s) - multiset{t}
    ensures t !in Placed(SetBlock(s, t))
  {
    Queues(s);
    WithoutMultiset(s.ready, t);
    var r := SetBlock(s, t);
    TakeOut(multiset(s.ready), multiset(s.sleeping), t);
    TakeOut(multiset(s.ready) + multiset(s.sleeping), WaitingOn(s.objects), t);
    OnceEachBelow(Placed(s), s.idle, s.tasks, t);
    CoreKnown(r);
  }

  lemma SetReadyCore(s: KState, t: Tid)
    requires Core(s) && t in s.tasks && t != s.idle && t !in Placed(s)
    ensures Core(SetReady(s, t)) && Known(SetReady(s, t))
    ensures Placed(SetReady(s, t)) == Placed(s) + multiset{t}
  {
    var r := SetReady(s, t);
    NotQueued(s, t);
    PlacedReady(s, t);
    hide Placed, WaitingOn, SlicesOk, SleepersOk, ObjectsOk, OnceEach;
    OnceEachAfter(Placed(s), Placed(r), s.idle, s.tasks, t, r.tasks[t]);
    ObjectsOkAfter(s.objects, s.idle, s.tasks, t, r.tasks[t]);
    SlicesOkAfter(s.tasks, t, r.tasks[t]);
    SleepersOkAfter(s.sleeping, s.tasks, t, r.tasks[t]);
    CoreKnown(r);
  }

  lemma NotQueued(s: KState, t: Tid)
    requires t !in Placed(s)
    ensures t !in s.ready && t !in s.sleeping && t !in WaitingOn(s.objects)
  {
  }

  lemma PlacedReady(s: KState, t: Tid)
    requires t in s.tasks && t != s.idle
    ensures Placed(SetReady(s, t)) == Placed(s) + multiset{t}
  {
    assert multiset(s.ready + [t]) == multiset(s.ready) + multiset{t};
  }

  lemma SlicesOkAfter(tasks: map<Tid, TaskInfo>, t: Tid, i: TaskInfo)
    requires SlicesOk(tasks) && t in tasks && i.sliceTicks == tasks[t].sliceTicks
    ensures SlicesOk(tasks[t := i])
  {
  }

  lemma SleepersOkAfter(sleeping: seq<Tid>, tasks: map<Tid, TaskInfo>, t: Tid, i: TaskInfo)
    requires SleepersOk(sleeping, tasks) && t !in sleeping && i.state != TaskSleep
    ensures SleepersOk(sleeping, tasks[t := i])
  {
  }

  lemma SleepersOkWith(sleeping: seq<Tid>, tasks: map<Tid, TaskInfo>, t: Tid, i: TaskInfo)
    requires SleepersOk(sleeping, tasks) && i.state == TaskSleep && i.sleepTicks >= 1
    ensures SleepersOk(sleeping + [t], tasks[t := i])
  {
  }

  lemma DispatchInv(s: KState)
    requires Core(s)
    ensures Known(s) && Inv(Dispatch(s))
    ensures Placed(Dispatch(s)) == Placed(s)
  {
    CoreKnown(s);
    NextIsAwake(s);
    var r, to := Dispatch(s), NextRun(s);
    PlacedSame(s, r);
    hide Placed, WaitingOn, SlicesOk, SleepersOk, ObjectsOk, OnceEach, Known;
    if to != s.curr {
      OnceEachAfter(Placed(s), Placed(r), s.idle, s.tasks, to, r.tasks[to]);
      ObjectsOkAfter(s.objects, s.idle, s.tasks, to, r.tasks[to]);
      SlicesOkAfter(s.tasks, to, r.tasks[to]);
      SleepersOkAfter(s.sleeping, s.tasks, to, r.tasks[to]);
    }
  }

  lemma NextIsAwake(s: KState)
    requires Core(s)
    ensures NextRun(s) in s.tasks && NextRun(s) !in s.sleeping
  {
    Queues(s);
    if s.ready == [] {
      assert s.idle !in Placed(s);
    } else {
      assert s.ready[0] in s.ready;
    }
  }

  lemma PlacedSame(s: KState, r: KState)
    requires r.ready == s.ready && r.sleeping == s.sleeping && r.objects == s.objects
    ensures Placed(r) == Placed(s)
  {
  }

  // ---------- semaphores and mutexes ----------

  lemma ObjectsOkUpdate(objects: seq<SyncObject>, idle: Tid, tasks: map<Tid, TaskInfo>, k: nat, o: SyncObject)
    requires ObjectsOk(objects, idle, tasks) && k < |objects| && ObjectOk(o, idle, tasks)
    ensures ObjectsOk(objects[k := o], idle, tasks)
  {
  }

  lemma PlacedWithObject(s: KState, k: nat, o: SyncObject)
    requires k < |s.objects|
    ensures multiset(s.objects[k].waiting) <= Placed(s)
    ensures Placed(WithObject(s, k, o)) == Placed(s) - multiset(s.objects[k].waiting) + multiset(o.waiting)
  {
    WaitingAfterUpdate(s.objects, k, o);
    ReplacePart(multiset(s.ready) + multiset(s.sleeping), WaitingOn(s.objects),
                multiset(s.objects[k].waiting), multiset(o.waiting));
  }

  lemma SameQueueCore(s: KState, k: nat, o: SyncObject)
    requires Core(s) && k < |s.objects|
    requires o.waiting == s.objects[k].waiting && ObjectOk(o, s.idle, s.tasks)
    ensures Core(WithObject(s, k, o)) && Placed(WithObject(s, k, o)) == Placed(s)
  {
    hide Placed, WaitingOn, SlicesOk, SleepersOk;
    PlacedWithObject(s, k, o);
    ObjectsOkUpdate(s.objects, s.idle, s.tasks, k, o);
    assert Placed(s) - multiset(o.waiting) + multiset(o.waiting) == Placed(s);
  }

  lemma EnqueueCore(s: KState, k: nat, t: Tid)
    requires Core(s) && k < |s.objects| && ObjectOk(Enqueue(s.objects[k], t), s.idle, s.tasks)
    requires t in s.tasks && t != s.idle && s.tasks[t].state != TaskCreated && t !in Placed(s)
    ensures Core(WithObject(s, k, Enqueue(s.objects[k], t)))
    ensures Placed(WithObject(s, k, Enqueue(s.objects[k], t))) == Placed(s) + multiset{t}
  {
    hide Placed, WaitingOn, SlicesOk, SleepersOk;
    var p, x, o := Placed(s), multiset(s.objects[k].waiting), Enqueue(s.objects[k], t);
    PlacedWithObject(s, k, o);
    ObjectsOkUpdate(s.objects, s.idle, s.tasks, k, o);
    assert multiset(o.waiting) == x + multiset{t};
    assert p - x + (x + multiset{t}) == p + multiset{t};
    OnceEachAfter(p, p + multiset{t}, s.idle, s.tasks, t, s.tasks[t]);
    assert s.tasks[t := s.tasks[t]] == s.tasks;
  }

  lemma TakeOneOf(p: multiset<Tid>, y: multiset<Tid>, t: Tid)
    requires y + multiset{t} <= p
    ensures t in p && p - (y + multiset{t}) + y == p - multiset{t}
  {
    assert (y + multiset{t})[t] >= 1;
  }

  lemma DequeueCore(s: KState, k: nat, o: SyncObject, t: Tid)
    requires Core(s) && k < |s.objects| && ObjectOk(o, s.idle, s.tasks)
    requires s.objects[k].waiting == [t] + o.waiting
    ensures Core(WithObject(s, k, o))
    ensures t in Placed(s) && t !in Placed(WithObject(s, k, o))
    ensures Placed(WithObject(s, k, o)) == Placed(s) - multiset{t}
  {
    hide Placed, WaitingOn, SlicesOk, SleepersOk;
    var p, y := Placed(s), multiset(o.waiting);
    PlacedWithObject(s, k, o);
    ObjectsOkUpdate(s.objects, s.idle, s.tasks, k, o);
    assert multiset(s.objects[k].waiting) == y + multiset{t};
    TakeOneOf(p, y, t);
    OnceEachBelow(p, s.idle, s.tasks, t);
  }

  // ---------- every step ----------

  lemma SleepTicksValue(ms: nat)
    requires ms < UINT32
    ensures SleepTicks(ms) == 0 <==> ms > LONGEST_SLEEP_MS
    ensures 0 < ms <= LONGEST_SLEEP_MS ==>
              OS_TICK_MS * (SleepTicks(ms) - 1) < ms <= OS_TICK_MS * SleepTicks(ms)
    ensures SleepTicks(0) == 1
    ensures SleepTicks(ms) < 0x8000_0000
  {
  }

  lemma BlockOnInv(s: KState, k: nat)
    requires Inv(s) && Known(s) && s.curr != s.idle && k < |s.objects|
    requires ObjectOk(Enqueue(s.objects[k], s.curr), s.idle, s.tasks)
    ensures Inv(BlockOn(s, k)) && Placed(BlockOn(s, k)) == Placed(s)
  {
    hide Placed, WaitingOn, SlicesOk, SleepersOk;
    var t := s.curr;
    assert t in s.ready;
    ReadyIsPlaced(s, t);
    SetBlockCore(s, t);
    var blocked := SetBlock(s, t);
    EnqueueCore(blocked, k, t);
    DispatchInv(WithObject(blocked, k, Enqueue(s.objects[k], t)));
    assert Placed(s) - multiset{t} + multiset{t} == Placed(s);
  }

  /** The head of object k's queue becomes ready: the common part of sem_notify and mutex_unlock. */
  lemma HandOverInv(s: KState, k: nat, o: SyncObject, t: Tid)
    requires Core(s) && k < |s.objects| && ObjectOk(o, s.idle, s.tasks)
    requires s.objects[k].waiting == [t] + o.waiting
    ensures t in s.tasks && Core(SetReady(WithObject(s, k, o), t))
    ensures var r := Dispatch(SetReady(WithObject(s, k, o), t)); Inv(r) && Placed(r) == Placed(s)
  {
    hide Placed, WaitingOn, SlicesOk, SleepersOk;
    DequeueCore(s, k, o, t);
    SetReadyCore(WithObject(s, k, o), t);
    DispatchInv(SetReady(WithObject(s, k, o), t));
    assert Placed(s) - multiset{t} + multiset{t} == Placed(s);
  }

  lemma SliceCore(s: KState, ticks: int)
    requires Core(s) && 1 <= ticks <= TASK_TIME_SLICE_DEFAULT
    ensures var r := s.(tasks := s.tasks[s.curr := s.tasks[s.curr].(sliceTicks := ticks)]);
            Core(r) && Placed(r) == Placed(s)
  {
    var i := s.tasks[s.curr].(sliceTicks := ticks);
    var tasks := s.tasks[s.curr := i];
    ObjectsOkAfter(s.objects, s.idle, s.tasks, s.curr, i);
    var r := s.(tasks := tasks);
    assert Placed(r) == Placed(s);
    assert OnceEach(Placed(s), s.idle, tasks);
    assert SleepersOk(s.sleeping, tasks);
  }

  lemma ChargeSliceCore(s: KState)
    requires Inv(s)
    ensures Core(ChargeSlice(s)) && Known(ChargeSlice(s)) && Placed(ChargeSlice(s)) == Placed(s)
  {
    var c := s.curr;
    var left := s.tasks[c].sliceTicks - 1;
    SliceCore(s, if left != 0 then left else TASK_TIME_SLICE_DEFAULT);
    if left == 0 && c != s.idle {
      var reloaded := s.(tasks := s.tasks[c := s.tasks[c].(sliceTicks := TASK_TIME_SLICE_DEFAULT)]);
      RotateCore(reloaded);
    } else {
      CoreKnown(ChargeSlice(s));
    }
  }

  /** The current task goes to the back of the ready list. */
  lemma RotateCore(s: KState)
    requires Core(s) && CurrentIsHead(s) && s.curr != s.idle
    ensures var r := SetReady(SetBlock(s, s.curr), s.curr);
            Core(r) && Known(r) && Placed(r) == Placed(s)
  {
    hide Placed, WaitingOn, SlicesOk, SleepersOk, OnceEach, ObjectsOk;
    var t := s.curr;
    assert t in s.ready;
    ReadyIsPlaced(s, t);
    SetBlockCore(s, t);
    SetReadyCore(SetBlock(s, t), t);
    assert Placed(s) - multiset{t} + multiset{t} == Placed(s);
  }

  lemma WithoutMiddle(a: seq<Tid>, t: Tid, b: seq<Tid>)
    requires t !in a
    ensures Without(a + [t] + b, t) == a + b
  {
    if a == [] {
      assert a + [t] + b == [t] + b;
    } else {
      assert (a + [t] + b)[1..] == a[1..] + [t] + b;
      WithoutMiddle(a[1..], t, b);
    }
  }

  /** What the walk does to the node it is at, task t. */
  function WakeOne(s: KState, t: Tid): KState
    requires t in s.tasks
  {
    var left := s.tasks[t].sleepTicks - 1;
    var counted := s.(tasks := s.tasks[t := s.tasks[t].(sleepTicks := left)]);
    if left != 0 then counted
    else SetReady(counted.(sleeping := Without(counted.sleeping, t)), t)
  }

  lemma WokenNext(ids: seq<Tid>, tasks: map<Tid, TaskInfo>, t: Tid)
    requires t in tasks && forall u :: u in ids ==> u in tasks
    ensures Woken(ids + [t], tasks) == Woken(ids, tasks) + (if tasks[t].sleepTicks == 1 then [t] else [])
    ensures Dozing(ids + [t], tasks) == Dozing(ids, tasks) + (if tasks[t].sleepTicks == 1 then [] else [t])
  {
    assert (ids + [t])[..|ids|] == ids;
  }

  lemma CountDownNext(ids: seq<Tid>, tasks: map<Tid, TaskInfo>, t: Tid)
    requires t in tasks && t !in ids
    ensures CountDown(ids, tasks)[t] == tasks[t]
    ensures CountDown(ids + [t], tasks) == CountDown(ids, tasks)[t := SleeperAfterTick(tasks[t])]
  {
  }

  lemma WakePrefixStep(s: KState, i: nat)
    requires i < |s.sleeping| && NoDup(s.sleeping) && s.idle !in s.sleeping
    requires forall t :: t in s.sleeping ==> t in s.tasks
    ensures s.sleeping[i] in WakePrefix(s, i).tasks
    ensures WakePrefix(s, i).tasks[s.sleeping[i]] == s.tasks[s.sleeping[i]]
    ensures WakeOne(WakePrefix(s, i), s.sleeping[i]) == WakePrefix(s, i + 1)
  {
    hide Woken, Dozing, Without;
    var t, before, after := s.sleeping[i], s.sleeping[..i], s.sleeping[i + 1..];
    assert s.sleeping[..i + 1] == before + [t];
    assert s.sleeping[i..] == [t] + after;
    assert t !in before;
    WokenNext(before, s.tasks, t);
    CountDownNext(before, s.tasks, t);
    var d := Dozing(before, s.tasks);
    assert d + s.sleeping[i..] == d + [t] + after;
    WithoutMiddle(d, t, after);
  }

  /** What the walk along the sleep list relies on. */
  ghost predicate SleepersApart(s: KState) {
    NoDup(s.sleeping) && forall t :: t in s.sleeping ==> t in s.tasks && t != s.idle && t !in s.ready
  }

  lemma NoDupReplace(d: seq<Tid>, before: seq<Tid>, after: seq<Tid>)
    requires NoDup(before + after) && NoDup(d) && forall x :: x in d ==> x in before
    ensures NoDup(d + after)
  {
    var all := before + after;
    assert forall b :: 0 <= b < |after| ==> after[b] == all[|before| + b];
    forall p, q | 0 <= p < q < |d + after| ensures (d + after)[p] != (d + after)[q] {
      if p < |d| <= q {
        assert d[p] in before;
        var a :| 0 <= a < |before| && before[a] == d[p];
        assert all[a] != all[|before| + (q - |d|)];
      } else if |d| <= p {
        assert all[|before| + (p - |d|)] != all[|before| + (q - |d|)];
      }
    }
  }

  /** Where the walk stands after i nodes: the nodes it left on the list, then those still to come. */
  lemma WalkAt(s: KState, i: nat)
    requires SleepersApart(s) && i < |s.sleeping|
    ensures var w, t, p := WakePrefix(s, i), s.sleeping[i], |Dozing(s.sleeping[..i], s.tasks)|;
            && NoDup(w.sleeping) && t in w.tasks && t != w.idle && t in w.sleeping && t !in w.ready
            && |w.sleeping| - p == |s.sleeping| - i && w.sleeping[p] == t
            && (i + 1 < |s.sleeping| ==> w.sleeping[p + 1] == s.sleeping[i + 1])
  {
    var before, after := s.sleeping[..i], s.sleeping[i..];
    assert s.sleeping == before + after;
    DozingNoDup(before, s.tasks);
    NoDupReplace(Dozing(before, s.tasks), before, after);
    assert after[0] == s.sleeping[i];
    assert s.sleeping[i] !in before;
  }

  lemma {:induction false} DozingNoDup(ids: seq<Tid>, tasks: map<Tid, TaskInfo>)
    requires NoDup(ids) && forall t :: t in ids ==> t in tasks
    ensures NoDup(Dozing(ids, tasks))
  {
    if ids != [] {
      var rest := ids[..|ids| - 1];
      DozingNoDup(rest, tasks);
      assert ids[|ids| - 1] !in rest;
    }
  }

  lemma WakePrefixEnds(s: KState)
    requires forall t :: t in s.sleeping ==> t in s.tasks
    ensures WakePrefix(s, 0) == s && WakePrefix(s, |s.sleeping|) == WakeSleepers(s)
  {
    assert s.sleeping[..0] == [] && s.sleeping[..|s.sleeping|] == s.sleeping;
    assert CountDown([], s.tasks) == s.tasks;
  }

  lemma WakeSleepersPlaced(s: KState)
    requires Core(s) && Known(s)
    ensures Placed(WakeSleepers(s)) == Placed(s)
  {
    SplitSleepers(s.sleeping, s.tasks);
    var w, d := multiset(Woken(s.sleeping, s.tasks)), multiset(Dozing(s.sleeping, s.tasks));
    assert (multiset(s.ready) + w) + d == multiset(s.ready) + multiset(s.sleeping);
  }

  lemma CountDownSleepers(ids: seq<Tid>, tasks: map<Tid, TaskInfo>)
    requires SleepersOk(ids, tasks)
    ensures SleepersOk(Dozing(ids, tasks), CountDown(ids, tasks))
  {
    SplitSleepers(ids, tasks);
  }

  lemma CountDownOthers(ids: seq<Tid>, tasks: map<Tid, TaskInfo>, placed: multiset<Tid>, idle: Tid,
                        objects: seq<SyncObject>)
    requires SlicesOk(tasks) && OnceEach(placed, idle, tasks) && ObjectsOk(objects, idle, tasks)
    ensures SlicesOk(CountDown(ids, tasks))
    ensures OnceEach(placed, idle, CountDown(ids, tasks))
    ensures ObjectsOk(objects, idle, CountDown(ids, tasks))
  {
  }

  lemma WakeSleepersCore(s: KState)
    requires Core(s) && Known(s)
    ensures Core(WakeSleepers(s)) && Placed(WakeSleepers(s)) == Placed(s)
  {
    hide Placed, WaitingOn, SlicesOk, SleepersOk;
    WakeSleepersPlaced(s);
    CountDownSleepers(s.sleeping, s.tasks);
    CountDownOthers(s.sleeping, s.tasks, Placed(s), s.idle, s.objects);
  }

  lemma TickInv(s: KState)
    requires Inv(s)
    ensures Known(s) && Inv(TickStep(s)) && Placed(TickStep(s)) == Placed(s)
  {
    hide Placed, WaitingOn, SlicesOk, SleepersOk;
    CoreKnown(s);
    ChargeSliceCore(s);
    WakeSleepersCore(ChargeSlice(s));
    DispatchInv(WakeSleepers(ChargeSlice(s)));
  }

  lemma YieldInv(s: KState)
    requires Inv(s)
    ensures Known(s) && Inv(YieldStep(s)) && Placed(YieldStep(s)) == Placed(s)
  {
    CoreKnown(s);
    if |s.ready| > 1 {
      assert s.ready[0] in s.ready;
      Queues(s);
      RotateCore(s);
      DispatchInv(SetReady(SetBlock(s, s.curr), s.curr));
    }
  }

  lemma SetSleepCore(s: KState, t: Tid, ticks: nat)
    requires Core(s) && t in s.tasks && t != s.idle && t !in Placed(s) && s.tasks[t].state != TaskCreated
    requires ticks > 0
    ensures Core(SetSleep(s, t, ticks)) && Placed(SetSleep(s, t, ticks)) == Placed(s) + multiset{t}
  {
    var r := SetSleep(s, t, ticks);
    PlacedAsleep(s, t, ticks);
    hide Placed, WaitingOn, SlicesOk, SleepersOk, ObjectsOk, OnceEach;
    OnceEachAfter(Placed(s), Placed(r), s.idle, s.tasks, t, r.tasks[t]);
    ObjectsOkAfter(s.objects, s.idle, s.tasks, t, r.tasks[t]);
    SlicesOkAfter(s.tasks, t, r.tasks[t]);
    SleepersOkWith(s.sleeping, s.tasks, t, r.tasks[t]);
  }

  lemma PlacedAsleep(s: KState, t: Tid, ticks: nat)
    requires t in s.tasks && ticks > 0
    ensures Placed(SetSleep(s, t, ticks)) == Placed(s) + multiset{t}
  {
    assert multiset(s.sleeping + [t]) == multiset(s.sleeping) + multiset{t};
  }

  lemma MsleepInv(s: KState, ms: nat)
    requires Inv(s) && Enabled(s, Msleep(ms))
    ensures Known(s) && Inv(MsleepStep(s, ms))
    ensures Placed(MsleepStep(s, ms)) == if ms <= LONGEST_SLEEP_MS then Placed(s) else Placed(s) - multiset{s.curr}
  {
    hide Placed, WaitingOn, SlicesOk, SleepersOk;
    CoreKnown(s);
    var t := s.curr;
    assert t in s.ready;
    ReadyIsPlaced(s, t);
    SetBlockCore(s, t);
    SleepTicksValue(ms);
    var blocked, ticks := SetBlock(s, t), SleepTicks(ms);
    if ticks > 0 {
      SetSleepCore(blocked, t, ticks);
      assert Placed(s) - multiset{t} + multiset{t} == Placed(s);
    }
    DispatchInv(SetSleep(blocked, t, ticks));
  }

  lemma SemWaitInv(s: KState, k: nat)
    requires Inv(s) && Enabled(s, SemWait(k))
    ensures Known(s) && Inv(SemWaitStep(s, k)) && Placed(SemWaitStep(s, k)) == Placed(s)
  {
    hide Placed, WaitingOn, SlicesOk, SleepersOk;
    CoreKnown(s);
    var o := s.objects[k];
    assert ObjectOk(o, s.idle, s.tasks);
    if o.count > 0 {
      SameQueueCore(s, k, Sem(o.count - 1, o.waiting));
    } else {
      BlockOnInv(s, k);
    }
  }

  lemma SemNotifyInv(s: KState, k: nat)
    requires Inv(s) && Enabled(s, SemNotify(k))
    ensures Known(s) && Inv(SemNotifyStep(s, k)) && Placed(SemNotifyStep(s, k)) == Placed(s)
  {
    hide Placed, WaitingOn, SlicesOk, SleepersOk;
    CoreKnown(s);
    var o := s.objects[k];
    assert ObjectOk(o, s.idle, s.tasks);
    if o.waiting != [] {
      HandOverInv(s, k, Sem(o.count, o.waiting[1..]), o.waiting[0]);
    } else {
      SameQueueCore(s, k, Sem(o.count + 1, []));
    }
  }

  lemma MutexLockInv(s: KState, k: nat)
    requires Inv(s) && Enabled(s, MutexLock(k))
    ensures Known(s) && Inv(MutexLockStep(s, k)) && Placed(MutexLockStep(s, k)) == Placed(s)
  {
    hide Placed, WaitingOn, SlicesOk, SleepersOk;
    CoreKnown(s);
    var o := s.objects[k];
    assert ObjectOk(o, s.idle, s.tasks);
    if o.lockedCount == 0 {
      SameQueueCore(s, k, Mutex(Some(s.curr), 1, o.waiting));
    } else if o.owner == Some(s.curr) {
      SameQueueCore(s, k, Mutex(o.owner, o.lockedCount + 1, o.waiting));
    } else {
      BlockOnInv(s, k);
    }
  }

  lemma QueueDistinct(s: KState, k: nat)
    requires Core(s) && k < |s.objects|
    ensures NoDup(s.objects[k].waiting)
    ensures forall t :: t in s.objects[k].waiting ==>
              t in s.tasks && t != s.idle && t !in s.ready && t !in s.sleeping
  {
    Queues(s);
    var w := s.objects[k].waiting;
    WaitingAfterUpdate(s.objects, k, s.objects[k]);
    forall t | t in w
      ensures multiset(w)[t] <= 1 && t in WaitingOn(s.objects)
    {
      assert multiset(w)[t] <= WaitingOn(s.objects)[t] <= Placed(s)[t];
    }
    NoDupFromMultiset(w);
  }

  lemma MutexUnlockInv(s: KState, k: nat)
    requires Inv(s) && Enabled(s, MutexUnlock(k))
    ensures Known(s) && Inv(MutexUnlockStep(s, k)) && Placed(MutexUnlockStep(s, k)) == Placed(s)
  {
    hide Placed, WaitingOn, SlicesOk, SleepersOk;
    CoreKnown(s);
    QueueDistinct(s, k);
    var o := s.objects[k];
    assert ObjectOk(o, s.idle, s.tasks);
    if o.owner == Some(s.curr) {
      if o.lockedCount - 1 != 0 {
        SameQueueCore(s, k, Mutex(o.owner, o.lockedCount - 1, o.waiting));
      } else if o.waiting != [] {
        HandOverInv(s, k, Mutex(Some(o.waiting[0]), 1, o.waiting[1..]), o.waiting[0]);
      } else {
        SameQueueCore(s, k, Mutex(None, 0, []));
      }
    }
  }

  lemma CreateInv(s: KState, t: Tid)
    requires Inv(s) && t !in s.tasks
    ensures Inv(CreateStep(s, t)) && Placed(CreateStep(s, t)) == Placed(s)
  {
    var r := CreateStep(s, t);
    ObjectsOkAfter(s.objects, s.idle, s.tasks, t, r.tasks[t]);
    assert Placed(r) == Placed(s);
    assert OnceEach(Placed(s), s.idle, r.tasks);
  }

  lemma StartInv(s: KState, t: Tid)
    requires Inv(s) && Enabled(s, Start(t))
    ensures Inv(SetReady(s, t)) && Placed(SetReady(s, t)) == Placed(s) + multiset{t}
  {
    SetReadyCore(s, t);
    assert s.ready != [];
  }

  lemma NewObjectInv(s: KState, o: SyncObject)
    requires Inv(s) && ObjectOk(o, s.idle, s.tasks) && o.waiting == []
    ensures var r := s.(objects := s.objects + [o]); Inv(r) && Placed(r) == Placed(s)
  {
    var r := s.(objects := s.objects + [o]);
    WaitingAfterAppend(s.objects, o);
    assert multiset(o.waiting) == multiset{};
    assert Placed(r) == Placed(s);
    assert ObjectsOk(s.objects + [o], s.idle, s.tasks);
  }

  /** Who joins and who leaves the queues for good: only a start adds a task, and only a delay too long
      for 32 bits of rounding loses one. */
  function Arrivals(st: Step): multiset<Tid> {
    if st.Start? then multiset{st.t} else multiset{}
  }

  function Losses(s: KState, st: Step): multiset<Tid> {
    if st.Msleep? && st.ms > LONGEST_SLEEP_MS then multiset{s.curr} else multiset{}
  }

  lemma StepKeepsInv(s: KState, st: Step)
    requires Inv(s) && Enabled(s, st)
    ensures Known(s) && Inv(Apply(s, st))
    ensures st.Start? ==> Placed(Apply(s, st)) == Placed(s) + multiset{st.t}
    ensures st.Msleep? && st.ms > LONGEST_SLEEP_MS ==> Placed(Apply(s, st)) == Placed(s) - multiset{s.curr}
    ensures !st.Start? && !(st.Msleep? && st.ms > LONGEST_SLEEP_MS) ==> Placed(Apply(s, st)) == Placed(s)
  {
    CoreKnown(s);
    match st
    case Tick => TickInv(s);
    case Yield => YieldInv(s);
    case Msleep(ms) => MsleepInv(s, ms);
    case SemWait(k) => SemWaitInv(s, k);
    case SemNotify(k) => SemNotifyInv(s, k);
    case MutexLock(k) => MutexLockInv(s, k);
    case MutexUnlock(k) => MutexUnlockInv(s, k);
    case Create(t) => CreateInv(s, t);
    case Start(t) => StartInv(s, t);
    case NewSem(_) => NewObjectInv(s, Sem(0, []));
    case NewMutex => NewObjectInv(s, Mutex(None, 0, []));
  }

  /** Conservation: each step places exactly its arrivals and loses exactly its losses. */
  lemma StepConserves(s: KState, st: Step)
    requires Inv(s) && Enabled(s, st)
    ensures Known(s) && Losses(s, st) <= Placed(s)
    ensures Placed(Apply(s, st)) == Placed(s) - Losses(s, st) + Arrivals(st)
  {
    hide Placed, WaitingOn, Core, Apply;
    StepKeepsInv(s, st);
    if st.Msleep? {
      assert s.curr in s.ready;
      ReadyIsPlaced(s, s.curr);
    }
  }

  lemma NextInv(s: KState, st: Step)
    requires Inv(s) && Enabled(s, st)
    ensures Known(s) && Next(s, st) == Apply(s, st) && Inv(Next(s, st))
  {
    StepKeepsInv(s, st);
  }

  // ---------- what the scheduler's methods may rely on ----------

  ghost predicate Running(s: KState) {
    && Known(s) && NoDup(s.ready) && SleepersApart(s)
    && (s.curr != s.idle ==> s.curr in s.ready && s.curr !in s.sleeping && s.curr !in WaitingOn(s.objects))
  }

  lemma InvRunning(s: KState)
    requires Inv(s)
    ensures Running(s)
  {
    CoreKnown(s);
    Queues(s);
  }

  lemma TickRelies(s: KState)
    requires Inv(s)
    ensures Known(s) && SleepersApart(ChargeSlice(s)) && Known(KernelState.WakeSleepers(ChargeSlice(s)))
    ensures Inv(TickStep(s))
  {
    TickInv(s);
    ChargeSliceCore(s);
    Queues(ChargeSlice(s));
    WakeSleepersCore(ChargeSlice(s));
    CoreKnown(KernelState.WakeSleepers(ChargeSlice(s)));
  }

  lemma BlockRelies(s: KState)
    requires Inv(s) && s.curr != s.idle
    ensures var r, c := SetBlock(s, s.curr), s.curr;
            && c in s.ready && Core(r) && Known(r) && r.curr == c && r.tasks == s.tasks
            && r.objects == s.objects && r.idle == s.idle
            && c in r.tasks && c !in r.ready && c !in r.sleeping && c !in WaitingOn(r.objects)
  {
    InvRunning(s);
    SetBlockCore(s, s.curr);
    WithoutLast(s.ready, s.curr);
  }

  lemma YieldRelies(s: KState)
    requires Inv(s) && |s.ready| > 1
    ensures s.curr != s.idle && s.curr in s.tasks && Known(SetReady(SetBlock(s, s.curr), s.curr))
  {
    InvRunning(s);
    assert s.ready[0] in s.ready;
    Queues(s);
    RotateCore(s);
  }

  lemma MsleepRelies(s: KState, ms: nat)
    requires Inv(s) && Enabled(s, Msleep(ms))
    ensures s.curr in s.tasks && Known(SetSleep(SetBlock(s, s.curr), s.curr, SleepTicks(ms)))
  {
    BlockRelies(s);
    var blocked := SetBlock(s, s.curr);
    if SleepTicks(ms) > 0 {
      assert s.curr in Placed(s);
      SetBlockCore(s, s.curr);
      SetSleepCore(blocked, s.curr, SleepTicks(ms));
      CoreKnown(SetSleep(blocked, s.curr, SleepTicks(ms)));
    }
  }

  lemma BlockOnRelies(s: KState, k: nat)
    requires Inv(s) && s.curr != s.idle && k < |s.objects|
    requires ObjectOk(Enqueue(s.objects[k], s.curr), s.idle, s.tasks)
    ensures Known(s) && Inv(BlockOn(s, k))
    ensures var r := WithObject(SetBlock(s, s.curr), k, Enqueue(s.objects[k], s.curr));
            Known(r) && BlockOn(s, k) == KernelState.Dispatch(r)
  {
    BlockRelies(s);
    SetBlockCore(s, s.curr);
    CoreKnown(s);
    EnqueueCore(SetBlock(s, s.curr), k, s.curr);
    CoreKnown(WithObject(SetBlock(s, s.curr), k, Enqueue(s.objects[k], s.curr)));
    BlockOnInv(s, k);
  }

  lemma HandOverRelies(s: KState, k: nat, o: SyncObject, t: Tid)
    requires Inv(s) && k < |s.objects| && ObjectOk(o, s.idle, s.tasks)
    requires s.objects[k].waiting == [t] + o.waiting
    ensures t in s.tasks && t != s.idle && t !in s.ready && t !in s.sleeping
    ensures Known(SetReady(WithObject(s, k, o), t))
    ensures Inv(KernelState.Dispatch(SetReady(WithObject(s, k, o), t)))
  {
    QueueDistinct(s, k);
    assert t in s.objects[k].waiting;
    HandOverInv(s, k, o, t);
    CoreKnown(SetReady(WithObject(s, k, o), t));
  }

  lemma NewObjectRelies(s: KState, st: Step)
    requires Inv(s) && (st.NewSem? || st.NewMutex?)
    ensures Known(s) && Inv(Next(s, st))
    ensures Next(s, st) == s.(objects := s.objects + [if st.NewSem? then Sem(0, []) else Mutex(None, 0, [])])
  {
    NextInv(s, st);
  }

  lemma StartRelies(s: KState, t: Tid)
    requires Inv(s) && Enabled(s, Start(t))
    ensures Known(s) && t !in s.ready && t !in s.sleeping
  {
    CoreKnown(s);
    assert t !in Placed(s);
  }

  lemma WithObjectTwice(s: KState, k: nat, a: SyncObject, b: SyncObject)
    requires k < |s.objects|
    ensures WithObject(WithObject(s, k, a), k, b) == WithObject(s, k, b)
  {
    assert s.objects[k := a][k := b] == s.objects[k := b];
  }

  lemma SemRelies(s: KState, k: nat)
    requires Inv(s) && IsSem(s, k)
    ensures Known(s) && Inv(SemNotifyStep(s, k))
    ensures s.objects[k].count <= 0 && s.curr != s.idle ==>
              ObjectOk(Enqueue(s.objects[k], s.curr), s.idle, s.tasks)
    ensures s.objects[k].waiting != [] ==>
              var o, t := s.objects[k], s.objects[k].waiting[0];
              && t in s.tasks && t != s.idle && t !in s.ready && t !in s.sleeping
              && Known(SetReady(WithObject(s, k, Sem(o.count, o.waiting[1..])), t))
  {
    hide Placed, WaitingOn, SlicesOk, SleepersOk, OnceEach;
    CoreKnown(s);
    SemNotifyInv(s, k);
    var o := s.objects[k];
    assert ObjectOk(o, s.idle, s.tasks);
    if o.waiting != [] {
      HandOverRelies(s, k, Sem(o.count, o.waiting[1..]), o.waiting[0]);
    }
  }

  lemma MutexRelies(s: KState, k: nat)
    requires Inv(s) && IsMutex(s, k)
    ensures Known(s) && Inv(MutexUnlockStep(s, k))
    ensures ObjectOk(s.objects[k], s.idle, s.tasks)
    ensures s.objects[k].lockedCount != 0 && s.objects[k].owner != Some(s.curr) && s.curr != s.idle ==>
              ObjectOk(Enqueue(s.objects[k], s.curr), s.idle, s.tasks)
    ensures s.objects[k].waiting != [] ==>
              var o, t := s.objects[k], s.objects[k].waiting[0];
              && t in s.tasks && t != s.idle && t !in s.ready && t !in s.sleeping
              && Known(SetReady(WithObject(s, k, Mutex(Some(t), 1, o.waiting[1..])), t))
  {
    hide Placed, WaitingOn, SlicesOk, SleepersOk, OnceEach;
    CoreKnown(s);
    MutexUnlockInv(s, k);
    QueueDistinct(s, k);
    var o := s.objects[k];
    if o.waiting != [] {
      HandOverRelies(s, k, Mutex(Some(o.waiting[0]), 1, o.waiting[1..]), o.waiting[0]);
    }
  }
}
