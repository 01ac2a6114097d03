/** Lists of threads that wait for a kernel object. */
module Ipc {
  import opened Sequences
  import opened Scheduler

  datatype Flag = Fifo | Prio // RT_IPC_FLAG_FIFO, RT_IPC_FLAG_PRIO

  /** How the interrupt-disabled part of a blocking call ends. */
  datatype Outcome = Done | Failed(error: Err) | Blocked

  /** Every thread of the list is suspended, and listed once. */
  ghost predicate Waiting(sched: Scheduler, list: seq<Thread>)
    reads sched`threads, list`stat
  {
    Distinct(list) && forall t :: t in list ==> t in sched.threads && t.stat == Suspended
  }

  /** A thread that makes a call: it is ready, so it waits nowhere. */
  ghost predicate Running(sched: Scheduler, thread: Thread)
    reads sched`threads, thread`stat
  {
    thread in sched.threads && thread.stat == Ready
  }

  /** Highest priority first. */
  ghost predicate ByPriority(list: seq<Thread>)
    reads list`currentPriority
  {
    forall i, j :: 0 <= i < j < |list| ==> list[i].currentPriority <= list[j].currentPriority
  }

  /** Where rt_ipc_list_suspend puts a thread: at the end, or behind the last one of its priority. */
  ghost predicate Place(list: seq<Thread>, priority: nat, flag: Flag, i: nat)
    reads list`currentPriority
  {
    && i <= |list|
    && (flag == Fifo ==> i == |list|)
    && (flag == Prio ==> forall k :: 0 <= k < i ==> list[k].currentPriority <= priority)
    && (flag == Prio && i < |list| ==> priority < list[i].currentPriority)
  }

  /** The list r is the list with a thread put in where rt_ipc_list_suspend puts it. */
  ghost predicate Joined(list: seq<Thread>, thread: Thread, flag: Flag, r: seq<Thread>)
    reads list`currentPriority, thread`currentPriority
  {
    exists i :: Place(list, thread.currentPriority, flag, i) && r == Inserted(list, i, thread)
  }

  /** The walk of rt_ipc_list_suspend. */
  method FindPlace(list: seq<Thread>, thread: Thread, flag: Flag) returns (i: nat)
    ensures Place(list, thread.currentPriority, flag, i)
  {
    if flag == Fifo { return |list|; }
    i := 0;
    while i < |list| && list[i].currentPriority <= thread.currentPriority
      invariant i <= |list| && forall k :: 0 <= k < i ==> list[k].currentPriority <= thread.currentPriority
    {
      i := i + 1;
    }
  }

  /** rt_ipc_list_suspend. */
  method ListSuspend(sched: Scheduler, list: seq<Thread>, thread: Thread, flag: Flag) returns (r: seq<Thread>)
    requires sched.Valid() && Waiting(sched, list) && Running(sched, thread)
    modifies sched`queues, sched`bits, thread`stat
    ensures sched.Valid() && Waiting(sched, r) && thread.stat == Suspended
    ensures sched.queues == Pulled(old(sched.queues), thread.currentPriority, thread)
    ensures Joined(list, thread, flag, r) && thread in r && (forall t :: t in r ==> t == thread || t in list)
    ensures flag == Prio && ByPriority(list) ==> ByPriority(r)
  {
    hide Scheduler.Valid, Place, Inserted, ByPriority;
    assert thread !in list;
    var ok := sched.Suspend(thread);
    var i := FindPlace(list, thread, flag);
    r := Inserted(list, i, thread);
    JoinFacts(list, thread, flag, i, r);
  }

  lemma JoinFacts(list: seq<Thread>, thread: Thread, flag: Flag, i: nat, r: seq<Thread>)
    requires Place(list, thread.currentPriority, flag, i) && Distinct(list) && thread !in list && r == Inserted(list, i, thread)
    ensures Distinct(r) && thread in r && forall t :: t in r ==> t == thread || t in list
    ensures flag == Prio && ByPriority(list) ==> ByPriority(r)
  {
    InsertedDistinct(list, i, thread);
    assert r[i] == thread;
    if flag == Prio && ByPriority(list) {
      forall j, k | 0 <= j < k < |r| ensures r[j].currentPriority <= r[k].currentPriority {
        InsertedAt(list, i, thread, j);
        InsertedAt(list, i, thread, k);
      }
    }
  }

  /** rt_ipc_list_resume. */
  method ListResume(sched: Scheduler, list: seq<Thread>, thread: Thread) returns (r: seq<Thread>)
    requires sched.Valid() && Waiting(sched, list) && list != [] && thread == list[0]
    modifies sched`queues, sched`bits, thread`stat
    ensures sched.Valid() && Waiting(sched, r) && thread.stat == Ready && r == list[1..]
    ensures sched.queues == Pushed(old(sched.queues), thread.currentPriority, thread)
  {
    var ok := sched.Resume(thread);
    r := list[1..];
  }

  /** The timer of a waiting thread has fired: rt_thread_timeout takes it off the list. */
  method ListExpire(sched: Scheduler, list: seq<Thread>, thread: Thread) returns (r: seq<Thread>)
    requires sched.Valid() && Waiting(sched, list) && thread in list
    modifies sched`queues, sched`bits, sched`current, sched`currentPriority, thread`stat, thread`error
    ensures sched.Valid() && Waiting(sched, r) && thread.stat == Ready && thread.error == ETIMEOUT
    ensures sched.queues == Pushed(old(sched.queues), thread.currentPriority, thread) && sched.Scheduled()
    ensures r == Without(list, thread) && thread !in r && (forall t :: t in r ==> t in list) && |r| < |list|
    ensures ByPriority(list) ==> ByPriority(r)
  {
    hide Scheduler.Valid;
    r := Without(list, thread);
    sched.Timeout(thread);
    WithoutMember(list, thread, thread);
    WithoutDistinct(list, thread);
    forall t | t in r ensures t in list { WithoutMember(list, thread, t); }
    WithoutShorter(list, thread);
    if ByPriority(list) { WithoutOrdered(list, thread); }
  }

  lemma {:induction false} WithoutShorter<T>(s: seq<T>, x: T)
    ensures |Without(s, x)| <= |s| && (x in s ==> |Without(s, x)| < |s|)
  {
    if s != [] { WithoutShorter(s[1..], x); }
  }

  lemma {:induction false} WithoutOrdered(list: seq<Thread>, thread: Thread)
    requires ByPriority(list)
    ensures ByPriority(Without(list, thread))
  {
    if list != [] {
      WithoutOrdered(list[1..], thread);
      var r := Without(list[1..], thread);
      forall i | 0 <= i < |r| ensures list[0].currentPriority <= r[i].currentPriority {
        WithoutMember(list[1..], thread, r[i]);
      }
    }
  }

  /** A call after which the thread runs on: it waits nowhere, and no thread has come to or left a ready queue. */
  twostate predicate GoesOn(sched: Scheduler, thread: Thread, before: seq<Thread>, new after: seq<Thread>)
    reads sched`queues, thread`stat
  {
    thread.stat == Ready && sched.queues == old(sched.queues) && after == before
  }

  /** A call after which the thread waits on a list: it has left its ready queue, and no other thread has moved. */
  twostate predicate WaitsOn(sched: Scheduler, thread: Thread, before: seq<Thread>, new after: seq<Thread>, flag: Flag)
    reads sched`queues, thread`stat, thread`currentPriority, before`currentPriority
  {
    && thread.stat == Suspended && sched.queues == Pulled(old(sched.queues), thread.currentPriority, thread)
    && thread in after && Joined(before, thread, flag, after)
  }

  /** The ready queues after the first thread of a list, if any, has been resumed. */
  function Woken(queues: seq<seq<Thread>>, list: seq<Thread>): seq<seq<Thread>>
    reads list`currentPriority
  {
    if list == [] then queues else Pushed(queues, list[0].currentPriority, list[0])
  }

  /** The timeout of a waiting thread: it is ready again, with the error set, and no other thread has moved. */
  twostate predicate TimedOut(sched: Scheduler, thread: Thread)
    reads sched`queues, sched`current, sched`currentPriority, sched`lockNest, if sched.current == null then {} else {sched.current}
    reads thread`stat, thread`error, thread`currentPriority
  {
    && thread.stat == Ready && thread.error == ETIMEOUT
    && sched.queues == Pushed(old(sched.queues), thread.currentPriority, thread) && sched.Scheduled()
  }

  class Semaphore {
    const flag: Flag
    var value: nat
    var waiting: seq<Thread>
    // history
    ghost const initial: nat
    ghost var releases: nat
    ghost var grants: nat

    /** No thread waits while the semaphore can be taken, and no unit is lost or made up. */
    ghost predicate Valid(sched: Scheduler)
      reads this, waiting`stat, sched`queues, sched`bits, sched`threads
      reads sched.threads`stat, sched.threads`currentPriority, sched.threads`number, sched.threads`numberMask, sched.threads`highMask
    {
      && sched.Valid() && Waiting(sched, waiting)
      && (waiting != [] ==> value == 0)
      && initial + releases == value + grants
    }

    /** A step elsewhere keeps the invariant when it leaves the waiting threads alone. */
    twostate lemma Undisturbed(sched: Scheduler)
      requires old(Valid(sched)) && sched.Valid() && old(sched.threads) <= sched.threads && unchanged(this)
      requires forall t :: t in waiting ==> t.stat == old(t.stat)
      ensures Valid(sched)
    {
      hide Scheduler.Valid;
    }

    /** rt_sem_init. */
    constructor (sched: Scheduler, units: nat, ipcFlag: Flag)
      requires sched.Valid() && units <= 0xFFFF
      ensures Valid(sched) && value == initial == units && waiting == [] && flag == ipcFlag && releases == grants == 0
    {
      value, initial, waiting, flag := units, units, [], ipcFlag;
      releases, grants := 0, 0;
    }

    /** rt_sem_take up to the switch. */
    method Take(sched: Scheduler, thread: Thread, time: int) returns (r: Outcome)
      requires Valid(sched) && Running(sched, thread)
      modifies this`value, this`waiting, this`grants, sched`queues, sched`bits, thread`stat, thread`error
      ensures Valid(sched) && releases == old(releases)
      ensures r == if old(value) > 0 then Done else if time == 0 then Failed(ETIMEOUT) else Blocked
      ensures r == Done ==> value == old(value) - 1 && grants == old(grants) + 1
      ensures r != Done ==> value == old(value) && grants == old(grants)
      ensures if r == Blocked then WaitsOn(sched, thread, old(waiting), waiting, flag) && thread.error == EOK
              else GoesOn(sched, thread, old(waiting), waiting) && thread.error == old(thread.error)
    {
      hide Scheduler.Valid;
      if value > 0 {
        value := value - 1;
        grants := grants + 1;
        return Done;
      }
      if time == 0 { return Failed(ETIMEOUT); }
      thread.error := EOK;
      waiting := ListSuspend(sched, waiting, thread, flag);
      r := Blocked;
    }

    /** rt_sem_release up to the switch: the first waiting thread gets the unit. */
    method Release(sched: Scheduler)
      requires Valid(sched) && value < 0xFFFF
      modifies this`value, this`waiting, this`grants, this`releases, sched`queues, sched`bits, waiting`stat
      ensures Valid(sched) && releases == old(releases) + 1
      ensures if old(waiting) == [] then value == old(value) + 1 && waiting == [] && grants == old(grants)
              else value == old(value) && waiting == old(waiting)[1..] && grants == old(grants) + 1 && old(waiting)[0].stat == Ready
      ensures sched.queues == Woken(old(sched.queues), old(waiting))
      ensures forall t :: t in waiting ==> t.stat == old(t.stat)
    {
      releases := releases + 1;
      if waiting != [] {
        grants := grants + 1;
        waiting := ListResume(sched, waiting, waiting[0]);
      } else {
        value := value + 1;
      }
    }

    /** A waiting thread's timeout: it returns without a unit. */
    method Expire(sched: Scheduler, thread: Thread)
      requires Valid(sched) && thread in waiting
      modifies this`waiting, sched`queues, sched`bits, sched`current, sched`currentPriority, thread`stat, thread`error
      ensures Valid(sched) && waiting == Without(old(waiting), thread) && TimedOut(sched, thread)
      ensures value == old(value) && grants == old(grants) && releases == old(releases)
    {
      waiting := ListExpire(sched, waiting, thread);
    }
  }
}
