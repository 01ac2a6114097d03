/** The mutex, with priority inheritance. */
module Mutexes {
  import opened Sequences
  import opened Scheduler
  import opened Ipc

  /** The ready queues after the priority of a thread has been changed from p to its present one. */
  function Moved(queues: seq<seq<Thread>>, p: nat, t: Thread): seq<seq<Thread>>
    reads t`stat, t`currentPriority
  {
    if t.stat == Ready && t.currentPriority != p then Pushed(Pulled(queues, p, t), t.currentPriority, t) else queues
  }

  class Mutex {
    const flag: Flag
    var value: nat
    var originalPriority: nat
    var hold: nat
    var owner: Thread?
    var waiting: seq<Thread>

    ghost function Owners(): set<Thread>
      reads this`owner
    {
      if owner == null then {} else {owner}
    }

    /** No waiting thread outranks the owner. */
    ghost predicate Inherits()
      reads this`owner, this`waiting, Owners()`currentPriority, waiting`currentPriority
    {
      owner != null ==> forall t :: t in waiting ==> owner.currentPriority <= t.currentPriority
    }

    ghost predicate Valid(sched: Scheduler)
      reads this, Owners()`currentPriority, waiting`stat, waiting`currentPriority, sched`queues, sched`bits, sched`threads
      reads sched.threads`stat, sched.threads`currentPriority, sched.threads`number, sched.threads`numberMask, sched.threads`highMask
    {
      && sched.Valid() && Waiting(sched, waiting) && value <= 1
      && (value == 1 <==> owner == null) && (hold == 0 <==> owner == null)
      && (owner == null ==> waiting == [])
      && (owner != null ==> owner in sched.threads && owner !in waiting)
      && (owner != null ==> owner.currentPriority <= originalPriority < sched.prioMax)
      && (flag == Prio ==> ByPriority(waiting) && Inherits())
    }

    /** A step elsewhere keeps the invariant when it leaves the waiting threads and the owner's priority alone. */
    twostate lemma Undisturbed(sched: Scheduler)
      requires old(Valid(sched)) && sched.Valid() && old(sched.threads) <= sched.threads && unchanged(this)
      requires forall t :: t in waiting ==> t.stat == old(t.stat) && t.currentPriority == old(t.currentPriority)
      requires owner != null ==> owner.currentPriority == old(owner.currentPriority)
      ensures Valid(sched)
    {
      hide Scheduler.Valid, Pushed, Pulled;
    }

    /** rt_mutex_init. */
    constructor (sched: Scheduler, ipcFlag: Flag)
      requires sched.Valid()
      ensures Valid(sched) && owner == null && waiting == [] && flag == ipcFlag && originalPriority == 0xFF
    {
      value, originalPriority, hold, owner, waiting, flag := 1, 0xFF, 0, null, [], ipcFlag;
    }

    /** rt_mutex_take up to the switch. */
    method Take(sched: Scheduler, thread: Thread, time: int) returns (r: Outcome)
      requires Valid(sched) && Running(sched, thread) && hold < 0xFF
      modifies this`value, this`originalPriority, this`hold, this`owner, this`waiting, sched`queues, sched`bits
      modifies thread`stat, thread`error
      modifies Owners()`stat, Owners()`currentPriority, Owners()`number, Owners()`numberMask, Owners()`highMask
      ensures Valid(sched)
      ensures r == if old(owner) == null || old(owner) == thread then Done else if time == 0 then Failed(ETIMEOUT) else Blocked
      ensures r == Done ==> owner == thread && hold == old(hold) + 1
      ensures old(owner) == null ==> originalPriority == thread.currentPriority == old(thread.currentPriority)
      ensures old(owner) != null ==> owner == old(owner) && originalPriority == old(originalPriority)
      ensures r != Done ==> hold == old(hold)
      ensures thread.error == if r == Failed(ETIMEOUT) then ETIMEOUT else EOK
      ensures r != Blocked ==> GoesOn(sched, thread, old(waiting), waiting)
      ensures r != Blocked && old(owner) != null ==> owner.currentPriority == old(owner.currentPriority)
      ensures r == Blocked ==> thread.stat == Suspended && thread in waiting && Joined(old(waiting), thread, flag, waiting)
      ensures r == Blocked ==> owner.currentPriority == Higher(thread.currentPriority, old(owner.currentPriority))
      ensures r == Blocked ==>
                sched.queues == Pulled(Moved(old(sched.queues), old(owner.currentPriority), owner), thread.currentPriority, thread)
      ensures old(owner) != null ==> owner.stat == old(owner.stat)
    {
      hide Scheduler.Valid, Pushed, Pulled;
      thread.error := EOK;
      if owner == thread {
        hold := hold + 1;
        return Done;
      }
      if value > 0 {
        value := value - 1;
        owner := thread;
        PriorityBelow(sched, thread);
        originalPriority := thread.currentPriority;
        hold := hold + 1;
        return Done;
      }
      if time == 0 {
        thread.error := ETIMEOUT;
        return Failed(ETIMEOUT);
      }
      Inherit(sched, thread);
      Join(sched, thread);
      r := Blocked;
    }

    /** The owner gets the priority of a thread that is going to wait, if that is higher. */
    method Inherit(sched: Scheduler, thread: Thread)
      requires Valid(sched) && Running(sched, thread) && owner != null && owner != thread
      modifies sched`queues, sched`bits, Owners()`stat, Owners()`currentPriority, Owners()`number, Owners()`numberMask, Owners()`highMask
      ensures Valid(sched) && owner.stat == old(owner.stat)
      ensures sched.queues == Moved(old(sched.queues), old(owner.currentPriority), owner)
      ensures owner.currentPriority == Higher(thread.currentPriority, old(owner.currentPriority))
    {
      hide Scheduler.Valid, Pushed, Pulled;
      PriorityBelow(sched, thread);
      if thread.currentPriority < owner.currentPriority {
        sched.ChangePriority(owner, thread.currentPriority);
      }
    }

    /** A thread that does not outrank the owner waits. */
    method Join(sched: Scheduler, thread: Thread)
      requires Valid(sched) && Running(sched, thread) && owner != null && owner != thread
      requires owner.currentPriority <= thread.currentPriority
      modifies this`waiting, sched`queues, sched`bits, thread`stat
      ensures Valid(sched) && WaitsOn(sched, thread, old(waiting), waiting, flag)
    {
      hide Scheduler.Valid, Pushed, Pulled;
      waiting := ListSuspend(sched, waiting, thread, flag);
    }

    /** rt_mutex_release up to the switch: on the last release the owner gets its priority back, and the
        first waiting thread, if any, becomes the owner. */
    method Release(sched: Scheduler, thread: Thread) returns (r: Outcome)
      requires Valid(sched) && Running(sched, thread)
      modifies this`value, this`originalPriority, this`hold, this`owner, this`waiting, sched`queues, sched`bits
      modifies thread`error, thread`stat, thread`currentPriority, thread`number, thread`numberMask, thread`highMask, waiting`stat
      ensures Valid(sched)
      ensures r == if old(owner) == thread then Done else Failed(ERROR)
      ensures thread.stat == Ready && thread.error == if r == Done then old(thread.error) else ERROR
      ensures hold == if r != Done then old(hold) else if old(hold) == 1 && old(waiting) != [] then 1 else old(hold) - 1
      ensures !(r == Done && old(hold) == 1) ==>
                && GoesOn(sched, thread, old(waiting), waiting)
                && owner == old(owner) && originalPriority == old(originalPriority) && thread.currentPriority == old(thread.currentPriority)
      ensures r == Done && old(hold) == 1 ==>
                && thread.currentPriority == old(originalPriority)
                && sched.queues == Woken(Moved(old(sched.queues), old(thread.currentPriority), thread), old(waiting))
      ensures r == Done && old(hold) == 1 && old(waiting) == [] ==> owner == null && originalPriority == 0xFF
      ensures r == Done && old(hold) == 1 && old(waiting) != [] ==>
                && owner == old(waiting)[0] && hold == 1 && waiting == old(waiting)[1..] && owner.stat == Ready
                && originalPriority == owner.currentPriority == old(waiting)[0].currentPriority
      ensures r == Done && old(hold) == 1 ==> (Inherits() <==> FirstOutranks(old(waiting)))
    {
      hide Scheduler.Valid, Pushed, Pulled;
      if thread != owner {
        thread.error := ERROR;
        return Failed(ERROR);
      }
      if hold == 1 {
        Restore(sched, thread);
        HandOver(sched);
      } else {
        hold := hold - 1;
      }
      r := Done;
    }

    /** The owner returns to its original priority. */
    method Restore(sched: Scheduler, thread: Thread)
      requires Valid(sched) && owner == thread && Running(sched, thread) && hold == 1
      modifies this`hold, sched`queues, sched`bits, thread`stat, thread`currentPriority, thread`number, thread`numberMask, thread`highMask
      ensures sched.Valid() && Waiting(sched, waiting) && (flag == Prio ==> ByPriority(waiting))
      ensures hold == 0 && thread.currentPriority == originalPriority && thread.stat == Ready
      ensures sched.queues == Moved(old(sched.queues), old(thread.currentPriority), thread)
    {
      hide Scheduler.Valid, Pushed, Pulled;
      hold := hold - 1;
      if originalPriority != thread.currentPriority {
        sched.ChangePriority(thread, originalPriority);
      }
    }

    /** The first waiting thread becomes the owner; without one the mutex is free. */
    method HandOver(sched: Scheduler)
      requires sched.Valid() && Waiting(sched, waiting) && (flag == Prio ==> ByPriority(waiting)) && hold == 0 && value == 0
      modifies this`value, this`originalPriority, this`hold, this`owner, this`waiting, sched`queues, sched`bits, waiting`stat
      ensures Valid(sched)
      ensures sched.queues == Woken(old(sched.queues), old(waiting))
      ensures old(waiting) == [] ==> owner == null && value == 1 && originalPriority == 0xFF && hold == 0
      ensures old(waiting) != [] ==>
                && owner == old(waiting)[0] && hold == 1 && waiting == old(waiting)[1..] && owner.stat == Ready
                && originalPriority == owner.currentPriority == old(waiting)[0].currentPriority
      ensures Inherits() <==> FirstOutranks(old(waiting))
    {
      hide Scheduler.Valid, Pushed, Pulled;
      if waiting != [] {
        owner := waiting[0];
        originalPriority := waiting[0].currentPriority;
        hold := hold + 1;
        PriorityBelow(sched, waiting[0]);
        waiting := ListResume(sched, waiting, waiting[0]);
      } else {
        value := value + 1;
        owner := null;
        originalPriority := 0xFF;
      }
    }

    /** A waiting thread's timeout. */
    method Expire(sched: Scheduler, thread: Thread)
      requires Valid(sched) && thread in waiting
      modifies this`waiting, sched`queues, sched`bits, sched`current, sched`currentPriority, thread`stat, thread`error
      ensures Valid(sched) && waiting == Without(old(waiting), thread) && TimedOut(sched, thread)
      ensures owner == old(owner) && hold == old(hold) && originalPriority == old(originalPriority)
    {
      hide Scheduler.Valid, Pushed, Pulled;
      waiting := ListExpire(sched, waiting, thread);
    }
  }

  /** No thread of the list outranks the first. With RT_IPC_FLAG_FIFO this can fail, and a hand-over then
      leaves a thread of higher priority waiting for one of lower priority. */
  ghost predicate FirstOutranks(list: seq<Thread>)
    reads list`currentPriority
  {
    forall i :: 0 < i < |list| ==> list[0].currentPriority <= list[i].currentPriority
  }

  /** A thread of priority 5 waits, then one of priority 3: the list with RT_IPC_FLAG_FIFO is one whose first thread
      does not outrank the other. */
  lemma FifoInverts(early: Thread, late: Thread)
    requires early.currentPriority == 5 && late.currentPriority == 3
    ensures Joined([], early, Fifo, [early]) && Joined([early], late, Fifo, [early, late])
    ensures !FirstOutranks([early, late])
  {
    assert Inserted([], 0, early) == [early] && Inserted([early], 1, late) == [early, late];
    assert Place([], early.currentPriority, Fifo, 0) && Place([early], late.currentPriority, Fifo, 1);
    assert [early, late][1] == late;
  }

  /** The higher of two priorities: the smaller number. */
  function Higher(a: nat, b: nat): nat { if a < b then a else b }

  lemma PriorityBelow(sched: Scheduler, t: Thread)
    requires sched.Valid() && t in sched.threads
    ensures t.currentPriority < sched.prioMax
  {
    assert sched.Attributes(t);
  }
}
