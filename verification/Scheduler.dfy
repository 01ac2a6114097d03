/** Threads, the ready queues and the choice of the thread to run. */
module Scheduler {
  import opened Bits
  import opened ReadyMap
  import opened Sequences

  datatype Stat = Init | Ready | Suspended | Closed

  datatype Err = EOK | ERROR | ETIMEOUT | EFULL

  class Thread {
    const initPriority: nat
    var stat: Stat
    var currentPriority: nat
    // attributes of the priority
    var number: nat
    var numberMask: nat
    var highMask: nat
    var error: Err
    // the events it waits for
    var eventSet: bv32
    var eventInfo: bv8

    constructor (priority: nat)
      ensures stat == Init && initPriority == priority && currentPriority == priority && error == EOK
    {
      initPriority, currentPriority, stat, error := priority, priority, Init, EOK;
      number, numberMask, highMask := 0, 0, 0;
      eventSet, eventInfo := 0, 0;
    }
  }

  /** Which queues have a thread. */
  ghost function Occupied(queues: seq<seq<Thread>>): (r: seq<bool>)
    ensures |r| == |queues|
  {
    seq(|queues|, p requires 0 <= p < |queues| => queues[p] != [])
  }

  /** The ready queues with a thread put at the end of one. */
  function Pushed(queues: seq<seq<Thread>>, p: nat, t: Thread): seq<seq<Thread>> {
    if p < |queues| then queues[p := queues[p] + [t]] else queues
  }

  /** The ready queues with a thread taken out of one. */
  function Pulled(queues: seq<seq<Thread>>, p: nat, t: Thread): seq<seq<Thread>> {
    if p < |queues| then queues[p := Without(queues[p], t)] else queues
  }

  class Scheduler {
    const prioMax: nat // RT_THREAD_PRIORITY_MAX
    var queues: seq<seq<Thread>> // rt_thread_priority_table
    var bits: Bitmap
    var current: Thread?
    var currentPriority: nat
    var lockNest: int
    ghost var threads: set<Thread> // every thread that has been started and not closed

    ghost predicate Attributes(t: Thread)
      reads t`currentPriority, t`number, t`numberMask, t`highMask
    {
      && t.currentPriority < prioMax
      && t.numberMask == NumberMask(prioMax > 32, t.currentPriority)
      && (prioMax > 32 ==> t.number == t.currentPriority / 8 && t.highMask == HighMask(t.currentPriority))
    }

    /** A thread is ready exactly when it is queued, and then at its current priority. */
    ghost predicate Queued(t: Thread)
      reads this`queues, t`stat, t`currentPriority
      requires t.currentPriority < |queues|
    {
      t.stat == Ready <==> t in queues[t.currentPriority]
    }

    ghost predicate Valid()
      reads this`queues, this`bits, this`threads
      reads threads`stat, threads`currentPriority, threads`number, threads`numberMask, threads`highMask
    {
      && 0 < prioMax <= 256 && |queues| == prioMax && bits.twoLevel == (prioMax > 32)
      && Maps(bits, Occupied(queues))
      && (forall p :: 0 <= p < prioMax ==> QueueOk(p))
      && (forall t :: t in threads ==> Attributes(t) && Queued(t))
    }

    /** Each queue holds threads of its own priority, each of them once. */
    ghost predicate QueueOk(p: nat)
      reads this`queues, this`threads, threads`currentPriority
      requires p < |queues|
    {
      Distinct(queues[p]) && forall i :: 0 <= i < |queues[p]| ==> queues[p][i] in threads && queues[p][i].currentPriority == p
    }

    /** rt_system_scheduler_init. */
    constructor (priorities: nat)
      requires 0 < priorities <= 256
      ensures Valid() && prioMax == priorities && threads == {} && current == null && lockNest == 0
      ensures currentPriority == priorities - 1
    {
      prioMax := priorities;
      queues := seq(priorities, _ => []);
      bits := Bitmap(priorities > 32, 0, seq(32, _ => 0));
      current, currentPriority, lockNest := null, priorities - 1, 0;
      threads := {};
      new;
      EmptyMap(bits, Occupied(queues));
    }

    /** rt_schedule_insert_thread: at the end of the queue of its priority. */
    method Insert(t: Thread)
      requires 0 < prioMax <= 256 && |queues| == prioMax && bits.twoLevel == (prioMax > 32)
      requires Maps(bits, Occupied(queues)) && Attributes(t)
      modifies this`queues, this`bits, t`stat
      ensures t.stat == Ready && queues == Pushed(old(queues), t.currentPriority, t)
      ensures Maps(bits, Occupied(queues)) && bits.twoLevel == old(bits.twoLevel)
    {
      hide Maps, NumberMask, HighMask;
      var p := t.currentPriority;
      t.stat := Ready;
      queues := queues[p := queues[p] + [t]];
      SetBit(bits, Occupied(old(queues)), p);
      assert Occupied(queues) == Occupied(old(queues))[p := true];
      bits := Bitmap(bits.twoLevel, bits.group, if prioMax > 32 then bits.table[t.number := Or(bits.table[t.number], t.highMask)] else bits.table);
      bits := Bitmap(bits.twoLevel, Or(bits.group, t.numberMask), bits.table);
    }

    /** rt_schedule_remove_thread. */
    method Remove(t: Thread)
      requires 0 < prioMax <= 256 && |queues| == prioMax && bits.twoLevel == (prioMax > 32)
      requires Maps(bits, Occupied(queues)) && Attributes(t)
      modifies this`queues, this`bits
      ensures queues == Pulled(old(queues), t.currentPriority, t)
      ensures Maps(bits, Occupied(queues)) && bits.twoLevel == old(bits.twoLevel)
    {
      hide Maps, NumberMask, HighMask, AndNot;
      var p := t.currentPriority;
      queues := queues[p := Without(queues[p], t)];
      ClearBit(bits, Occupied(old(queues)), p);
      if queues[p] == [] {
        assert Occupied(queues) == Occupied(old(queues))[p := false];
        if prioMax > 32 {
          bits := Bitmap(bits.twoLevel, bits.group, bits.table[t.number := AndNot(bits.table[t.number], t.highMask)]);
          if bits.table[t.number] == 0 {
            bits := Bitmap(bits.twoLevel, AndNot(bits.group, t.numberMask), bits.table);
          }
        } else {
          bits := Bitmap(bits.twoLevel, AndNot(bits.group, t.numberMask), bits.table);
        }
      } else {
        WithoutSome(old(queues)[p], t);
        assert Occupied(queues) == Occupied(old(queues));
      }
    }

    /** Put a thread that is not ready into its queue. */
    method Enqueue(t: Thread)
      requires Valid() && t in threads && t.stat != Ready
      modifies this`queues, this`bits, t`stat
      ensures Valid() && t.stat == Ready
      ensures queues == Pushed(old(queues), t.currentPriority, t)
    {
      hide Maps, NumberMask, HighMask, Occupied;
      var p := t.currentPriority;
      assert t !in queues[p] && QueueOk(p);
      Insert(t);
      AppendedDistinct(old(queues)[p], t);
      forall q | 0 <= q < prioMax ensures QueueOk(q) { assert old(QueueOk(q)); }
      forall x | x in threads ensures Attributes(x) && Queued(x) {
        assert old(Attributes(x)) && old(Queued(x));
        assert old(QueueOk(p));
      }
    }

    /** Take a ready thread out of its queue, giving it another state. */
    method Dequeue(t: Thread, stat: Stat)
      requires Valid() && t in threads && t.stat == Ready && stat != Ready
      modifies this`queues, this`bits, t`stat
      ensures Valid() && t.stat == stat
      ensures queues == Pulled(old(queues), t.currentPriority, t)
    {
      hide Maps, NumberMask, HighMask, Occupied, Without;
      var p := t.currentPriority;
      assert QueueOk(p);
      t.stat := stat;
      Remove(t);
      WithoutDistinct(old(queues)[p], t);
      forall q | 0 <= q < prioMax ensures QueueOk(q) {
        assert old(QueueOk(q));
        forall i | 0 <= i < |queues[q]| ensures queues[q][i] in threads && queues[q][i].currentPriority == q {
          if q == p { WithoutMember(old(queues)[p], t, queues[q][i]); }
        }
      }
      forall x | x in threads ensures Attributes(x) && Queued(x) {
        assert old(Attributes(x)) && old(Queued(x));
        WithoutMember(old(queues)[p], t, x);
      }
    }

    /** rt_thread_suspend: an error for a thread that is not ready. */
    method Suspend(t: Thread) returns (ok: bool)
      requires Valid() && t in threads
      modifies this`queues, this`bits, t`stat
      ensures Valid() && ok == (old(t.stat) == Ready) && t.stat == if ok then Suspended else old(t.stat)
      ensures queues == if ok then Pulled(old(queues), t.currentPriority, t) else old(queues)
    {
      if t.stat != Ready { return false; }
      Dequeue(t, Suspended);
      ok := true;
    }

    /** rt_thread_resume: an error for a thread that is not suspended. */
    method Resume(t: Thread) returns (ok: bool)
      requires Valid() && t in threads
      modifies this`queues, this`bits, t`stat
      ensures Valid() && ok == (old(t.stat) == Suspended) && t.stat == if ok then Ready else old(t.stat)
      ensures queues == if ok then Pushed(old(queues), t.currentPriority, t) else old(queues)
    {
      if t.stat != Suspended { return false; }
      Enqueue(t);
      ok := true;
    }

    /** Some thread is ready; the idle thread always is. */
    ghost predicate SomeReady()
      reads this`queues
    {
      exists p :: 0 <= p < |queues| && queues[p] != []
    }

    /** t is the first thread of the numerically lowest priority that has one. */
    ghost predicate First(t: Thread)
      reads this`queues
    {
      exists p :: FirstAt(t, p)
    }

    ghost predicate FirstAt(t: Thread, p: nat)
      reads this`queues
    {
      p < |queues| && queues[p] != [] && queues[p][0] == t && forall q :: 0 <= q < p ==> queues[q] == []
    }

    /** The running thread after a call of rt_schedule: while the scheduler is locked the same as before, else the first
        one of the highest priority. */
    twostate predicate Scheduled()
      reads this`queues, this`current, this`currentPriority, this`lockNest, if current == null then {} else {current}
    {
      && (if lockNest != 0 then current == old(current) else current != null && First(current))
      && currentPriority == if current != old(current) && current != null then current.currentPriority else old(currentPriority)
    }

    /** rt_schedule. */
    method Schedule()
      requires Valid() && SomeReady()
      modifies this`current, this`currentPriority
      ensures Valid() && Scheduled()
      ensures lockNest == 0 ==> current in threads && current.stat == Ready
    {
      hide Maps, Highest;
      if lockNest == 0 {
        ghost var some :| 0 <= some < |queues| && queues[some] != [];
        HighestIsLowest(bits, Occupied(queues), some);
        MapBytes(bits, Occupied(queues));
        var highest := Highest(bits);
        var toThread := queues[highest][0];
        assert QueueOk(highest) && Queued(toThread);
        forall q | 0 <= q < highest ensures queues[q] == [] { assert !Occupied(queues)[q]; }
        assert FirstAt(toThread, highest);
        if toThread != current {
          currentPriority := highest;
          current := toThread;
        }
      }
    }

    /** rt_thread_timeout. */
    method Timeout(t: Thread)
      requires Valid() && t in threads && t.stat == Suspended
      modifies this`queues, this`bits, this`current, this`currentPriority, t`stat, t`error
      ensures Valid() && t.stat == Ready && t.error == ETIMEOUT
      ensures queues == Pushed(old(queues), t.currentPriority, t)
      ensures Scheduled()
    {
      t.error := ETIMEOUT;
      Enqueue(t);
      assert queues[t.currentPriority] != [];
      Schedule();
    }

    /** The attributes that go with the current priority. */
    method SetAttributes(t: Thread, priority: nat)
      modifies t`currentPriority, t`number, t`numberMask, t`highMask
      requires priority < prioMax
      ensures Attributes(t) && t.currentPriority == priority
    {
      t.currentPriority := priority;
      if prioMax > 32 {
        t.number := priority / 8;
        t.numberMask := Mask(t.number);
        t.highMask := Mask(priority % 8);
      } else {
        t.numberMask := Mask(priority);
      }
    }

    /** rt_thread_control with RT_THREAD_CTRL_CHANGE_PRIORITY. */
    method ChangePriority(t: Thread, priority: nat)
      requires Valid() && t in threads && priority < prioMax
      modifies this`queues, this`bits, t`stat, t`currentPriority, t`number, t`numberMask, t`highMask
      ensures Valid() && t.stat == old(t.stat) && t.currentPriority == priority
      ensures t.stat != Ready ==> queues == old(queues)
      ensures t.stat == Ready ==>
                queues == Pushed(Pulled(old(queues), old(t.currentPriority), t), priority, t)
    {
      hide Maps, NumberMask, HighMask, Without;
      if t.stat == Ready {
        Dequeue(t, Suspended);
        Retune(t, priority);
        Enqueue(t);
      } else {
        Retune(t, priority);
      }
    }

    /** A thread that is in no queue gets another priority. */
    method Retune(t: Thread, priority: nat)
      requires Valid() && t in threads && t.stat != Ready && priority < prioMax
      modifies t`currentPriority, t`number, t`numberMask, t`highMask
      ensures Valid() && t.currentPriority == priority
    {
      hide Maps, NumberMask, HighMask;
      assert Queued(t) && Attributes(t);
      forall q | 0 <= q < prioMax ensures t !in queues[q] { assert QueueOk(q); }
      SetAttributes(t, priority);
      forall q | 0 <= q < prioMax ensures QueueOk(q) { assert old(QueueOk(q)); }
      forall x | x in threads ensures Attributes(x) && Queued(x) { assert old(Attributes(x)) && old(Queued(x)); }
    }

    /** rt_thread_startup. */
    method Startup(t: Thread)
      requires Valid() && t !in threads && t.stat == Init && t.initPriority < prioMax
      modifies this`queues, this`bits, this`current, this`currentPriority, this`threads
      modifies t`stat, t`currentPriority, t`number, t`numberMask, t`highMask
      ensures Valid() && threads == old(threads) + {t} && t.stat == Ready && t.currentPriority == t.initPriority
      ensures queues == Pushed(old(queues), t.currentPriority, t)
      ensures if old(current) == null then current == null && currentPriority == old(currentPriority) else Scheduled()
    {
      hide Maps, NumberMask, HighMask;
      SetAttributes(t, t.initPriority);
      t.stat := Suspended;
      threads := threads + {t};
      forall q | 0 <= q < prioMax ensures QueueOk(q) && t !in queues[q] { assert old(QueueOk(q)); }
      forall x | x in threads && x != t ensures Attributes(x) && Queued(x) { assert old(Attributes(x)) && old(Queued(x)); }
      Enqueue(t);
      assert queues[t.currentPriority] != [];
      if current != null { Schedule(); }
    }

    /** rt_thread_yield: behind the other ready threads of the same priority. */
    method Yield()
      requires Valid() && current != null && current in threads && SomeReady()
      modifies this`queues, this`current, this`currentPriority
      ensures Valid()
      ensures var t: Thread := old(current);
              var p := t.currentPriority;
              queues == if t.stat == Ready && |old(queues)[p]| > 1 then old(queues)[p := Without(old(queues)[p], t) + [t]] else old(queues)
      ensures if old(current).stat == Ready && |old(queues)[old(current).currentPriority]| > 1 then Scheduled()
              else current == old(current) && currentPriority == old(currentPriority)
    {
      hide Maps, NumberMask, HighMask, Without;
      var t := current;
      assert Attributes(t) && Queued(t) && QueueOk(t.currentPriority);
      if t.stat == Ready && |queues[t.currentPriority]| > 1 {
        Rotate(t);
        assert queues[t.currentPriority] != [];
        Schedule();
      }
    }

    /** Put a ready thread at the end of its queue. */
    method Rotate(t: Thread)
      requires Valid() && t in threads && t.stat == Ready
      modifies this`queues
      ensures Valid()
      ensures queues == old(queues)[t.currentPriority := Without(old(queues)[t.currentPriority], t) + [t]]
    {
      hide Maps, NumberMask, HighMask, Without;
      var p := t.currentPriority;
      assert QueueOk(p) && Queued(t);
      queues := queues[p := Without(queues[p], t) + [t]];
      assert Occupied(queues) == Occupied(old(queues));
      WithoutDistinct(old(queues)[p], t);
      WithoutMember(old(queues)[p], t, t);
      AppendedDistinct(Without(old(queues)[p], t), t);
      forall x: Thread ensures x in queues[p] <==> x in old(queues)[p] { WithoutMember(old(queues)[p], t, x); }
      forall q | 0 <= q < prioMax ensures QueueOk(q) {
        assert old(QueueOk(q));
        forall i | 0 <= i < |queues[q]| ensures queues[q][i] in threads && queues[q][i].currentPriority == q {
          if q == p { assert queues[q][i] in old(queues)[q]; }
        }
      }
      forall x | x in threads ensures Attributes(x) && Queued(x) { assert old(Attributes(x)) && old(Queued(x)); }
    }

    /** rt_enter_critical. */
    method EnterCritical()
      requires 0 <= lockNest < 0x7FFF
      modifies this`lockNest
      ensures lockNest == old(lockNest) + 1
    {
      lockNest := lockNest + 1;
    }

    /** rt_exit_critical: leaving the outermost critical section makes up for the switches held back. */
    method ExitCritical()
      requires Valid() && SomeReady() && 0 <= lockNest
      modifies this`lockNest, this`current, this`currentPriority
      ensures Valid() && lockNest == if old(lockNest) <= 1 then 0 else old(lockNest) - 1
      ensures if old(current) == null then current == null && currentPriority == old(currentPriority) else Scheduled()
    {
      lockNest := lockNest - 1;
      if lockNest <= 0 {
        lockNest := 0;
        if current != null { Schedule(); }
      }
    }
  }

  lemma MapBytes(m: Bitmap, ready: seq<bool>)
    requires Maps(m, ready)
    ensures m.group < 0x1_0000_0000 && |m.table| == 32 && forall n :: 0 <= n < 32 ==> m.table[n] < 0x100
  {
    Masks();
  }

  lemma WithoutSome<T>(s: seq<T>, x: T)
    requires Without(s, x) != []
    ensures s != []
  {
  }

  lemma EmptyMap(m: Bitmap, ready: seq<bool>)
    requires m.group == 0 && |m.table| == 32 && (forall n :: 0 <= n < 32 ==> m.table[n] == 0)
    requires |ready| <= (if m.twoLevel then 256 else 32) && forall p :: 0 <= p < |ready| ==> !ready[p]
    ensures Maps(m, ready)
  {
    forall q: nat ensures !Bit(0, q) { ZeroBit(q); }
  }
}
