/** The mailbox: a ring of mails with threads waiting on either side. */
module Mailboxes {
  import opened Arithmetic
  import opened Sequences
  import opened Scheduler
  import opened Ipc

  /** The index k places behind `from` in a ring of n cells. */
  function Cell(from: nat, k: nat, n: nat): nat
    requires from < n && k <= n
  {
    if from + k < n then from + k else from + k - n
  }

  lemma CellNext(from: nat, k: nat, n: nat)
    requires from < n && k < n
    ensures Cell(from, k + 1, n) == if Cell(from, k, n) + 1 >= n then 0 else Cell(from, k, n) + 1
  {
  }

  lemma CellShift(from: nat, k: nat, n: nat)
    requires from < n && k < n
    ensures Cell(if from + 1 >= n then 0 else from + 1, k, n) == Cell(from, k + 1, n)
  {
  }

  lemma CellModulo(from: nat, k: nat, n: nat)
    requires from < n && k <= n
    ensures Cell(from, k, n) == (from + k) % n
  {
    if from + k < n { DivMod(0, from + k, n, from + k); } else { DivMod(1, from + k - n, n, from + k); }
  }

  /** n mails in a ring, from one cell on. */
  function Mails(pool: seq<int>, from: nat, n: nat): (c: seq<int>)
    requires n <= |pool| && (n > 0 ==> from < |pool|)
    ensures |c| == n
  {
    seq(n, k requires 0 <= k < n => pool[Cell(from, k, |pool|)])
  }

  lemma MailsPut(pool: seq<int>, from: nat, n: nat, mail: int)
    requires n < |pool| && from < |pool|
    ensures Mails(pool[Cell(from, n, |pool|) := mail], from, n + 1) == Mails(pool, from, n) + [mail]
  {
  }

  lemma MailsGot(pool: seq<int>, from: nat, n: nat)
    requires 0 < n <= |pool| && from < |pool|
    ensures Mails(pool, from, n) == [pool[from]] + Mails(pool, if from + 1 >= |pool| then 0 else from + 1, n - 1)
  {
    var next := if from + 1 >= |pool| then 0 else from + 1;
    var a, b := Mails(pool, next, n - 1), Mails(pool, from, n);
    forall k | 0 <= k < n - 1 ensures a[k] == b[k + 1] { CellShift(from, k, |pool|); }
  }

  /** Threads that wait on one side neither wait on the other nor have been resumed. */
  ghost predicate Apart(waiting: seq<Thread>, senders: seq<Thread>, wokenReceivers: set<Thread>, wokenSenders: set<Thread>) {
    && (forall t :: t in waiting ==> t !in senders && t !in wokenReceivers && t !in wokenSenders)
    && (forall t :: t in senders ==> t !in wokenReceivers && t !in wokenSenders)
  }

  lemma ApartLess(waiting: seq<Thread>, senders: seq<Thread>, wokenReceivers: set<Thread>, wokenSenders: set<Thread>, thread: Thread)
    requires Apart(waiting, senders, wokenReceivers, wokenSenders)
    ensures Apart(waiting, senders, wokenReceivers - {thread}, wokenSenders - {thread})
  {
  }

  /** At least n threads. */
  ghost predicate Enough(n: int, s: set<Thread>) { n <= |s| }

  /** Enough threads, once x has run. */
  lemma OneLess(waits: bool, n: int, s: set<Thread>, x: Thread)
    requires waits ==> Enough(n, s)
    ensures waits ==> Enough(n - 1, s - {x})
    ensures Enough(0, s - {x})
  {
    if x !in s { assert s - {x} == s; }
  }

  class Mailbox {
    const size: nat
    const flag: Flag
    const msgPool: array<int>
    var entry: nat
    var inOffset: nat
    var outOffset: nat
    var waiting: seq<Thread> // receivers: the suspend_thread list of the parent
    var senders: seq<Thread> // suspend_sender_thread
    // history
    ghost var accepted: seq<int>
    ghost var received: seq<int>
    // threads that have been resumed and have not run again since
    ghost var wokenReceivers: set<Thread>
    ghost var wokenSenders: set<Thread>

    /** The mails in the ring, oldest first. */
    ghost function Contents(): (c: seq<int>)
      reads this`entry, this`outOffset, msgPool
      requires entry <= size == msgPool.Length && (size > 0 ==> outOffset < size)
    {
      Mails(msgPool[..], outOffset, entry)
    }

    /** The ring, and what has gone through it. */
    ghost predicate Ring()
      reads this`entry, this`inOffset, this`outOffset, this`accepted, this`received, msgPool
    {
      && entry <= size == msgPool.Length
      && (if size > 0 then outOffset < size && inOffset == Cell(outOffset, entry, size) else inOffset == outOffset == 0)
      && received + Contents() == accepted
    }

    /** No wake-up is lost: while a thread waits, the mails (the free cells) are fewer than the threads that
        are on their way to take (fill) them. */
    ghost predicate Awake()
      reads this`entry, this`waiting, this`senders, this`wokenReceivers, this`wokenSenders
    {
      && (waiting != [] ==> Enough(entry, wokenReceivers))
      && (senders != [] ==> Enough(size - entry, wokenSenders))
    }

    ghost predicate Valid(sched: Scheduler)
      reads this, msgPool, waiting`stat, senders`stat, sched`queues, sched`bits, sched`threads
      reads sched.threads`stat, sched.threads`currentPriority, sched.threads`number, sched.threads`numberMask, sched.threads`highMask
    {
      Lists(sched) && Ring() && Awake()
    }

    /** A thread is at most on one of the lists, and then it has not been resumed. */
    ghost predicate Lists(sched: Scheduler)
      reads this`waiting, this`senders, this`wokenReceivers, this`wokenSenders
      reads waiting`stat, senders`stat, sched`queues, sched`bits, sched`threads
      reads sched.threads`stat, sched.threads`currentPriority, sched.threads`number, sched.threads`numberMask, sched.threads`highMask
    {
      && sched.Valid() && Waiting(sched, waiting) && Waiting(sched, senders)
      && Apart(waiting, senders, wokenReceivers, wokenSenders)
    }

    /** A step elsewhere keeps the invariant when it leaves the waiting threads alone. */
    twostate lemma Undisturbed(sched: Scheduler)
      requires old(Valid(sched)) && sched.Valid() && old(sched.threads) <= sched.threads && unchanged(this) && unchanged(msgPool)
      requires forall t :: t in waiting || t in senders ==> t.stat == old(t.stat)
      ensures Valid(sched)
    {
      hide Scheduler.Valid, Mails;
    }

    /** rt_mb_init; the size is kept in 16 bits. */
    constructor (sched: Scheduler, mails: nat, ipcFlag: Flag)
      requires sched.Valid()
      ensures Valid(sched) && size == mails % 0x1_0000 && flag == ipcFlag && entry == 0 && accepted == [] && received == []
      ensures waiting == [] && senders == [] && wokenReceivers == {} && wokenSenders == {} && fresh(msgPool)
    {
      size, flag := mails % 0x1_0000, ipcFlag;
      msgPool := new int[mails % 0x1_0000](_ => 0);
      entry, inOffset, outOffset := 0, 0, 0;
      waiting, senders := [], [];
      accepted, received := [], [];
      wokenReceivers, wokenSenders := {}, {};
    }

    /** Fill a cell. */
    method Put(ghost sched: Scheduler, mail: int)
      requires Ring() && Lists(sched) && entry < size
      modifies this`entry, this`inOffset, this`accepted, msgPool
      ensures Ring() && Lists(sched) && entry == old(entry) + 1 && accepted == old(accepted) + [mail]
    {
      hide Lists, Mails;
      CellNext(outOffset, entry, size);
      MailsPut(msgPool[..], outOffset, entry, mail);
      assert (received + Contents()) + [mail] == received + (Contents() + [mail]);
      ghost var pool := msgPool[..];
      msgPool[inOffset] := mail;
      assert msgPool[..] == pool[inOffset := mail];
      inOffset := inOffset + 1;
      if inOffset >= size { inOffset := 0; }
      entry := entry + 1;
      accepted := accepted + [mail];
    }

    /** Empty a cell. */
    method Get(ghost sched: Scheduler) returns (mail: int)
      requires Ring() && Lists(sched) && entry > 0
      modifies this`entry, this`outOffset, this`received
      ensures Ring() && Lists(sched) && entry == old(entry) - 1 && received == old(received) + [mail]
    {
      hide Lists, Mails;
      CellShift(outOffset, entry - 1, size);
      MailsGot(msgPool[..], outOffset, entry);
      mail := msgPool[outOffset];
      outOffset := outOffset + 1;
      if outOffset >= size { outOffset := 0; }
      entry := entry - 1;
      assert received + ([mail] + Contents()) == (received + [mail]) + Contents();
      received := received + [mail];
    }

    /** Resume the first of the receivers. */
    method WakeReceiver(sched: Scheduler)
      requires Ring() && Lists(sched)
      modifies this`waiting, this`wokenReceivers, sched`queues, sched`bits, waiting`stat
      ensures Ring() && Lists(sched) && sched.queues == Woken(old(sched.queues), old(waiting))
      ensures old(waiting) == [] ==> waiting == [] && wokenReceivers == old(wokenReceivers)
      ensures old(waiting) != [] ==> waiting == old(waiting)[1..] && wokenReceivers == old(wokenReceivers) + {old(waiting)[0]}
      ensures old(waiting) != [] ==> old(waiting)[0] !in old(wokenReceivers)
    {
      hide Scheduler.Valid, Ring;
      if waiting != [] {
        wokenReceivers := wokenReceivers + {waiting[0]};
        waiting := ListResume(sched, waiting, waiting[0]);
      }
    }

    /** Resume the first of the senders. */
    method WakeSender(sched: Scheduler)
      requires Ring() && Lists(sched)
      modifies this`senders, this`wokenSenders, sched`queues, sched`bits, senders`stat
      ensures Ring() && Lists(sched) && sched.queues == Woken(old(sched.queues), old(senders))
      ensures old(senders) == [] ==> senders == [] && wokenSenders == old(wokenSenders)
      ensures old(senders) != [] ==> senders == old(senders)[1..] && wokenSenders == old(wokenSenders) + {old(senders)[0]}
      ensures old(senders) != [] ==> old(senders)[0] !in old(wokenSenders)
    {
      hide Scheduler.Valid, Ring;
      if senders != [] {
        wokenSenders := wokenSenders + {senders[0]};
        senders := ListResume(sched, senders, senders[0]);
      }
    }

    /** The end of a successful rt_mb_send_wait. */
    method Deliver(sched: Scheduler, mail: int)
      requires Ring() && Lists(sched) && entry < size
      requires waiting != [] ==> Enough(entry, wokenReceivers)
      requires senders != [] ==> Enough(size - entry - 1, wokenSenders)
      modifies this`entry, this`inOffset, this`accepted, this`waiting, this`wokenReceivers, msgPool, sched`queues, sched`bits, waiting`stat
      ensures Ring() && Lists(sched) && Awake() && accepted == old(accepted) + [mail]
      ensures sched.queues == Woken(old(sched.queues), old(waiting))
      ensures if old(waiting) != []
              then waiting == old(waiting)[1..] && wokenReceivers == old(wokenReceivers) + {old(waiting)[0]}
              else waiting == old(waiting) && wokenReceivers == old(wokenReceivers)
    {
      hide Scheduler.Valid, Ring, Contents, Lists;
      Put(sched, mail);
      WakeReceiver(sched);
    }

    /** The end of a successful rt_mb_recv. */
    method Collect(sched: Scheduler) returns (mail: int)
      requires Ring() && Lists(sched) && 0 < entry <= size
      requires waiting != [] ==> Enough(entry - 1, wokenReceivers)
      requires senders != [] ==> Enough(size - entry, wokenSenders)
      modifies this`entry, this`outOffset, this`received, this`senders, this`wokenSenders, sched`queues, sched`bits, senders`stat
      ensures Ring() && Lists(sched) && Awake() && received == old(received) + [mail]
      ensures sched.queues == Woken(old(sched.queues), old(senders))
      ensures if old(senders) != []
              then senders == old(senders)[1..] && wokenSenders == old(wokenSenders) + {old(senders)[0]}
              else senders == old(senders) && wokenSenders == old(wokenSenders)
    {
      hide Scheduler.Valid, Ring, Contents, Lists;
      mail := Get(sched);
      WakeSender(sched);
    }

    /** A thread that had been resumed runs again. */
    ghost method Runs(sched: Scheduler, thread: Thread)
      requires Ring() && Lists(sched) && Running(sched, thread)
      modifies this`wokenReceivers, this`wokenSenders
      ensures Ring() && Lists(sched)
      ensures wokenSenders == old(wokenSenders) - {thread}
      ensures wokenReceivers == old(wokenReceivers) - {thread}
      ensures thread !in old(wokenSenders) ==> wokenSenders == old(wokenSenders)
      ensures thread !in old(wokenReceivers) ==> wokenReceivers == old(wokenReceivers)
    {
      hide Scheduler.Valid, Ring, Apart, Waiting, Running;
      ApartLess(waiting, senders, wokenReceivers, wokenSenders, thread);
      wokenSenders, wokenReceivers := wokenSenders - {thread}, wokenReceivers - {thread};
    }

    method SenderWaits(sched: Scheduler, thread: Thread)
      requires Ring() && Lists(sched) && Running(sched, thread) && thread !in wokenReceivers && thread !in wokenSenders
      modifies this`senders, sched`queues, sched`bits, thread`stat, thread`error
      ensures Ring() && Lists(sched) && WaitsOn(sched, thread, old(senders), senders, flag) && thread.error == EOK
    {
      hide Scheduler.Valid, Ring;
      thread.error := EOK;
      senders := ListSuspend(sched, senders, thread, flag);
    }

    method ReceiverWaits(sched: Scheduler, thread: Thread)
      requires Ring() && Lists(sched) && Running(sched, thread) && thread !in wokenReceivers && thread !in wokenSenders
      modifies this`waiting, sched`queues, sched`bits, thread`stat, thread`error
      ensures Ring() && Lists(sched) && WaitsOn(sched, thread, old(waiting), waiting, flag) && thread.error == EOK
    {
      hide Scheduler.Valid, Ring;
      thread.error := EOK;
      waiting := ListSuspend(sched, waiting, thread, flag);
    }

    /** A running thread waits on neither side. */
    lemma NotListed(sched: Scheduler, thread: Thread)
      requires Lists(sched) && Running(sched, thread)
      ensures thread !in waiting && thread !in senders && thread.stat == Ready
    {
    }

    /** One turn of rt_mb_send_wait, from the call or (again) from the return of a thread that had waited, up to
        the next switch: the mail is put in, or the thread fails or waits. */
    method Send(sched: Scheduler, thread: Thread, mail: int, timeout: int, again: bool) returns (r: Outcome)
      requires Valid(sched) && Running(sched, thread) && thread !in wokenReceivers
      modifies this`entry, this`inOffset, this`waiting, this`senders, this`accepted, this`wokenReceivers, this`wokenSenders, msgPool
      modifies sched`queues, sched`bits, thread`stat, thread`error, waiting`stat
      ensures Valid(sched) && received == old(received)
      ensures r == if old(entry) < size then Done else if timeout == 0 then Failed(EFULL) else Blocked
      ensures accepted == if r == Done then old(accepted) + [mail] else old(accepted)
      ensures wokenSenders == old(wokenSenders) - {thread}
      ensures if r == Blocked then WaitsOn(sched, thread, old(senders), senders, flag)
              else thread.stat == Ready && senders == old(senders)
                   && sched.queues == if r == Done then Woken(old(sched.queues), old(waiting)) else old(sched.queues)
      ensures thread.error == if r == Blocked || (r != Done && again) then EOK else old(thread.error)
      ensures if r == Done && old(waiting) != []
              then waiting == old(waiting)[1..] && wokenReceivers == old(wokenReceivers) + {old(waiting)[0]}
              else waiting == old(waiting) && wokenReceivers == old(wokenReceivers)
    {
      hide Scheduler.Valid, Ring, Contents, Joined, Lists, Waiting, Running, Enough, Pushed, Pulled;
      NotListed(sched, thread);
      EntryBound();
      OneLess(senders != [], size - entry, wokenSenders, thread);
      Runs(sched, thread);
      if entry == size && timeout == 0 {
        if again { thread.error := EOK; }
        return Failed(EFULL);
      }
      if entry == size {
        SenderWaits(sched, thread);
        return Blocked;
      }
      Deliver(sched, mail);
      r := Done;
    }

    /** rt_mb_send from an interrupt, which is not a step of the thread it interrupts. */
    method SendFromInterrupt(sched: Scheduler, mail: int) returns (r: Outcome)
      requires Valid(sched)
      modifies this`entry, this`inOffset, this`waiting, this`accepted, this`wokenReceivers, msgPool, sched`queues, sched`bits, waiting`stat
      ensures Valid(sched) && received == old(received)
      ensures r == if old(entry) < size then Done else Failed(EFULL)
      ensures sched.queues == if r == Done then Woken(old(sched.queues), old(waiting)) else old(sched.queues)
      ensures accepted == if r == Done then old(accepted) + [mail] else old(accepted)
      ensures if r == Done && old(waiting) != []
              then waiting == old(waiting)[1..] && wokenReceivers == old(wokenReceivers) + {old(waiting)[0]}
              else waiting == old(waiting) && wokenReceivers == old(wokenReceivers)
    {
      hide Scheduler.Valid, Ring, Contents, Lists;
      EntryBound();
      if entry == size { return Failed(EFULL); }
      Deliver(sched, mail);
      r := Done;
    }

    /** rt_mb_recv from an interrupt, without waiting. */
    method RecvFromInterrupt(sched: Scheduler) returns (r: Outcome, mail: int)
      requires Valid(sched)
      modifies this`entry, this`outOffset, this`senders, this`received, this`wokenSenders, sched`queues, sched`bits, senders`stat
      ensures Valid(sched) && accepted == old(accepted)
      ensures r == if old(entry) > 0 then Done else Failed(ETIMEOUT)
      ensures sched.queues == if r == Done then Woken(old(sched.queues), old(senders)) else old(sched.queues)
      ensures received == if r == Done then old(received) + [mail] else old(received)
      ensures if r == Done && old(senders) != []
              then senders == old(senders)[1..] && wokenSenders == old(wokenSenders) + {old(senders)[0]}
              else senders == old(senders) && wokenSenders == old(wokenSenders)
    {
      hide Scheduler.Valid, Ring, Contents, Lists;
      EntryBound();
      if entry == 0 { return Failed(ETIMEOUT), 0; }
      mail := Collect(sched);
      r := Done;
    }

    /** One turn of rt_mb_recv up to the next switch. */
    method Recv(sched: Scheduler, thread: Thread, timeout: int, again: bool) returns (r: Outcome, mail: int)
      requires Valid(sched) && Running(sched, thread) && thread !in wokenSenders
      modifies this`entry, this`outOffset, this`waiting, this`senders, this`received, this`wokenReceivers, this`wokenSenders
      modifies sched`queues, sched`bits, thread`stat, thread`error, senders`stat
      ensures Valid(sched) && accepted == old(accepted)
      ensures r == if old(entry) > 0 then Done else if timeout == 0 then Failed(ETIMEOUT) else Blocked
      ensures received == if r == Done then old(received) + [mail] else old(received)
      ensures wokenReceivers == old(wokenReceivers) - {thread}
      ensures if r == Blocked then WaitsOn(sched, thread, old(waiting), waiting, flag)
              else thread.stat == Ready && waiting == old(waiting)
                   && sched.queues == if r == Done then Woken(old(sched.queues), old(senders)) else old(sched.queues)
      ensures thread.error == if r == Blocked then EOK else if r != Done && again then ETIMEOUT else old(thread.error)
      ensures if r == Done && old(senders) != []
              then senders == old(senders)[1..] && wokenSenders == old(wokenSenders) + {old(senders)[0]}
              else senders == old(senders) && wokenSenders == old(wokenSenders)
    {
      hide Scheduler.Valid, Ring, Contents, Joined, Lists, Waiting, Running, Enough, Pushed, Pulled;
      NotListed(sched, thread);
      EntryBound();
      OneLess(waiting != [], entry, wokenReceivers, thread);
      Runs(sched, thread);
      mail := 0;
      if entry == 0 && timeout == 0 {
        if again { thread.error := ETIMEOUT; }
        return Failed(ETIMEOUT), 0;
      }
      if entry == 0 {
        ReceiverWaits(sched, thread);
        return Blocked, 0;
      }
      mail := Collect(sched);
      r := Done;
    }

    lemma EntryBound()
      requires Ring()
      ensures entry <= size
    {
    }

    /** The timeout of a waiting receiver. */
    method ExpireReceiver(sched: Scheduler, thread: Thread)
      requires Valid(sched) && thread in waiting
      modifies this`waiting, sched`queues, sched`bits, sched`current, sched`currentPriority, thread`stat, thread`error
      ensures Valid(sched) && accepted == old(accepted) && received == old(received) && TimedOut(sched, thread)
      ensures waiting == Without(old(waiting), thread) && senders == old(senders)
    {
      hide Scheduler.Valid, Ring, Contents, Enough, Pushed, Scheduler.Scheduled;
      waiting := ListExpire(sched, waiting, thread);
    }

    /** The timeout of a waiting sender. */
    method ExpireSender(sched: Scheduler, thread: Thread)
      requires Valid(sched) && thread in senders
      modifies this`senders, sched`queues, sched`bits, sched`current, sched`currentPriority, thread`stat, thread`error
      ensures Valid(sched) && accepted == old(accepted) && received == old(received) && TimedOut(sched, thread)
      ensures senders == Without(old(senders), thread) && waiting == old(waiting)
    {
      hide Scheduler.Valid, Ring, Contents, Enough, Pushed, Scheduler.Scheduled;
      senders := ListExpire(sched, senders, thread);
    }
  }

  /** What has been received is a prefix of what has been accepted, and the rest is in the ring. */
  lemma FirstInFirstOut(m: Mailbox)
    requires m.Ring()
    ensures m.received <= m.accepted && m.accepted[|m.received|..] == m.Contents() && |m.accepted| == |m.received| + m.entry
    ensures m.size > 0 ==> m.inOffset == (m.outOffset + m.entry) % m.size
  {
    if m.size > 0 { CellModulo(m.outOffset, m.entry, m.size); }
  }
}
