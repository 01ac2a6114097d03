/** The event object: threads wait for all or any of a set of bits. */
module Events {
  import opened Sequences
  import opened Scheduler
  import opened Ipc

  const AND: bv8 := 1 // RT_EVENT_FLAG_AND
  const OR: bv8 := 2
  const CLEAR: bv8 := 4

  /** The bits and the options a thread waits with. */
  datatype Request = Request(want: bv32, info: bv8)

  predicate Asks(q: Request, flag: bv8) { q.info & flag != 0 }

  /** All of the wanted bits are set. */
  predicate AllOf(want: bv32, s: bv32) { want & s == want }

  /** One of the wanted bits is set. */
  predicate AnyOf(want: bv32, s: bv32) { want & s != 0 }

  function Common(a: bv32, b: bv32): bv32 { a & b }

  function Union(a: bv32, b: bv32): bv32 { a | b }

  function Minus(s: bv32, x: bv32): bv32 { s & !x }

  /** The condition of a request. */
  predicate Satisfied(q: Request, s: bv32) {
    if Asks(q, AND) then AllOf(q.want, s)
    else Asks(q, OR) && AnyOf(q.want, s)
  }

  /** Waiting for the bits 2 and 4: for both with option 1, which wins over option 2, and for one of them with option 2; option 4
      clears what has been received. */
  lemma OptionsInNumbers(s: bv32)
    ensures Satisfied(Request(6, 1), s) <==> s & 2 != 0 && s & 4 != 0
    ensures Satisfied(Request(6, 3), s) <==> Satisfied(Request(6, 1), s)
    ensures Satisfied(Request(6, 2), s) <==> s & 2 != 0 || s & 4 != 0
    ensures Served(Request(6, 5), 15) == 9 && Served(Request(6, 6), 3) == 1 && Served(Request(6, 1), 15) == 15
    ensures Received(Request(6, 1), 15) == 6 && Received(Request(6, 2), 3) == 2
  {
  }

  /** What rt_event_send hands to a thread. */
  function Received(q: Request, s: bv32): bv32 {
    if Asks(q, AND) then q.want else Common(q.want, s)
  }

  /** The event set after a request has been served. */
  function Served(q: Request, s: bv32): bv32 {
    if Satisfied(q, s) && Asks(q, CLEAR) then Minus(s, Received(q, s)) else s
  }

  /** The event set after one pass over a list of requests. */
  function SetAfter(qs: seq<Request>, s: bv32): bv32 {
    if qs == [] then s else Served(qs[|qs| - 1], SetAfter(qs[..|qs| - 1], s))
  }

  /** Request i is satisfied when its turn in the pass comes. */
  predicate Grantable(qs: seq<Request>, s: bv32, i: nat)
    requires i < |qs|
  {
    Satisfied(qs[i], SetAfter(qs[..i], s))
  }

  predicate Subset(a: bv32, b: bv32) { a & !b == 0 }

  lemma SubsetTrans(a: bv32, b: bv32, c: bv32)
    requires Subset(a, b) && Subset(b, c)
    ensures Subset(a, c)
  {
  }

  /** Fewer bits satisfy no more requests. */
  lemma SatisfiedMonotonic(q: Request, a: bv32, b: bv32)
    requires Subset(a, b) && Satisfied(q, a)
    ensures Satisfied(q, b)
  {
    hide Subset, AllOf, AnyOf, Asks;
    AllBits(q.want, a, b);
    AnyBit(q.want, a, b);
  }

  lemma AllBits(w: bv32, a: bv32, b: bv32)
    requires Subset(a, b)
    ensures AllOf(w, a) ==> AllOf(w, b)
  {
  }

  lemma AnyBit(w: bv32, a: bv32, b: bv32)
    requires Subset(a, b)
    ensures AnyOf(w, a) ==> AnyOf(w, b)
  {
  }

  /** Serving only takes bits away. */
  lemma ServedSubset(q: Request, s: bv32)
    ensures Subset(Served(q, s), s)
  {
    hide Subset, Minus, Satisfied, Asks, Received;
    Clearing(s, Received(q, s));
  }

  lemma Clearing(s: bv32, x: bv32)
    ensures Subset(Minus(s, x), s) && Subset(s, s)
  {
  }

  lemma {:induction false} AfterSubset(qs: seq<Request>, s: bv32, i: nat)
    requires i <= |qs|
    ensures Subset(SetAfter(qs, s), SetAfter(qs[..i], s))
    decreases |qs|
  {
    hide Served, Subset;
    if i == |qs| {
      assert qs[..i] == qs;
      Clearing(SetAfter(qs, s), 0);
    } else {
      var r := qs[..|qs| - 1];
      assert r[..i] == qs[..i];
      AfterSubset(r, s, i);
      ServedSubset(qs[|qs| - 1], SetAfter(r, s));
      SubsetTrans(SetAfter(qs, s), SetAfter(r, s), SetAfter(qs[..i], s));
    }
  }

  /** After one pass no request that was passed over is satisfied. */
  lemma OnePass(qs: seq<Request>, s: bv32, i: nat)
    requires i < |qs| && !Grantable(qs, s, i)
    ensures !Satisfied(qs[i], SetAfter(qs, s))
  {
    hide Subset, Satisfied;
    AfterSubset(qs, s, i);
    if Satisfied(qs[i], SetAfter(qs, s)) { SatisfiedMonotonic(qs[i], SetAfter(qs, s), SetAfter(qs[..i], s)); }
  }

  /** The requests of the threads of a list. */
  ghost function Requests(list: seq<Thread>): (qs: seq<Request>)
    reads list`eventSet, list`eventInfo
    ensures |qs| == |list| && forall i :: 0 <= i < |list| ==> qs[i] == RequestOf(list[i])
  {
    if list == [] then [] else Requests(list[..|list| - 1]) + [RequestOf(list[|list| - 1])]
  }

  function RequestOf(t: Thread): Request
    reads t`eventSet, t`eventInfo
  {
    Request(t.eventSet, t.eventInfo)
  }

  /** The threads a pass leaves on the list. */
  ghost function Left(list: seq<Thread>, qs: seq<Request>, s: bv32): (r: seq<Thread>)
    requires |list| == |qs|
  {
    if list == [] then []
    else
      var n := |list| - 1;
      Left(list[..n], qs[..n], s) + if Grantable(qs, s, n) then [] else [list[n]]
  }

  class Event {
    const flag: Flag
    var events: bv32
    var waiting: seq<Thread>

    /** No waiting thread's condition holds. */
    ghost predicate Valid(sched: Scheduler)
      reads this, waiting`stat, waiting`eventSet, waiting`eventInfo, sched`queues, sched`bits, sched`threads
      reads sched.threads`stat, sched.threads`currentPriority, sched.threads`number, sched.threads`numberMask, sched.threads`highMask
    {
      sched.Valid() && Waiting(sched, waiting) && NoneSatisfied(waiting, events)
    }

    /** A step elsewhere keeps the invariant when it leaves the waiting threads and their requests alone. */
    twostate lemma Undisturbed(sched: Scheduler)
      requires old(Valid(sched)) && sched.Valid() && old(sched.threads) <= sched.threads && unchanged(this)
      requires forall t :: t in waiting ==> t.stat == old(t.stat) && t.eventSet == old(t.eventSet) && t.eventInfo == old(t.eventInfo)
      ensures Valid(sched)
    {
      hide Scheduler.Valid;
    }

    /** rt_event_init. */
    constructor (sched: Scheduler, ipcFlag: Flag)
      requires sched.Valid()
      ensures Valid(sched) && events == 0 && waiting == [] && flag == ipcFlag
    {
      events, waiting, flag := 0, [], ipcFlag;
    }

    /** rt_event_recv up to the switch. */
    method Recv(sched: Scheduler, thread: Thread, want: bv32, option: bv8, timeout: int) returns (r: Outcome, recved: bv32)
      requires Valid(sched) && Running(sched, thread) && (want != 0 ==> Asks(Request(want, option), AND) || Asks(Request(want, option), OR))
      modifies this`events, this`waiting, sched`queues, sched`bits, thread`stat, thread`error, thread`eventSet, thread`eventInfo
      ensures Valid(sched)
      ensures r == if want == 0 then Failed(ERROR) else if Satisfied(Request(want, option), old(events)) then Done
                   else if timeout == 0 then Failed(ETIMEOUT) else Blocked
      ensures r == Done ==> recved == Common(old(events), want) && events == if Asks(Request(want, option), CLEAR) then Minus(old(events), want) else old(events)
      ensures r != Done ==> events == old(events)
      ensures if r == Blocked then WaitsOn(sched, thread, old(waiting), waiting, flag) && RequestOf(thread) == Request(want, option)
              else GoesOn(sched, thread, old(waiting), waiting) && RequestOf(thread) == old(RequestOf(thread))
      ensures thread.error == if want == 0 then old(thread.error) else if r == Failed(ETIMEOUT) then ETIMEOUT else EOK
    {
      hide Scheduler.Valid, Satisfied, Asks, Common, Minus;
      recved := 0;
      if want == 0 { return Failed(ERROR), 0; }
      thread.error := EOK;
      if Satisfied(Request(want, option), events) {
        recved := Common(events, want);
        if Asks(Request(want, option), CLEAR) {
          NoneAfterClear(waiting, events, want);
          events := Minus(events, want);
        }
        return Done, recved;
      }
      if timeout == 0 {
        thread.error := ETIMEOUT;
        return Failed(ETIMEOUT), 0;
      }
      Wait(sched, thread, want, option);
      r := Blocked;
    }

    /** Fill in what a thread waits for, and let it wait. */
    method Wait(sched: Scheduler, thread: Thread, want: bv32, option: bv8)
      requires Valid(sched) && Running(sched, thread) && !Satisfied(Request(want, option), events)
      modifies this`waiting, sched`queues, sched`bits, thread`stat, thread`eventSet, thread`eventInfo
      ensures Valid(sched) && RequestOf(thread) == Request(want, option)
      ensures WaitsOn(sched, thread, old(waiting), waiting, flag)
    {
      hide Scheduler.Valid, Satisfied, Place, Inserted, Pulled;
      assert thread !in waiting;
      thread.eventSet := want;
      thread.eventInfo := option;
      waiting := ListSuspend(sched, waiting, thread, flag);
    }

    /** A waiting thread's timeout. */
    method Expire(sched: Scheduler, thread: Thread)
      requires Valid(sched) && thread in waiting
      modifies this`waiting, sched`queues, sched`bits, sched`current, sched`currentPriority, thread`stat, thread`error
      ensures Valid(sched) && waiting == Without(old(waiting), thread) && events == old(events) && TimedOut(sched, thread)
    {
      hide Scheduler.Valid, Satisfied;
      waiting := ListExpire(sched, waiting, thread);
    }

    /** The pass of rt_event_send with the first k threads of the list examined. */
    ghost predicate Sending(sched: Scheduler, list: seq<Thread>, qs: seq<Request>, s: bv32, q: seq<seq<Thread>>, k: nat)
      reads this, waiting`stat, list`stat, list`eventSet, list`eventInfo, list`currentPriority, sched`queues, sched`bits, sched`threads
      reads sched.threads`stat, sched.threads`currentPriority, sched.threads`number, sched.threads`numberMask, sched.threads`highMask
    {
      && sched.Valid() && |qs| == |list| && k <= |list| && Distinct(list)
      && events == SetAfter(qs[..k], s)
      && sched.queues == QueuesAfter(q, list[..k], qs[..k], s)
      && waiting == Left(list[..k], qs[..k], s) + list[k..] && Waiting(sched, waiting)
      && (forall j :: 0 <= j < |list| && (j >= k || !Grantable(qs, s, j)) ==> RequestOf(list[j]) == qs[j])
      && (forall j :: 0 <= j < k && Grantable(qs, s, j) ==> Got(list[j], qs, s, j))
    }

    /** A thread whose condition holds gets the bits and leaves the list. */
    method Serve(sched: Scheduler, thread: Thread)
      requires sched.Valid() && Waiting(sched, waiting) && thread in waiting && Satisfied(RequestOf(thread), events)
      modifies this`events, this`waiting, sched`queues, sched`bits, thread`stat, thread`eventSet
      ensures sched.Valid() && Waiting(sched, waiting) && waiting == Without(old(waiting), thread)
      ensures events == Served(old(RequestOf(thread)), old(events))
      ensures thread.stat == Ready && thread.eventSet == Received(old(RequestOf(thread)), old(events))
      ensures sched.queues == Pushed(old(sched.queues), thread.currentPriority, thread)
    {
      hide Scheduler.Valid, Satisfied, Asks, Common, Minus, Without;
      WithoutAll(waiting, thread);
      SameInfo(RequestOf(thread), Common(thread.eventSet, events));
      if !Asks(RequestOf(thread), AND) { thread.eventSet := Common(thread.eventSet, events); }
      if Asks(RequestOf(thread), CLEAR) { events := Minus(events, thread.eventSet); }
      waiting := Without(waiting, thread);
      var ok := sched.Resume(thread);
    }

    /** One turn of the loop in rt_event_send. */
    method SendTurn(sched: Scheduler, thread: Thread, ghost list: seq<Thread>, ghost qs: seq<Request>, ghost s: bv32,
                    ghost q: seq<seq<Thread>>, ghost k: nat) returns (served: bool)
      requires Sending(sched, list, qs, s, q, k) && k < |list| && thread == list[k]
      modifies this`events, this`waiting, sched`queues, sched`bits, thread`stat, thread`eventSet
      ensures Sending(sched, list, qs, s, q, k + 1) && served == Grantable(qs, s, k)
    {
      hide Scheduler.Valid, Satisfied, Served, Received, Without, Left, QueuesAfter, Pushed, SetAfter;
      PassOn(list, qs, s, k);
      QueuesOn(list, qs, s, q, k);
      served := Satisfied(RequestOf(thread), events);
      NotServed(qs[k], events);
      if served { Serve(sched, thread); }
    }

    /** rt_event_send up to the switch: one pass over the waiting threads leaves none whose condition holds. */
    method Send(sched: Scheduler, bits: bv32) returns (r: Outcome)
      requires Valid(sched)
      modifies this`events, this`waiting, sched`queues, sched`bits, waiting`stat, waiting`eventSet
      ensures Valid(sched) && r == if bits == 0 then Failed(ERROR) else Done
      ensures r != Done ==> waiting == old(waiting) && events == old(events) && sched.queues == old(sched.queues)
      ensures r != Done ==> forall t :: t in waiting ==> RequestOf(t) == old(RequestOf(t))
      ensures r == Done ==> var qs := old(Requests(waiting)); var s := Union(old(events), bits);
                            && events == SetAfter(qs, s) && waiting == Left(old(waiting), qs, s)
                            && sched.queues == QueuesAfter(old(sched.queues), old(waiting), qs, s)
                            && (forall j :: 0 <= j < |qs| && Grantable(qs, s, j) ==> Got(old(waiting)[j], qs, s, j))
                            && forall j :: 0 <= j < |qs| && !Grantable(qs, s, j) ==> RequestOf(old(waiting)[j]) == qs[j]
    {
      hide Scheduler.Valid, Satisfied, Left, QueuesAfter, SetAfter, Sending, Union, Got, Grantable, Waiting, NoneSatisfied, Requests;
      if bits == 0 { return Failed(ERROR); }
      events := Union(events, bits);
      ghost var list, qs, s, q := waiting, Requests(waiting), events, sched.queues;
      ghost var k := 0;
      var i := 0;
      StartSending(sched, list, qs, s, q);
      while i < |waiting|
        invariant Sending(sched, list, qs, s, q, k) && k <= |list| == |qs| && i == |Left(list[..k], qs[..k], s)|
        decreases |list| - k
      {
        NextInLine(sched, list, qs, s, q, k, i);
        var served := SendTurn(sched, waiting[i], list, qs, s, q, k);
        if !served { i := i + 1; }
        k := k + 1;
      }
      DoneSending(sched, list, qs, s, q, k);
      r := Done;
    }

    /** The thread to be examined next. */
    lemma NextInLine(sched: Scheduler, list: seq<Thread>, qs: seq<Request>, s: bv32, q: seq<seq<Thread>>, k: nat, i: nat)
      requires Sending(sched, list, qs, s, q, k) && i == |Left(list[..k], qs[..k], s)| && i < |waiting|
      ensures k < |list| == |qs| && waiting[i] == list[k]
      ensures |Left(list[..k + 1], qs[..k + 1], s)| == i + if Grantable(qs, s, k) then 0 else 1
    {
      hide Scheduler.Valid, Satisfied, Left, SetAfter;
      PassOn(list, qs, s, k);
    }

    lemma StartSending(sched: Scheduler, list: seq<Thread>, qs: seq<Request>, s: bv32, q: seq<seq<Thread>>)
      requires sched.Valid() && Waiting(sched, waiting) && list == waiting && qs == Requests(list) && events == s && sched.queues == q
      ensures Sending(sched, list, qs, s, q, 0) && |Left(list[..0], qs[..0], s)| == 0
    {
      assert list[..0] == [] && list[0..] == list;
    }

    lemma DoneSending(sched: Scheduler, list: seq<Thread>, qs: seq<Request>, s: bv32, q: seq<seq<Thread>>, k: nat)
      requires Sending(sched, list, qs, s, q, k) && |waiting| <= |Left(list[..k], qs[..k], s)|
      ensures Valid(sched) && events == SetAfter(qs, s) && waiting == Left(list, qs, s)
      ensures |list| == |qs| && sched.queues == QueuesAfter(q, list, qs, s)
      ensures forall j :: 0 <= j < |qs| && Grantable(qs, s, j) ==> Got(list[j], qs, s, j)
      ensures forall j :: 0 <= j < |qs| && !Grantable(qs, s, j) ==> RequestOf(list[j]) == qs[j]
    {
      hide Scheduler.Valid, Satisfied;
      assert k == |list| && list[..k] == list && qs[..k] == qs && list[k..] == [];
      forall t | t in waiting ensures !Satisfied(RequestOf(t), events) {
        LeftMember(list, qs, s, t);
        var j :| 0 <= j < |list| && list[j] == t && !Grantable(qs, s, j);
        OnePass(qs, s, j);
      }
    }
  }

  /** Thread j has been served: it is ready, and has the bits it received. */
  ghost predicate Got(t: Thread, qs: seq<Request>, s: bv32, j: nat)
    reads t`stat, t`eventSet
    requires j < |qs|
  {
    t.stat == Ready && t.eventSet == Received(qs[j], SetAfter(qs[..j], s))
  }

  lemma SameInfo(q: Request, want: bv32)
    ensures Asks(q.(want := want), CLEAR) == Asks(q, CLEAR)
  {
  }

  lemma NotServed(q: Request, s: bv32)
    ensures !Satisfied(q, s) ==> Served(q, s) == s
  {
  }

  /** One step of a pass. */
  lemma PassOn(list: seq<Thread>, qs: seq<Request>, s: bv32, k: nat)
    requires |list| == |qs| && k < |list| && Distinct(list)
    ensures SetAfter(qs[..k + 1], s) == Served(qs[k], SetAfter(qs[..k], s))
    ensures Left(list[..k + 1], qs[..k + 1], s) == Left(list[..k], qs[..k], s) + if Grantable(qs, s, k) then [] else [list[k]]
    ensures var a := Left(list[..k], qs[..k], s);
            Without(a + list[k..], list[k]) == a + list[k + 1..]
  {
    var l, q := list[..k + 1], qs[..k + 1];
    assert q[..k] == qs[..k] && l[..k] == list[..k] && q[k] == qs[k];
    var a := Left(list[..k], qs[..k], s);
    forall t | t in a ensures t != list[k] { LeftMember(list[..k], qs[..k], s, t); }
    assert list[k] !in list[k + 1..];
    assert a + list[k..] == a + ([list[k]] + list[k + 1..]);
    WithoutMiddle(a, list[k], list[k + 1..]);
  }

  /** The ready queues after a pass, which resumes the threads it serves in order. */
  ghost function QueuesAfter(queues: seq<seq<Thread>>, list: seq<Thread>, qs: seq<Request>, s: bv32): seq<seq<Thread>>
    requires |list| == |qs|
    reads list`currentPriority
  {
    var n := |list| - 1;
    if list == [] then queues
    else
      var q := QueuesAfter(queues, list[..n], qs[..n], s);
      if Grantable(qs, s, n) then Pushed(q, list[n].currentPriority, list[n]) else q
  }

  lemma QueuesOn(list: seq<Thread>, qs: seq<Request>, s: bv32, queues: seq<seq<Thread>>, k: nat)
    requires |list| == |qs| && k < |list|
    ensures QueuesAfter(queues, list[..k + 1], qs[..k + 1], s) ==
            var q := QueuesAfter(queues, list[..k], qs[..k], s);
            if Grantable(qs, s, k) then Pushed(q, list[k].currentPriority, list[k]) else q
  {
    var l, r := list[..k + 1], qs[..k + 1];
    assert r[..k] == qs[..k] && l[..k] == list[..k] && r[k] == qs[k];
  }

  lemma {:induction false} LeftMember(list: seq<Thread>, qs: seq<Request>, s: bv32, t: Thread)
    requires |list| == |qs| && t in Left(list, qs, s)
    ensures exists j :: 0 <= j < |list| && list[j] == t && !Grantable(qs, s, j)
  {
    var n := |list| - 1;
    if !(t == list[n] && !Grantable(qs, s, n)) {
      LeftMember(list[..n], qs[..n], s, t);
      var j :| 0 <= j < n && list[..n][j] == t && !Grantable(qs[..n], s, j);
      assert qs[..n][..j] == qs[..j];
      assert list[j] == t && !Grantable(qs, s, j);
    }
  }

  lemma {:induction false} WithoutMiddle<T>(a: seq<T>, x: T, b: seq<T>)
    requires x !in a && x !in b
    ensures Without(a + ([x] + b), x) == a + b
  {
    if a == [] {
      assert a + ([x] + b) == [x] + b && ([x] + b)[1..] == b;
      WithoutAbsent(b, x);
    } else {
      assert (a + ([x] + b))[1..] == a[1..] + ([x] + b);
      WithoutMiddle(a[1..], x, b);
      assert a + b == [a[0]] + (a[1..] + b);
    }
  }

  ghost predicate NoneSatisfied(list: seq<Thread>, s: bv32)
    reads list`eventSet, list`eventInfo
  {
    forall t :: t in list ==> !Satisfied(RequestOf(t), s)
  }

  lemma NoneAfterClear(list: seq<Thread>, s: bv32, x: bv32)
    requires NoneSatisfied(list, s)
    ensures NoneSatisfied(list, Minus(s, x))
  {
    hide Satisfied, Minus, Subset;
    Clearing(s, x);
    forall t | t in list ensures !Satisfied(RequestOf(t), Minus(s, x)) {
      if Satisfied(RequestOf(t), Minus(s, x)) { SatisfiedMonotonic(RequestOf(t), Minus(s, x), s); }
    }
  }
}
