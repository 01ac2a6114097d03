/** Kernel timers: the skip list ordered by deadline modulo 2^32. */
module Timers {
  import opened Sequences
  import opened SkipRows

  type tick = x: int | 0 <= x < 0x1_0000_0000

  const TICK_MAX: tick := 0xFFFF_FFFF
  const HALF: tick := 0x7FFF_FFFF // RT_TICK_MAX / 2

  /** The difference of two tick counts, wrapping around. */
  function Sub(a: tick, b: tick): tick { (a - b) % 0x1_0000_0000 }

  function Add(a: tick, b: tick): tick { (a + b) % 0x1_0000_0000 }

  /** Ticks in numbers. */
  lemma TicksInNumbers(a: tick, b: tick)
    ensures Add(a, b) == if a + b <= 0xFFFF_FFFF then a + b else a + b - 0x1_0000_0000
    ensures Sub(a, b) == if a >= b then a - b else a - b + 0x1_0000_0000
    ensures HALF == 2147483647 && TICK_MAX == 4294967295
  {
  }

  /** The two comparisons of the insertion walk, for deadlines in a window of half the range from b on. */
  lemma Compare(t: tick, x: tick, b: tick)
    requires Sub(t, b) < HALF && Sub(x, b) < HALF
    ensures Sub(t, x) == 0 <==> Sub(t, b) == Sub(x, b)
    ensures 0 < Sub(t, x) < HALF <==> Sub(t, b) > Sub(x, b)
  {
  }

  class Timer {
    var timeoutTick: tick
    var initTick: tick
    var periodic: bool
    var activated: bool

    /** _rt_timer_init. */
    constructor (time: tick, isPeriodic: bool)
      ensures initTick == time && periodic == isPeriodic && !activated && timeoutTick == 0
    {
      initTick, periodic, activated, timeoutTick := time, isPeriodic, false, 0;
    }
  }

  /** Distance of a timer's deadline from the tick b. */
  ghost function Key(t: Timer, b: tick): tick
    reads t`timeoutTick
  {
    Sub(t.timeoutTick, b)
  }

  /** All deadlines lie in the window from b on and the row is in deadline order. */
  ghost predicate Ordered(s: seq<Timer>, b: tick)
    reads s`timeoutTick
  {
    && (forall i :: 0 <= i < |s| ==> Key(s[i], b) < HALF)
    && (forall i, j :: 0 <= i < j < |s| ==> Key(s[i], b) <= Key(s[j], b))
  }

  /** The index behind the leading timers with deadlines up to distance k. */
  ghost function Cut(s: seq<Timer>, k: nat, b: tick): (c: nat)
    reads s`timeoutTick
    ensures c <= |s|
    decreases |s|
  {
    if s == [] || Key(s[0], b) > k then 0 else 1 + Cut(s[1..], k, b)
  }

  /** The reference: stable linear insertion, after all timers with the same deadline. */
  ghost function Insert(s: seq<Timer>, x: Timer, b: tick): (r: seq<Timer>)
    reads s`timeoutTick
    reads x`timeoutTick
    ensures forall i :: 0 <= i < |r| ==> r[i] == x || r[i] in s
    decreases |s|
  {
    if s == [] || Key(s[0], b) > Key(x, b) then [x] + s else [s[0]] + Insert(s[1..], x, b)
  }

  lemma {:induction false} InsertAtCut(s: seq<Timer>, x: Timer, b: tick)
    ensures Insert(s, x, b) == Inserted(s, Cut(s, Key(x, b), b), x)
  {
    if s != [] && Key(s[0], b) <= Key(x, b) {
      InsertAtCut(s[1..], x, b);
      var c := Cut(s[1..], Key(x, b), b);
      assert s[..c + 1] == [s[0]] + s[1..][..c];
    }
  }

  lemma {:induction false} CutStops(s: seq<Timer>, k: nat, b: tick)
    ensures forall i :: 0 <= i < Cut(s, k, b) ==> Key(s[i], b) <= k
    ensures Cut(s, k, b) < |s| ==> Key(s[Cut(s, k, b)], b) > k
  {
    if s != [] && Key(s[0], b) <= k { CutStops(s[1..], k, b); }
  }

  /** In an ordered row everything behind the cut has a later deadline. */
  lemma CutSplits(s: seq<Timer>, k: nat, b: tick)
    requires Ordered(s, b)
    ensures forall i :: 0 <= i < |s| ==> (i < Cut(s, k, b) <==> Key(s[i], b) <= k)
  {
    CutStops(s, k, b);
  }

  lemma OrderedLinked(s: seq<Timer>, x: Timer, b: tick)
    requires Ordered(s, b) && Key(x, b) < HALF
    ensures Ordered(Inserted(s, Cut(s, Key(x, b), b), x), b)
  {
    hide Cut, Key;
    var c := Cut(s, Key(x, b), b);
    CutSplits(s, Key(x, b), b);
    var r := Inserted(s, c, x);
    forall i, j | 0 <= i < j < |r| ensures Key(r[i], b) <= Key(r[j], b) {
      InsertedAt(s, c, x, i);
      InsertedAt(s, c, x, j);
    }
    forall i | 0 <= i < |r| ensures Key(r[i], b) < HALF { InsertedAt(s, c, x, i); }
  }

  /** The indices of a sublist's elements in the longer row are in the same order. */
  lemma {:induction false} OrderedFilter(s: seq<Timer>, S: set<Timer>, b: tick)
    requires Ordered(s, b)
    ensures Ordered(Filter(s, S), b)
  {
    if s != [] {
      OrderedFilter(s[1..], S, b);
      var r := Filter(s[1..], S);
      forall i | 0 <= i < |r| ensures Key(s[0], b) <= Key(r[i], b) {
        FilterMember(s[1..], S, r[i]);
      }
    }
  }

  /** The cut of a sublist falls where the cut of the row below splits it. */
  lemma CutAligned(a: seq<Timer>, s: seq<Timer>, k: nat, b: tick)
    requires Ordered(s, b) && IsSublist(a, s)
    ensures Cut(a, k, b) == |Filter(s[..Cut(s, k, b)], Elems(a))|
  {
    var c := Cut(s, k, b);
    var x, y := Filter(s[..c], Elems(a)), Filter(s[c..], Elems(a));
    FilterConcat(s[..c], s[c..], Elems(a));
    assert s == s[..c] + s[c..];
    CutSplits(s, k, b);
    forall i | 0 <= i < |x| ensures Key(x[i], b) <= k { FilterMember(s[..c], Elems(a), x[i]); }
    forall i | 0 <= i < |y| ensures Key(y[i], b) > k { FilterMember(s[c..], Elems(a), y[i]); }
    CutUnique(a, |x|, k, b);
  }

  lemma {:induction false} CutUnique(s: seq<Timer>, c: nat, k: nat, b: tick)
    requires c <= |s| && (forall i :: 0 <= i < c ==> Key(s[i], b) <= k) && (c < |s| ==> Key(s[c], b) > k)
    ensures Cut(s, k, b) == c
  {
    if c > 0 { CutUnique(s[1..], c - 1, k, b); }
  }

  lemma {:induction false} RowsOrdered(rows: seq<seq<Timer>>, b: tick, l: nat)
    requires Sublists(rows) && l < |rows| && Ordered(rows[|rows| - 1], b)
    ensures Ordered(rows[l], b)
    decreases |rows| - l
  {
    if l < |rows| - 1 {
      RowsOrdered(rows, b, l + 1);
      assert IsSublist(rows[l], rows[l + 1]);
      OrderedFilter(rows[l + 1], Elems(rows[l]), b);
    }
  }

  predicate IsMask(mask: bv32) { (mask + 1) >> 1 <= 32 }

  /** The bits of the insertion counter that are tested for one row are all zero. */
  predicate GoesUp(n: bv32, mask: bv32) { n & mask == 0 }

  /** Shift over the bits that have been tested. */
  function Shifted(n: bv32, mask: bv32): bv32
    requires IsMask(mask)
  {
    n >> ((mask + 1) >> 1)
  }

  /** Into how many rows above the lowest one the insertion counter sends a timer. */
  function Height(n: bv32, mask: bv32, rows: nat): (h: nat)
    requires IsMask(mask)
    ensures h <= rows
    decreases rows
  {
    if rows == 0 || !GoesUp(n, mask) then 0 else 1 + Height(Shifted(n, mask), mask, rows - 1)
  }

  /** With a mask of two bits a timer goes one row up for every two zero bits at the end of the counter. */
  lemma HeightInNumbers(n: bv32)
    ensures IsMask(3) && Height(n, 3, 2) == if n % 4 != 0 then 0 else if n % 16 != 0 then 1 else 2
  {
    assert Height(Shifted(Shifted(n, 3), 3), 3, 0) == 0;
    assert Height(Shifted(n, 3), 3, 1) == if GoesUp(Shifted(n, 3), 3) then 1 else 0;
  }

  class TimerList {
    const level: nat // RT_TIMER_SKIP_LIST_LEVEL
    const mask: bv32 // RT_TIMER_SKIP_LIST_MASK
    var rows: seq<seq<Timer>> // the last row holds every timer
    var randomNr: bv32

    constructor (levels: nat, heightMask: bv32)
      requires levels >= 1 && IsMask(heightMask)
      ensures Valid() && Bottom() == [] && level == levels && mask == heightMask
    {
      level, mask, randomNr := levels, heightMask, 0;
      rows := seq(levels, _ => []);
    }

    ghost predicate Valid()
      reads this`rows
    {
      level >= 1 && IsMask(mask) && |rows| == level && Sublists(rows)
    }

    /** All active timers, in the order of the lowest row. */
    ghost function Bottom(): seq<Timer>
      reads this`rows
      requires Valid()
    {
      rows[level - 1]
    }

    /** The inner walk of rt_timer_start. */
    method WalkRow(l: nat, start: nat, timer: Timer, ghost b: tick) returns (p: nat)
      requires Valid() && l < level && Ordered(rows[l], b) && Key(timer, b) < HALF
      requires start <= Cut(rows[l], Key(timer, b), b)
      ensures p == Cut(rows[l], Key(timer, b), b)
    {
      CutSplits(rows[l], Key(timer, b), b);
      p := start;
      while p != |rows[l]|
        invariant start <= p <= Cut(rows[l], Key(timer, b), b)
        decreases |rows[l]| - p
      {
        var t := rows[l][p];
        Compare(t.timeoutTick, timer.timeoutTick, b);
        if Sub(t.timeoutTick, timer.timeoutTick) != 0 && Sub(t.timeoutTick, timer.timeoutTick) < HALF { break; }
        p := p + 1;
      }
    }

    /** The walk of rt_timer_start over all rows, from each row down to the same timer in the next one. */
    method FindPlaces(timer: Timer, ghost b: tick) returns (heads: seq<nat>)
      requires Valid() && Ordered(Bottom(), b) && Key(timer, b) < HALF
      ensures |heads| == level && forall l :: 0 <= l < level ==> heads[l] == Cut(rows[l], Key(timer, b), b)
    {
      hide Ordered, Cut, Key, Sublists;
      heads := [];
      var head: nat := 0;
      for l := 0 to level
        invariant |heads| == l && forall j :: 0 <= j < l ==> heads[j] == Cut(rows[j], Key(timer, b), b)
        invariant l < level ==> head <= Cut(rows[l], Key(timer, b), b)
      {
        RowsOrdered(rows, b, l);
        var p := WalkRow(l, head, timer, b);
        heads := heads + [p];
        if l != level - 1 {
          head := 0;
          if p > 0 {
            RowsOrdered(rows, b, l + 1);
            StepDown(rows, l, p - 1, Key(timer, b), b);
            head := IndexOf(rows[l + 1], rows[l][p - 1]) + 1;
          }
        }
      }
    }

    /** The upper rows: go up as long as the counter says so. */
    method LinkUpper(heads: seq<nat>, timer: Timer, counter: bv32, ghost before: seq<seq<Timer>>)
      requires level >= 1 && IsMask(mask) && |before| == |heads| == level
      requires forall l :: 0 <= l < level ==> heads[l] <= |before[l]|
      requires rows == RowsLinked(before, heads, timer, 1)
      modifies this`rows
      ensures rows == RowsLinked(before, heads, timer, 1 + Height(counter, mask, level - 1))
    {
      hide RowsLinked, Inserted, IsMask, GoesUp, Shifted;
      var tstNr := counter;
      var rowLvl := 2;
      while rowLvl <= level
        invariant 2 <= rowLvl <= level + 1
        invariant rows == RowsLinked(before, heads, timer, rowLvl - 1)
        invariant Height(counter, mask, level - 1) == rowLvl - 2 + Height(tstNr, mask, level + 1 - rowLvl)
        decreases level - rowLvl
      {
        if !GoesUp(tstNr, mask) { break; }
        RowsLinkedStep(before, heads, timer, rowLvl - 1);
        rows := rows[level - rowLvl := Inserted(rows[level - rowLvl], heads[level - rowLvl], timer)];
        tstNr := Shifted(tstNr, mask);
        rowLvl := rowLvl + 1;
      }
    }

    /** The insertion loop of rt_timer_start: the lowest row, and as many rows above it as the counter says. */
    method LinkRows(heads: seq<nat>, timer: Timer)
      requires Valid() && Aligned(rows, heads) && timer !in Bottom()
      modifies this`rows, this`randomNr
      ensures randomNr == old(randomNr) + 1 && Valid()
      ensures rows == RowsLinked(old(rows), heads, timer, 1 + Height(randomNr, mask, level - 1))
    {
      hide Sublists, Aligned, RowsLinked, Inserted, IsMask, Height;
      ghost var before := rows;
      AlignedHeads(before, heads);
      RowsLinkedStep(before, heads, timer, 0);
      randomNr := randomNr + 1;
      rows := rows[level - 1 := Inserted(rows[level - 1], heads[level - 1], timer)];
      LinkUpper(heads, timer, randomNr, before);
      RowsLinkedKeep(before, heads, timer, 1 + Height(randomNr, mask, level - 1));
    }

    /** _rt_timer_remove. */
    method Remove(timer: Timer)
      requires Valid()
      modifies this`rows
      ensures Valid() && rows == RowsWithout(old(rows), timer) && Bottom() == Without(old(Bottom()), timer)
      ensures SameBut(old(rows), rows, {timer})
    {
      ghost var before := rows;
      for i := 0 to level
        invariant |rows| == level
        invariant forall l :: 0 <= l < level ==> rows[l] == if l < i then Without(before[l], timer) else before[l]
      {
        rows := rows[i := Without(rows[i], timer)];
      }
      RowsWithoutKeep(before, timer);
      RowsWithoutSame(before, timer);
      assert rows == RowsWithout(before, timer);
    }

    /** Find the place of a timer and link it in. */
    method Place(timer: Timer, ghost b: tick)
      requires Valid() && timer !in Bottom() && Ordered(Bottom(), b) && Key(timer, b) < HALF
      modifies this`rows, this`randomNr
      ensures Valid() && Bottom() == Insert(old(Bottom()), timer, b) && Ordered(Bottom(), b)
      ensures randomNr == old(randomNr) + 1 && SameBut(old(rows), rows, {timer})
      ensures forall l :: 0 <= l < level ==> (timer in rows[l] <==> level - 1 - l <= Height(randomNr, mask, level - 1))
    {
      hide Ordered, Cut, Sublists, Aligned, RowsLinked, Insert, Height, IsMask, Filter, Inserted;
      ghost var before, s := rows, Bottom();
      InsertAtCut(s, timer, b);
      OrderedLinked(s, timer, b);
      var heads := FindPlaces(timer, b);
      PlacesAligned(rows, heads, Key(timer, b), b);
      LinkRows(heads, timer);
      RowsLinkedMember(before, heads, timer, 1 + Height(randomNr, mask, level - 1));
      AlignedHeads(before, heads);
      RowsLinkedSame(before, heads, timer, 1 + Height(randomNr, mask, level - 1));
      assert old(Ordered(Inserted(s, Cut(s, Key(timer, b), b), timer), b));
    }

    /** rt_timer_start: the timer goes where a stable linear insertion into the lowest row puts it,
        whatever the heights of the timers in the list and of this one are. */
    method Start(timer: Timer, now: tick, ghost b: tick)
      requires Valid() && timer.initTick < HALF
      requires Ordered(Without(Bottom(), timer), b) && Sub(Add(now, timer.initTick), b) < HALF
      modifies this`rows, this`randomNr, timer`timeoutTick, timer`activated
      ensures Valid() && timer.activated && timer.timeoutTick == Add(now, timer.initTick)
      ensures Bottom() == Insert(Without(old(Bottom()), timer), timer, b) && Ordered(Bottom(), b)
      ensures randomNr == old(randomNr) + 1 && SameBut(old(rows), rows, {timer})
      ensures forall l :: 0 <= l < level ==> (timer in rows[l] <==> level - 1 - l <= Height(randomNr, mask, level - 1))
    {
      hide Sublists, Insert, Height, IsMask, Filter, Key, SameBut;
      WithoutMember(Bottom(), timer, timer);
      Remove(timer);
      ghost var s := Bottom();
      assert old(Ordered(s, b));
      timer.activated := false;
      timer.timeoutTick := Add(now, timer.initTick);
      KeyIs(timer, b);
      ghost var mid := rows;
      Place(timer, b);
      SameButTwice(old(rows), mid, rows, {timer}, {timer});
      timer.activated := true;
    }

    /** rt_timer_stop: an error for a timer that is not active. */
    method Stop(timer: Timer) returns (ok: bool)
      requires Valid()
      modifies this`rows, timer`activated
      ensures Valid() && ok == old(timer.activated) && !timer.activated
      ensures Bottom() == if ok then Without(old(Bottom()), timer) else old(Bottom())
      ensures rows == if ok then RowsWithout(old(rows), timer) else old(rows)
    {
      if !timer.activated { return false; }
      Remove(timer);
      timer.activated := false;
      ok := true;
    }

    /** rt_timer_list_next_timeout: the earliest deadline. */
    method NextTimeout(ghost b: tick) returns (next: tick)
      requires Valid() && Ordered(Bottom(), b)
      ensures Bottom() == [] ==> next == TICK_MAX
      ensures Bottom() != [] ==> Bottom()[0].timeoutTick == next
      ensures forall t :: t in Bottom() ==> Sub(next, b) <= Key(t, b)
    {
      if rows[level - 1] == [] {
        return TICK_MAX;
      }
      next := rows[level - 1][0].timeoutTick;
    }

    ghost function First(): Timer
      reads this`rows
      requires Valid() && Bottom() != []
    {
      Bottom()[0]
    }

    /** One turn of the loop in rt_timer_check, for a timer that is due: it leaves the list, and comes
        back when it is periodic and active. */
    method Fire(now: tick, ghost b: tick) returns (t: Timer)
      requires Valid() && Bottom() != [] && Ordered(Bottom(), b)
      requires Rearmable(First(), now, b)
      modifies this`rows, this`randomNr, First()`timeoutTick, First()`activated
      ensures Valid() && Ordered(Bottom(), b)
      ensures t == old(First()) && t.activated == old(t.activated && t.periodic)
      ensures t.timeoutTick == if t.activated then Add(now, t.initTick) else old(t.timeoutTick)
      ensures Bottom() == if t.activated then Insert(old(Bottom())[1..], t, b) else old(Bottom())[1..]
      ensures SameBut(old(rows), rows, {t})
    {
      hide Sublists, Insert, Height, IsMask, Filter, Key, Sub, Add, SameBut;
      t := rows[level - 1][0];
      BottomDistinct(rows);
      WithoutFirst(Bottom());
      Remove(t);
      ghost var s := Bottom();
      assert old(Ordered(s, b));
      WithoutMember(s, t, t);
      WithoutAbsent(s, t);
      if t.periodic && t.activated {
        RearmedKey(t, now, b);
        t.activated := false;
        ghost var mid := rows;
        Start(t, now, b);
        SameButTwice(old(rows), mid, rows, {t}, {t});
      } else {
        t.activated := false;
      }
    }

    /** The loop of rt_timer_check with the due timers from index i on and the later ones in the list. */
    method FireNext(now: tick, ghost b: tick, ghost s: seq<Timer>, ghost i: nat, ghost d: nat, ghost later: seq<Timer>) returns (t: Timer)
      requires Valid() && Ordered(Bottom(), b) && i < d <= |s| && Bottom() == s[i..d] + later
      requires Rearmable(s[i], now, b) && Key(s[i], b) <= Sub(now, b)
      requires forall k :: i < k < d ==> Key(s[k], b) <= Sub(now, b) && s[k] != s[i]
      requires forall x :: x in later ==> Key(x, b) > Sub(now, b)
      modifies this`rows, this`randomNr, First()`timeoutTick, First()`activated
      ensures Valid() && Ordered(Bottom(), b)
      ensures t == s[i] && t.activated == old(t.activated && t.periodic)
      ensures t.timeoutTick == if t.activated then Add(now, t.initTick) else old(t.timeoutTick)
      ensures t !in later && Bottom() == s[i + 1..d] + if t.activated then Insert(later, t, b) else later
      ensures t.activated ==> Key(t, b) > Sub(now, b)
      ensures SameBut(old(rows), rows, {t})
    {
      hide Sublists, Insert, Filter, IsMask, Ordered, Sub, Add, SameBut;
      ghost var rest := s[i + 1..d];
      assert Bottom()[1..] == rest + later;
      t := Fire(now, b);
      assert t !in later;
      if t.activated {
        RearmedKey(t, now, b);
        InsertBehind(rest, later, t, b);
      }
    }

    /** The loop of rt_timer_check after i of the d due timers of the row s have fired; before, their
        deadlines and states were `ticks` and `acts`. */
    ghost predicate Checking(now: tick, b: tick, s: seq<Timer>, i: nat, d: nat, ticks: seq<tick>, acts: seq<bool>)
      reads this`rows, Bottom()`timeoutTick, s
      requires Valid()
    {
      && i <= d <= |s| == |ticks| == |acts| && Distinct(s) && Sub(now, b) < HALF
      && Ordered(Bottom(), b) && Bottom() == s[i..d] + Later(now, b, s, i, d)
      && (forall x :: x in Later(now, b, s, i, d) ==> Key(x, b) > Sub(now, b))
      && (forall k :: i <= k < d ==> Key(s[k], b) <= Sub(now, b))
      && (forall k :: 0 <= k < |s| ==> Rearmable(s[k], now, b))
      && (forall k :: i <= k < |s| ==> s[k].timeoutTick == ticks[k] && s[k].activated == acts[k])
      && (forall k :: 0 <= k < i ==> Fired(s[k], now, ticks[k], acts[k]))
    }

    /** One turn of the loop in rt_timer_check. */
    method CheckTurn(now: tick, ghost b: tick, ghost s: seq<Timer>, ghost i: nat, ghost d: nat, ghost ticks: seq<tick>, ghost acts: seq<bool>)
        returns (t: Timer)
      requires Valid() && Checking(now, b, s, i, d, ticks, acts) && Bottom() != [] && Due(First(), now)
      modifies this`rows, this`randomNr, First()`timeoutTick, First()`activated
      ensures Valid() && i < d && t == s[i] && Checking(now, b, s, i + 1, d, ticks, acts)
      ensures SameBut(old(rows), rows, {t})
    {
      hide Sublists, Insert, Filter, IsMask, Ordered, Sub, Add, Due, Key, Cut, InsertAll, Armed, SameBut;
      ghost var later := Later(now, b, s, i, d);
      FirstDue(Bottom(), s, i, d, later, now, b);
      t := FireNext(now, b, s, i, d, later);
      ArmedOn(s, i);
      InsertAllOn(s[d..], Armed(s[..i]), t, b);
    }

    /** rt_timer_check: fires exactly the timers that are due, in list order, and starts those again
        that are periodic and active; afterwards nothing is due. The timeout functions are calls into
        the application; `fired` records them. */
    method Check(now: tick, ghost b: tick) returns (fired: seq<Timer>)
      requires Valid() && Ordered(Bottom(), b) && Sub(now, b) < HALF
      requires forall t :: t in Bottom() ==> Rearmable(t, now, b)
      modifies this`rows, this`randomNr, Bottom()`timeoutTick, Bottom()`activated
      ensures Valid() && Ordered(Bottom(), b)
      ensures fired == old(Bottom()[..Cut(Bottom(), Sub(now, b), b)])
      ensures forall t :: t in old(Bottom()) ==> (t in fired <==> old(Due(t, now)))
      ensures Bottom() == InsertAll(old(Bottom())[|fired|..], Armed(fired), b)
      ensures forall t :: t in fired ==> Fired(t, now, old(t.timeoutTick), old(t.activated))
      ensures forall t :: t in old(Bottom()) && t !in fired ==> t.timeoutTick == old(t.timeoutTick) && t.activated == old(t.activated)
      ensures forall t :: t in Bottom() ==> !Due(t, now)
      ensures SameBut(old(rows), rows, Elems(fired))
    {
      hide SameBut, Sublists, Insert, Filter, Key, Ordered, Cut, Rearmable, IsMask, Due, Sub, Add, InsertAll, Armed, Checking;
      ghost var s := Bottom();
      ghost var d := Cut(s, Sub(now, b), b);
      ghost var ticks, acts := Ticks(s), Acts(s);
      DueInRow(s, now, b);
      StartChecking(now, b, d, ticks, acts);
      fired := [];
      SameRows(rows, fired);
      while rows[level - 1] != [] && Due(rows[level - 1][0], now)
        invariant |fired| <= d && fired == s[..|fired|]
        invariant Valid() && Checking(now, b, s, |fired|, d, ticks, acts)
        invariant SameBut(old(rows), rows, Elems(fired))
        decreases d - |fired|
      {
        DueIsNext(now, b, s, |fired|, d, ticks, acts);
        ghost var mid := rows;
        var t := CheckTurn(now, b, s, |fired|, d, ticks, acts);
        SameButTwice(old(rows), mid, rows, Elems(fired), {t});
        OneMore(fired, t);
        fired := fired + [t];
      }
      DoneChecking(now, b, s, |fired|, d, ticks, acts);
    }

    /** What holds at tick `now` between any two calls, for as long as ticks go by one at a time: all deadlines are in
        the half range from now on, and periods are below half the range; one of the greatest length only while no
        timer is due; the timers in the list are active. */
    ghost predicate InWindow(now: tick)
      requires Valid()
      reads this`rows, Bottom()`timeoutTick, Bottom()`periodic, Bottom()`initTick, Bottom()`activated
    {
      Ordered(Bottom(), now) && Periods(Bottom(), NoneDueAt(Bottom(), now)) && forall t :: t in Bottom() ==> t.activated
    }

    /** A timer is started at tick `now`. */
    method StartAt(timer: Timer, now: tick)
      requires Valid() && InWindow(now) && timer.initTick < HALF && (timer.periodic ==> timer.initTick > 0)
      requires Periods(Bottom() + [timer], NoneDueAt(Bottom(), now) && timer.initTick > 0)
      modifies this`rows, this`randomNr, timer`timeoutTick, timer`activated
      ensures Valid() && timer.activated && timer.timeoutTick == Add(now, timer.initTick)
      ensures Bottom() == Insert(Without(old(Bottom()), timer), timer, now)
      ensures SameBut(old(rows), rows, {timer})
      ensures InWindow(now)
    {
      hide Sublists, Ordered, Insert, Due, Periods, NoneDueAt, Sub, Add;
      ghost var s := Bottom();
      ghost var rest := Without(s, timer);
      ghost var quiet := NoneDueAt(s, now) && timer.initTick > 0;
      BottomDistinct(rows);
      OrderedWithout(s, timer, now);
      SoonDue(timer.initTick, now);
      NoneDueWithout(s, timer, now);
      WithoutAll(s, timer);
      NoneDueMeans(rest, now);
      Start(timer, now, now);
      NoneDueMeans(rest, now);
      DueIs(timer, now);
      InsertQuiet(s, rest, timer, now, quiet);
    }

    /** A timer is stopped. */
    method StopAt(timer: Timer, now: tick) returns (ok: bool)
      requires Valid() && InWindow(now)
      modifies this`rows, timer`activated
      ensures Valid() && ok == old(timer.activated) && !timer.activated
      ensures Bottom() == if ok then Without(old(Bottom()), timer) else old(Bottom())
      ensures rows == if ok then RowsWithout(old(rows), timer) else old(rows)
      ensures InWindow(now)
    {
      hide Sublists, Ordered, Due, Periods, NoneDueAt, Sub, Add;
      ghost var s := Bottom();
      BottomDistinct(rows);
      OrderedWithout(s, timer, now);
      NoneDueWithout(s, timer, now);
      WithoutAll(s, timer);
      PeriodsFewer(s, Without(s, timer), timer, NoneDueAt(s, now), NoneDueAt(Without(s, timer), now));
      ok := Stop(timer);
      assert old(Ordered(Without(s, timer), now) && NoneDueAt(Without(s, timer), now) == NoneDueAt(Without(s, timer), now));
    }

    /** One tick of the clock: exactly the timers that have become due fire, nothing is due afterwards, and the window
        has moved on. */
    method Tick(now: tick) returns (next: tick, fired: seq<Timer>)
      requires Valid() && InWindow(now)
      modifies this`rows, this`randomNr, Bottom()`timeoutTick, Bottom()`activated
      ensures next == Add(now, 1) && Valid()
      ensures fired <= old(Bottom()) && forall t :: t in old(Bottom()) ==> (t in fired <==> old(Due(t, next)))
      ensures forall t :: t in fired ==> Fired(t, next, old(t.timeoutTick), old(t.activated))
      ensures forall t :: t in old(Bottom()) && t !in fired ==> t.timeoutTick == old(t.timeoutTick) && t.activated == old(t.activated)
      ensures forall t :: t in Bottom() <==> (t in old(Bottom()) && t !in fired) || (t in fired && t.activated)
      ensures Bottom() == InsertAll(old(Bottom())[|fired|..], Armed(fired), if old(NoneDueAt(Bottom(), now)) then next else now)
      ensures NoneDueAt(Bottom(), next) && InWindow(next) && SameBut(old(rows), rows, Elems(fired))
    {
      hide Sublists, Ordered, Due, Fired, Periods, Rearmable, Sub, Add, InsertAll, Armed, SameBut, Distinct, IsMask;
      next := Add(now, 1);
      ghost var s := Bottom();
      ghost var quiet := NoneDueAt(s, now);
      ghost var b := if quiet then next else now;
      Steps(now);
      if quiet { MoveBase(s, now, now, next); }
      PeriodsFit(s, quiet, next, b);
      fired := Check(next, b);
      MoveBase(Bottom(), b, next, next);
      forall t | t in fired && t.activated ensures t.periodic { FiredPeriodic(t, next, old(t.timeoutTick), old(t.activated)); }
      BottomDistinct(old(rows));
      AfterCheck(s, fired, b, next);
      PeriodsStay(s, Bottom(), quiet);
    }

    /** What is in the list after the check. */
    lemma AfterCheck(s: seq<Timer>, fired: seq<Timer>, b: tick, next: tick)
      requires Valid() && fired <= s && Distinct(s) && Bottom() == InsertAll(s[|fired|..], Armed(fired), b)
      requires forall t :: t in fired && t.activated ==> t.periodic
      ensures forall t :: t in Bottom() <==> (t in s && t !in fired) || (t in fired && t.activated)
    {
      hide Sublists, InsertAll, Armed;
      forall t: Timer ensures t in Bottom() <==> (t in s && t !in fired) || (t in fired && t.activated) {
        InsertAllMember(s[|fired|..], Armed(fired), b, t);
        ArmedMember(fired, t);
        assert s == fired + s[|fired|..];
      }
    }

    lemma DueIsNext(now: tick, b: tick, s: seq<Timer>, i: nat, d: nat, ticks: seq<tick>, acts: seq<bool>)
      requires Valid() && Checking(now, b, s, i, d, ticks, acts) && Bottom() != [] && Due(First(), now)
      ensures i < d <= |s| && First() == s[i]
    {
      FirstDue(Bottom(), s, i, d, Later(now, b, s, i, d), now, b);
    }

    lemma StartChecking(now: tick, b: tick, d: nat, ticks: seq<tick>, acts: seq<bool>)
      requires Valid() && Ordered(Bottom(), b) && Sub(now, b) < HALF && d == Cut(Bottom(), Sub(now, b), b)
      requires forall t :: t in Bottom() ==> Rearmable(t, now, b)
      requires |ticks| == |acts| == |Bottom()|
      requires forall k :: 0 <= k < |Bottom()| ==> Bottom()[k].timeoutTick == ticks[k] && Bottom()[k].activated == acts[k]
      ensures Checking(now, b, Bottom(), 0, d, ticks, acts)
      ensures forall k :: 0 <= k < |Bottom()| ==> (k < d <==> Key(Bottom()[k], b) <= Sub(now, b))
    {
      hide Sublists, Ordered, Key, Rearmable, Cut, Sub;
      var s := Bottom();
      CutSplits(s, Sub(now, b), b);
      BottomDistinct(rows);
      InsertNone(s[d..], b);
      assert s[..0] == [] && s[0..d] + s[d..] == s;
    }

    lemma DoneChecking(now: tick, b: tick, s: seq<Timer>, i: nat, d: nat, ticks: seq<tick>, acts: seq<bool>)
      requires Valid() && Checking(now, b, s, i, d, ticks, acts)
      requires Bottom() == [] || !Due(Bottom()[0], now)
      ensures i == d <= |s| == |ticks| == |acts| && Ordered(Bottom(), b) && forall t :: t in Bottom() ==> !Due(t, now)
      ensures Bottom() == InsertAll(s[d..], Armed(s[..d]), b)
      ensures forall k :: d <= k < |s| ==> s[k].timeoutTick == ticks[k] && s[k].activated == acts[k]
      ensures forall k :: 0 <= k < d ==> Fired(s[k], now, ticks[k], acts[k])
    {
      hide Ordered, Key, Due;
      NoneDue(Bottom(), s, i, d, Later(now, b, s, i, d), now, b);
    }
  }

  lemma SameRows(rows: seq<seq<Timer>>, none: seq<Timer>)
    ensures SameBut(rows, rows, Elems(none))
  {
  }

  lemma OneMore(s: seq<Timer>, t: Timer)
    ensures Elems(s + [t]) == Elems(s) + {t}
  {
  }

  /** The deadlines of a row, as values. */
  ghost function Ticks(s: seq<Timer>): (r: seq<tick>)
    reads s`timeoutTick
    ensures |r| == |s| && forall k :: 0 <= k < |s| ==> r[k] == s[k].timeoutTick
  {
    if s == [] then [] else Ticks(s[..|s| - 1]) + [s[|s| - 1].timeoutTick]
  }

  /** Which timers of a row are active. */
  ghost function Acts(s: seq<Timer>): (r: seq<bool>)
    reads s`activated
    ensures |r| == |s| && forall k :: 0 <= k < |s| ==> r[k] == s[k].activated
  {
    if s == [] then [] else Acts(s[..|s| - 1]) + [s[|s| - 1].activated]
  }

  /** The part of the row behind the timers that were due: those that were not, and the ones started again. */
  ghost function Later(now: tick, b: tick, s: seq<Timer>, i: nat, d: nat): seq<Timer>
    reads s`timeoutTick, s`activated, s`periodic
    requires i <= d <= |s|
  {
    InsertAll(s[d..], Armed(s[..i]), b)
  }

  /** What firing makes of a timer: a periodic one that was active is started again, any other is inactive. */
  ghost predicate Fired(t: Timer, now: tick, was: tick, active: bool)
    reads t
  {
    && t.activated == (active && t.periodic)
    && t.timeoutTick == if t.activated then Add(now, t.initTick) else was
  }

  lemma ArmedOn(s: seq<Timer>, i: nat)
    requires i < |s|
    ensures Armed(s[..i + 1]) == Armed(s[..i]) + ArmedOne(s[i])
  {
    assert s[..i + 1][..i] == s[..i];
  }

  /** The comparison of rt_timer_check: the deadline is not more than half the range ago. */
  predicate Due(t: Timer, now: tick)
    reads t`timeoutTick
  {
    Sub(now, t.timeoutTick) < HALF
  }

  /** A timer is due from its deadline on, for half the range of ticks. */
  lemma DueInNumbers(t: Timer, now: tick)
    ensures t.timeoutTick <= now ==> (Due(t, now) <==> now < t.timeoutTick + 2147483647)
    ensures t.timeoutTick > now ==> (Due(t, now) <==> now + 0x1_0000_0000 < t.timeoutTick + 2147483647)
  {
  }

  lemma DueInWindow(t: Timer, now: tick, b: tick)
    requires Key(t, b) < HALF && Sub(now, b) < HALF
    ensures Due(t, now) <==> Key(t, b) <= Sub(now, b)
  {
  }

  lemma DueInRow(s: seq<Timer>, now: tick, b: tick)
    requires Ordered(s, b) && Sub(now, b) < HALF
    ensures forall t :: t in s ==> (Due(t, now) <==> Key(t, b) <= Sub(now, b))
  {
    forall t | t in s ensures Due(t, now) <==> Key(t, b) <= Sub(now, b) { DueInWindow(t, now, b); }
  }

  lemma FirstDue(list: seq<Timer>, s: seq<Timer>, i: nat, d: nat, later: seq<Timer>, now: tick, b: tick)
    requires Ordered(list, b) && Sub(now, b) < HALF && i <= d <= |s| && list == s[i..d] + later
    requires forall t :: t in later ==> Key(t, b) > Sub(now, b)
    requires list != [] && Due(list[0], now)
    ensures i < d && list[0] == s[i]
  {
    assert list[0] == if i < d then s[i] else later[0];
    DueInRow(list, now, b);
  }

  lemma NoneDue(list: seq<Timer>, s: seq<Timer>, i: nat, d: nat, later: seq<Timer>, now: tick, b: tick)
    requires Ordered(list, b) && Sub(now, b) < HALF && i <= d <= |s| && list == s[i..d] + later
    requires forall t :: t in later ==> Key(t, b) > Sub(now, b)
    requires forall k :: i <= k < d ==> Key(s[k], b) <= Sub(now, b)
    requires list == [] || !Due(list[0], now)
    ensures i == d && forall t :: t in list ==> !Due(t, now)
  {
    assert list != [] ==> list[0] == if i < d then s[i] else later[0];
    DueInRow(list, now, b);
  }

  lemma {:induction false} InsertBehind(x: seq<Timer>, y: seq<Timer>, t: Timer, b: tick)
    requires forall k :: 0 <= k < |x| ==> Key(x[k], b) <= Key(t, b)
    ensures Insert(x + y, t, b) == x + Insert(y, t, b)
  {
    if x == [] {
      assert x + y == y && x + Insert(y, t, b) == Insert(y, t, b);
    } else {
      assert (x + y)[1..] == x[1..] + y;
      InsertBehind(x[1..], y, t, b);
      assert x + Insert(y, t, b) == [x[0]] + (x[1..] + Insert(y, t, b));
    }
  }

  /** The timers that come back after they have fired, in order. */
  ghost function Armed(s: seq<Timer>): (r: seq<Timer>)
    reads s`activated, s`periodic
    ensures forall i :: 0 <= i < |r| ==> r[i] in s
  {
    if s == [] then []
    else
      Armed(s[..|s| - 1]) + ArmedOne(s[|s| - 1])
  }

  ghost function ArmedOne(x: Timer): (r: seq<Timer>)
    reads x`activated, x`periodic
  {
    if x.activated && x.periodic then [x] else []
  }

  /** Insertion one after the other. */
  ghost function InsertAll(s: seq<Timer>, xs: seq<Timer>, b: tick): (r: seq<Timer>)
    reads s`timeoutTick, xs`timeoutTick
    ensures forall i :: 0 <= i < |r| ==> r[i] in s || r[i] in xs
    decreases |xs|
  {
    if xs == [] then s else Insert(InsertAll(s, xs[..|xs| - 1], b), xs[|xs| - 1], b)
  }

  lemma {:induction false} InsertAllMember(s: seq<Timer>, xs: seq<Timer>, b: tick, t: Timer)
    ensures t in InsertAll(s, xs, b) <==> t in s || t in xs
  {
    if xs != [] {
      var r := xs[..|xs| - 1];
      InsertAllMember(s, r, b, t);
      InsertMembers(InsertAll(s, r, b), xs[|xs| - 1], b);
      assert xs == r + [xs[|xs| - 1]];
    }
  }

  lemma {:induction false} ArmedMember(s: seq<Timer>, t: Timer)
    ensures t in Armed(s) <==> t in s && t.activated && t.periodic
  {
    if s != [] {
      var r := s[..|s| - 1];
      ArmedMember(r, t);
      assert s == r + [s[|s| - 1]];
    }
  }

  /** Timers that have fired are active only if they are periodic. */
  lemma FiredPeriodic(t: Timer, now: tick, was: tick, active: bool)
    ensures Fired(t, now, was, active) && t.activated ==> t.periodic
  {
  }

  lemma InsertNone(s: seq<Timer>, b: tick)
    ensures InsertAll(s, [], b) == s
  {
  }

  lemma InsertAllOn(s: seq<Timer>, xs: seq<Timer>, x: Timer, b: tick)
    ensures InsertAll(s, xs + [x], b) == Insert(InsertAll(s, xs, b), x, b)
    ensures InsertAll(s, xs + [], b) == InsertAll(s, xs, b)
  {
    assert (xs + [x])[..|xs|] == xs && xs + [] == xs;
  }

  /** A periodic timer's next deadline is in the window as well. */
  ghost predicate Rearmable(t: Timer, now: tick, b: tick)
    reads t`periodic, t`initTick
  {
    t.periodic ==> 0 < t.initTick && Sub(now, b) + t.initTick < HALF
  }

  /** No timer of the row is due. */
  ghost predicate NoneDueAt(s: seq<Timer>, now: tick)
    reads s`timeoutTick
  {
    forall t :: t in s ==> !Due(t, now)
  }

  /** Periods are not zero and below half the range; the greatest only if `quiet`. */
  ghost predicate Periods(s: seq<Timer>, quiet: bool)
    reads s`periodic, s`initTick
  {
    forall t :: t in s && t.periodic ==> 0 < t.initTick < HALF && (t.initTick == HALF - 1 ==> quiet)
  }

  /** The window moves on from b to c, up to the first tick after `now`, when nothing is due at `now`. */
  lemma MoveBase(s: seq<Timer>, b: tick, now: tick, c: tick)
    requires Ordered(s, b) && Sub(now, b) < HALF && NoneDueAt(s, now) && Sub(c, b) <= Sub(now, b) + 1
    ensures Ordered(s, c)
  {
    DueInRow(s, now, b);
    forall i | 0 <= i < |s| ensures Key(s[i], c) == Key(s[i], b) - Sub(c, b) { KeyShift(s[i].timeoutTick, b, c); }
  }

  lemma KeyShift(t: tick, b: tick, c: tick)
    requires Sub(c, b) <= Sub(t, b)
    ensures Sub(t, c) == Sub(t, b) - Sub(c, b)
  {
  }

  lemma Steps(now: tick)
    ensures Sub(Add(now, 1), now) == 1 && Sub(Add(now, 1), Add(now, 1)) == 0 && Sub(now, now) == 0
  {
  }

  lemma SoonDue(init: tick, now: tick)
    requires init < HALF
    ensures Sub(Add(now, init), now) == init && (Sub(now, Add(now, init)) < HALF <==> init == 0)
  {
  }

  lemma NoneDueWithout(s: seq<Timer>, x: Timer, now: tick)
    ensures NoneDueAt(s, now) ==> NoneDueAt(Without(s, x), now)
  {
    hide Due;
    WithoutAll(s, x);
  }

  lemma NoneDueMeans(s: seq<Timer>, now: tick)
    ensures NoneDueAt(s, now) <==> forall t :: t in s ==> Sub(now, t.timeoutTick) >= HALF
  {
    hide Sub;
  }

  lemma DueIs(t: Timer, now: tick)
    ensures Due(t, now) <==> Sub(now, t.timeoutTick) < HALF
  {
  }

  lemma PeriodsFewer(s: seq<Timer>, r: seq<Timer>, x: Timer, quiet: bool, still: bool)
    requires Periods(s, quiet) && (quiet ==> still) && r == Without(s, x)
    ensures Periods(r, still)
  {
    WithoutAll(s, x);
  }

  lemma PeriodsFit(s: seq<Timer>, quiet: bool, next: tick, b: tick)
    requires Periods(s, quiet) && Sub(next, b) == if quiet then 0 else 1
    ensures forall t :: t in s ==> Rearmable(t, next, b)
  {
  }

  lemma PeriodsStay(s: seq<Timer>, r: seq<Timer>, quiet: bool)
    requires Periods(s, quiet) && forall t :: t in r ==> t in s
    ensures Periods(r, true)
  {
  }

  /** A timer that is not due at once joins timers that are not due. */
  lemma InsertQuiet(s: seq<Timer>, rest: seq<Timer>, x: Timer, now: tick, quiet: bool)
    requires rest == Without(s, x) && Periods(s + [x], quiet)
    requires quiet ==> NoneDueAt(rest, now) && !Due(x, now)
    ensures var r := Insert(rest, x, now); Periods(r, NoneDueAt(r, now))
  {
    hide Due, Insert;
    InsertMembers(rest, x, now);
    WithoutAll(s, x);
    forall t | t in Insert(rest, x, now) ensures t in s + [x] {}
  }

  lemma OrderedWithout(s: seq<Timer>, x: Timer, b: tick)
    requires Distinct(s) && Ordered(s, b)
    ensures Ordered(Without(s, x), b)
  {
    WithoutFilter(s, x, Elems(s));
    OrderedFilter(s, Elems(s) - {x}, b);
  }

  lemma {:induction false} InsertMembers(s: seq<Timer>, x: Timer, b: tick)
    ensures forall t :: t in Insert(s, x, b) <==> t in s || t == x
  {
    if s != [] { InsertMembers(s[1..], x, b); assert s == [s[0]] + s[1..]; }
  }

  lemma BottomDistinct(rows: seq<seq<Timer>>)
    requires Sublists(rows)
    ensures Distinct(rows[|rows| - 1])
  {
  }

  lemma RearmedKey(t: Timer, now: tick, b: tick)
    requires Rearmable(t, now, b) && t.periodic
    ensures Sub(Add(now, t.initTick), b) == Sub(now, b) + t.initTick
  {
  }

  lemma KeyIs(t: Timer, b: tick)
    ensures Key(t, b) == Sub(t.timeoutTick, b)
  {
  }

  /** A timer at or before the cut in one row is there or before it in the next row. */
  lemma StepDown(rows: seq<seq<Timer>>, l: nat, i: nat, k: nat, b: tick)
    requires Sublists(rows) && l < |rows| - 1 && i < Cut(rows[l], k, b) && Ordered(rows[l + 1], b)
    ensures rows[l][i] in rows[l + 1] && IndexOf(rows[l + 1], rows[l][i]) < Cut(rows[l + 1], k, b)
  {
    assert IsSublist(rows[l], rows[l + 1]);
    SublistElems(rows[l], rows[l + 1]);
    CutStops(rows[l], k, b);
    CutSplits(rows[l + 1], k, b);
  }

  lemma PlacesAligned(rows: seq<seq<Timer>>, heads: seq<nat>, k: nat, b: tick)
    requires Sublists(rows) && Ordered(rows[|rows| - 1], b) && |heads| == |rows|
    requires forall l :: 0 <= l < |rows| ==> heads[l] == Cut(rows[l], k, b)
    ensures Aligned(rows, heads)
  {
    hide Ordered, Cut, Distinct, Filter, Elems;
    forall l | 0 <= l < |rows| - 1 ensures heads[l] == |Filter(rows[l + 1][..heads[l + 1]], Elems(rows[l]))| {
      RowsOrdered(rows, b, l + 1);
      assert IsSublist(rows[l], rows[l + 1]);
      CutAligned(rows[l], rows[l + 1], k, b);
    }
  }
}
