/** The blocks the system heap is cut into, and the header written at the start of each. */
module HeapItems {
  import opened Sequences

  const SIZEOF_STRUCT_MEM := 12
  const MIN_SIZE := 12

  /** A block: the offset of its header in the heap, and whether it is in use. It ends where the next one starts. */
  datatype Item = Item(at: nat, used: bool)

  /** struct heap_mem */
  datatype HeapMem = HeapMem(used: bool, next: nat, prev: nat)

  /** The blocks lie one behind the other from offset 0 to `end`, where the end sentinel is. */
  ghost predicate Laid(bs: seq<Item>, end: nat) {
    && |bs| >= 2 && bs[0].at == 0 && bs[|bs| - 1] == Item(end, true)
    && (forall i :: 0 <= i < |bs| - 1 ==> bs[i].at + SIZEOF_STRUCT_MEM <= bs[i + 1].at)
    && forall i :: 0 <= i < |bs| ==> bs[i].at % 4 == 0
  }

  /** The header of block i. Nothing is known about where the end sentinel's prev points. */
  ghost predicate HeaderIs(bs: seq<Item>, m: map<nat, HeapMem>, i: nat)
    requires i < |bs|
  {
    && bs[i].at in m && m[bs[i].at].used == bs[i].used
    && m[bs[i].at].next == bs[if i + 1 < |bs| then i + 1 else i].at
    && (i + 1 < |bs| ==> m[bs[i].at].prev == bs[if i > 0 then i - 1 else 0].at)
  }

  /** Following next and prev goes from each block to its neighbours. */
  ghost predicate Linked(bs: seq<Item>, m: map<nat, HeapMem>) {
    forall i :: 0 <= i < |bs| ==> HeaderIs(bs, m, i)
  }

  /** No two neighbouring blocks are free. */
  ghost predicate Coalesced(bs: seq<Item>) {
    forall i :: 0 <= i < |bs| - 1 ==> bs[i].used || bs[i + 1].used
  }

  /** Bytes from the start of block i to the start of the next. */
  function Extent(bs: seq<Item>, i: nat): int
    requires i < |bs| - 1
  {
    bs[i + 1].at - bs[i].at
  }

  /** Bytes block i offers to its user. */
  function Payload(bs: seq<Item>, i: nat): int
    requires i < |bs| - 1
  {
    Extent(bs, i) - SIZEOF_STRUCT_MEM
  }

  /** Extents of the blocks in use. */
  function UsedSum(bs: seq<Item>): int {
    if |bs| <= 1 then 0 else (if bs[0].used then bs[1].at - bs[0].at else 0) + UsedSum(bs[1..])
  }

  /** lfree always points at a free block or at the end. */
  ghost predicate FreeOrEnd(bs: seq<Item>, lfree: nat) {
    exists k :: 0 <= k < |bs| && bs[k].at == lfree && (k == |bs| - 1 || !bs[k].used)
  }

  /** No free block lies below lfree. */
  ghost predicate NoneBelow(bs: seq<Item>, lfree: nat) {
    forall k :: 0 <= k < |bs| && !bs[k].used ==> lfree <= bs[k].at
  }

  lemma NotBelow(bs: seq<Item>, lfree: nat, k: nat)
    requires NoneBelow(bs, lfree) && k < |bs|
    ensures bs[k].used || lfree <= bs[k].at
  {
  }

  lemma {:induction false} Ordered(bs: seq<Item>, end: nat, i: nat, j: nat)
    requires Laid(bs, end) && i < j < |bs|
    ensures bs[i].at + SIZEOF_STRUCT_MEM <= bs[j].at
    decreases j
  {
    if i < j - 1 { Ordered(bs, end, i, j - 1); }
  }

  /** Where a block is determines which one it is. */
  lemma SameItem(bs: seq<Item>, end: nat, i: nat, j: nat)
    requires Laid(bs, end) && i < |bs| && j < |bs|
    ensures bs[i].at == bs[j].at <==> i == j
    ensures bs[i].at < bs[j].at <==> i < j
  {
    if i < j { Ordered(bs, end, i, j); } else if j < i { Ordered(bs, end, j, i); }
  }

  // ---------- sums ----------

  lemma {:induction false} SumConcat(a: seq<Item>, x: Item, b: seq<Item>)
    ensures UsedSum(a + [x] + b) == UsedSum(a + [x]) + UsedSum([x] + b)
  {
    if a == [] {
      assert a + [x] + b == [x] + b;
    } else {
      assert (a + [x] + b)[1..] == a[1..] + [x] + b;
      assert (a + [x])[1..] == a[1..] + [x];
      SumConcat(a[1..], x, b);
    }
  }

  /** Whether the last block is in use does not count. */
  lemma {:induction false} SumLast(a: seq<Item>, x: Item, y: Item)
    requires x.at == y.at
    ensures UsedSum(a + [x]) == UsedSum(a + [y])
  {
    if a != [] {
      assert (a + [x])[1..] == a[1..] + [x] && (a + [y])[1..] == a[1..] + [y];
      SumLast(a[1..], x, y);
    }
  }

  /** The sum, taken apart around block i. */
  lemma SumAt(bs: seq<Item>, i: nat)
    requires i + 1 < |bs|
    ensures UsedSum(bs) == UsedSum(bs[..i] + [bs[i]]) + (if bs[i].used then Extent(bs, i) else 0) + UsedSum(bs[i + 1..])
  {
    hide UsedSum;
    assert bs == bs[..i] + [bs[i]] + bs[i + 1..];
    SumConcat(bs[..i], bs[i], bs[i + 1..]);
    SumFirst(bs[i], bs[i + 1..]);
  }

  lemma SumFirst(x: Item, b: seq<Item>)
    requires b != []
    ensures UsedSum([x] + b) == (if x.used then b[0].at - x.at else 0) + UsedSum(b)
  {
    assert ([x] + b)[1..] == b;
  }

  lemma {:induction false} SumBound(bs: seq<Item>)
    requires |bs| >= 1 && forall i :: 0 <= i < |bs| - 1 ==> bs[i].at <= bs[i + 1].at
    ensures 0 <= UsedSum(bs) <= bs[|bs| - 1].at - bs[0].at
  {
    if |bs| > 1 {
      forall i | 0 <= i < |bs[1..]| - 1 ensures bs[1..][i].at <= bs[1..][i + 1].at { assert bs[i + 1].at <= bs[i + 2].at; }
      SumBound(bs[1..]);
    }
  }

  // ---------- the three changes ----------

  function Marked(bs: seq<Item>, i: nat, used: bool): seq<Item>
    requires i < |bs|
  {
    bs[i := bs[i].(used := used)]
  }

  /** Block i ends at p, and a free block starts there. */
  function Cut(bs: seq<Item>, i: nat, p: nat): seq<Item>
    requires i < |bs|
  {
    Inserted(bs, i + 1, Item(p, false))
  }

  /** Block i takes in the block behind it. */
  function Joined(bs: seq<Item>, i: nat): seq<Item>
    requires i + 1 < |bs|
  {
    Dropped(bs, i + 1)
  }

  lemma MarkedLaid(bs: seq<Item>, end: nat, i: nat, used: bool)
    requires Laid(bs, end) && i < |bs| - 1
    ensures Laid(Marked(bs, i, used), end)
  {
  }

  lemma MarkedSum(bs: seq<Item>, i: nat, used: bool)
    requires i < |bs| - 1
    ensures UsedSum(Marked(bs, i, used)) ==
            UsedSum(bs) + (if used then Extent(bs, i) else 0) - (if bs[i].used then Extent(bs, i) else 0)
  {
    hide UsedSum;
    var r := Marked(bs, i, used);
    SumAt(bs, i);
    SumAt(r, i);
    SumLast(bs[..i], bs[i], r[i]);
    assert r[..i] == bs[..i] && r[i + 1..] == bs[i + 1..];
  }

  /** What is written to the header of a block when it is marked. */
  lemma MarkedLinked(bs: seq<Item>, end: nat, m: map<nat, HeapMem>, i: nat, used: bool)
    requires Laid(bs, end) && Linked(bs, m) && i < |bs| - 1
    ensures bs[i].at in m && Linked(Marked(bs, i, used), m[bs[i].at := m[bs[i].at].(used := used)])
  {
    hide Laid;
    assert HeaderIs(bs, m, i);
    var r, n := Marked(bs, i, used), m[bs[i].at := m[bs[i].at].(used := used)];
    forall k | 0 <= k < |r| ensures HeaderIs(r, n, k) {
      assert HeaderIs(bs, m, k);
      SameItem(bs, end, i, k);
    }
  }

  lemma CutLaid(bs: seq<Item>, end: nat, i: nat, p: nat)
    requires Laid(bs, end) && i < |bs| - 1 && p % 4 == 0
    requires bs[i].at + SIZEOF_STRUCT_MEM <= p && p + SIZEOF_STRUCT_MEM <= bs[i + 1].at
    ensures Laid(Cut(bs, i, p), end)
  {
    var r := Cut(bs, i, p);
    forall k | 0 <= k < |r| ensures r[k] == if k <= i then bs[k] else if k == i + 1 then Item(p, false) else bs[k - 1] {}
    forall k | 0 <= k < |r| - 1 ensures r[k].at + SIZEOF_STRUCT_MEM <= r[k + 1].at {
      if k > i + 1 { assert bs[k - 1].at + SIZEOF_STRUCT_MEM <= bs[k].at; }
    }
  }

  lemma CutSum(bs: seq<Item>, i: nat, p: nat)
    requires i < |bs| - 1
    ensures UsedSum(Cut(bs, i, p)) == UsedSum(bs) - if bs[i].used then bs[i + 1].at - p else 0
  {
    hide UsedSum;
    var r := Cut(bs, i, p);
    SumAt(bs, i);
    SumAt(r, i);
    SumAt(r, i + 1);
    assert r[..i] == bs[..i] && r[i] == bs[i] && r[i + 1] == Item(p, false) && r[i + 2..] == bs[i + 1..];
    assert r[i + 1..] == [r[i + 1]] + r[i + 2..];
    SumConcat([], r[i + 1], r[i + 2..]);
    FreeFirst(r[i + 1..]);
    assert r[i + 1..][1..] == r[i + 2..];
  }

  lemma FreeFirst(bs: seq<Item>)
    requires |bs| > 1 && !bs[0].used
    ensures UsedSum(bs) == UsedSum(bs[1..])
  {
  }

  /** A header put inside block i overwrites none of the headers in use. */
  ghost function Clobbered(m: map<nat, HeapMem>, p: nat): map<nat, HeapMem> {
    map q | q in m && (q == p || q + SIZEOF_STRUCT_MEM <= p || p + SIZEOF_STRUCT_MEM <= q) :: m[q]
  }

  /** The four writes that link a new header at p in behind block i. */
  ghost function CutHeaders(m: map<nat, HeapMem>, h: nat, p: nat, end: nat): map<nat, HeapMem>
    requires h in m
  {
    var c := Clobbered(m, p)[p := HeapMem(false, m[h].next, h)][h := m[h].(next := p)];
    if m[h].next != end && m[h].next in c then c[m[h].next := c[m[h].next].(prev := p)] else c
  }

  lemma CutLinked(bs: seq<Item>, end: nat, m: map<nat, HeapMem>, i: nat, p: nat)
    requires Laid(bs, end) && Linked(bs, m) && i < |bs| - 1
    requires bs[i].at + SIZEOF_STRUCT_MEM <= p && p + SIZEOF_STRUCT_MEM <= bs[i + 1].at
    ensures bs[i].at in m && m[bs[i].at].next == bs[i + 1].at && bs[i + 1].at in Clobbered(m, p) && bs[i].at in Clobbered(m, p)
    ensures Linked(Cut(bs, i, p), CutHeaders(m, bs[i].at, p, end))
  {
    hide Laid;
    assert HeaderIs(bs, m, i);
    assert HeaderIs(bs, m, i + 1);
    var r, n := Cut(bs, i, p), CutHeaders(m, bs[i].at, p, end);
    LastIs(bs, end);
    forall k | 0 <= k < |r| ensures HeaderIs(r, n, k) {
      if k != i + 1 {
        var j := if k <= i then k else k - 1;
        assert HeaderIs(bs, m, j);
        SameItem(bs, end, i, j);
        SameItem(bs, end, i + 1, j);
        SameItem(bs, end, |bs| - 1, j);
        if j < i { Ordered(bs, end, j, i); } else if j > i + 1 { Ordered(bs, end, i + 1, j); }
      }
    }
  }

  lemma LastIs(bs: seq<Item>, end: nat)
    requires Laid(bs, end)
    ensures |bs| >= 2 && bs[|bs| - 1] == Item(end, true) && bs[0].at == 0
  {
  }

  lemma JoinedLaid(bs: seq<Item>, end: nat, i: nat)
    requires Laid(bs, end) && i + 1 < |bs| - 1
    ensures Laid(Joined(bs, i), end)
  {
    var r := Joined(bs, i);
    forall k | 0 <= k < |r| - 1 ensures r[k].at + SIZEOF_STRUCT_MEM <= r[k + 1].at {
      assert bs[k].at + SIZEOF_STRUCT_MEM <= bs[k + 1].at;
      assert bs[k + 1].at + SIZEOF_STRUCT_MEM <= bs[k + 2].at;
    }
  }

  lemma JoinedSum(bs: seq<Item>, i: nat)
    requires i + 1 < |bs| - 1 && !bs[i].used && !bs[i + 1].used
    ensures UsedSum(Joined(bs, i)) == UsedSum(bs)
  {
    hide UsedSum;
    var r := Joined(bs, i);
    SumAt(bs, i);
    SumAt(r, i);
    assert r[..i] == bs[..i] && r[i] == bs[i] && r[i + 1..] == bs[i + 2..] && bs[i + 1..][1..] == bs[i + 2..];
    FreeFirst(bs[i + 1..]);
  }

  /** The two writes of plug_holes that make block h take in the block at n. */
  ghost function JoinHeaders(m: map<nat, HeapMem>, h: nat, n: nat): map<nat, HeapMem>
    requires h in m && n in m && m[n].next in m
  {
    var c := m[h := m[h].(next := m[n].next)];
    c[m[n].next := c[m[n].next].(prev := h)]
  }

  lemma JoinedLinked(bs: seq<Item>, end: nat, m: map<nat, HeapMem>, i: nat)
    requires Laid(bs, end) && Linked(bs, m) && i + 1 < |bs| - 1
    ensures bs[i].at in m && bs[i + 1].at in m && m[bs[i + 1].at].next == bs[i + 2].at && bs[i + 2].at in m
    ensures Linked(Joined(bs, i), JoinHeaders(m, bs[i].at, bs[i + 1].at))
  {
    hide Laid;
    assert HeaderIs(bs, m, i);
    assert HeaderIs(bs, m, i + 1);
    assert HeaderIs(bs, m, i + 2);
    var r, n := Joined(bs, i), JoinHeaders(m, bs[i].at, bs[i + 1].at);
    forall k | 0 <= k < |r| ensures HeaderIs(r, n, k) {
      var j := if k <= i then k else k + 1;
      assert HeaderIs(bs, m, j);
      SameItem(bs, end, i, j);
      SameItem(bs, end, i + 2, j);
    }
  }

  // ---------- plug_holes, allocation, release ----------

  function JoinRight(bs: seq<Item>, i: nat): seq<Item>
    requires i < |bs| - 1
  {
    if bs[i + 1].used then bs else Joined(bs, i)
  }

  function JoinLeft(bs: seq<Item>, i: nat): seq<Item>
    requires i < |bs|
  {
    if i == 0 || bs[i - 1].used then bs else Joined(bs, i - 1)
  }

  /** Where lfree points when block i takes in the one behind it. */
  function MarkJoined(bs: seq<Item>, i: nat, lfree: nat): nat
    requires i + 1 < |bs|
  {
    if lfree == bs[i + 1].at then bs[i].at else lfree
  }

  /** Where lfree points after the free block i has been joined with the free blocks on either side. */
  function MarkPlugged(bs: seq<Item>, i: nat, lfree: nat): nat
    requires i + 1 < |bs|
  {
    var l := if bs[i + 1].used then lfree else MarkJoined(bs, i, lfree);
    if i == 0 || bs[i - 1].used then l else MarkJoined(bs, i - 1, l)
  }

  /** Where lfree points after block i has been freed: down to it, or to the free block before it that takes it in, when it lies
      lower. */
  function MarkFreed(bs: seq<Item>, i: nat, lfree: nat): nat
    requires i < |bs|
  {
    if bs[i].at >= lfree then lfree else if i == 0 || bs[i - 1].used then bs[i].at else bs[i - 1].at
  }

  /** The next free block from block i on, or the end. */
  function NextFree(bs: seq<Item>, i: nat): nat
    requires i < |bs|
    decreases |bs| - i
  {
    if bs[i].used && i < |bs| - 1 then NextFree(bs, i + 1) else bs[i].at
  }

  /** Where lfree points after block i has been handed out for n bytes. */
  function MarkTaken(bs: seq<Item>, i: nat, n: nat, lfree: nat): nat
    requires i < |bs| - 1
  {
    if bs[i].at == lfree && i < |Allocated(bs, i, n)| then NextFree(Allocated(bs, i, n), i) else lfree
  }

  /** Where lfree points after block i has been cut to n bytes. */
  function MarkShrunk(bs: seq<Item>, i: nat, n: nat, lfree: nat): nat
    requires i < |bs| - 1
  {
    if !bs[i + 1].used && lfree == bs[i + 1].at then bs[i].at + SIZEOF_STRUCT_MEM + n else lfree
  }

  lemma PluggedIsFreed(bs: seq<Item>, end: nat, i: nat, lfree: nat)
    requires Laid(bs, end) && FreeOrEnd(bs, lfree) && i < |bs| - 1 && bs[i].used
    ensures var m, l := Marked(bs, i, false), if bs[i].at < lfree then bs[i].at else lfree;
            i + 1 < |m| && MarkPlugged(m, i, l) == MarkFreed(bs, i, lfree)
  {
    var k :| 0 <= k < |bs| && bs[k].at == lfree && (k == |bs| - 1 || !bs[k].used);
    SameItem(bs, end, i, k);
    SameItem(bs, end, i, i + 1);
  }

  lemma JoinedMark(bs: seq<Item>, end: nat, i: nat, lfree: nat)
    requires Laid(bs, end) && i + 1 < |bs| - 1 && !bs[i].used && !bs[i + 1].used && FreeOrEnd(bs, lfree)
    ensures FreeOrEnd(Joined(bs, i), MarkJoined(bs, i, lfree))
    ensures NoneBelow(bs, lfree) ==> NoneBelow(Joined(bs, i), MarkJoined(bs, i, lfree))
  {
    var k :| 0 <= k < |bs| && bs[k].at == lfree && (k == |bs| - 1 || !bs[k].used);
    SameItem(bs, end, i + 1, k);
    SameItem(bs, end, i, i + 1);
    var r, l := Joined(bs, i), MarkJoined(bs, i, lfree);
    var j := if k <= i then k else k - 1;
    assert r[j].at == l && (j == |r| - 1 || !r[j].used);
    if NoneBelow(bs, lfree) {
      forall x | 0 <= x < |r| && !r[x].used ensures l <= r[x].at {
        assert r[x] == bs[if x <= i then x else x + 1];
      }
    }
  }

  /** Block i handed out for n bytes; what is left of it stays free when it is big enough. */
  function Allocated(bs: seq<Item>, i: nat, n: nat): seq<Item>
    requires i < |bs| - 1
  {
    Marked(if Payload(bs, i) >= n + SIZEOF_STRUCT_MEM + MIN_SIZE then Cut(bs, i, bs[i].at + SIZEOF_STRUCT_MEM + n) else bs, i, true)
  }

  /** Block i given back, and joined with the free blocks next to it. */
  function Freed(bs: seq<Item>, i: nat): seq<Item>
    requires i < |bs| - 1
  {
    JoinLeft(JoinRight(Marked(bs, i, false), i), i)
  }

  /** Block i cut to n bytes; the rest becomes free. */
  function Shrunk(bs: seq<Item>, i: nat, n: nat): seq<Item>
    requires i < |bs| - 1
  {
    JoinRight(Cut(bs, i, bs[i].at + SIZEOF_STRUCT_MEM + n), i + 1)
  }

  lemma AllocatedCoalesced(bs: seq<Item>, i: nat, n: nat)
    requires Coalesced(bs) && i < |bs| - 1 && !bs[i].used
    ensures Coalesced(Allocated(bs, i, n))
  {
    var r := Allocated(bs, i, n);
    forall k | 0 <= k < |r| - 1 ensures r[k].used || r[k + 1].used {
      if |r| == |bs| {
        assert bs[k].used || bs[k + 1].used;
      } else {
        InsertedAt(bs, i + 1, Item(bs[i].at + SIZEOF_STRUCT_MEM + n, false), k);
        InsertedAt(bs, i + 1, Item(bs[i].at + SIZEOF_STRUCT_MEM + n, false), k + 1);
        if k > i + 1 { assert bs[k - 1].used || bs[k].used; }
        else if k == i + 1 { assert bs[i].used || bs[i + 1].used; }
        else { assert bs[k].used || bs[k + 1].used; }
      }
    }
  }

  lemma FreedCoalesced(bs: seq<Item>, i: nat)
    requires Coalesced(bs) && i < |bs| - 1 && bs[|bs| - 1].used && bs[i].used
    ensures Coalesced(Freed(bs, i))
  {
    var m := Marked(bs, i, false);
    var a := JoinRight(m, i);
    forall k | 0 <= k < |a| - 1 && k != i - 1 ensures a[k].used || a[k + 1].used {
      assert bs[k].used || bs[k + 1].used;
      if k + 2 < |bs| { assert bs[k + 1].used || bs[k + 2].used; }
      if k > i && |a| < |bs| { assert a[k] == bs[k + 1] && a[k + 1] == bs[k + 2]; }
      if k == i && |a| < |bs| { assert a[k + 1] == bs[k + 2]; }
    }
    var r := JoinLeft(a, i);
    if |r| < |a| {
      assert i > 1 ==> bs[i - 1].used || bs[i - 2].used;
      forall k | 0 <= k < |r| - 1 ensures r[k].used || r[k + 1].used {
        if k >= i { assert r[k] == a[k + 1] && r[k + 1] == a[k + 2]; }
        else if k == i - 1 { assert r[k + 1] == a[k + 2] && (a[i].used || a[i + 1].used); }
        else { assert r[k] == a[k] && r[k + 1] == a[k + 1]; }
      }
    } else {
      assert i > 0 ==> a[i - 1].used;
    }
  }

  lemma ShrunkCoalesced(bs: seq<Item>, i: nat, n: nat)
    requires Coalesced(bs) && i < |bs| - 1 && bs[|bs| - 1].used && bs[i].used
    ensures Coalesced(Shrunk(bs, i, n))
  {
    var r := Shrunk(bs, i, n);
    forall k | 0 <= k < |r| - 1 ensures r[k].used || r[k + 1].used {
      if |r| > |bs| {
        if k > i + 1 { assert r[k] == bs[k - 1] && r[k + 1] == bs[k]; assert bs[k - 1].used || bs[k].used; }
        else if k < i { assert bs[k].used || bs[k + 1].used; }
      } else {
        assert bs[k].used || bs[k + 1].used;
      }
    }
  }

  /** A block that was just handed out comes back as it was when it is freed. */
  lemma AllocatedThenFreed(bs: seq<Item>, i: nat, n: nat)
    requires Coalesced(bs) && i < |bs| - 1 && bs[|bs| - 1].used && !bs[i].used
    ensures Freed(Allocated(bs, i, n), i) == bs
  {
    assert bs[i + 1].used;
    assert i > 0 ==> bs[i].used || bs[i - 1].used;
    var a := Allocated(bs, i, n);
    if |a| > |bs| { assert a[i + 1] == Item(bs[i].at + SIZEOF_STRUCT_MEM + n, false); }
  }

  /** The lowest free block is one place only. */
  lemma LowestIsOne(bs: seq<Item>, end: nat, l: nat, k: nat)
    requires Laid(bs, end) && FreeOrEnd(bs, l) && NoneBelow(bs, l) && FreeOrEnd(bs, k) && NoneBelow(bs, k)
    ensures l == k
  {
    var i :| 0 <= i < |bs| && bs[i].at == l && (i == |bs| - 1 || !bs[i].used);
    var j :| 0 <= j < |bs| && bs[j].at == k && (j == |bs| - 1 || !bs[j].used);
    SameItem(bs, end, i, j);
    SameItem(bs, end, j, |bs| - 1);
    SameItem(bs, end, i, |bs| - 1);
  }

  /** Cutting a used block and plugging the hole keeps lfree lowest, unless the rest of the block stays
      alone and lfree is above it. */
  lemma ShrunkLowest(bs: seq<Item>, end: nat, i: nat, n: nat, lfree: nat)
    requires Laid(bs, end) && i < |bs| - 1 && bs[i].used && FreeOrEnd(bs, lfree) && NoneBelow(bs, lfree)
    requires bs[i].at + SIZEOF_STRUCT_MEM + n < bs[i + 1].at
    ensures var l := if bs[i + 1].used then lfree else MarkJoined(Cut(bs, i, bs[i].at + SIZEOF_STRUCT_MEM + n), i + 1, lfree);
            NoneBelow(Shrunk(bs, i, n), l) <==> !(bs[i + 1].used && lfree > bs[i].at)
  {
    hide Laid, NoneBelow, Shrunk;
    var p := bs[i].at + SIZEOF_STRUCT_MEM + n;
    var k :| 0 <= k < |bs| && bs[k].at == lfree && (k == |bs| - 1 || !bs[k].used);
    LastIs(bs, end);
    SameItem(bs, end, i, k);
    SameItem(bs, end, i, i + 1);
    SameItem(bs, end, i + 1, k);
    assert Cut(bs, i, p)[i + 2] == bs[i + 1];
    var l := if bs[i + 1].used then lfree else MarkJoined(Cut(bs, i, p), i + 1, lfree);
    NotBelow(bs, lfree, i + 1);
    ShrunkFree(bs, i, n, lfree, l);
  }

  /** The free blocks after a cut are those before it, but for the one joined, and the one cut off. */
  lemma ShrunkFree(bs: seq<Item>, i: nat, n: nat, lfree: nat, l: nat)
    requires i < |bs| - 1 && NoneBelow(bs, lfree) && l <= lfree
    ensures NoneBelow(Shrunk(bs, i, n), l) <==> l <= bs[i].at + SIZEOF_STRUCT_MEM + n
  {
    var r := Shrunk(bs, i, n);
    assert r[i + 1] == Item(bs[i].at + SIZEOF_STRUCT_MEM + n, false);
    forall x | 0 <= x < |r| && x != i + 1 && !r[x].used ensures lfree <= r[x].at {
      assert r[x] == bs[if x <= i || |r| == |bs| then x else x - 1];
    }
  }

  /** Block i is free, has room for n bytes, and starts below heap size - n: the test of rt_malloc. */
  ghost predicate Fits(bs: seq<Item>, i: nat, n: nat, size: nat) {
    i < |bs| - 1 && !bs[i].used && Payload(bs, i) >= n && bs[i].at + n < size
  }

  /** No block at or above lfree passes the test. */
  ghost predicate NoFit(bs: seq<Item>, lfree: nat, n: nat, size: nat) {
    forall k: nat :: k < |bs| && lfree <= bs[k].at ==> !Fits(bs, k, n, size)
  }

  /** Block i is the first at or above lfree that passes the test. */
  ghost predicate FirstFit(bs: seq<Item>, lfree: nat, i: nat, n: nat, size: nat) {
    && i < |bs| - 1 && lfree <= bs[i].at && Fits(bs, i, n, size)
    && forall k: nat :: k < i && lfree <= bs[k].at ==> !Fits(bs, k, n, size)
  }

  /** While lfree is the lowest free block a refused request means that no free block has room for it, but for
      one that ends at the end of the heap and fits exactly. */
  lemma OnlyExactFitRefused(bs: seq<Item>, size: nat, lfree: nat, n: nat)
    requires Laid(bs, size + SIZEOF_STRUCT_MEM) && NoneBelow(bs, lfree)
    ensures NoFit(bs, lfree, n, size) <==>
            forall k: nat :: k < |bs| - 1 && !bs[k].used && Payload(bs, k) >= n ==> k == |bs| - 2 && Payload(bs, k) == n
  {
    forall k: nat | k < |bs| - 1 && !bs[k].used && Payload(bs, k) >= n
      ensures lfree <= bs[k].at
      ensures Fits(bs, k, n, size) <==> !(k == |bs| - 2 && Payload(bs, k) == n)
    {
      if k < |bs| - 2 { Ordered(bs, size + SIZEOF_STRUCT_MEM, k + 1, |bs| - 1); }
    }
  }

  /** A new heap of 100 bytes refuses a request for all of them, which its one free block would serve. */
  lemma WholeHeapRefused()
    ensures var bs := [Item(0, false), Item(100 + SIZEOF_STRUCT_MEM, true)];
            Laid(bs, 100 + SIZEOF_STRUCT_MEM) && NoneBelow(bs, 0) && Payload(bs, 0) == 100 && NoFit(bs, 0, 100, 100)
  {
  }

  /** Payloads of different blocks do not overlap, and no header lies in one. */
  lemma PayloadsApart(bs: seq<Item>, end: nat, i: nat, j: nat)
    requires Laid(bs, end) && i < |bs| - 1 && j < |bs| && i != j
    ensures bs[j].at + SIZEOF_STRUCT_MEM <= bs[i].at + SIZEOF_STRUCT_MEM || bs[i].at + SIZEOF_STRUCT_MEM + Payload(bs, i) <= bs[j].at
    ensures bs[i].at + SIZEOF_STRUCT_MEM + Payload(bs, i) <= end
  {
    if j < i { Ordered(bs, end, j, i); } else if i + 1 < j { Ordered(bs, end, i + 1, j); }
    if i + 1 < |bs| - 1 { Ordered(bs, end, i + 1, |bs| - 1); }
  }
}
