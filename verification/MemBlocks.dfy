/** The blocks a memheap pool is divided into, from the first one to the tailer. */
module MemBlocks {
  import opened Sequences

  const HEADER := 24 // RT_MEMHEAP_SIZE
  const MINIALLOC := 12

  datatype Block = Block(addr: nat, size: nat, used: bool)

  /** The address behind a block. */
  function After(b: Block): nat { b.addr + HEADER + b.size }

  /** Each block starts where the one before it ends. */
  ghost predicate Tiles(bs: seq<Block>) {
    forall i :: 0 <= i < |bs| - 1 ==> After(bs[i]) == bs[i + 1].addr
  }

  /** The blocks tile the pool, and the tailer at its end is an empty used block. */
  ghost predicate Shape(bs: seq<Block>, start: nat, pool: nat) {
    && |bs| >= 2 && pool >= 2 * HEADER && Tiles(bs) && bs[0].addr == start
    && bs[|bs| - 1] == Block(start + pool - HEADER, 0, true)
  }

  /** No two neighbouring blocks are free. */
  ghost predicate Coalesced(bs: seq<Block>) {
    forall i :: 0 <= i < |bs| - 1 ==> bs[i].used || bs[i + 1].used
  }

  function Addrs(bs: seq<Block>): (r: seq<nat>)
    ensures |r| == |bs|
  {
    seq(|bs|, i requires 0 <= i < |bs| => bs[i].addr)
  }

  /** What a block adds to the free memory. */
  function Share(b: Block): nat { if b.used then 0 else b.size }

  /** Payload bytes of the free blocks. */
  function FreeSum(bs: seq<Block>): nat {
    if bs == [] then 0 else Share(bs[0]) + FreeSum(bs[1..])
  }

  lemma {:induction false} SumConcat(a: seq<Block>, b: seq<Block>)
    ensures FreeSum(a + b) == FreeSum(a) + FreeSum(b)
  {
    if a == [] {
      assert a + b == b;
    } else {
      assert (a + b)[1..] == a[1..] + b;
      SumConcat(a[1..], b);
    }
  }

  lemma SumTwo(a: seq<Block>, x: Block, y: Block, b: seq<Block>)
    ensures FreeSum(a + [x] + [y] + b) == FreeSum(a) + Share(x) + Share(y) + FreeSum(b)
  {
    SumAround(a + [x], y, b);
    SumConcat(a, [x]);
  }

  lemma SumAround(a: seq<Block>, x: Block, b: seq<Block>)
    ensures FreeSum(a + [x] + b) == FreeSum(a) + Share(x) + FreeSum(b)
  {
    SumConcat(a + [x], b);
    SumConcat(a, [x]);
  }

  /** Blocks do not overlap: each ends before every later one starts. */
  lemma {:induction false} Ordered(bs: seq<Block>, i: nat, j: nat)
    requires Tiles(bs) && i < j < |bs|
    ensures After(bs[i]) <= bs[j].addr
    decreases j
  {
    if i < j - 1 { Ordered(bs, i, j - 1); }
    assert After(bs[j - 1]) == bs[j].addr;
  }

  lemma AddrsDistinct(bs: seq<Block>)
    requires Tiles(bs)
    ensures Distinct(Addrs(bs))
  {
    forall i, j | 0 <= i < j < |bs| ensures Addrs(bs)[i] != Addrs(bs)[j] { Ordered(bs, i, j); }
  }

  // ---------- splitting, merging, marking ----------

  /** Block i keeps n bytes; the rest of it becomes a free block. */
  function Split(bs: seq<Block>, i: nat, n: nat): seq<Block>
    requires i < |bs| && n + HEADER <= bs[i].size
  {
    bs[..i] + [bs[i].(size := n)] + [Block(bs[i].addr + HEADER + n, bs[i].size - n - HEADER, false)] + bs[i + 1..]
  }

  /** Block i takes in the block behind it. */
  function Merged(bs: seq<Block>, i: nat): seq<Block>
    requires i + 1 < |bs|
  {
    bs[..i] + [bs[i].(size := bs[i].size + HEADER + bs[i + 1].size)] + bs[i + 2..]
  }

  function Marked(bs: seq<Block>, i: nat, used: bool): seq<Block>
    requires i < |bs|
  {
    bs[i := bs[i].(used := used)]
  }

  lemma SplitShape(bs: seq<Block>, i: nat, n: nat, start: nat, pool: nat)
    requires Shape(bs, start, pool) && i < |bs| - 1 && n + HEADER <= bs[i].size
    ensures Shape(Split(bs, i, n), start, pool)
    ensures Addrs(Split(bs, i, n)) == Inserted(Addrs(bs), i + 1, bs[i].addr + HEADER + n)
  {
    var r := Split(bs, i, n);
    forall k | 0 <= k < |r| ensures r[k] == if k < i then bs[k] else if k == i then bs[i].(size := n)
        else if k == i + 1 then Block(bs[i].addr + HEADER + n, bs[i].size - n - HEADER, false) else bs[k - 1] {}
    forall k | 0 <= k < |r| - 1 ensures After(r[k]) == r[k + 1].addr {
      if k > i + 1 { assert After(bs[k - 1]) == bs[k].addr; }
    }
  }

  lemma SplitSum(bs: seq<Block>, i: nat, n: nat)
    requires i < |bs| && n + HEADER <= bs[i].size
    ensures FreeSum(Split(bs, i, n)) == FreeSum(bs) + (if bs[i].used then bs[i].size - n - HEADER else -HEADER)
  {
    hide FreeSum;
    var x, y := bs[i].(size := n), Block(bs[i].addr + HEADER + n, bs[i].size - n - HEADER, false);
    SumTwo(bs[..i], x, y, bs[i + 1..]);
    SumAround(bs[..i], bs[i], bs[i + 1..]);
    assert bs == bs[..i] + [bs[i]] + bs[i + 1..];
  }

  lemma MergedShape(bs: seq<Block>, i: nat, start: nat, pool: nat)
    requires Shape(bs, start, pool) && i + 1 < |bs| - 1
    ensures Shape(Merged(bs, i), start, pool)
    ensures Addrs(Merged(bs, i)) == Dropped(Addrs(bs), i + 1)
  {
    var r := Merged(bs, i);
    forall k | 0 <= k < |r| ensures r[k] == if k < i then bs[k]
        else if k == i then bs[i].(size := bs[i].size + HEADER + bs[i + 1].size) else bs[k + 1] {}
    forall k | 0 <= k < |r| - 1 ensures After(r[k]) == r[k + 1].addr {
      assert After(bs[k]) == bs[k + 1].addr;
      assert After(bs[k + 1]) == bs[k + 2].addr;
    }
  }

  lemma MergedSum(bs: seq<Block>, i: nat)
    requires i + 1 < |bs| && !bs[i + 1].used
    ensures FreeSum(Merged(bs, i)) as int == FreeSum(bs) + (if bs[i].used then 0 - bs[i + 1].size else HEADER)
  {
    hide FreeSum;
    var x := bs[i].(size := bs[i].size + HEADER + bs[i + 1].size);
    SumAround(bs[..i], x, bs[i + 2..]);
    SumTwo(bs[..i], bs[i], bs[i + 1], bs[i + 2..]);
    assert bs == bs[..i] + [bs[i]] + [bs[i + 1]] + bs[i + 2..];
  }

  lemma MarkedShape(bs: seq<Block>, i: nat, used: bool, start: nat, pool: nat)
    requires Shape(bs, start, pool) && i < |bs| - 1
    ensures Shape(Marked(bs, i, used), start, pool) && Addrs(Marked(bs, i, used)) == Addrs(bs)
  {
    forall k | 0 <= k < |bs| - 1 ensures After(Marked(bs, i, used)[k]) == Marked(bs, i, used)[k + 1].addr {
      assert After(bs[k]) == bs[k + 1].addr;
    }
  }

  lemma MarkedSum(bs: seq<Block>, i: nat)
    requires i < |bs|
    ensures !bs[i].used ==> FreeSum(Marked(bs, i, true)) == FreeSum(bs) - bs[i].size
    ensures bs[i].used ==> FreeSum(Marked(bs, i, false)) == FreeSum(bs) + bs[i].size
  {
    hide FreeSum;
    var x, y := bs[i].(used := true), bs[i].(used := false);
    SumAround(bs[..i], x, bs[i + 1..]);
    SumAround(bs[..i], y, bs[i + 1..]);
    assert bs[i := x] == bs[..i] + [x] + bs[i + 1..] && bs[i := y] == bs[..i] + [y] + bs[i + 1..];
    assert bs == bs[..i] + [bs[i]] + bs[i + 1..];
  }

  /** Addresses of the free blocks. */
  function FreeAddrs(bs: seq<Block>): set<nat> { set b | b in bs && !b.used :: b.addr }

  lemma FreeConcat(a: seq<Block>, b: seq<Block>)
    ensures FreeAddrs(a + b) == FreeAddrs(a) + FreeAddrs(b)
  {
    forall b' | b' in a || b' in b ensures b' in a + b {}
  }

  lemma FreeAround(a: seq<Block>, x: Block, b: seq<Block>)
    ensures FreeAddrs(a + [x] + b) == FreeAddrs(a) + (if x.used then {} else {x.addr}) + FreeAddrs(b)
  {
    FreeConcat(a + [x], b);
    FreeConcat(a, [x]);
  }

  lemma FreeTwo(a: seq<Block>, x: Block, y: Block, b: seq<Block>)
    ensures FreeAddrs(a + [x] + [y] + b) ==
            FreeAddrs(a) + (if x.used then {} else {x.addr}) + (if y.used then {} else {y.addr}) + FreeAddrs(b)
  {
    FreeAround(a + [x], y, b);
    FreeConcat(a, [x]);
  }

  lemma Elsewhere(bs: seq<Block>, i: nat)
    requires Tiles(bs) && i < |bs|
    ensures bs[i].addr !in FreeAddrs(bs[..i]) && bs[i].addr !in FreeAddrs(bs[i + 1..])
  {
    forall k | 0 <= k < |bs| && k != i ensures bs[k].addr != bs[i].addr {
      Ordered(bs, if k < i then k else i, if k < i then i else k);
    }
  }

  lemma MarkedFree(bs: seq<Block>, i: nat)
    requires Tiles(bs) && i < |bs|
    ensures FreeAddrs(Marked(bs, i, true)) == FreeAddrs(bs) - {bs[i].addr}
    ensures FreeAddrs(Marked(bs, i, false)) == FreeAddrs(bs) + {bs[i].addr}
  {
    hide FreeAddrs;
    Elsewhere(bs, i);
    var x, y := bs[i].(used := true), bs[i].(used := false);
    FreeAround(bs[..i], x, bs[i + 1..]);
    FreeAround(bs[..i], y, bs[i + 1..]);
    FreeAround(bs[..i], bs[i], bs[i + 1..]);
    assert bs[i := x] == bs[..i] + [x] + bs[i + 1..] && bs[i := y] == bs[..i] + [y] + bs[i + 1..];
    assert bs == bs[..i] + [bs[i]] + bs[i + 1..];
  }

  lemma SplitFree(bs: seq<Block>, i: nat, n: nat)
    requires i < |bs| && n + HEADER <= bs[i].size
    ensures FreeAddrs(Split(bs, i, n)) == FreeAddrs(bs) + {bs[i].addr + HEADER + n}
  {
    hide FreeAddrs;
    var x, y := bs[i].(size := n), Block(bs[i].addr + HEADER + n, bs[i].size - n - HEADER, false);
    FreeTwo(bs[..i], x, y, bs[i + 1..]);
    FreeAround(bs[..i], bs[i], bs[i + 1..]);
    assert bs == bs[..i] + [bs[i]] + bs[i + 1..];
  }

  lemma MergedFree(bs: seq<Block>, i: nat)
    requires Tiles(bs) && i + 1 < |bs| && !bs[i + 1].used
    ensures FreeAddrs(Merged(bs, i)) == FreeAddrs(bs) - {bs[i + 1].addr}
  {
    hide FreeAddrs;
    Elsewhere(bs, i + 1);
    var x := bs[i].(size := bs[i].size + HEADER + bs[i + 1].size);
    FreeAround(bs[..i], x, bs[i + 2..]);
    FreeTwo(bs[..i], bs[i], bs[i + 1], bs[i + 2..]);
    Ordered(bs, i, i + 1);
    assert bs[i + 1].addr !in FreeAddrs(bs[..i]) by {
      assert bs[..i + 1] == bs[..i] + [bs[i]];
      FreeConcat(bs[..i], [bs[i]]);
    }
    assert bs == bs[..i] + [bs[i]] + [bs[i + 1]] + bs[i + 2..];
  }

  /** A header put into the free part of a block does not touch any other header. */
  lemma InsideBlock(bs: seq<Block>, i: nat, p: nat, j: nat)
    requires Tiles(bs) && i < |bs| && j < |bs| && bs[i].addr + HEADER <= p && p + HEADER <= After(bs[i])
    ensures bs[j].addr + HEADER <= p || p + HEADER <= bs[j].addr
  {
    if j < i { Ordered(bs, j, i); } else if i < j { Ordered(bs, i, j); }
  }

  // ---------- allocation and release ----------

  /** Block i handed out for n bytes; what is left of it stays free when it is big enough. */
  function Allocated(bs: seq<Block>, i: nat, n: nat): seq<Block>
    requires i < |bs| && n <= bs[i].size
  {
    if bs[i].size >= n + HEADER + MINIALLOC then Marked(Split(bs, i, n), i, true) else Marked(bs, i, true)
  }

  lemma AllocatedCoalesced(bs: seq<Block>, i: nat, n: nat)
    requires Coalesced(bs) && i < |bs| - 1 && !bs[i].used && n <= bs[i].size
    ensures Coalesced(Allocated(bs, i, n))
  {
    var r := Allocated(bs, i, n);
    if bs[i].size >= n + HEADER + MINIALLOC {
      forall k | 0 <= k < |r| - 1 ensures r[k].used || r[k + 1].used {
        if k > i + 1 {
          assert r[k] == bs[k - 1] && r[k + 1] == bs[k];
          assert bs[k - 1].used || bs[k].used;
        } else if k == i + 1 {
          assert r[k + 1] == bs[k] && bs[i + 1].used;
        } else if k < i - 1 {
          assert r[k] == bs[k] && r[k + 1] == bs[k + 1];
        }
      }
    }
  }

  lemma AllocatedSum(bs: seq<Block>, i: nat, n: nat)
    requires i < |bs| && !bs[i].used && n <= bs[i].size
    ensures FreeSum(Allocated(bs, i, n)) ==
            FreeSum(bs) - if bs[i].size >= n + HEADER + MINIALLOC then n + HEADER else bs[i].size
  {
    hide FreeSum;
    if bs[i].size >= n + HEADER + MINIALLOC {
      SplitSum(bs, i, n);
      MarkedSum(Split(bs, i, n), i);
    } else {
      MarkedSum(bs, i);
    }
  }

  lemma {:induction false} ShareBound(bs: seq<Block>, i: nat)
    requires i < |bs| && !bs[i].used
    ensures bs[i].size <= FreeSum(bs)
  {
    if i > 0 { ShareBound(bs[1..], i - 1); }
  }

  /** Block i is free and has n bytes. */
  ghost predicate FitsIn(bs: seq<Block>, i: nat, n: nat) { i < |bs| && !bs[i].used && n <= bs[i].size }

  /** Block i is all the free memory there is, and has just n bytes. */
  ghost predicate OnlyFit(bs: seq<Block>, i: nat, n: nat) { i < |bs| && !bs[i].used && bs[i].size == n == FreeSum(bs) }

  /** Beside a block that is all the free memory no free block has a byte. */
  lemma OnlyFree(bs: seq<Block>, i: nat, k: nat)
    requires i < |bs| && k < |bs| && k != i && !bs[i].used && !bs[k].used && bs[i].size == FreeSum(bs)
    ensures bs[k].size == 0
  {
    TwoShares(bs, if k < i then k else i, if k < i then i else k);
  }

  /** The strict test against the number of free bytes refuses a request that a free block could serve if and only if
      one block is all the free memory there is and fits exactly; any other free block is then without a byte. */
  lemma ExactFitRefused(bs: seq<Block>, n: nat)
    ensures (FreeSum(bs) <= n && exists i: nat :: FitsIn(bs, i, n)) <==> exists i: nat :: OnlyFit(bs, i, n)
    ensures forall i: nat, k: nat :: OnlyFit(bs, i, n) && k < |bs| && k != i && !bs[k].used ==> bs[k].size == 0
  {
    hide FreeSum;
    forall i: nat, k: nat | OnlyFit(bs, i, n) && k < |bs| && k != i && !bs[k].used ensures bs[k].size == 0 { OnlyFree(bs, i, k); }
    forall i: nat | FitsIn(bs, i, n) && FreeSum(bs) <= n ensures OnlyFit(bs, i, n) { ShareBound(bs, i); }
    forall i: nat | OnlyFit(bs, i, n) ensures FitsIn(bs, i, n) {}
  }

  /** A pool with 40 free bytes in one block, and a request for 40 bytes. */
  lemma FortyRefused()
    ensures var bs := [Block(100, 40, false), Block(164, 0, true)];
            Shape(bs, 100, 88) && FitsIn(bs, 0, 40) && FreeSum(bs) <= 40
  {
    assert [Block(100, 40, false), Block(164, 0, true)][1..] == [Block(164, 0, true)];
    assert FreeSum([Block(164, 0, true)]) == 0;
  }

  lemma {:induction false} TwoShares(bs: seq<Block>, i: nat, j: nat)
    requires i < j < |bs| && !bs[i].used && !bs[j].used
    ensures bs[i].size + bs[j].size <= FreeSum(bs)
  {
    if i > 0 { TwoShares(bs[1..], i - 1, j - 1); } else { ShareBound(bs[1..], j - 1); }
  }

  /** Block i given back: it is merged with a free block on either side. */
  function Freed(bs: seq<Block>, i: nat): seq<Block>
    requires i < |bs| - 1
  {
    JoinedUp(Marked(bs, i, false), i)
  }

  /** Block i merged with a free block on either side. */
  function JoinedUp(bs: seq<Block>, i: nat): seq<Block>
    requires i < |bs| - 1
  {
    if i > 0 && !bs[i - 1].used then MergedRight(Merged(bs, i - 1), i - 1) else MergedRight(bs, i)
  }

  /** Block i merged with the one behind it if that is free. */
  function MergedRight(bs: seq<Block>, i: nat): seq<Block>
    requires i < |bs| - 1
  {
    if !bs[i + 1].used then Merged(bs, i) else bs
  }

  /** Merging to the right leaves block i between used neighbours, when its left one is. */
  lemma MergedRightCoalesced(bs: seq<Block>, i: nat)
    requires i < |bs| - 1 && bs[|bs| - 1].used && !bs[i].used && (i > 0 ==> bs[i - 1].used)
    requires forall k :: 0 <= k < |bs| - 1 && k != i && k != i - 1 ==> bs[k].used || bs[k + 1].used
    ensures Coalesced(MergedRight(bs, i))
  {
    var r := MergedRight(bs, i);
    if !bs[i + 1].used {
      assert bs[i + 2].used;
      forall k | 0 <= k < |r| - 1 ensures r[k].used || r[k + 1].used {
        if k > i { assert r[k] == bs[k + 1] && r[k + 1] == bs[k + 2]; } else if k == i { assert r[k + 1] == bs[i + 2]; }
      }
    }
  }

  lemma FreedCoalesced(bs: seq<Block>, i: nat)
    requires Coalesced(bs) && i < |bs| - 1 && bs[i].used && bs[|bs| - 1].used
    ensures Coalesced(Freed(bs, i))
  {
    var m := Marked(bs, i, false);
    forall k | 0 <= k < |m| - 1 && k != i && k != i - 1 ensures m[k].used || m[k + 1].used {
      assert bs[k].used || bs[k + 1].used;
    }
    if i > 0 && !bs[i - 1].used {
      var l := Merged(m, i - 1);
      forall k | 0 <= k < |l| - 1 && k != i - 1 && k != i - 2 ensures l[k].used || l[k + 1].used {
        if k >= i { assert l[k] == bs[k + 1] && l[k + 1] == bs[k + 2] && (bs[k + 1].used || bs[k + 2].used); }
        else { assert l[k] == bs[k] && l[k + 1] == bs[k + 1] && (bs[k].used || bs[k + 1].used); }
      }
      assert i > 1 ==> bs[i - 2].used;
      MergedRightCoalesced(l, i - 1);
    } else {
      MergedRightCoalesced(m, i);
    }
  }

  /** A block that was just handed out comes back as it was when it is given back. */
  lemma AllocatedThenFreed(bs: seq<Block>, i: nat, n: nat)
    requires Coalesced(bs) && i < |bs| - 1 && bs[|bs| - 1].used && !bs[i].used && n <= bs[i].size
    ensures var a := Allocated(bs, i, n); i < |a| - 1 && Freed(a, i) == bs
  {
    assert bs[i + 1].used;
    assert i > 0 ==> bs[i].used || bs[i - 1].used;
    if bs[i].size >= n + HEADER + MINIALLOC { SplitThenFreed(bs, i, n); } else { MarkedThenFreed(bs, i); }
  }

  lemma MarkedThenFreed(bs: seq<Block>, i: nat)
    requires i < |bs| - 1 && !bs[i].used && bs[i + 1].used && (i > 0 ==> bs[i - 1].used)
    ensures Freed(Marked(bs, i, true), i) == bs
  {
  }

  lemma SplitThenFreed(bs: seq<Block>, i: nat, n: nat)
    requires i < |bs| - 1 && !bs[i].used && n + HEADER <= bs[i].size && (i > 0 ==> bs[i - 1].used)
    ensures var a := Marked(Split(bs, i, n), i, true); i < |a| - 1 && Freed(a, i) == bs
  {
    var a := Split(bs, i, n);
    assert a[i] == bs[i].(size := n) && a[i + 1] == Block(bs[i].addr + HEADER + n, bs[i].size - n - HEADER, false);
    assert Marked(Marked(a, i, true), i, false) == a;
    assert a[i + 2..] == bs[i + 1..] && a[..i] == bs[..i];
    assert Merged(a, i) == bs;
  }

  /** There is never more free memory than the pool has room for. */
  lemma {:induction false} SumBound(bs: seq<Block>)
    requires Tiles(bs) && bs != []
    ensures FreeSum(bs) + bs[0].addr + HEADER <= After(bs[|bs| - 1])
  {
    if |bs| > 1 {
      assert forall k :: 0 <= k < |bs[1..]| ==> bs[1..][k] == bs[k + 1];
      assert After(bs[0]) == bs[1].addr;
      forall k | 0 <= k < |bs[1..]| - 1 ensures After(bs[1..][k]) == bs[1..][k + 1].addr {
        assert After(bs[k + 1]) == bs[k + 2].addr;
      }
      SumBound(bs[1..]);
    }
  }

  // ---------- reallocation in place ----------

  /** The used block i takes n bytes out of itself and the free block behind it. */
  function Grown(bs: seq<Block>, i: nat, n: nat): seq<Block>
    requires i < |bs| - 1 && n <= bs[i].size + bs[i + 1].size
  {
    Split(Merged(bs, i), i, n)
  }

  /** The used block i gives back all but its first n bytes. */
  function Shrunk(bs: seq<Block>, i: nat, n: nat): seq<Block>
    requires i < |bs| - 1 && n + HEADER <= bs[i].size
  {
    MergedRight(Split(bs, i, n), i + 1)
  }

  lemma GrownCoalesced(bs: seq<Block>, i: nat, n: nat)
    requires Coalesced(bs) && i < |bs| - 2 && bs[i].used && !bs[i + 1].used && n <= bs[i].size + bs[i + 1].size
    ensures Coalesced(Grown(bs, i, n))
  {
    var r := Grown(bs, i, n);
    assert bs[i + 2].used;
    forall k | 0 <= k < |r| - 1 ensures r[k].used || r[k + 1].used {
      assert r[k].used == bs[k].used && r[k + 1].used == bs[k + 1].used;
    }
  }

  lemma ShrunkCoalesced(bs: seq<Block>, i: nat, n: nat)
    requires Coalesced(bs) && i < |bs| - 1 && bs[i].used && n + HEADER <= bs[i].size && bs[|bs| - 1].used
    ensures Coalesced(Shrunk(bs, i, n))
  {
    var r := Split(bs, i, n);
    forall k | 0 <= k < |r| - 1 && k != i + 1 && k != i ensures r[k].used || r[k + 1].used {
      if k > i + 1 { assert r[k] == bs[k - 1] && r[k + 1] == bs[k]; } else { assert r[k].used == bs[k].used && r[k + 1].used == bs[k + 1].used; }
    }
    MergedRightCoalesced(r, i + 1);
  }
}
