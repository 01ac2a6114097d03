/** The small-memory heap: blocks on an ordered list, handed out first fit from the lowest free one. */
module SystemHeap {
  import opened Sequences
  import opened HeapItems

  /** RT_ALIGN to four bytes on 32-bit numbers. */
  function RtAlign(size: nat): nat { (size + 3) % 0x1_0000_0000 / 4 * 4 }

  /** The size rt_malloc looks for. */
  function Need(request: nat): nat {
    if RtAlign(request) < MIN_SIZE then MIN_SIZE else RtAlign(request)
  }

  predicate IsAligned(p: nat) { p % 4 == 0 }

  function Max(a: int, b: int): int { if a < b then b else a }

  class Heap {
    const heapPtr: nat
    const size: nat // mem_size_aligned
    var mem: map<nat, HeapMem> // the headers, by offset from heapPtr
    var lfree: nat // offset of the lowest free block
    var usedMem: int
    var maxMem: int
    ghost var blocks: seq<Item> // all blocks in address order, the end sentinel last

    /** Offset of the end sentinel. */
    function End(): nat { size + SIZEOF_STRUCT_MEM }

    /** The headers describe the blocks. */
    ghost predicate Physical()
      reads this`mem, this`blocks
    {
      Laid(blocks, End()) && Linked(blocks, mem)
    }

    ghost predicate Valid()
      reads this
    {
      && Physical() && Coalesced(blocks) && FreeOrEnd(blocks, lfree)
      && usedMem == UsedSum(blocks) <= maxMem
      && IsAligned(heapPtr) && heapPtr + End() + SIZEOF_STRUCT_MEM < 0x1_0000_0000
    }

    /** lfree is the lowest free block. Freeing and allocating keep this; reallocating may not. */
    ghost predicate Lowest()
      reads this`blocks, this`lfree
    {
      NoneBelow(blocks, lfree)
    }

    /** rt_system_heap_init, for a region with room for two headers; for another one there is no heap. */
    constructor (beginAddr: nat, endAddr: nat)
      requires beginAddr <= 0xFFFF_FFFC && endAddr < 0x1_0000_0000
      requires Room(beginAddr, endAddr)
      ensures Valid() && Lowest() && usedMem == maxMem == 0
      ensures heapPtr == RtAlign(beginAddr) && heapPtr + size + 2 * SIZEOF_STRUCT_MEM == endAddr / 4 * 4
      ensures blocks == [Item(0, false), Item(End(), true)]
    {
      hide RtAlign, Laid, Linked, Coalesced, UsedSum, FreeOrEnd, NoneBelow;
      Aligns(beginAddr);
      var beginAlign := RtAlign(beginAddr);
      var endAlign := endAddr / 4 * 4;
      heapPtr, size := beginAlign, endAlign - beginAlign - 2 * SIZEOF_STRUCT_MEM;
      var end := endAlign - beginAlign - SIZEOF_STRUCT_MEM;
      mem := map[0 := HeapMem(false, end, 0), end := HeapMem(true, end, end)];
      lfree, usedMem, maxMem := 0, 0, 0;
      blocks := [Item(0, false), Item(end, true)];
      new;
      FirstBlocks(end);
    }

    /** Set or clear the used bit of block i. */
    method Mark(h: nat, inUse: bool, ghost i: nat)
      requires Physical() && i < |blocks| - 1 && blocks[i].at == h
      modifies this`mem, this`blocks
      ensures Physical() && blocks == Marked(old(blocks), i, inUse)
    {
      hide Laid, Linked;
      MarkedLaid(blocks, End(), i, inUse);
      MarkedLinked(blocks, End(), mem, i, inUse);
      mem := mem[h := mem[h].(used := inUse)];
      blocks := Marked(blocks, i, inUse);
    }

    /** Write the header of a free block at p inside block i, and link it in behind that block. */
    method CutBlock(h: nat, p: nat, ghost i: nat)
      requires Physical() && i < |blocks| - 1 && blocks[i].at == h && p % 4 == 0
      requires h + SIZEOF_STRUCT_MEM <= p && p + SIZEOF_STRUCT_MEM <= blocks[i + 1].at
      modifies this`mem, this`blocks
      ensures Physical() && blocks == Cut(old(blocks), i, p)
    {
      hide Laid, Linked;
      CutLaid(blocks, End(), i, p);
      CutLinked(blocks, End(), mem, i, p);
      var next := mem[h].next;
      mem := map q | q in mem && (q == p || q + SIZEOF_STRUCT_MEM <= p || p + SIZEOF_STRUCT_MEM <= q) :: mem[q];
      mem := mem[p := HeapMem(false, next, h)];
      mem := mem[h := mem[h].(next := p)];
      if next != End() { mem := mem[next := mem[next].(prev := p)]; }
      blocks := Cut(blocks, i, p);
    }

    /** Let block i take in the free block n behind it, which lfree may point at. */
    method JoinBlock(h: nat, n: nat, ghost i: nat)
      requires Physical() && FreeOrEnd(blocks, lfree) && i + 1 < |blocks| - 1
      requires blocks[i].at == h && blocks[i + 1].at == n && !blocks[i].used && !blocks[i + 1].used
      modifies this`mem, this`lfree, this`blocks
      ensures Physical() && FreeOrEnd(blocks, lfree) && blocks == Joined(old(blocks), i)
      ensures lfree == MarkJoined(old(blocks), i, old(lfree))
      ensures UsedSum(blocks) == UsedSum(old(blocks)) && (old(Lowest()) ==> Lowest())
    {
      hide Laid, Linked, UsedSum, FreeOrEnd, NoneBelow;
      JoinedLaid(blocks, End(), i);
      JoinedLinked(blocks, End(), mem, i);
      JoinedMark(blocks, End(), i, lfree);
      JoinedSum(blocks, i);
      if lfree == n { lfree := h; }
      var behind := mem[n].next;
      mem := mem[h := mem[h].(next := behind)];
      mem := mem[behind := mem[behind].(prev := h)];
      blocks := Joined(blocks, i);
    }

    /** plug_holes: join the free block i with the free blocks on either side. */
    method PlugHoles(h: nat, ghost i: nat)
      requires Physical() && FreeOrEnd(blocks, lfree) && i < |blocks| - 1 && blocks[i].at == h && !blocks[i].used
      modifies this`mem, this`lfree, this`blocks
      ensures Physical() && FreeOrEnd(blocks, lfree) && blocks == JoinLeft(JoinRight(old(blocks), i), i)
      ensures UsedSum(blocks) == UsedSum(old(blocks)) && (old(Lowest()) ==> Lowest())
      ensures lfree == MarkPlugged(old(blocks), i, old(lfree))
    {
      hide Laid, Linked, UsedSum, FreeOrEnd, NoneBelow;
      Neighbours(blocks, End(), mem, i);
      var n := mem[h].next;
      if h != n && !mem[n].used && n != End() {
        JoinBlock(h, n, i);
        JoinedPart(old(blocks), i);
      }
      Neighbours(blocks, End(), mem, i);
      var p := mem[h].prev;
      if p != h && !mem[p].used { JoinBlock(p, h, i - 1); }
    }

    /** Walk lfree up from block i to the next free block or the end. */
    method RaiseLowest(ghost i: nat)
      requires Physical() && i < |blocks| && blocks[i].at == lfree
      modifies this`lfree
      ensures FreeOrEnd(blocks, lfree)
      ensures forall j :: i <= j < |blocks| && !blocks[j].used ==> lfree <= blocks[j].at
      ensures lfree == NextFree(blocks, i)
    {
      ghost var k := i;
      Header(blocks, End(), mem, k);
      while mem[lfree].used && lfree != End()
        invariant i <= k < |blocks| && blocks[k].at == lfree && lfree in mem && mem[lfree].used == blocks[k].used
        invariant (lfree == End()) == (k == |blocks| - 1)
        invariant forall j :: i <= j < k ==> blocks[j].used
        invariant NextFree(blocks, i) == NextFree(blocks, k)
        decreases |blocks| - k
      {
        Header(blocks, End(), mem, k);
        lfree := mem[lfree].next;
        k := k + 1;
        Header(blocks, End(), mem, k);
      }
      Below(blocks, End(), k);
    }

    /** The search of rt_malloc: up from lfree to the first block that passes the test. */
    method FindFit(n: nat) returns (h: nat, found: bool, ghost i: nat)
      requires Physical() && FreeOrEnd(blocks, lfree) && n <= size
      ensures found ==> FirstFit(blocks, lfree, i, n, size) && blocks[i].at == h
      ensures !found ==> NoFit(blocks, lfree, n, size)
    {
      hide Laid, Linked, Fits;
      i :| 0 <= i < |blocks| && blocks[i].at == lfree && (i == |blocks| - 1 || !blocks[i].used);
      h := lfree;
      Below(blocks, End(), i);
      while h < size - n
        invariant i < |blocks| && blocks[i].at == h && lfree <= h
        invariant forall k: nat :: k < i && lfree <= blocks[k].at ==> !Fits(blocks, k, n, size)
        decreases |blocks| - i
      {
        Test(blocks, size, mem, i, n);
        if !mem[h].used && mem[h].next - (h + SIZEOF_STRUCT_MEM) >= n { return h, true, i; }
        h := mem[h].next;
        i := i + 1;
      }
      found := false;
      PastFits(blocks, size, i, n);
      Below(blocks, End(), i);
    }

    /** Hand out block i for n bytes: split it when the rest can hold a block, and count what is handed out. */
    method Take(h: nat, n: nat, ghost i: nat)
      requires Physical() && i < |blocks| - 1 && blocks[i].at == h && !blocks[i].used && Payload(blocks, i) >= n && IsAligned(n)
      modifies this`mem, this`blocks, this`usedMem, this`maxMem
      ensures Physical() && blocks == Allocated(old(blocks), i, n) && i < |blocks| && blocks[i].at == h
      ensures usedMem == old(usedMem) + TakenBytes(old(blocks), i, n) && maxMem == Max(old(maxMem), usedMem)
    {
      hide Laid, Linked;
      ghost var bs := blocks;
      Header(bs, End(), mem, i);
      Multiple(bs, End(), i);
      if mem[h].next - (h + SIZEOF_STRUCT_MEM) >= n + SIZEOF_STRUCT_MEM + MIN_SIZE {
        CutBlock(h, h + SIZEOF_STRUCT_MEM + n, i);
        usedMem := usedMem + n + SIZEOF_STRUCT_MEM;
        CutPart(bs, i, h + SIZEOF_STRUCT_MEM + n);
      } else {
        usedMem := usedMem + mem[h].next - h;
      }
      if maxMem < usedMem { maxMem := usedMem; }
      Mark(h, true, i);
    }

    /** The search for a block comes to an end; TooSmall says what happens otherwise. */
    predicate Ends(request: nat) { MIN_SIZE <= size || request == 0 || RtAlign(request) > size }

    /** rt_malloc: 0, with nothing changed, exactly when the request is empty, larger than the heap, or met by no
        block from lfree on; otherwise the first block that is big enough. */
    method Malloc(request: nat) returns (ptr: nat, ghost i: nat)
      requires Valid() && request < 0x1_0000_0000 && Ends(request)
      modifies this
      ensures Valid() && (old(Lowest()) ==> Lowest())
      ensures ptr == 0 <==> request == 0 || RtAlign(request) > size || NoFit(old(blocks), old(lfree), Need(request), size)
      ensures ptr == 0 ==> unchanged(this)
      ensures ptr != 0 ==> TakenAt(old(blocks), old(lfree), size, heapPtr, Need(request), ptr, blocks, lfree, i)
      ensures ptr != 0 ==> IsAligned(ptr) && maxMem == Max(old(maxMem), usedMem)
    {
      hide Laid, Linked, Coalesced, UsedSum, FreeOrEnd, NoneBelow, Allocated, FirstFit, NoFit, RtAlign, Need, Payload, TakenBytes, IsAligned;
      i := 0;
      if request == 0 { return 0, 0; }
      Aligns(request);
      NeedIs(request);
      var n := RtAlign(request);
      if n > size { return 0, 0; }
      if n < MIN_SIZE { n := MIN_SIZE; }
      var h, found;
      h, found, i := FindFit(n);
      if !found { return 0, 0; }
      FitFacts(blocks, End(), lfree, i, n, size);
      ghost var bs := blocks;
      AllocatedFacts(bs, End(), i, n, lfree);
      Take(h, n, i);
      if h == lfree {
        RaiseLowest(i);
        AllBelow(bs, End(), i, n, h, lfree);
      }
      AlignedSum(heapPtr, h);
      ptr := heapPtr + h + SIZEOF_STRUCT_MEM;
    }

    /** The pointer lies in the heap. */
    predicate InHeap(ptr: nat) { heapPtr <= ptr < heapPtr + End() }

    /** A pointer that was handed out and not given back. */
    ghost predicate Live(ptr: nat)
      reads this`blocks
    {
      exists i: nat :: LiveAt(ptr, i)
    }

    ghost predicate LiveAt(ptr: nat, i: nat)
      reads this`blocks
    {
      i < |blocks| - 1 && blocks[i].used && ptr == heapPtr + blocks[i].at + SIZEOF_STRUCT_MEM
    }

    /** The block of a handed-out pointer. */
    ghost function IndexFor(ptr: nat): (i: nat)
      reads this`blocks
      requires Live(ptr)
      ensures LiveAt(ptr, i)
    {
      var i: nat :| LiveAt(ptr, i);
      i
    }

    /** A pointer belongs to one block only. */
    lemma OnePlace(ptr: nat, i: nat)
      requires Physical() && LiveAt(ptr, i)
      ensures Live(ptr) && IndexFor(ptr) == i
    {
      SameItem(blocks, End(), i, IndexFor(ptr));
    }

    /** rt_free: the block becomes free, and one with the free blocks next to it. */
    method Free(rmem: nat)
      requires Valid() && (rmem != 0 && InHeap(rmem) ==> Live(rmem))
      modifies this
      ensures Valid() && (old(Lowest()) ==> Lowest()) && maxMem == old(maxMem)
      ensures if rmem != 0 && InHeap(rmem) then blocks == Freed(old(blocks), old(IndexFor(rmem))) else unchanged(this)
      ensures rmem != 0 && InHeap(rmem) ==> lfree == MarkFreed(old(blocks), old(IndexFor(rmem)), old(lfree))
      ensures rmem != 0 && InHeap(rmem) ==> usedMem == old(usedMem) - old(Extent(blocks, IndexFor(rmem)))
    {
      hide Laid, Linked, Coalesced, UsedSum, FreeOrEnd, NoneBelow, Freed, Marked, JoinLeft, JoinRight;
      if rmem == 0 || rmem < heapPtr || rmem >= heapPtr + End() { return; }
      ghost var i := IndexFor(rmem);
      ghost var bs := blocks;
      FreedFacts(bs, End(), i, lfree);
      PluggedIsFreed(bs, End(), i, lfree);
      Header(bs, End(), mem, i);
      var h := rmem - SIZEOF_STRUCT_MEM - heapPtr;
      Mark(h, false, i);
      Header(blocks, End(), mem, i);
      if h < lfree { lfree := h; }
      usedMem := usedMem - (mem[h].next - h);
      PlugHoles(h, i);
    }

    /** rt_realloc to a size well below the block's: the rest becomes free, joined with a free block behind it. */
    method Shrink(h: nat, n: nat, ghost i: nat)
      requires Valid() && i < |blocks| - 1 && blocks[i].at == h && blocks[i].used && n % 4 == 0
      requires n + SIZEOF_STRUCT_MEM + MIN_SIZE < Payload(blocks, i)
      modifies this
      ensures Valid() && maxMem == old(maxMem) && blocks == Shrunk(old(blocks), i, n)
      ensures old(Lowest()) ==> (Lowest() <==> !(old(blocks)[i + 1].used && old(lfree) > h))
      ensures lfree == MarkShrunk(old(blocks), i, n, old(lfree))
    {
      hide Laid, Linked, Coalesced, UsedSum, FreeOrEnd, NoneBelow, Shrunk, Cut, JoinLeft, JoinRight;
      ghost var bs := blocks;
      ShrunkFacts(bs, End(), i, n, lfree);
      Header(bs, End(), mem, i);
      usedMem := usedMem - (mem[h].next - h - SIZEOF_STRUCT_MEM - n);
      var p := h + SIZEOF_STRUCT_MEM + n;
      CutBlock(h, p, i);
      PlugHoles(p, i + 1);
      ShrunkIs(bs, i, n);
    }

    /** rt_realloc. */
    method Realloc(rmem: nat, newsize: nat) returns (r: nat, ghost i: nat)
      requires Valid() && (rmem != 0 && InHeap(rmem) ==> Live(rmem)) && newsize < 0x1_0000_0000 && Ends(RtAlign(newsize))
      modifies this
      ensures Valid()
      ensures RtAlign(newsize) > size ==> r == 0 && unchanged(this)
      ensures RtAlign(newsize) == 0 ==>
                && r == 0
                && if rmem != 0 && InHeap(rmem)
                   then blocks == Freed(old(blocks), old(IndexFor(rmem))) && lfree == MarkFreed(old(blocks), old(IndexFor(rmem)), old(lfree))
                   else unchanged(this)
      ensures 0 < RtAlign(newsize) <= size && rmem == 0 ==>
                AllocatedFrom(old(blocks), old(lfree), size, heapPtr, Need(newsize), r, blocks, lfree, i)
      ensures 0 < RtAlign(newsize) <= size && rmem != 0 && !InHeap(rmem) ==> r == rmem && unchanged(this)
      ensures 0 < RtAlign(newsize) <= size && rmem != 0 && InHeap(rmem) ==>
                Reallocated(old(blocks), old(lfree), size, heapPtr, old(IndexFor(rmem)), rmem, RtAlign(newsize), r, blocks, lfree, i)
      ensures maxMem == Max(old(maxMem), usedMem + if r != 0 && rmem != 0 && InHeap(rmem) && r != rmem then old(Extent(blocks, IndexFor(rmem))) else 0)
      ensures old(Lowest()) && !Lowest() <==>
                old(Lowest()) && old(LeavesHole(rmem, RtAlign(newsize)))
    {
      hide Laid, Linked, Coalesced, UsedSum, FreeOrEnd, NoneBelow, Shrunk, Freed, Allocated, NoFit, FirstFit, RtAlign, Need;
      i := 0;
      Aligns(newsize);
      var n := RtAlign(newsize);
      if n > size { return 0, i; }
      if n == 0 {
        Free(rmem);
        return 0, i;
      }
      if rmem == 0 {
        r, i := Malloc(n);
        return;
      }
      if rmem < heapPtr || rmem >= heapPtr + End() { return rmem, i; }
      ghost var at := IndexFor(rmem);
      ghost var bs, lfree0 := blocks, lfree;
      var h := rmem - SIZEOF_STRUCT_MEM - heapPtr;
      Header(bs, End(), mem, at);
      var payload := mem[h].next - h - SIZEOF_STRUCT_MEM;
      if payload == n { return rmem, i; }
      if n + SIZEOF_STRUCT_MEM + MIN_SIZE < payload {
        Shrink(h, n, at);
        return rmem, i;
      }
      r, i := MoveBlock(rmem, n, at);
    }

    /** rt_realloc to another place: a new block is handed out, and then the old one given back. */
    method MoveBlock(rmem: nat, n: nat, ghost at: nat) returns (r: nat, ghost k: nat)
      requires Valid() && rmem != 0 && InHeap(rmem) && LiveAt(rmem, at) && 0 < n <= size < 0x1_0000_0000 && Ends(n) && RtAlign(n) == n
      modifies this
      ensures Valid() && (old(Lowest()) ==> Lowest()) && r != rmem
      ensures r == 0 <==> NoFit(old(blocks), old(lfree), Need(n), size)
      ensures if r == 0 then unchanged(this)
              else MovedTo(old(blocks), old(lfree), size, heapPtr, at, Need(n), r, blocks, lfree, k)
                   && maxMem == Max(old(maxMem), usedMem + old(Extent(blocks, at)))
    {
      hide Laid, Linked, Coalesced, UsedSum, FreeOrEnd, NoneBelow, Shrunk, Freed, Allocated, NoFit, FirstFit, RtAlign, Need, MarkTaken, MarkFreed;
      ghost var bs, lfree0 := blocks, lfree;
      r, k := Malloc(n);
      if r != 0 {
        TakenFacts(bs, lfree0, size, heapPtr, Need(n), r, blocks, lfree, k);
        StillLive(bs, k, Need(n), at);
        SameItem(bs, End(), at, k);
        ghost var j := at + if k < at then |blocks| - |bs| else 0;
        assert LiveAt(rmem, j);
        OnePlace(rmem, j);
        Free(rmem);
      }
    }

    /** rt_realloc will cut off a rest that stays a block of its own, below lfree. */
    ghost predicate LeavesHole(rmem: nat, n: nat)
      reads this`blocks, this`lfree
    {
      && 0 < n <= size && rmem != 0 && InHeap(rmem) && Live(rmem)
      && var i := IndexFor(rmem);
         n + SIZEOF_STRUCT_MEM + MIN_SIZE < Payload(blocks, i) && blocks[i + 1].used && lfree > blocks[i].at
    }

    /** The count of used memory stays within the heap. */
    lemma UsedInRange()
      requires Valid()
      ensures 0 <= usedMem <= End()
    {
      SumBound(blocks);
    }
  }

  /** Block i handed out: the first one from lfree on that has room for n bytes. */
  ghost predicate TakenAt(bs: seq<Item>, lfree: nat, size: nat, heapPtr: nat, n: nat, ptr: nat, rs: seq<Item>, rl: nat, i: nat) {
    && FirstFit(bs, lfree, i, n, size) && ptr == heapPtr + bs[i].at + SIZEOF_STRUCT_MEM
    && rs == Allocated(bs, i, n) && rl == MarkTaken(bs, i, n, lfree)
  }

  /** What rt_malloc makes of the blocks. */
  ghost predicate AllocatedFrom(bs: seq<Item>, lfree: nat, size: nat, heapPtr: nat, n: nat, ptr: nat, rs: seq<Item>, rl: nat, i: nat) {
    && (ptr == 0 <==> NoFit(bs, lfree, n, size))
    && if ptr == 0 then rs == bs && rl == lfree else TakenAt(bs, lfree, size, heapPtr, n, ptr, rs, rl, i)
  }

  /** What rt_realloc makes of the blocks, for block i and a rounded size n. */
  ghost predicate Reallocated(bs: seq<Item>, lfree: nat, size: nat, heapPtr: nat, i: nat, rmem: nat, n: nat, r: nat, rs: seq<Item>, rl: nat, k: nat)
    requires i < |bs| - 1
  {
    if n == Payload(bs, i) then
      r == rmem && rs == bs && rl == lfree
    else if n + SIZEOF_STRUCT_MEM + MIN_SIZE < Payload(bs, i) then
      r == rmem && rs == Shrunk(bs, i, n) && rl == MarkShrunk(bs, i, n, lfree)
    else
      && (r == 0 <==> NoFit(bs, lfree, Need(n), size))
      && if r == 0 then rs == bs && rl == lfree else MovedTo(bs, lfree, size, heapPtr, i, Need(n), r, rs, rl, k)
  }

  /** Block k handed out in place of block i. */
  ghost predicate MovedTo(bs: seq<Item>, lfree: nat, size: nat, heapPtr: nat, i: nat, n: nat, r: nat, rs: seq<Item>, rl: nat, k: nat)
    requires i < |bs| - 1
  {
    && k < |bs| - 1 && TakenAt(bs, lfree, size, heapPtr, n, r, Allocated(bs, k, n), MarkTaken(bs, k, n, lfree), k)
    && var mid := Allocated(bs, k, n);
       var j := i + if k < i then |mid| - |bs| else 0;
       && 0 <= j < |mid| - 1 && rs == Freed(mid, j) && rl == MarkFreed(mid, j, MarkTaken(bs, k, n, lfree))
  }

  /** The heap as one free block. */
  lemma FirstBlocks(end: nat)
    requires end >= SIZEOF_STRUCT_MEM && end % 4 == 0
    ensures var bs, m := [Item(0, false), Item(end, true)], map[0 := HeapMem(false, end, 0), end := HeapMem(true, end, end)];
            && Laid(bs, end) && Linked(bs, m) && Coalesced(bs) && UsedSum(bs) == 0 && FreeOrEnd(bs, 0) && NoneBelow(bs, 0)
  {
    var bs := [Item(0, false), Item(end, true)];
    assert bs[1..] == [Item(end, true)];
    assert bs[0].at == 0;
  }

  /** The headers next to the one of block i. */
  lemma Neighbours(bs: seq<Item>, end: nat, m: map<nat, HeapMem>, i: nat)
    requires Laid(bs, end) && Linked(bs, m) && i < |bs| - 1
    ensures bs[i].at in m && m[bs[i].at].next == bs[i + 1].at && bs[i + 1].at in m && m[bs[i + 1].at].used == bs[i + 1].used
    ensures bs[i].at < bs[i + 1].at && (bs[i + 1].at == end <==> i + 1 == |bs| - 1) && bs[|bs| - 1] == Item(end, true)
    ensures m[bs[i].at].prev == bs[if i > 0 then i - 1 else 0].at && m[bs[i].at].prev in m
    ensures i > 0 ==> m[bs[i].at].prev < bs[i].at && m[m[bs[i].at].prev].used == bs[i - 1].used
    ensures i == 0 ==> m[bs[i].at].prev == bs[i].at
  {
    hide Laid, HeaderIs;
    LastIs(bs, end);
    SameItem(bs, end, i + 1, |bs| - 1);
    Header(bs, end, m, i);
    Header(bs, end, m, i + 1);
    Header(bs, end, m, if i > 0 then i - 1 else 0);
  }

  /** The header of block i. */
  lemma Header(bs: seq<Item>, end: nat, m: map<nat, HeapMem>, i: nat)
    requires Laid(bs, end) && Linked(bs, m) && i < |bs|
    ensures bs[i].at in m && m[bs[i].at].used == bs[i].used
    ensures i < |bs| - 1 ==> m[bs[i].at].next == bs[i + 1].at >= bs[i].at + SIZEOF_STRUCT_MEM
    ensures i < |bs| - 1 ==> m[bs[i].at].prev == bs[if i > 0 then i - 1 else 0].at
    ensures i > 0 ==> bs[i - 1].at < bs[i].at
    ensures bs[i].at == end <==> i == |bs| - 1
  {
    assert HeaderIs(bs, m, i);
    SameItem(bs, end, i, |bs| - 1);
  }

  /** What the search looks at in the header of a block that starts low enough. */
  lemma Test(bs: seq<Item>, size: nat, m: map<nat, HeapMem>, i: nat, n: nat)
    requires Laid(bs, size + SIZEOF_STRUCT_MEM) && Linked(bs, m) && i < |bs| && bs[i].at + n < size
    ensures i + 1 < |bs| && bs[i].at in m && m[bs[i].at].next == bs[i + 1].at > bs[i].at
    ensures Fits(bs, i, n, size) <==> !m[bs[i].at].used && m[bs[i].at].next - (bs[i].at + SIZEOF_STRUCT_MEM) >= n
  {
    hide Laid, Linked;
    Header(bs, size + SIZEOF_STRUCT_MEM, m, i);
  }

  lemma PastFits(bs: seq<Item>, size: nat, i: nat, n: nat)
    requires Laid(bs, size + SIZEOF_STRUCT_MEM) && i < |bs| && bs[i].at + n >= size
    ensures forall k: nat :: i <= k < |bs| ==> !Fits(bs, k, n, size)
  {
    forall k: nat | i <= k < |bs| ensures !Fits(bs, k, n, size) { SameItem(bs, size + SIZEOF_STRUCT_MEM, i, k); }
  }

  lemma Below(bs: seq<Item>, end: nat, i: nat)
    requires Laid(bs, end) && i < |bs|
    ensures forall k: nat :: k < |bs| ==> (bs[k].at < bs[i].at <==> k < i)
  {
    forall k: nat | k < |bs| ensures bs[k].at < bs[i].at <==> k < i { SameItem(bs, end, k, i); }
  }

  lemma JoinedPart(bs: seq<Item>, i: nat)
    requires i + 1 < |bs|
    ensures |Joined(bs, i)| == |bs| - 1 && forall k :: 0 <= k <= i ==> Joined(bs, i)[k] == bs[k]
  {
  }

  lemma AlignedSum(a: nat, b: nat)
    requires IsAligned(a) && IsAligned(b)
    ensures IsAligned(a + b + SIZEOF_STRUCT_MEM)
  {
  }

  lemma NeedIs(request: nat)
    ensures Need(request) == if RtAlign(request) < MIN_SIZE then MIN_SIZE else RtAlign(request)
  {
  }

  /** Rounding up, for sizes that do not wrap around. */
  lemma Aligns(request: nat)
    requires request < 0x1_0000_0000
    ensures IsAligned(RtAlign(request)) && IsAligned(MIN_SIZE) && RtAlign(RtAlign(request)) == RtAlign(request) < 0x1_0000_0000
    ensures Need(RtAlign(request)) == Need(request)
    ensures request <= 0xFFFF_FFFC ==> request <= RtAlign(request) < request + 4
  {
  }

  /** The size looked for covers the request if and only if rounding does not wrap around. */
  lemma NeedCovers(request: nat)
    requires request < 0x1_0000_0000
    ensures request <= Need(request) <==> request <= 0xFFFF_FFFC
  {
  }

  /** A request near 4 GB comes out as the smallest one. */
  lemma RequestWraps()
    ensures RtAlign(0xFFFF_FFFD) == 0 && Need(0xFFFF_FFFD) == Need(1) == 12
  {
  }

  /** In a heap smaller than the smallest block no block is ever big enough, the bound of the search wraps around to more
      than any offset in the heap, and the walk stays at the end sentinel: rt_malloc does not return. */
  lemma TooSmall(bs: seq<Item>, m: map<nat, HeapMem>, size: nat)
    requires Laid(bs, size + SIZEOF_STRUCT_MEM) && Linked(bs, m) && size < MIN_SIZE
    ensures forall k: nat :: k < |bs| - 1 ==> Payload(bs, k) < MIN_SIZE
    ensures forall k: nat :: k < |bs| ==> bs[k].at < (size - MIN_SIZE) % 0x1_0000_0000
    ensures var end := size + SIZEOF_STRUCT_MEM; end in m && m[end].used && m[end].next == end
  {
    var end := size + SIZEOF_STRUCT_MEM;
    forall k: nat | k < |bs| ensures bs[k].at <= end {
      if k < |bs| - 1 { Ordered(bs, end, k, |bs| - 1); }
    }
    forall k: nat | k < |bs| - 1 ensures Payload(bs, k) < MIN_SIZE { assert bs[k + 1].at <= end; }
    assert HeaderIs(bs, m, |bs| - 1);
  }

  /** rt_system_heap_init accepts the region: there is room for two headers. */
  predicate Room(beginAddr: nat, endAddr: nat) {
    2 * SIZEOF_STRUCT_MEM < endAddr / 4 * 4 && RtAlign(beginAddr) + 2 * SIZEOF_STRUCT_MEM <= endAddr / 4 * 4
  }

  /** A region of 32 bytes is accepted and leaves a heap of 8, in which a request for one byte is searched for. */
  lemma SmallRegion()
    ensures Room(0x2000_0000, 0x2000_0020) && RtAlign(0x2000_0000) + 8 + 2 * SIZEOF_STRUCT_MEM == 0x2000_0020 / 4 * 4
    ensures 8 < MIN_SIZE && RtAlign(1) <= 8
    ensures var bs := [Item(0, false), Item(20, true)];
            Laid(bs, 8 + SIZEOF_STRUCT_MEM) && Linked(bs, map[0 := HeapMem(false, 20, 0), 20 := HeapMem(true, 20, 20)])
  {
    FirstBlocks(20);
  }

  lemma FitFacts(bs: seq<Item>, end: nat, lfree: nat, i: nat, n: nat, size: nat)
    requires Laid(bs, end) && FirstFit(bs, lfree, i, n, size)
    ensures !NoFit(bs, lfree, n, size) && i < |bs| - 1 && !bs[i].used && Payload(bs, i) >= n && IsAligned(bs[i].at)
  {
  }

  /** What used_mem grows by when block i is handed out for n bytes. */
  function TakenBytes(bs: seq<Item>, i: nat, n: nat): int
    requires i < |bs| - 1
  {
    if Payload(bs, i) >= n + SIZEOF_STRUCT_MEM + MIN_SIZE then n + SIZEOF_STRUCT_MEM else Extent(bs, i)
  }

  lemma Multiple(bs: seq<Item>, end: nat, i: nat)
    requires Laid(bs, end) && i < |bs|
    ensures bs[i].at % 4 == 0
  {
  }

  lemma AllocatedSum(bs: seq<Item>, i: nat, n: nat)
    requires i < |bs| - 1 && !bs[i].used
    ensures UsedSum(Allocated(bs, i, n)) == UsedSum(bs) + TakenBytes(bs, i, n)
  {
    hide UsedSum, Cut, Marked;
    var p := bs[i].at + SIZEOF_STRUCT_MEM + n;
    if Payload(bs, i) >= n + SIZEOF_STRUCT_MEM + MIN_SIZE {
      CutSum(bs, i, p);
      CutPart(bs, i, p);
      MarkedSum(Cut(bs, i, p), i, true);
    } else {
      MarkedSum(bs, i, true);
    }
  }

  lemma AllocatedFacts(bs: seq<Item>, end: nat, i: nat, n: nat, lfree: nat)
    requires Laid(bs, end) && Coalesced(bs) && FreeOrEnd(bs, lfree) && i < |bs| - 1 && !bs[i].used && Payload(bs, i) >= n
    ensures var r := Allocated(bs, i, n);
            && UsedSum(r) == UsedSum(bs) + TakenBytes(bs, i, n) && Coalesced(r)
            && (lfree != bs[i].at ==> FreeOrEnd(r, lfree))
            && (lfree != bs[i].at && NoneBelow(bs, lfree) ==> NoneBelow(r, lfree))
  {
    hide Coalesced, UsedSum, Allocated, Laid;
    AllocatedCoalesced(bs, i, n);
    AllocatedSum(bs, i, n);
    AllocatedItems(bs, i, n);
    var r := Allocated(bs, i, n);
    var k :| 0 <= k < |bs| && bs[k].at == lfree && (k == |bs| - 1 || !bs[k].used);
    if k != i { assert r[if k <= i || |r| == |bs| then k else k + 1] == bs[k]; }
  }

  lemma TakenFacts(bs: seq<Item>, lfree: nat, size: nat, heapPtr: nat, n: nat, ptr: nat, rs: seq<Item>, rl: nat, i: nat)
    requires TakenAt(bs, lfree, size, heapPtr, n, ptr, rs, rl, i)
    ensures i < |bs| - 1 && !bs[i].used && rs == Allocated(bs, i, n)
  {
  }

  lemma AllocatedItems(bs: seq<Item>, i: nat, n: nat)
    requires i < |bs| - 1 && !bs[i].used
    ensures var r := Allocated(bs, i, n);
            && r[i] == Item(bs[i].at, true)
            && (|r| == |bs| || (|r| == |bs| + 1 && r[i + 1] == Item(bs[i].at + SIZEOF_STRUCT_MEM + n, false)))
            && forall k :: 0 <= k < |r| && k != i && (k != i + 1 || |r| == |bs|) ==> r[k] == bs[if k <= i || |r| == |bs| then k else k - 1]
  {
  }

  lemma CutPart(bs: seq<Item>, i: nat, p: nat)
    requires i < |bs| - 1
    ensures var r := Cut(bs, i, p); |r| == |bs| + 1 && r[i] == bs[i] && r[i + 1] == Item(p, false) && r[i + 2] == bs[i + 1]
  {
  }

  /** When the lowest free block is handed out every block below it is in use. */
  lemma AllBelow(bs: seq<Item>, end: nat, i: nat, n: nat, h: nat, lfree: nat)
    requires Laid(bs, end) && i < |bs| - 1 && bs[i].at == h && !bs[i].used
    requires var r := Allocated(bs, i, n); forall j :: i <= j < |r| && !r[j].used ==> lfree <= r[j].at
    ensures NoneBelow(bs, h) ==> NoneBelow(Allocated(bs, i, n), lfree)
  {
    AllocatedItems(bs, i, n);
    if NoneBelow(bs, h) {
      forall j | 0 <= j < i ensures Allocated(bs, i, n)[j].used { SameItem(bs, end, j, i); }
    }
  }

  lemma FreedFacts(bs: seq<Item>, end: nat, i: nat, lfree: nat)
    requires Laid(bs, end) && Coalesced(bs) && FreeOrEnd(bs, lfree) && i < |bs| - 1 && bs[i].used
    ensures var m, l := Marked(bs, i, false), if bs[i].at < lfree then bs[i].at else lfree;
            && |m| == |bs| && m[i] == Item(bs[i].at, false) && m[i + 1] == bs[i + 1] && UsedSum(m) == UsedSum(bs) - Extent(bs, i)
            && FreeOrEnd(m, l) && (NoneBelow(bs, lfree) ==> NoneBelow(m, l))
            && Freed(bs, i) == JoinLeft(JoinRight(m, i), i) && Coalesced(Freed(bs, i))
  {
    hide UsedSum, Coalesced;
    MarkedSum(bs, i, false);
    LastIs(bs, end);
    FreedCoalesced(bs, i);
    var m := Marked(bs, i, false);
    var k :| 0 <= k < |bs| && bs[k].at == lfree && (k == |bs| - 1 || !bs[k].used);
    assert m[i].at == bs[i].at && !m[i].used;
    assert m[k].at == lfree;
  }

  lemma ShrunkFacts(bs: seq<Item>, end: nat, i: nat, n: nat, lfree: nat)
    requires Laid(bs, end) && Coalesced(bs) && FreeOrEnd(bs, lfree) && i < |bs| - 1 && bs[i].used
    requires n + SIZEOF_STRUCT_MEM + MIN_SIZE < Payload(bs, i)
    ensures var p := bs[i].at + SIZEOF_STRUCT_MEM + n;
            var m := Cut(bs, i, p);
            && |m| == |bs| + 1 && m[i] == bs[i] && m[i + 1] == Item(p, false) && m[i + 2] == bs[i + 1]
            && UsedSum(m) == UsedSum(bs) - (bs[i + 1].at - p) && FreeOrEnd(m, lfree) && bs[i].at % 4 == 0
            && Coalesced(Shrunk(bs, i, n))
    ensures var l := if bs[i + 1].used then lfree else MarkJoined(Cut(bs, i, bs[i].at + SIZEOF_STRUCT_MEM + n), i + 1, lfree);
            NoneBelow(bs, lfree) ==> (NoneBelow(Shrunk(bs, i, n), l) <==> !(bs[i + 1].used && lfree > bs[i].at))
  {
    hide UsedSum, Coalesced, NoneBelow, Laid, FreeOrEnd, Cut, Shrunk;
    var p := bs[i].at + SIZEOF_STRUCT_MEM + n;
    LastIs(bs, end);
    Multiple(bs, end, i);
    CutSum(bs, i, p);
    CutPart(bs, i, p);
    ShrunkCoalesced(bs, i, n);
    if NoneBelow(bs, lfree) { ShrunkLowest(bs, end, i, n, lfree); }
    CutFreeOrEnd(bs, i, p, lfree);
  }

  lemma CutFreeOrEnd(bs: seq<Item>, i: nat, p: nat, lfree: nat)
    requires i < |bs| - 1 && FreeOrEnd(bs, lfree)
    ensures FreeOrEnd(Cut(bs, i, p), lfree)
  {
    var k :| 0 <= k < |bs| && bs[k].at == lfree && (k == |bs| - 1 || !bs[k].used);
    assert Cut(bs, i, p)[if k <= i then k else k + 1] == bs[k];
  }

  lemma ShrunkIs(bs: seq<Item>, i: nat, n: nat)
    requires i < |bs| - 1 && bs[i].used
    ensures var m := Cut(bs, i, bs[i].at + SIZEOF_STRUCT_MEM + n); Shrunk(bs, i, n) == JoinLeft(JoinRight(m, i + 1), i + 1)
  {
  }

  /** A block in use is still there after another one has been handed out. */
  lemma StillLive(bs: seq<Item>, k: nat, n: nat, i: nat)
    requires k < |bs| - 1 && !bs[k].used && i < |bs| - 1 && bs[i].used
    ensures var r := Allocated(bs, k, n);
            var j := i + if k < i then |r| - |bs| else 0;
            0 <= j < |r| - 1 && r[j] == bs[i] && r[j + 1].at == bs[i + 1].at
  {
  }

  /** Cutting a block below lfree can hide free memory from rt_malloc: the rest of block 0 has room for 12 bytes,
      and a request for them is refused. */
  lemma HoleBelowLowest()
    ensures var bs, size, lfree := [Item(0, true), Item(112, true), Item(212, true)], 200, 212;
            var rs := Shrunk(bs, 0, 4);
            && Laid(bs, size + SIZEOF_STRUCT_MEM) && Coalesced(bs) && FreeOrEnd(bs, lfree) && NoneBelow(bs, lfree)
            && FreeOrEnd(rs, lfree) && !NoneBelow(rs, lfree) && !rs[1].used && Payload(rs, 1) > 12 && NoFit(rs, lfree, 12, size)
  {
    HoleIs();
    Hole([Item(0, true), Item(112, true), Item(212, true)], Shrunk([Item(0, true), Item(112, true), Item(212, true)], 0, 4));
  }

  lemma HoleIs()
    ensures Shrunk([Item(0, true), Item(112, true), Item(212, true)], 0, 4) ==
            [Item(0, true), Item(16, false), Item(112, true), Item(212, true)]
  {
    var cut := Cut([Item(0, true), Item(112, true), Item(212, true)], 0, 16);
    assert cut == [Item(0, true), Item(16, false), Item(112, true), Item(212, true)];
  }

  lemma Hole(bs: seq<Item>, rs: seq<Item>)
    requires bs == [Item(0, true), Item(112, true), Item(212, true)]
    requires rs == [Item(0, true), Item(16, false), Item(112, true), Item(212, true)]
    ensures Laid(bs, 212) && Coalesced(bs) && FreeOrEnd(bs, 212) && NoneBelow(bs, 212)
    ensures FreeOrEnd(rs, 212) && !NoneBelow(rs, 212) && !rs[1].used && Payload(rs, 1) > 12 && NoFit(rs, 212, 12, 200)
  {
    assert bs[2].at == 212 && rs[3].at == 212 && rs[1].at == 16;
  }
}
