/** memheap: a pool of blocks on a circular list, the free ones on a second list. */
module MemHeap {
  import opened Sequences
  import opened Rings
  import opened MemBlocks

  /** RT_ALIGN to four bytes on 32-bit numbers, and the smallest request. */
  function Need(size: nat): nat {
    var a := (size + 3) % 0x1_0000_0000 / 4 * 4;
    if a < MINIALLOC then MINIALLOC else a
  }

  /** Memory after a header has been written at p: headers it overlaps are gone. */
  ghost function Clobbered<V>(m: map<nat, V>, p: nat): map<nat, V> {
    map q | q in m && (q == p || q + HEADER <= p || p + HEADER <= q) :: m[q]
  }

  /** The used bits in the headers. */
  ghost predicate Flags(bs: seq<Block>, used: map<nat, bool>) {
    forall i :: 0 <= i < |bs| ==> bs[i].addr in used && used[bs[i].addr] == bs[i].used
  }

  /** Every node of the free list is a block. */
  ghost predicate OnBlocks(bs: seq<Block>, free: seq<nat>) {
    forall k :: 0 <= k < |free| ==> free[k] in Addrs(bs)
  }

  /** The free list holds exactly the unused blocks, and each of them once. */
  ghost predicate Exact(bs: seq<Block>, free: seq<nat>) {
    Elems(free) == FreeAddrs(bs) && Distinct(free)
  }

  class Heap {
    const start: nat
    const pool: nat // pool_size
    const head: nat // address of the free list header
    var available: nat
    var maxUsed: nat
    // the header fields, by header address
    var used: map<nat, bool>
    var next: map<nat, nat>
    var prev: map<nat, nat>
    var nextFree: map<nat, nat>
    var prevFree: map<nat, nat>
    ghost var blocks: seq<Block> // all blocks in address order
    ghost var free: seq<nat> // the free list in order

    /** The block list is intact. */
    ghost predicate Physical()
      reads this`used, this`next, this`prev, this`blocks
    {
      Shape(blocks, start, pool) && Ring(Addrs(blocks), next, prev) && Flags(blocks, used)
    }

    /** The free list is intact, and lies in the pool but for its header. */
    ghost predicate Listed()
      reads this`nextFree, this`prevFree, this`free, this`blocks
    {
      0 < head && head + HEADER <= start && Ring([head] + free, nextFree, prevFree) && OnBlocks(blocks, free)
    }

    ghost predicate Valid()
      reads this
    {
      && Physical() && Listed() && Exact(blocks, free) && Coalesced(blocks)
      && available == FreeSum(blocks) && available <= pool <= available + maxUsed && start + pool <= 0x1_0000_0000
    }

    /** rt_memheap_init, for a pool with room for two headers. */
    constructor (startAddr: nat, size: nat, headAddr: nat)
      requires 2 * HEADER <= size && 0 < headAddr && headAddr + HEADER <= startAddr && startAddr + size <= 0x1_0000_0000
      ensures Valid() && start == startAddr && head == headAddr && pool == size / 4 * 4
      ensures blocks == [Block(start, pool - 2 * HEADER, false), Block(start + pool - HEADER, 0, true)] && free == [start]
      ensures maxUsed == pool - available
    {
      start, head := startAddr, headAddr;
      pool := size / 4 * 4;
      available := size / 4 * 4 - 2 * HEADER;
      maxUsed := 2 * HEADER;
      var item := startAddr;
      var tail := startAddr + size / 4 * 4 - HEADER;
      used := map[item := false, tail := true];
      next := map[item := tail, tail := item];
      prev := map[item := tail, tail := item];
      nextFree := map[headAddr := item, item := headAddr];
      prevFree := map[headAddr := item, item := headAddr];
      blocks := [Block(startAddr, size / 4 * 4 - 2 * HEADER, false), Block(tail, 0, true)];
      free := [startAddr];
      new;
      assert FreeSum([Block(tail, 0, true)]) == 0 && blocks[1..] == [Block(tail, 0, true)];
      assert Addrs(blocks) == [item, tail];
      FreshRing(item, tail);
      FreshRing(headAddr, item);
      assert Addrs(blocks)[0] == item;
      assert blocks[0] in blocks;
    }

    /** A header address in the memory map: write the magic number there. */
    method WriteMagic(p: nat, inUse: bool)
      modifies this`used, this`next, this`prev, this`nextFree, this`prevFree
      ensures used == Clobbered(old(used), p)[p := inUse]
      ensures next == Clobbered(old(next), p) && prev == Clobbered(old(prev), p)
      ensures nextFree == Clobbered(old(nextFree), p) && prevFree == Clobbered(old(prevFree), p)
    {
      used := (map q | q in used && (q == p || q + HEADER <= p || p + HEADER <= q) :: used[q])[p := inUse];
      next := map q | q in next && (q == p || q + HEADER <= p || p + HEADER <= q) :: next[q];
      prev := map q | q in prev && (q == p || q + HEADER <= p || p + HEADER <= q) :: prev[q];
      nextFree := map q | q in nextFree && (q == p || q + HEADER <= p || p + HEADER <= q) :: nextFree[q];
      prevFree := map q | q in prevFree && (q == p || q + HEADER <= p || p + HEADER <= q) :: prevFree[q];
    }

    /** Cut block i behind its first n bytes, and link the rest into the block list as a free block. */
    method SplitBlock(hdr: nat, n: nat, ghost i: nat) returns (p: nat)
      requires Physical() && Listed() && i < |blocks| - 1 && blocks[i].addr == hdr && n + HEADER <= blocks[i].size
      modifies this`used, this`next, this`prev, this`nextFree, this`prevFree, this`blocks
      ensures Physical() && Listed() && p == hdr + HEADER + n && blocks == Split(old(blocks), i, n)
    {
      hide Ring, Shape, Split, Flags, OnBlocks, Clobbered;
      ghost var bs := blocks;
      SplitShape(bs, i, n, start, pool);
      p := hdr + HEADER + n;
      HeaderFits(bs, i, p, start, pool, head, free, used, next, prev, nextFree, prevFree);
      RingInsert(Addrs(bs), Clobbered(next, p), Clobbered(prev, p), i, p);
      WriteMagic(p, false);
      prev := prev[p := hdr];
      next := next[p := next[hdr]];
      prev := prev[next[hdr] := p];
      next := next[hdr := p];
      blocks := Split(bs, i, n);
      SplitFlags(bs, i, n, Clobbered(old(used), p), free);
    }

    /** Take the block behind block i out of the block list, which makes it part of block i. */
    method MergeBlock(p: nat, ghost i: nat)
      requires Physical() && i + 1 < |blocks| - 1 && blocks[i + 1].addr == p
      modifies this`next, this`prev, this`blocks
      ensures Physical() && blocks == Merged(old(blocks), i)
      ensures OnBlocks(old(blocks), free) && p !in free ==> OnBlocks(blocks, free)
    {
      hide Ring, Shape, Merged, Flags, OnBlocks;
      ghost var bs := blocks;
      MergedShape(bs, i, start, pool);
      BlockLinks(bs, next, prev, i + 1);
      RingRemove(Addrs(bs), next, prev, i + 1);
      prev := prev[next[p] := prev[p]];
      next := next[prev[p] := next[p]];
      blocks := Merged(bs, i);
      MergedFlags(bs, i, used, free);
    }

    /** Put a block first on the free list. */
    method LinkFree(p: nat)
      requires Listed() && p in Addrs(blocks) && p !in free && p != head
      modifies this`nextFree, this`prevFree, this`free
      ensures Listed() && free == [p] + old(free)
    {
      hide Ring;
      Links([head] + free, nextFree, prevFree, 0);
      RingInsert([head] + free, nextFree, prevFree, 0, p);
      nextFree := nextFree[p := nextFree[head]];
      prevFree := prevFree[p := head];
      prevFree := prevFree[nextFree[head] := p];
      nextFree := nextFree[head := p];
      assert Inserted([head] + free, 1, p) == [head] + ([p] + free);
      free := [p] + free;
    }

    /** Take a block off the free list. */
    method UnlinkFree(p: nat, ghost j: nat)
      requires Listed() && j < |free| && free[j] == p
      modifies this`nextFree, this`prevFree, this`free
      ensures Listed() && free == Dropped(old(free), j) == Without(old(free), p) && p !in free
    {
      hide Ring;
      HeadOnce(head, free, nextFree, prevFree, j);
      WithoutDropped(free, j);
      Links([head] + free, nextFree, prevFree, j + 1);
      RingRemove([head] + free, nextFree, prevFree, j + 1);
      NotTwice([head] + free, nextFree, prevFree, j + 1);
      prevFree := prevFree[nextFree[p] := prevFree[p]];
      nextFree := nextFree[prevFree[p] := nextFree[p]];
      assert Dropped([head] + free, j + 1) == [head] + Dropped(free, j);
      free := Dropped(free, j);
    }

    /** The search of rt_memheap_alloc: the first block on the free list that is big enough. */
    method FindFit(size: nat) returns (hdr: nat, freeSize: nat, ghost j: nat)
      requires Physical() && Listed() && Exact(blocks, free) && size > 0
      ensures freeSize >= size ==> j < |free| && hdr == free[j] && SizeOf(blocks, hdr) == freeSize
      ensures freeSize >= size ==> forall k :: 0 <= k < j ==> SizeOf(blocks, free[k]) < size
      ensures freeSize < size ==> forall k :: 0 <= k < |free| ==> SizeOf(blocks, free[k]) < size
    {
      hide Ring, Shape, Flags, SizeOf;
      Links([head] + free, nextFree, prevFree, 0);
      HeadOnce(head, free, nextFree, prevFree, 0);
      j, freeSize := 0, 0;
      hdr := nextFree[head];
      while hdr != head && freeSize < size
        invariant j <= |free| && hdr == (if j < |free| then free[j] else head)
        invariant freeSize < size ==> forall k :: 0 <= k < j ==> SizeOf(blocks, free[k]) < size
        invariant freeSize >= size ==> j < |free| && SizeOf(blocks, hdr) == freeSize
        invariant freeSize >= size ==> forall k :: 0 <= k < j ==> SizeOf(blocks, free[k]) < size
        invariant j < |free| ==> hdr != head
        decreases |free| - j, size - freeSize
      {
        ghost var i := ItemSize(blocks, next, prev, used, start, pool, free, j);
        freeSize := next[hdr] - hdr - HEADER;
        if freeSize < size {
          Links([head] + free, nextFree, prevFree, j + 1);
          HeadOnce(head, free, nextFree, prevFree, j + 1);
          hdr := nextFree[hdr];
          j := j + 1;
        }
      }
    }

    /** Hand out block i, the j-th on the free list, for n bytes. */
    method TakeBlock(hdr: nat, n: nat, freeSize: nat, ghost i: nat, ghost j: nat)
      requires Valid() && i < |blocks| - 1 && blocks[i].addr == hdr && !blocks[i].used && blocks[i].size == freeSize >= n
      requires j < |free| && free[j] == hdr && n >= MINIALLOC
      modifies this
      ensures Valid() && blocks == Allocated(old(blocks), i, n)
      ensures free == (if freeSize >= n + HEADER + MINIALLOC then [hdr + HEADER + n] else []) + Without(old(free), hdr)
      ensures maxUsed == Max(old(maxUsed), pool - available)
    {
      hide Ring, Shape, Flags, FreeSum, Coalesced, Split, Exact, OnBlocks;
      ghost var bs, fs := blocks, free;
      AllocatedSum(bs, i, n);
      ShareBound(bs, i);
      AllocatedCoalesced(bs, i, n);
      AllocatedExact(bs, fs, i, j, n, start, pool);
      if freeSize >= n + HEADER + MINIALLOC {
        SplitAt(bs, i, n);
        NewBlock(bs, i, hdr + HEADER + n, start, pool, head, fs);
        var p := SplitBlock(hdr, n, i);
        UnlinkFree(hdr, j);
        LinkFree(p);
        available := available - n - HEADER;
      } else {
        available := available - freeSize;
        UnlinkFree(hdr, j);
        assert free == [] + Without(fs, hdr);
      }
      if pool - available > maxUsed { maxUsed := pool - available; }
      Mark(hdr, true, i);
    }

    /** Set or clear the used bit of block i. */
    method Mark(hdr: nat, inUse: bool, ghost i: nat)
      requires Physical() && i < |blocks| - 1 && blocks[i].addr == hdr
      modifies this`used, this`blocks
      ensures Physical() && blocks == Marked(old(blocks), i, inUse)
      ensures OnBlocks(old(blocks), free) ==> OnBlocks(blocks, free)
    {
      hide Ring, Shape;
      MarkedShape(blocks, i, inUse, start, pool);
      BlocksDistinct(blocks, start, pool);
      used := used[hdr := inUse];
      blocks := Marked(blocks, i, inUse);
    }

    /** rt_memheap_alloc: 0, with nothing changed, exactly when the request reaches the number of free
        bytes or no free block is big enough; otherwise the first block on the free list that is. */
    method Alloc(request: nat) returns (ptr: nat, ghost i: nat, ghost j: nat)
      requires Valid() && request < 0x1_0000_0000
      modifies this
      ensures Valid()
      ensures AllocatedFrom(old(blocks), old(free), old(available), Need(request), ptr, blocks, free, i, j)
      ensures maxUsed == if ptr == 0 then old(maxUsed) else Max(old(maxUsed), pool - available)
    {
      hide Ring, Shape, Flags, FreeSum, Coalesced, OnBlocks, SizeOf, Need;
      i, j := 0, 0;
      NeedIsPositive(request);
      var size := Need(request);
      ListFit(blocks, free, start, pool, size);
      if size < available {
        var hdr, freeSize;
        hdr, freeSize, j := FindFit(size);
        if freeSize >= size {
          i := ItemSize(blocks, next, prev, used, start, pool, free, j);
          TakeBlock(hdr, size, freeSize, i, j);
          return hdr + HEADER, i, j;
        }
      }
      ptr := 0;
    }

    /** A pointer that was handed out and not given back. */
    ghost predicate Live(ptr: nat)
      reads this`blocks
    {
      ptr >= HEADER && ptr - HEADER in Addrs(blocks)
      && var i := IndexOf(Addrs(blocks), ptr - HEADER); i < |blocks| - 1 && blocks[i].used
    }

    /** The place of a handed-out block among the blocks. */
    ghost function IndexFor(ptr: nat): (i: nat)
      reads this`blocks
      requires Live(ptr)
      ensures i < |blocks| - 1 && blocks[i].addr == ptr - HEADER && blocks[i].used
    {
      var i := IndexOf(Addrs(blocks), ptr - HEADER);
      assert Addrs(blocks)[i] == blocks[i].addr;
      i
    }

    /** The end of rt_memheap_free: merge the free block i with a free one behind it. */
    method MergeFreeRight(hdr: nat, ghost i: nat)
      requires Physical() && Listed() && i < |blocks| - 1 && blocks[i].addr == hdr && !blocks[i].used
      requires available == FreeSum(blocks)
      requires Distinct(free) && (Elems(free) == FreeAddrs(blocks) || (hdr !in free && Elems(free) + {hdr} == FreeAddrs(blocks)))
      modifies this`available, this`next, this`prev, this`nextFree, this`prevFree, this`blocks, this`free
      ensures Physical() && Listed() && blocks == MergedRight(old(blocks), i) && available == FreeSum(blocks)
      ensures Distinct(free) && (hdr in free <==> hdr in old(free)) && available >= old(available)
      ensures Elems(free) + {hdr} == FreeAddrs(blocks)
      ensures free == WithoutRight(old(blocks), old(free), i)
    {
      hide Ring, Shape, Flags, FreeSum, OnBlocks, FreeAddrs, Merged, Addrs;
      NextItem(blocks, next, prev, used, start, pool, i);
      if !used[next[hdr]] {
        available := available + HEADER;
        var newPtr := next[hdr];
        ghost var j := OnList(blocks, free, hdr, i + 1, start, pool);
        MergedSum(blocks, i);
        FreeMerged(blocks, i, start, pool);
        DroppedElems(free, j);
        DroppedDistinct(free, j);
        DroppedMember(free, j, hdr);
        UnlinkFree(newPtr, j);
        MergeBlock(newPtr, i);
      }
    }

    /** Merge the free block i, which is not on the free list, with a free one before it. */
    method MergeFreeLeft(hdr: nat, ghost i: nat) returns (h: nat, merged: bool, ghost k: nat)
      requires Physical() && Listed() && i < |blocks| - 1 && blocks[i].addr == hdr && !blocks[i].used
      requires available == FreeSum(blocks) && Distinct(free) && hdr !in free && Elems(free) + {hdr} == FreeAddrs(blocks)
      modifies this`available, this`next, this`prev, this`blocks
      ensures Physical() && Listed() && available == FreeSum(blocks) && available >= old(available)
      ensures merged == (i > 0 && !old(blocks)[i - 1].used)
      ensures blocks == if merged then Merged(old(blocks), i - 1) else old(blocks)
      ensures k == (if merged then i - 1 else i) && k < |blocks| - 1 && blocks[k].addr == h && !blocks[k].used
      ensures if merged then Elems(free) == FreeAddrs(blocks) && h in free else h == hdr && Elems(free) + {h} == FreeAddrs(blocks)
      ensures k + 1 < |blocks| && i + 1 < |old(blocks)| && blocks[k + 1] == old(blocks)[i + 1]
    {
      hide Ring, Shape, Flags, FreeSum, OnBlocks, FreeAddrs, Merged, Addrs;
      NextItem(blocks, next, prev, used, start, pool, i);
      h, merged, k := hdr, false, i;
      if !used[prev[hdr]] {
        available := available + HEADER;
        h, merged, k := prev[hdr], true, i - 1;
        MergedSum(blocks, i - 1);
        FreeMerged(blocks, i - 1, start, pool);
        MergedAt(blocks, i - 1);
        NextItem(blocks, next, prev, used, start, pool, i - 1);
        assert h in Elems(free);
        MergeBlock(hdr, i - 1);
      }
    }

    /** Merge a block that has become free with free blocks next to it, and put it on the free list if it is not there. */
    method MergeFreed(header: nat, ghost at: nat)
      requires Physical() && Listed() && at < |blocks| - 1 && blocks[at].addr == header && !blocks[at].used && head < start
      requires available == FreeSum(blocks) && Distinct(free) && header !in free && Elems(free) + {header} == FreeAddrs(blocks)
      modifies this`available, this`next, this`prev, this`nextFree, this`prevFree, this`blocks, this`free
      ensures Physical() && Listed() && Exact(blocks, free) && available == FreeSum(blocks) && available >= old(available)
      ensures blocks == JoinedUp(old(blocks), at) && free == FreedList(old(blocks), old(free), at)
    {
      hide Ring, Shape, Flags, FreeSum, OnBlocks, FreeAddrs, Merged, Addrs, MergedRight;
      ghost var bs := blocks;
      var hdr, merged;
      ghost var i;
      hdr, merged, i := MergeFreeLeft(header, at);
      var insertHeader := !merged;
      ghost var ms := blocks;
      MergeFreeRight(hdr, i);
      HeaderPlace(ms, i, start, pool, head);
      Prepended(free, hdr);
      if insertHeader { LinkFree(hdr); }
      NoneBefore(WithoutRight(bs, old(free), at));
    }

    /** rt_memheap_free: the block becomes free, and one with the free blocks next to it. */
    method Free(ptr: nat)
      requires Valid() && (ptr != 0 ==> Live(ptr))
      modifies this
      ensures Valid() && maxUsed == old(maxUsed)
      ensures blocks == if ptr == 0 then old(blocks) else Freed(old(blocks), old(IndexFor(ptr)))
      ensures free == if ptr == 0 then old(free) else FreedList(old(blocks), old(free), old(IndexFor(ptr)))
    {
      hide Ring, Shape, Flags, FreeSum, OnBlocks, FreeAddrs, Merged, Addrs, Coalesced, MergedRight, Marked, FreedList;
      if ptr == 0 { return; }
      ghost var i := IndexFor(ptr);
      FreeFacts(blocks, free, i, start, pool);
      FreedParts(blocks, free, i);
      var hdr := ptr - HEADER;
      NextItem(blocks, next, prev, used, start, pool, i);
      available := available + (next[hdr] - hdr - HEADER);
      Mark(hdr, false, i);
      MergeFreed(hdr, i);
      FreeBound(blocks, start, pool);
    }

    /** rt_memheap_realloc into the free block behind: its header moves, perhaps onto itself. */
    method GrowBlock(ptr: nat, n: nat, ghost i: nat)
      requires Valid() && i < |blocks| - 2 && blocks[i].addr + HEADER == ptr && blocks[i].used && !blocks[i + 1].used
      requires blocks[i].size < n && n + MINIALLOC < blocks[i].size + blocks[i + 1].size
      modifies this
      ensures Valid() && blocks == Grown(old(blocks), i, n) && free == GrownList(old(blocks), old(free), i, n)
      ensures maxUsed == Max(old(maxUsed), pool - available)
    {
      hide Ring, Shape, Flags, FreeSum, OnBlocks, FreeAddrs, Merged, Addrs, Coalesced, Split;
      var hdr := ptr - HEADER;
      ghost var bs := blocks;
      NextItem(bs, next, prev, used, start, pool, i);
      var nextPtr := next[hdr];
      var oldsize := nextPtr - hdr - HEADER;
      ghost var j := OnList(bs, free, hdr, i + 1, start, pool);
      GrowFacts(bs, free, i, j, n, start, pool, head);
      available := available - (n - oldsize);
      if pool - available > maxUsed { maxUsed := pool - available; }
      UnlinkFree(nextPtr, j);
      MergeBlock(nextPtr, i);
      var p := SplitBlock(hdr, n, i);
      LinkFree(p);
    }

    /** Merge a block just split off, which is not counted as available yet, with a free one behind it. */
    method JoinRight(p: nat, ghost i: nat)
      requires Physical() && Listed() && i < |blocks| - 1 && blocks[i].addr == p && !blocks[i].used
      requires available + blocks[i].size == FreeSum(blocks)
      requires Distinct(free) && p !in free && Elems(free) + {p} == FreeAddrs(blocks)
      modifies this`available, this`next, this`prev, this`nextFree, this`prevFree, this`blocks, this`free
      ensures Physical() && Listed() && blocks == MergedRight(old(blocks), i)
      ensures i < |blocks| - 1 && blocks[i].addr == p
      ensures available + blocks[i].size == FreeSum(blocks) >= old(FreeSum(blocks))
      ensures Distinct(free) && p !in free && Elems(free) + {p} == FreeAddrs(blocks)
      ensures free == WithoutRight(old(blocks), old(free), i)
    {
      hide Ring, Shape, Flags, FreeSum, OnBlocks, FreeAddrs, Merged, Addrs;
      ghost var ms := blocks;
      NextItem(ms, next, prev, used, start, pool, i);
      if !used[next[p]] {
        var freePtr := next[p];
        ghost var j := OnList(ms, free, p, i + 1, start, pool);
        FreeMerged(ms, i, start, pool);
        MergedSum(ms, i);
        NextItem(ms, next, prev, used, start, pool, i + 1);
        TwoShares(ms, i, i + 1);
        DroppedElems(free, j);
        DroppedDistinct(free, j);
        DroppedMember(free, j, p);
        available := available - (next[freePtr] - freePtr - HEADER);
        UnlinkFree(freePtr, j);
        MergeBlock(freePtr, i);
      }
      RightAt(ms, i);
    }

    /** rt_memheap_realloc to fewer bytes: the rest becomes a free block, merged with one behind it. */
    method ShrinkBlock(hdr: nat, n: nat, ghost i: nat)
      requires Valid() && i < |blocks| - 1 && blocks[i].addr == hdr && blocks[i].used
      requires n + HEADER + MINIALLOC < blocks[i].size
      modifies this
      ensures Valid() && maxUsed == old(maxUsed) && blocks == Shrunk(old(blocks), i, n)
      ensures free == ShrunkList(old(blocks), old(free), i, n)
    {
      hide Ring, Shape, Flags, FreeSum, OnBlocks, FreeAddrs, Merged, Addrs, Coalesced, Split, MergedRight;
      ShrinkFacts(blocks, free, i, n, start, pool, head);
      var p := SplitBlock(hdr, n, i);
      HeaderPlace(blocks, i + 1, start, pool, head);
      JoinRight(p, i + 1);
      Prepended(free, p);
      LinkFree(p);
      NextItem(blocks, next, prev, used, start, pool, i + 1);
      available := available + (next[p] - p - HEADER);
      FreeBound(blocks, start, pool);
    }

    /** The request is so near 4 GB that the test for growing in place wraps around and succeeds. */
    ghost predicate Overruns(ptr: nat, n: nat)
      reads this`blocks
      requires Live(ptr)
    {
      TestWraps(blocks, IndexFor(ptr), n)
    }

    /** rt_memheap_realloc for such a request, as far as it can be followed: the free block behind is taken off both
        lists, and the header of its replacement is written over the end of the block's own header. */
    method Overrun(ptr: nat, n: nat, ghost i: nat)
      requires Valid() && i < |blocks| - 2 && blocks[i].addr + HEADER == ptr && blocks[i].used && !blocks[i + 1].used
      requires blocks[i].size < n < 0x1_0000_0000 <= n + MINIALLOC
      modifies this
      ensures ptr - HEADER !in used && !Valid()
    {
      hide Ring, Shape, Flags, FreeSum, OnBlocks, FreeAddrs, Merged, Addrs, Coalesced, Split;
      var hdr := ptr - HEADER;
      ghost var bs := blocks;
      NextItem(bs, next, prev, used, start, pool, i);
      var nextPtr := next[hdr];
      var oldsize := nextPtr - hdr - HEADER;
      ghost var j := OnList(bs, free, hdr, i + 1, start, pool);
      InPool(bs, i, start, pool);
      available := (available + oldsize + (0x1_0000_0000 - n)) % 0x1_0000_0000;
      var inUse := (pool + 0x1_0000_0000 - available) % 0x1_0000_0000;
      if inUse > maxUsed { maxUsed := inUse; }
      UnlinkFree(nextPtr, j);
      MergeBlock(nextPtr, i);
      var p := (ptr + n) % 0x1_0000_0000;
      Below(ptr, n);
      WriteMagic(p, false);
      MergedAt(bs, i);
      NoFlag(blocks, i, used);
    }

    /** The test of rt_memheap_realloc for the free block behind, on 32-bit numbers, and what follows from it. */
    method TryGrow(ptr: nat, n: nat, ghost i: nat) returns (done: bool)
      requires Valid() && i < |blocks| - 1 && blocks[i].addr + HEADER == ptr && blocks[i].used
      requires blocks[i].size < n < 0x1_0000_0000
      modifies this
      ensures done <==> !old(blocks)[i + 1].used && old(blocks)[i].size + old(blocks)[i + 1].size > (n + MINIALLOC) % 0x1_0000_0000
      ensures !done ==> unchanged(this)
      ensures done && n + MINIALLOC < 0x1_0000_0000 ==>
                && Valid() && blocks == Grown(old(blocks), i, n) && free == GrownList(old(blocks), old(free), i, n)
                && maxUsed == Max(old(maxUsed), pool - available)
      ensures done && n + MINIALLOC >= 0x1_0000_0000 ==> !Valid()
    {
      hide Ring, Shape, Flags, FreeSum, OnBlocks, FreeAddrs, Merged, Addrs, Coalesced, Split, Exact;
      var hdr := ptr - HEADER;
      NextItem(blocks, next, prev, used, start, pool, i);
      var nextPtr := next[hdr];
      if used[nextPtr] { return false; }
      NextItem(blocks, next, prev, used, start, pool, i + 1);
      var oldsize, nextsize := next[hdr] - hdr - HEADER, next[nextPtr] - nextPtr - HEADER;
      Wrapped(n);
      if nextsize + oldsize <= (n + MINIALLOC) % 0x1_0000_0000 { return false; }
      if n + MINIALLOC < 0x1_0000_0000 { GrowBlock(ptr, n, i); } else { Overrun(ptr, n, i); }
      done := true;
    }

    /** rt_memheap_realloc to another place: a new block is handed out, and then the old one given back. */
    method MoveBlock(ptr: nat, size: nat, ghost at: nat) returns (r: nat, ghost i: nat, ghost j: nat)
      requires Valid() && Live(ptr) && at == IndexFor(ptr) && size < 0x1_0000_0000 && Need(size) == size > blocks[at].size
      modifies this
      ensures Valid() && Moved(old(blocks), old(free), old(available), ptr, size, r, blocks, free, i, j) && r != ptr
      ensures maxUsed == if r == 0 then old(maxUsed) else Max(old(maxUsed), pool - FreeSum(TakenFor(old(blocks), i, size)))
    {
      hide Ring, Shape, Flags, FreeSum, OnBlocks, FreeAddrs, Merged, Addrs, Coalesced, Split, Need, Exact, FreedList, TakenList;
      ghost var bs := blocks;
      r, i, j := Alloc(size);
      if r != 0 {
        StillLive(bs, i, size, at, ptr, start, pool);
        NotThere(bs, i, at, r, start, pool);
        Free(ptr);
      }
    }

    /** rt_memheap_realloc: where the block goes. A bigger request is met in place exactly when the block
        behind is free and leaves more than the smallest payload; otherwise a new block is allocated and
        the old one freed, or nothing changes. The heap survives exactly when the test does not wrap around. */
    method Realloc(ptr: nat, newsize: nat) returns (r: nat, ghost i: nat, ghost j: nat)
      requires Valid() && (ptr != 0 ==> Live(ptr)) && newsize < 0x1_0000_0000
      modifies this
      ensures Valid() <==> !(newsize != 0 && ptr != 0 && old(Overruns(ptr, Need(newsize))))
      ensures newsize == 0 ==>
                && r == 0 && blocks == (if ptr == 0 then old(blocks) else Freed(old(blocks), old(IndexFor(ptr))))
                && free == (if ptr == 0 then old(free) else FreedList(old(blocks), old(free), old(IndexFor(ptr)))) && maxUsed == old(maxUsed)
      ensures newsize != 0 && ptr == 0 ==>
                && AllocatedFrom(old(blocks), old(free), old(available), Need(newsize), r, blocks, free, i, j)
                && maxUsed == if r == 0 then old(maxUsed) else Max(old(maxUsed), pool - available)
      ensures newsize != 0 && ptr != 0 && !old(Overruns(ptr, Need(newsize))) ==>
                && Reallocated(old(blocks), old(free), old(available), old(IndexFor(ptr)), ptr, Need(newsize), r, blocks, free, i, j)
                && maxUsed == Max(old(maxUsed), pool - FreeSum(if r == 0 || r == ptr then blocks else TakenFor(old(blocks), i, Need(newsize))))
    {
      hide Ring, Shape, Flags, FreeSum, OnBlocks, FreeAddrs, Merged, Addrs, Coalesced, Split, Need, Exact;
      hide Moved, AllocatedFrom, TakenFor, FreedList, ShrunkList, GrownList, Grown, Shrunk, Freed, Heap.Listed;
      i, j := 0, 0;
      if newsize == 0 {
        Free(ptr);
        return 0, i, j;
      }
      var size := Need(newsize);
      NeedTwice(newsize);
      Wrapped(size);
      if ptr == 0 {
        r, i, j := Alloc(size);
        return;
      }
      ghost var at := IndexFor(ptr);
      InPool(blocks, at, start, pool);
      var hdr := ptr - HEADER;
      NextItem(blocks, next, prev, used, start, pool, at);
      var oldsize := next[hdr] - hdr - HEADER;
      if size > oldsize {
        var done := TryGrow(ptr, size, at);
        if done { return ptr, i, j; }
        r, i, j := MoveBlock(ptr, size, at);
        return;
      }
      r := ptr;
      if size + HEADER + MINIALLOC < oldsize { ShrinkBlock(hdr, size, at); }
    }
  }

  lemma Wrapped(n: nat)
    requires n < 0x1_0000_0000
    ensures (n + MINIALLOC) % 0x1_0000_0000 == if n + MINIALLOC < 0x1_0000_0000 then n + MINIALLOC else n + MINIALLOC - 0x1_0000_0000
  {
  }

  /** Adding a number just below 4 GB to an address goes back a few bytes. */
  lemma Below(ptr: nat, n: nat)
    requires HEADER <= ptr < 0x1_0000_0000 && n < 0x1_0000_0000 <= n + MINIALLOC
    ensures (ptr + n) % 0x1_0000_0000 == ptr - (0x1_0000_0000 - n)
  {
  }

  lemma InPool(bs: seq<Block>, i: nat, start: nat, pool: nat)
    requires Shape(bs, start, pool) && i < |bs| - 1
    ensures bs[i].addr + HEADER + bs[i].size + HEADER <= start + pool
  {
    if i + 1 < |bs| - 1 { Ordered(bs, i + 1, |bs| - 1); }
    assert After(bs[i]) == bs[i + 1].addr;
  }

  lemma NoFlag(bs: seq<Block>, i: nat, used: map<nat, bool>)
    requires i < |bs| && bs[i].addr !in used
    ensures !Flags(bs, used)
  {
  }

  /** The test for growing block i wraps around and succeeds. */
  ghost predicate TestWraps(bs: seq<Block>, i: nat, n: nat)
    requires i < |bs| - 1
  {
    && n + MINIALLOC >= 0x1_0000_0000 && !bs[i + 1].used
    && bs[i].size + bs[i + 1].size > n + MINIALLOC - 0x1_0000_0000
  }

  /** It does for a request of 0xFFFFFFF4 bytes on a block of 12 bytes with a free block behind. */
  lemma OverrunPossible()
    ensures var bs := [Block(100, 12, true), Block(136, 40, false), Block(200, 0, true)];
            Shape(bs, 100, 124) && Coalesced(bs) && TestWraps(bs, 0, Need(0xFFFF_FFF4))
  {
  }

  /** Twelve sizes near 4 GB wrap the test around: the smallest of them asks for just less than 4 GB. */
  lemma NearFourGigabytes()
    ensures forall n: nat :: n < 0x1_0000_0000 ==> (Need(n) + MINIALLOC >= 0x1_0000_0000 <==> 0xFFFF_FFF1 <= n <= 0xFFFF_FFFC)
    ensures Need(0xFFFF_FFF4) == 0xFFFF_FFF4 && (Need(0xFFFF_FFF4) + MINIALLOC) % 0x1_0000_0000 == 0
  {
  }

  /** Marking a block does not matter for its neighbours. */
  lemma FreedParts(bs: seq<Block>, free: seq<nat>, i: nat)
    requires i < |bs| - 1
    ensures |Marked(bs, i, false)| == |bs| && Freed(bs, i) == JoinedUp(Marked(bs, i, false), i)
    ensures FreedList(Marked(bs, i, false), free, i) == FreedList(bs, free, i)
  {
  }

  function Max(a: int, b: int): int { if a > b then a else b }

  /** The free list without the block behind block i, if that is free. */
  function WithoutRight(bs: seq<Block>, free: seq<nat>, i: nat): seq<nat>
    requires i + 1 < |bs|
  {
    if bs[i + 1].used then free else Without(free, bs[i + 1].addr)
  }

  /** The free list after block i has been freed: its header goes first, but when it has become part of the free block before it. */
  function FreedList(bs: seq<Block>, free: seq<nat>, i: nat): seq<nat>
    requires i + 1 < |bs|
  {
    (if i > 0 && !bs[i - 1].used then [] else [bs[i].addr]) + WithoutRight(bs, free, i)
  }

  lemma NoneBefore(s: seq<nat>)
    ensures [] + s == s
  {
  }

  /** The free list after block i has grown to n bytes into the one behind it. */
  function GrownList(bs: seq<Block>, free: seq<nat>, i: nat, n: nat): seq<nat>
    requires i + 1 < |bs|
  {
    [bs[i].addr + HEADER + n] + Without(free, bs[i + 1].addr)
  }

  /** The free list after block i has been cut to n bytes. */
  function ShrunkList(bs: seq<Block>, free: seq<nat>, i: nat, n: nat): seq<nat>
    requires i + 1 < |bs|
  {
    [bs[i].addr + HEADER + n] + WithoutRight(bs, free, i)
  }

  /** Block i is the j-th on the free list, and the first there with n bytes. */
  ghost predicate FirstFit(bs: seq<Block>, free: seq<nat>, n: nat, i: nat, j: nat) {
    && i < |bs| - 1 && !bs[i].used && n <= bs[i].size && j < |free| && free[j] == bs[i].addr
    && forall k :: 0 <= k < j ==> free[k] in Addrs(bs) && SizeOf(bs, free[k]) < n
  }

  /** What rt_memheap_alloc makes of the blocks and the free list: nothing when the request reaches the number of free
      bytes or no block is big enough, else the first fit is handed out, and what is left of it is first on the list. */
  ghost predicate AllocatedFrom(bs: seq<Block>, free: seq<nat>, available: nat, n: nat, ptr: nat, rs: seq<Block>, rf: seq<nat>, i: nat, j: nat) {
    && (ptr == 0 <==> available <= n || NoFit(bs, n))
    && if ptr == 0 then rs == bs && rf == free
       else
         && FirstFit(bs, free, n, i, j) && ptr == bs[i].addr + HEADER && rs == Allocated(bs, i, n)
         && rf == TakenList(bs, free, i, n)
  }

  function TakenList(bs: seq<Block>, free: seq<nat>, i: nat, n: nat): seq<nat>
    requires i < |bs|
  {
    (if bs[i].size >= n + HEADER + MINIALLOC then [bs[i].addr + HEADER + n] else []) + Without(free, bs[i].addr)
  }

  /** The blocks between the two steps of a move. */
  function TakenFor(bs: seq<Block>, i: nat, n: nat): seq<Block> { if i < |bs| && n <= bs[i].size then Allocated(bs, i, n) else bs }

  /** What rt_memheap_realloc makes of the blocks and the free list, for block `at` and n bytes. */
  ghost predicate Reallocated(bs: seq<Block>, free: seq<nat>, available: nat, at: nat, ptr: nat, n: nat, r: nat, rs: seq<Block>, rf: seq<nat>,
                              i: nat, j: nat)
    requires at < |bs| - 1
  {
    if n <= bs[at].size then
      && r == ptr
      && (if n + HEADER + MINIALLOC >= bs[at].size then rs == bs && rf == free else rs == Shrunk(bs, at, n) && rf == ShrunkList(bs, free, at, n))
    else if !bs[at + 1].used && n + MINIALLOC < bs[at].size + bs[at + 1].size then
      r == ptr && rs == Grown(bs, at, n) && rf == GrownList(bs, free, at, n)
    else
      Moved(bs, free, available, ptr, n, r, rs, rf, i, j)
  }

  /** Another block handed out, and the one with payload at `ptr` given back. */
  ghost predicate Moved(bs: seq<Block>, free: seq<nat>, available: nat, ptr: nat, n: nat, r: nat, rs: seq<Block>, rf: seq<nat>, i: nat, j: nat) {
    var mid, midFree := if r == 0 then bs else TakenFor(bs, i, n), if r == 0 || i >= |bs| then free else TakenList(bs, free, i, n);
    && AllocatedFrom(bs, free, available, n, r, mid, midFree, i, j) && r != ptr
    && if r == 0 then rs == bs && rf == free else rs == FreedAt(mid, ptr) && rf == FreedListAt(mid, midFree, ptr)
  }

  /** A block that is handed out is not one in use. */
  lemma NotThere(bs: seq<Block>, i: nat, k: nat, r: nat, start: nat, pool: nat)
    requires Shape(bs, start, pool) && i < |bs| && k < |bs| && !bs[i].used && bs[k].used && r == bs[i].addr + HEADER
    ensures r != bs[k].addr + HEADER
  {
    AddrsDistinct(bs);
    Same(Addrs(bs), i, k);
  }

  /** The blocks after the one with payload at `ptr` has been given back. */
  ghost function FreedAt(bs: seq<Block>, ptr: nat): seq<Block> {
    if ptr >= HEADER && ptr - HEADER in Addrs(bs) && IndexOf(Addrs(bs), ptr - HEADER) < |bs| - 1
    then Freed(bs, IndexOf(Addrs(bs), ptr - HEADER)) else bs
  }

  ghost function FreedListAt(bs: seq<Block>, free: seq<nat>, ptr: nat): seq<nat> {
    if ptr >= HEADER && ptr - HEADER in Addrs(bs) && IndexOf(Addrs(bs), ptr - HEADER) < |bs| - 1
    then FreedList(bs, free, IndexOf(Addrs(bs), ptr - HEADER)) else free
  }

  lemma NeedTwice(request: nat)
    ensures Need(Need(request)) == Need(request) && MINIALLOC <= Need(request) < 0x1_0000_0000
  {
  }

  /** A block in use is still there after another one has been handed out. */
  lemma StillLive(bs: seq<Block>, i: nat, n: nat, k: nat, ptr: nat, start: nat, pool: nat)
    requires i < |bs| - 1 && !bs[i].used && n <= bs[i].size && Shape(Allocated(bs, i, n), start, pool)
    requires k < |bs| - 1 && bs[k].used && ptr >= HEADER && bs[k].addr == ptr - HEADER
    ensures var r := Allocated(bs, i, n);
            && ptr - HEADER in Addrs(r)
            && var m := IndexOf(Addrs(r), ptr - HEADER); m < |r| - 1 && r[m].used
  {
    var r := Allocated(bs, i, n);
    var m := if k < i || |r| == |bs| then k else k + 1;
    assert r[m] == bs[k];
    assert Addrs(r)[m] == ptr - HEADER;
    AddrsDistinct(r);
    Same(Addrs(r), m, IndexOf(Addrs(r), ptr - HEADER));
  }

  lemma GrowFacts(bs: seq<Block>, free: seq<nat>, i: nat, j: nat, n: nat, start: nat, pool: nat, head: nat)
    requires Shape(bs, start, pool) && Exact(bs, free) && Coalesced(bs) && head + HEADER <= start
    requires i < |bs| - 2 && bs[i].used && !bs[i + 1].used && bs[i].size < n <= bs[i].size + bs[i + 1].size
    requires j < |free| && free[j] == bs[i + 1].addr
    ensures var m, p := Merged(bs, i), bs[i].addr + HEADER + n;
            && |m| == |bs| - 1 && m[i].addr == bs[i].addr && n + HEADER <= m[i].size
            && p in Addrs(Grown(bs, i, n)) && p !in Dropped(free, j) && p != head
            && FreeSum(Grown(bs, i, n)) == FreeSum(bs) - (n - bs[i].size)
            && Exact(Grown(bs, i, n), [p] + Dropped(free, j)) && Coalesced(Grown(bs, i, n))
  {
    hide FreeSum, FreeAddrs, Split, Merged, Coalesced;
    var m, p := Merged(bs, i), bs[i].addr + HEADER + n;
    MergedShape(bs, i, start, pool);
    MergedSum(bs, i);
    MergedFree(bs, i);
    MergedWhole(bs, i);
    SplitSum(m, i, n);
    SplitFree(m, i, n);
    SplitAt(m, i, n);
    GrownCoalesced(bs, i, n);
    DroppedElems(free, j);
    DroppedDistinct(free, j);
    NewBlock(m, i, p, start, pool, head, Dropped(free, j));
    Prepended(Dropped(free, j), p);
  }

  lemma MergedWhole(bs: seq<Block>, i: nat)
    requires i + 1 < |bs|
    ensures |Merged(bs, i)| == |bs| - 1 && Merged(bs, i)[i] == bs[i].(size := bs[i].size + HEADER + bs[i + 1].size)
  {
  }

  lemma ShrinkFacts(bs: seq<Block>, free: seq<nat>, i: nat, n: nat, start: nat, pool: nat, head: nat)
    requires Shape(bs, start, pool) && Exact(bs, free) && Coalesced(bs) && head + HEADER <= start
    requires i < |bs| - 1 && bs[i].used && n + HEADER <= bs[i].size
    ensures var m, p := Split(bs, i, n), bs[i].addr + HEADER + n;
            && |m| == |bs| + 1 && m[i + 1] == Block(p, bs[i].size - n - HEADER, false) && m[i + 2] == bs[i + 1]
            && p !in free && FreeAddrs(m) == Elems(free) + {p}
            && FreeSum(m) == FreeSum(bs) + bs[i].size - n - HEADER
            && Coalesced(Shrunk(bs, i, n))
  {
    hide FreeSum, FreeAddrs, Split;
    SplitSum(bs, i, n);
    SplitFree(bs, i, n);
    SplitAt(bs, i, n);
    ShrunkCoalesced(bs, i, n);
    NewBlock(bs, i, bs[i].addr + HEADER + n, start, pool, head, free);
    SplitBehind(bs, i, n);
  }

  lemma SplitBehind(bs: seq<Block>, i: nat, n: nat)
    requires i < |bs| - 1 && n + HEADER <= bs[i].size
    ensures |Split(bs, i, n)| == |bs| + 1 && Split(bs, i, n)[i + 2] == bs[i + 1]
  {
  }

  lemma RightAt(bs: seq<Block>, i: nat)
    requires i < |bs| - 1 && (i + 1 == |bs| - 1 ==> bs[i + 1].used)
    ensures var r := MergedRight(bs, i);
            && i < |r| - 1 && r[i].addr == bs[i].addr && r[i].used == bs[i].used
            && r[i].size == bs[i].size + if bs[i + 1].used then 0 else HEADER + bs[i + 1].size
  {
  }

  lemma MergedAt(bs: seq<Block>, i: nat)
    requires i + 1 < |bs|
    ensures |Merged(bs, i)| == |bs| - 1 && Merged(bs, i)[i].addr == bs[i].addr && Merged(bs, i)[i].used == bs[i].used
    ensures i + 2 < |bs| ==> Merged(bs, i)[i + 1] == bs[i + 2]
  {
  }

  lemma HeaderPlace(bs: seq<Block>, i: nat, start: nat, pool: nat, head: nat)
    requires Shape(bs, start, pool) && i < |bs| - 1 && head < start
    ensures bs[i].addr in Addrs(MergedRight(bs, i)) && bs[i].addr != head
  {
    FirstBelow(bs, i, start, pool);
    assert Addrs(MergedRight(bs, i))[i] == bs[i].addr;
  }

  /** What marking the used block i as free does to the sums and sets. */
  lemma FreeFacts(bs: seq<Block>, free: seq<nat>, i: nat, start: nat, pool: nat)
    requires Shape(bs, start, pool) && Exact(bs, free) && Coalesced(bs) && i < |bs| - 1 && bs[i].used
    ensures var m := Marked(bs, i, false);
            && |m| == |bs| && m[i].addr == bs[i].addr && !m[i].used && (i > 0 ==> m[i - 1] == bs[i - 1]) && m[i + 1] == bs[i + 1]
            && FreeSum(m) == FreeSum(bs) + bs[i].size && FreeAddrs(m) == Elems(free) + {bs[i].addr}
    ensures bs[i].addr !in free && Coalesced(Freed(bs, i))
  {
    hide FreeSum, FreeAddrs;
    assert bs[i].addr in free ==> bs[i].addr in Elems(free);
    MarkedSum(bs, i);
    MarkedFree(bs, i);
    FreedCoalesced(bs, i);
    UsedNotFree(bs, i);
  }

  lemma UsedNotFree(bs: seq<Block>, i: nat)
    requires Tiles(bs) && i < |bs| && bs[i].used
    ensures bs[i].addr !in FreeAddrs(bs)
  {
    Elsewhere(bs, i);
    FreeAround(bs[..i], bs[i], bs[i + 1..]);
    assert bs == bs[..i] + [bs[i]] + bs[i + 1..];
  }

  lemma FreeBound(bs: seq<Block>, start: nat, pool: nat)
    requires Shape(bs, start, pool)
    ensures FreeSum(bs) <= pool
  {
    SumBound(bs);
  }

  /** The header behind block i. */
  lemma NextItem(bs: seq<Block>, next: map<nat, nat>, prev: map<nat, nat>, used: map<nat, bool>, start: nat, pool: nat, i: nat)
    requires Shape(bs, start, pool) && Ring(Addrs(bs), next, prev) && Flags(bs, used) && i < |bs| - 1
    ensures bs[i].addr in next && next[bs[i].addr] == bs[i + 1].addr == After(bs[i])
    ensures bs[i + 1].addr in used && used[bs[i + 1].addr] == bs[i + 1].used
    ensures bs[|bs| - 1].used && bs[i].addr != bs[i + 1].addr
    ensures !bs[i].used ==> bs[i].addr in FreeAddrs(bs)
    ensures bs[i].addr in prev && prev[bs[i].addr] == (if i == 0 then bs[|bs| - 1].addr else bs[i - 1].addr)
    ensures prev[bs[i].addr] in used && used[prev[bs[i].addr]] == (i == 0 || bs[i - 1].used)
  {
    Links(Addrs(bs), next, prev, i);
    assert After(bs[i]) == bs[i + 1].addr;
  }

  /** Where a free block is on the free list. */
  lemma OnList(bs: seq<Block>, free: seq<nat>, hdr: nat, i: nat, start: nat, pool: nat) returns (j: nat)
    requires Shape(bs, start, pool) && i < |bs| && !bs[i].used && hdr != bs[i].addr
    requires FreeAddrs(bs) <= Elems(free) + {hdr}
    ensures j < |free| && free[j] == bs[i].addr
  {
    assert bs[i].addr in FreeAddrs(bs);
    assert bs[i].addr in Elems(free);
    j :| 0 <= j < |free| && free[j] == bs[i].addr;
  }

  lemma FreeMerged(bs: seq<Block>, i: nat, start: nat, pool: nat)
    requires Shape(bs, start, pool) && i + 1 < |bs| && !bs[i + 1].used
    ensures i + 1 < |bs| - 1 && FreeAddrs(Merged(bs, i)) == FreeAddrs(bs) - {bs[i + 1].addr}
  {
    MergedFree(bs, i);
  }

  /** No free block has n bytes. */
  ghost predicate NoFit(bs: seq<Block>, n: nat) {
    forall k :: 0 <= k < |bs| && !bs[k].used ==> bs[k].size < n
  }

  /** No free block has n bytes when none on the free list has. */
  lemma ListFit(bs: seq<Block>, free: seq<nat>, start: nat, pool: nat, n: nat)
    requires Shape(bs, start, pool) && Exact(bs, free)
    ensures forall k :: 0 <= k < |free| ==> free[k] in Addrs(bs)
    ensures (forall k :: 0 <= k < |free| ==> SizeOf(bs, free[k]) < n) <==> NoFit(bs, n)
  {
    OnBlocksExact(bs, free);
    AddrsDistinct(bs);
    forall k | 0 <= k < |free|
      ensures var i := IndexOf(Addrs(bs), free[k]); !bs[i].used && SizeOf(bs, free[k]) == bs[i].size
    {
      assert free[k] in Elems(free);
      var m :| 0 <= m < |bs| && !bs[m].used && bs[m].addr == free[k];
      Same(Addrs(bs), IndexOf(Addrs(bs), free[k]), m);
    }
    if forall k :: 0 <= k < |free| ==> SizeOf(bs, free[k]) < n {
      forall m | 0 <= m < |bs| && !bs[m].used ensures bs[m].size < n {
        assert bs[m].addr in Elems(free);
        var k :| 0 <= k < |free| && free[k] == bs[m].addr;
        Same(Addrs(bs), IndexOf(Addrs(bs), free[k]), m);
      }
    }
  }

  lemma NeedIsPositive(request: nat)
    ensures Need(request) >= MINIALLOC
  {
  }

  /** The rounded size covers the request if and only if rounding does not wrap around. */
  lemma NeedCovers(request: nat)
    requires request < 0x1_0000_0000
    ensures request <= Need(request) <==> request <= 0xFFFF_FFFC
    ensures Need(request) % 4 == 0
    ensures request <= 0xFFFF_FFFC ==> Need(request) <= if request < MINIALLOC then MINIALLOC else request + 3
  {
  }

  /** A request near 4 GB comes out as the smallest one. */
  lemma NeedWraps()
    ensures Need(0xFFFF_FFFD) == Need(1) == 12
  {
  }

  lemma BlocksDistinct(bs: seq<Block>, start: nat, pool: nat)
    requires Shape(bs, start, pool)
    ensures forall i, j :: 0 <= i < j < |bs| ==> bs[i].addr != bs[j].addr
  {
    forall i, j | 0 <= i < j < |bs| ensures bs[i].addr != bs[j].addr { Ordered(bs, i, j); }
  }

  /** The free list after an allocation holds exactly the unused blocks. */
  lemma AllocatedExact(bs: seq<Block>, free: seq<nat>, i: nat, j: nat, n: nat, start: nat, pool: nat)
    requires Shape(bs, start, pool) && Exact(bs, free)
    requires i < |bs| - 1 && !bs[i].used && n <= bs[i].size && j < |free| && free[j] == bs[i].addr
    ensures Exact(Allocated(bs, i, n),
                  (if bs[i].size >= n + HEADER + MINIALLOC then [bs[i].addr + HEADER + n] else []) + Dropped(free, j))
  {
    hide FreeAddrs, Split, Marked;
    DroppedElems(free, j);
    DroppedDistinct(free, j);
    var p := bs[i].addr + HEADER + n;
    if bs[i].size >= n + HEADER + MINIALLOC {
      SplitShape(bs, i, n, start, pool);
      SplitFree(bs, i, n);
      SplitAt(bs, i, n);
      MarkedFree(Split(bs, i, n), i);
      FreshAddr(bs, i, p);
      assert Elems([p] + Dropped(free, j)) == {p} + Elems(Dropped(free, j));
    } else {
      MarkedFree(bs, i);
    }
  }

  lemma SplitAt(bs: seq<Block>, i: nat, n: nat)
    requires i < |bs| && n + HEADER <= bs[i].size
    ensures var r := Split(bs, i, n);
            && |r| == |bs| + 1 && r[i] == bs[i].(size := n)
            && r[i + 1] == Block(bs[i].addr + HEADER + n, bs[i].size - n - HEADER, false)
            && Addrs(r)[i + 1] == bs[i].addr + HEADER + n
  {
  }

  /** An address inside a block is not the address of a free one. */
  lemma FreshAddr(bs: seq<Block>, i: nat, p: nat)
    requires Tiles(bs) && i < |bs| && bs[i].addr + HEADER <= p && p + HEADER <= After(bs[i])
    ensures p !in FreeAddrs(bs)
  {
    forall k | 0 <= k < |bs| ensures bs[k].addr != p { InsideBlock(bs, i, p, k); }
  }

  lemma NewBlock(bs: seq<Block>, i: nat, p: nat, start: nat, pool: nat, head: nat, free: seq<nat>)
    requires Shape(bs, start, pool) && Exact(bs, free) && head + HEADER <= start
    requires i < |bs| && bs[i].addr + HEADER <= p && p + HEADER <= After(bs[i])
    ensures p !in free && p != head
  {
    FreshAddr(bs, i, p);
    FirstBelow(bs, i, start, pool);
    assert p in free ==> p in Elems(free);
  }

  lemma OnBlocksExact(bs: seq<Block>, free: seq<nat>)
    requires Exact(bs, free)
    ensures OnBlocks(bs, free)
  {
    forall k | 0 <= k < |free| ensures free[k] in Addrs(bs) {
      assert free[k] in Elems(free);
      var i :| 0 <= i < |bs| && !bs[i].used && bs[i].addr == free[k];
      assert Addrs(bs)[i] == free[k];
    }
  }

  ghost function SizeOf(bs: seq<Block>, a: nat): nat
    requires a in Addrs(bs)
  {
    bs[IndexOf(Addrs(bs), a)].size
  }

  lemma HeadOnce(head: nat, free: seq<nat>, next: map<nat, nat>, prev: map<nat, nat>, k: nat)
    requires Ring([head] + free, next, prev)
    ensures k < |free| ==> free[k] != head
    ensures Distinct(free)
  {
    var s := [head] + free;
    if k < |free| { assert s[0] != s[k + 1]; }
    forall i, j | 0 <= i < j < |free| ensures free[i] != free[j] { assert s[i + 1] != s[j + 1]; }
  }

  /** MEMITEM_SIZE of a block on the free list. */
  lemma ItemSize(bs: seq<Block>, next: map<nat, nat>, prev: map<nat, nat>, used: map<nat, bool>, start: nat, pool: nat, free: seq<nat>, j: nat)
      returns (i: nat)
    requires Shape(bs, start, pool) && Ring(Addrs(bs), next, prev) && Exact(bs, free) && j < |free|
    ensures i < |bs| - 1 && bs[i].addr == free[j] && !bs[i].used
    ensures free[j] in Addrs(bs) && SizeOf(bs, free[j]) == bs[i].size
    ensures free[j] in next && next[free[j]] == free[j] + HEADER + bs[i].size
  {
    OnBlocksExact(bs, free);
    AddrsDistinct(bs);
    assert free[j] in Elems(free);
    var k :| 0 <= k < |bs| && !bs[k].used && bs[k].addr == free[j];
    i := IndexOf(Addrs(bs), free[j]);
    Same(Addrs(bs), i, k);
    Links(Addrs(bs), next, prev, i);
    assert After(bs[i]) == bs[i + 1].addr == Addrs(bs)[i + 1];
    assert SizeOf(bs, free[j]) == bs[i].size;
  }

  lemma NotTwice<T>(s: seq<T>, next: map<T, T>, prev: map<T, T>, i: nat)
    requires Ring(s, next, prev) && i < |s|
    ensures s[i] !in Dropped(s, i)
  {
    DroppedDistinct(s, i);
  }

  lemma BlockLinks(bs: seq<Block>, next: map<nat, nat>, prev: map<nat, nat>, i: nat)
    requires Ring(Addrs(bs), next, prev) && 0 < i < |bs| - 1
    ensures bs[i].addr in next && next[bs[i].addr] == bs[i + 1].addr
    ensures bs[i].addr in prev && prev[bs[i].addr] == bs[i - 1].addr
    ensures bs[i - 1].addr in next && next[bs[i - 1].addr] == bs[i].addr
  {
    Links(Addrs(bs), next, prev, i);
    Links(Addrs(bs), next, prev, i - 1);
  }

  lemma MergedFlags(bs: seq<Block>, i: nat, used: map<nat, bool>, free: seq<nat>)
    requires i + 1 < |bs| && Flags(bs, used)
    ensures Flags(Merged(bs, i), used)
    ensures OnBlocks(bs, free) && bs[i + 1].addr !in free ==> OnBlocks(Merged(bs, i), free)
  {
    var r := Merged(bs, i);
    forall k | 0 <= k < |r| ensures r[k].addr == bs[if k <= i then k else k + 1].addr {}
    if OnBlocks(bs, free) && bs[i + 1].addr !in free {
      forall k | 0 <= k < |free| ensures free[k] in Addrs(r) {
        assert free[k] in Addrs(bs);
        var j :| 0 <= j < |bs| && Addrs(bs)[j] == free[k];
        assert j != i + 1 by { assert free[k] in free; }
        assert Addrs(r)[if j <= i then j else j - 1] == free[k];
      }
    }
  }

  lemma FreshRing(a: nat, b: nat)
    requires a != b
    ensures Ring([a, b], map[a := b, b := a], map[a := b, b := a])
    ensures Ring([a] + [b], map[a := b, b := a], map[a := b, b := a])
  {
    var m := map[a := b, b := a];
    assert [a] + [b] == [a, b];
    forall i | 0 <= i < 2 ensures NextIs([a, b], m, i) && PrevIs([a, b], m, i) {}
  }

  /** A header written inside a block leaves both lists and all flags as they are. */
  lemma HeaderFits(bs: seq<Block>, i: nat, p: nat, start: nat, pool: nat, head: nat, free: seq<nat>, used: map<nat, bool>,
                   next: map<nat, nat>, prev: map<nat, nat>, nextFree: map<nat, nat>, prevFree: map<nat, nat>)
    requires Shape(bs, start, pool) && i < |bs| && bs[i].addr + HEADER <= p && p + HEADER <= After(bs[i])
    requires Ring(Addrs(bs), next, prev) && Flags(bs, used)
    requires head + HEADER <= start && Ring([head] + free, nextFree, prevFree) && OnBlocks(bs, free)
    ensures p !in Addrs(bs) && p !in [head] + free
    ensures Ring(Addrs(bs), Clobbered(next, p), Clobbered(prev, p)) && Flags(bs, Clobbered(used, p))
    ensures Ring([head] + free, Clobbered(nextFree, p), Clobbered(prevFree, p))
  {
    hide Ring;
    forall j | 0 <= j < |bs| ensures bs[j].addr + HEADER <= p || p + HEADER <= bs[j].addr { InsideBlock(bs, i, p, j); }
    FirstBelow(bs, i, start, pool);
    RingWithout(Addrs(bs), next, prev, p);
    RingWithout([head] + free, nextFree, prevFree, p);
  }

  lemma FirstBelow(bs: seq<Block>, i: nat, start: nat, pool: nat)
    requires Shape(bs, start, pool) && i < |bs|
    ensures start <= bs[i].addr
  {
    if i > 0 { Ordered(bs, 0, i); }
  }

  lemma RingWithout(s: seq<nat>, next: map<nat, nat>, prev: map<nat, nat>, p: nat)
    requires Ring(s, next, prev) && forall k :: 0 <= k < |s| ==> s[k] + HEADER <= p || p + HEADER <= s[k]
    ensures Ring(s, Clobbered(next, p), Clobbered(prev, p))
  {
    forall x | x in s
      ensures x in next && x in prev && x in Clobbered(next, p) && x in Clobbered(prev, p)
      ensures Clobbered(next, p)[x] == next[x] && Clobbered(prev, p)[x] == prev[x]
    {
      var k :| 0 <= k < |s| && s[k] == x;
      Links(s, next, prev, k);
    }
    RingFrame(s, next, prev, Clobbered(next, p), Clobbered(prev, p));
  }

  lemma SplitFlags(bs: seq<Block>, i: nat, n: nat, used: map<nat, bool>, free: seq<nat>)
    requires i < |bs| && n + HEADER <= bs[i].size && OnBlocks(bs, free)
    requires Flags(bs, used) && bs[i].addr + HEADER + n !in Addrs(bs)
    ensures Flags(Split(bs, i, n), used[bs[i].addr + HEADER + n := false]) && OnBlocks(Split(bs, i, n), free)
  {
    var r := Split(bs, i, n);
    forall k | 0 <= k < |bs| ensures bs[k].addr in Addrs(r) && bs[k].addr != bs[i].addr + HEADER + n {
      assert Addrs(bs)[k] == bs[k].addr;
      assert r[if k <= i then k else k + 1].addr == bs[k].addr;
      assert Addrs(r)[if k <= i then k else k + 1] == bs[k].addr;
    }
    forall k | 0 <= k < |free| ensures free[k] in Addrs(r) {
      assert free[k] in Addrs(bs);
      var j :| 0 <= j < |bs| && Addrs(bs)[j] == free[k];
    }
  }
}
