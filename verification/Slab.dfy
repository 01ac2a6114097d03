/** The slab allocator: small requests come from zones, large ones are whole pages. */
module Slab {
  import opened Sequences
  import opened SlabPages
  import opened SlabZones

  const ZONE_RELEASE_THRESH := 2

  datatype PageType = FREE | SMALL | LARGE

  /** struct memusage */
  datatype Usage = Usage(kind: PageType, size: nat)

  /** Whom a page that is not on the free list belongs to. */
  datatype Owner = ZoneAt(zone: nat) | LargeAt(page: nat)

  // ---------- what holds between calls ----------

  ghost predicate ZonesOk(zones: map<nat, Zone>, zoneSize: nat) {
    forall z :: z in zones ==> ZoneOk(zones[z]) && Inside(z, zones[z], zoneSize)
  }

  /** The zones of an index that have free chunks. */
  ghost predicate HasRoom(zones: map<nat, Zone>, z: nat, zi: nat) {
    z in zones && zones[z].zoneindex == zi && zones[z].nfree > 0
  }

  ghost predicate ListIs(zones: map<nat, Zone>, list: seq<nat>, zi: nat) {
    Distinct(list) && forall z :: z in list <==> HasRoom(zones, z, zi)
  }

  /** zone_array[zi] lists exactly the zones with index zi that have free chunks, each once. */
  ghost predicate Listed(zones: map<nat, Zone>, zoneArray: seq<seq<nat>>) {
    |zoneArray| == NZONES && forall zi :: 0 <= zi < NZONES ==> ListIs(zones, zoneArray[zi], zi)
  }

  ghost predicate HeldChunk(zones: map<nat, Zone>, g: Grant)
    requires g.Chunk?
  {
    g.zone in zones && Out(zones[g.zone], g.addr) && g.size == zones[g.zone].chunksize
  }

  /** Each chunk in a caller's hands is one of its zone, and not on the zone's free list. */
  ghost predicate Held(zones: map<nat, Zone>, live: seq<Grant>) {
    Distinct(live) && forall g :: g in live && g.Chunk? ==> HeldChunk(zones, g)
  }

  /** The chunks of a zone that callers do not hold are those z_nfree counts. */
  ghost predicate Counted(zones: map<nat, Zone>, live: seq<Grant>) {
    forall z :: z in zones ==> CountOf(live, z) + zones[z].nfree == zones[z].nmax
  }

  ghost predicate ZonePages(owner: map<nat, Owner>, memusage: map<nat, Usage>, z: nat, count: nat) {
    && z > 0
    && forall p: nat :: z <= p < z + count ==>
         p in owner && owner[p] == ZoneAt(z) && p in memusage && memusage[p] == Usage(SMALL, p - z)
  }

  ghost predicate LargePages(owner: map<nat, Owner>, memusage: map<nat, Usage>, page: nat, n: nat) {
    && page > 0 && n > 0 && page in memusage && memusage[page] == Usage(LARGE, n)
    && forall p: nat :: page <= p < page + n ==> p in owner && owner[p] == LargeAt(page)
  }

  /** Zones, spare zones and large blocks have pages of their own, memusage tells them apart, and no other page is owned. */
  ghost predicate Paged(zones: map<nat, Zone>, zoneFree: seq<nat>, live: seq<Grant>, owner: map<nat, Owner>,
                        memusage: map<nat, Usage>, count: nat) {
    && (forall z :: z in zones || z in zoneFree ==> ZonePages(owner, memusage, z, count))
    && Distinct(zoneFree) && (forall z :: z in zoneFree ==> z !in zones)
    && (forall g :: g in live && g.Large? ==> LargePages(owner, memusage, g.page, g.pages))
    && forall p :: p in owner ==> Justified(zones, zoneFree, live, owner[p], p, count)
  }

  /** A page belongs to a zone, a spare zone or a large block that a caller holds. */
  ghost predicate Justified(zones: map<nat, Zone>, zoneFree: seq<nat>, live: seq<Grant>, o: Owner, p: nat, count: nat) {
    match o
    case ZoneAt(z) => (z in zones || z in zoneFree) && z <= p < z + count
    case LargeAt(q) => exists g :: g in live && LargeOn(g, q, p)
  }

  /** A large block from page q on that page p is in. */
  predicate LargeOn(g: Grant, q: nat, p: nat) { g.Large? && g.page == q && q <= p < q + g.pages }

  /** Every page of the heap is either owned or on the free list, and no other page is. */
  ghost predicate Covered(owner: map<nat, Owner>, runs: seq<Run>, low: nat, high: nat) {
    && (forall p :: p in owner ==> !FreePage(runs, p))
    && forall p: nat :: (p in owner || FreePage(runs, p)) <==> low <= p < high
  }

  class Heap {
    const zoneSize: nat
    const zoneLimit: nat
    const pages: PageList
    var memusage: map<nat, Usage> // by page number
    var zones: map<nat, Zone> // the zone headers, by first page
    var zoneArray: seq<seq<nat>>
    var zoneFree: seq<nat> // spare zones
    var usedMem: int
    var maxMem: int
    ghost var live: seq<Grant> // what callers hold, in the order it was handed out
    ghost var owner: map<nat, Owner>
    ghost const low: nat // the pages of the heap, without those of memusage
    ghost const high: nat

    function ZoneCount(): nat { zoneSize / PAGE } // zone_page_cnt

    /** Everything about the zones and what callers hold of them. */
    ghost predicate Zoned()
      reads this
    {
      && ZoneSizes(zoneSize, zoneLimit) && ZonesOk(zones, zoneSize) && Listed(zones, zoneArray)
      && Held(zones, live) && Counted(zones, live) && usedMem == BytesOf(live) <= maxMem
    }

    ghost predicate Valid()
      reads this, pages
    {
      && pages.Valid() && Zoned() && Paged(zones, zoneFree, live, owner, memusage, ZoneCount()) && Covered(owner, pages.runs, low, high)
      && |zoneFree| <= ZONE_RELEASE_THRESH
    }

    /** The loop of rt_system_heap_init that picks a zone size for the size of the heap. */
    static method PickZoneSize(limsize: nat) returns (size: nat, limit: nat)
      ensures ZoneSizes(size, limit)
      ensures forall s: nat, l: nat :: ZoneSizes(s, l) && s < size ==> 2 * s < limsize / 1024
      ensures size < 0x2_0000 ==> 2 * size >= limsize / 1024
    {
      size := 0x8000;
      while size < 0x2_0000 && 2 * size < limsize / 1024
        invariant size == 0x8000 || size == 0x1_0000 || size == 0x2_0000
        invariant forall s: nat, l: nat :: ZoneSizes(s, l) && s < size ==> 2 * s < limsize / 1024
      {
        size := 2 * size;
      }
      limit := size / 4;
      if limit > 0x4000 { limit := 0x4000; }
    }

    /** rt_system_heap_init, for pages numbered from `first`. */
    constructor (first: nat, npages: nat)
      requires first > 0 && npages > 0
      ensures Valid() && live == [] && fresh(pages) && low == first + RoundUp(4 * npages, PAGE) / PAGE && high == first + npages
      ensures forall p: nat :: pages.IsFree(p) <==> first + RoundUp(4 * npages, PAGE) / PAGE <= p < first + npages
      ensures zones == map[] && zoneFree == [] && maxMem == 0
      ensures forall s: nat, l: nat :: ZoneSizes(s, l) && s < zoneSize ==> 2 * s < npages * PAGE / 1024
      ensures zoneSize < 0x2_0000 ==> 2 * zoneSize >= npages * PAGE / 1024
    {
      var list := new PageList(first, npages);
      var size, limit := PickZoneSize(npages * PAGE);
      zoneSize, zoneLimit, pages := size, limit, list;
      memusage, zones, zoneFree, usedMem, maxMem := map[], map[], [], 0, 0;
      zoneArray := seq(NZONES, _ => []);
      live, owner := [], map[];
      low, high := first + RoundUp(4 * npages, PAGE) / PAGE, first + npages;
      new;
      var table := RoundUp(4 * npages, PAGE) / PAGE;
      assert list.runs[0] == Run(first, npages);
      FreeOne(first, npages);
      var b := list.Alloc(table);
      forall p: nat ensures pages.IsFree(p) <==> first + table <= p < first + npages {
        assert pages.IsFree(p) <==> FreePage([Run(first, npages)], p) && !InRun(Run(b, table), p);
      }
      forall p: nat ensures (p in owner || FreePage(pages.runs, p)) <==> low <= p < high { assert pages.IsFree(p) <==> FreePage(pages.runs, p); }
    }

    /** Take a chunk from the first zone listed for an index. */
    method TakeChunk(zi: nat) returns (ptr: nat)
      requires Zoned() && zi < NZONES && zoneArray[zi] != []
      modifies this`zones, this`zoneArray, this`usedMem, this`maxMem, this`live
      ensures Zoned() && zones.Keys == old(zones.Keys) && ptr > 0
      ensures live == old(live) + [Chunk(ptr, ChunkSize(zi), old(zoneArray)[zi][0])]
      ensures var z := old(zoneArray)[zi][0];
              z in old(zones) && z in zones && zones == old(zones)[z := zones[z]] && TakenFrom(old(zones)[z], zones[z], ptr)
      ensures maxMem == if usedMem > old(maxMem) then usedMem else old(maxMem)
    {
      hide ZonesOk, Listed, Held, Counted, BytesOf, ChunkAt, ChunkSize, Taken, Next;
      TakeFacts(zones, zoneArray, live, zoneSize, zi);
      var z := zoneArray[zi][0];
      ghost var t := zones[z];
      TakenIs(t);
      zones := zones[z := zones[z].(nfree := zones[z].nfree - 1)];
      if zones[z].nfree == 0 { zoneArray := zoneArray[zi := zoneArray[zi][1..]]; }
      if zones[z].uindex + 1 != zones[z].nmax {
        zones := zones[z := zones[z].(uindex := zones[z].uindex + 1)];
        ptr := ChunkAt(zones[z], zones[z].uindex);
      } else {
        ptr := zones[z].freechunk[0];
        zones := zones[z := zones[z].(freechunk := zones[z].freechunk[1..])];
      }
      usedMem := usedMem + zones[z].chunksize;
      if usedMem > maxMem { maxMem := usedMem; }
      live := live + [Chunk(ptr, zones[z].chunksize, z)];
      assert zones == old(zones)[z := Taken(t)];
    }

    /** Lay out a zone at page z, hand out its first chunk, and list it. */
    method OpenZone(zi: nat, z: nat) returns (ptr: nat)
      requires Zoned() && zi < NZONES && ChunkSize(zi) <= zoneLimit && z !in zones && Offset(ChunkSize(zi)) <= zoneSize
      modifies this`zones, this`zoneArray, this`usedMem, this`maxMem, this`live
      ensures Zoned() && zones == old(zones)[z := NewZone(z, zi, zoneSize)] && ptr > 0
      ensures live == old(live) + [Chunk(ptr, ChunkSize(zi), z)] && ptr == zones[z].base
      ensures maxMem == if usedMem > old(maxMem) then usedMem else old(maxMem)
    {
      hide ZonesOk, Listed, Held, Counted, BytesOf, ChunkAt, ChunkSize, PowerOfTwo, RoundUp, ZoneOk, Inside;
      OpenFacts(zones, zoneArray, live, zoneSize, zoneLimit, zi, z);
      var size := ChunkSize(zi);
      var off := if PowerOfTwo(size) then RoundUp(ZONE_HEADER, size) else RoundUp(ZONE_HEADER, 8);
      var nmax := (zoneSize - off) / size;
      zones := zones[z := Zone(nmax - 1, nmax, 0, z * PAGE + off, size, zi, [])];
      ptr := z * PAGE + off;
      zoneArray := zoneArray[zi := [z] + zoneArray[zi]];
      usedMem := usedMem + size;
      if usedMem > maxMem { maxMem := usedMem; }
      live := live + [Chunk(ptr, size, z)];
    }

    /** Mark the pages of a zone in memusage. */
    method MarkSmall(z: nat)
      modifies this`memusage
      ensures forall p: nat :: z <= p < z + ZoneCount() ==> p in memusage && memusage[p] == Usage(SMALL, p - z)
      ensures forall p: nat :: p in old(memusage) && !(z <= p < z + ZoneCount()) ==> p in memusage && memusage[p] == old(memusage)[p]
    {
      var off := 0;
      while off < ZoneCount()
        invariant 0 <= off <= ZoneCount()
        invariant forall p: nat :: z <= p < z + off ==> p in memusage && memusage[p] == Usage(SMALL, p - z)
        invariant forall p: nat :: p in old(memusage) && !(z <= p < z + ZoneCount()) ==> p in memusage && memusage[p] == old(memusage)[p]
      {
        memusage := memusage[z + off := Usage(SMALL, off)];
        off := off + 1;
      }
    }

    /** Find pages for a zone with an index: a spare zone, or pages from the free list. 0 when there are none. */
    method FindZone(zi: nat) returns (z: nat)
      requires Valid() && zi < NZONES && ChunkSize(zi) <= zoneLimit
      modifies this`zoneFree, this`memusage, this`owner, pages
      ensures Zoned() && pages.Valid() && Covered(owner, pages.runs, low, high) && |zoneFree| <= ZONE_RELEASE_THRESH
      ensures z == 0 <==> old(zoneFree) == [] && NoRun(old(pages.runs), ZoneCount())
      ensures z == 0 ==> unchanged(this) && unchanged(pages)
      ensures z != 0 ==> if old(zoneFree) != [] then z == old(zoneFree)[0] && zoneFree == old(zoneFree)[1..] && pages.runs == old(pages.runs)
                         else zoneFree == [] && Took(old(pages.runs), pages.runs, z, ZoneCount())
      ensures z != 0 ==> Offset(ChunkSize(zi)) <= zoneSize
      ensures z != 0 ==> z !in zones && Paged(zones[z := NewZone(z, zi, zoneSize)], zoneFree, live, owner, memusage, ZoneCount())
    {
      hide ZonesOk, Listed, Held, Counted, BytesOf, ChunkAt, ChunkSize, ZoneOk, Inside, Paged, FreePage, Covered, NewZone, Offset, Claimed;
      ZoneFits(zi, zoneSize, zoneLimit);
      if zoneFree != [] {
        z := zoneFree[0];
        PagedReused(zones, NewZone(z, zi, zoneSize), zoneFree, live, owner, memusage, ZoneCount());
        SparePage(zones, zoneFree, live, owner, memusage, ZoneCount());
        zoneFree := zoneFree[1..];
        return;
      }
      z := pages.Alloc(ZoneCount());
      if z != 0 {
        forall p: nat
          ensures FreePage(pages.runs, p) <==> FreePage(old(pages.runs), p) && !InRun(Run(z, ZoneCount()), p)
          ensures InRun(Run(z, ZoneCount()), p) ==> FreePage(old(pages.runs), p)
        {
          assert pages.IsFree(p) <==> old(pages.IsFree(p)) && !InRun(Run(z, ZoneCount()), p);
        }
        ClaimedFree(owner, old(pages.runs), pages.runs, z, ZoneCount(), ZoneAt(z), low, high);
        MarkSmall(z);
        PagedNew(zones, z, NewZone(z, zi, zoneSize), zoneFree, live, owner, old(memusage), memusage, ZoneCount());
        owner := Claimed(owner, z, ZoneCount(), ZoneAt(z));
      }
    }

    /** A request rt_malloc answers with null. */
    ghost predicate Refused(size: nat)
      reads this, pages`runs
    {
      || size == 0
      || (size >= zoneLimit && NoRun(pages.runs, PagesFor(size)))
      || (0 < size < zoneLimit && |zoneArray| == NZONES && NoZone(zoneArray, size) && zoneFree == [] && NoRun(pages.runs, ZoneCount()))
    }

    /** A request of at least zone_limit bytes gets whole pages. */
    method MallocLarge(size: nat) returns (ptr: nat, ghost g: Grant)
      requires Valid()
      modifies this`memusage, this`usedMem, this`maxMem, this`live, this`owner, pages
      ensures Valid()
      ensures ptr == 0 <==> NoRun(old(pages.runs), PagesFor(size))
      ensures ptr == 0 ==> unchanged(this) && unchanged(pages)
      ensures ptr != 0 ==> g == Large(ptr / PAGE, PagesFor(size)) && Ptr(g) == ptr && live == old(live) + [g]
      ensures ptr != 0 ==> zones == old(zones) && zoneFree == old(zoneFree) && Took(old(pages.runs), pages.runs, g.page, g.pages)
      ensures ptr != 0 ==> maxMem == if usedMem > old(maxMem) then usedMem else old(maxMem)
    {
      hide ZonesOk, Listed, Held, Counted, BytesOf, Paged, FreePage, Covered, Claimed, PagesFor;
      var n := PagesFor(size);
      g := Large(0, 0);
      var page := pages.Alloc(n);
      if page == 0 { return 0, g; }
      forall p: nat
        ensures FreePage(pages.runs, p) <==> FreePage(old(pages.runs), p) && !InRun(Run(page, n), p)
        ensures InRun(Run(page, n), p) ==> FreePage(old(pages.runs), p)
      {
        assert pages.IsFree(p) <==> old(pages.IsFree(p)) && !InRun(Run(page, n), p);
      }
      g := Large(page, n);
      ClaimedFree(owner, old(pages.runs), pages.runs, page, n, LargeAt(page), low, high);
      PagedLarge(zones, zoneFree, live, owner, memusage, ZoneCount(), page, n);
      LargeHeld(zones, live, g);
      CountedLarge(zones, live, g);
      Appended(live, g, 0);
      memusage := memusage[page := Usage(LARGE, n)];
      usedMem := usedMem + n * PAGE;
      if usedMem > maxMem { maxMem := usedMem; }
      owner := Claimed(owner, page, n, LargeAt(page));
      live := live + [g];
      ptr := page * PAGE;
    }

    /** Where the chunk of a grant came from: the next chunk of the first zone listed for the size, or the first chunk of a zone
        laid out in the first spare zone, or else in the first long enough run of free pages. */
    ghost predicate FromZone(zones0: map<nat, Zone>, zoneArray0: seq<seq<nat>>, zoneFree0: seq<nat>, runs0: seq<Run>, size: nat, g: Grant)
      reads this, pages`runs
      requires g.Chunk?
    {
      exists zi :: BestFit(size, zi) && 0 <= zi < |zoneArray0| && zi < NZONES &&
        if zoneArray0[zi] != [] then
          && g.zone == zoneArray0[zi][0] && g.zone in zones0 && g.zone in zones
          && zones == zones0[g.zone := zones[g.zone]] && TakenFrom(zones0[g.zone], zones[g.zone], g.addr)
          && zoneFree == zoneFree0 && pages.runs == runs0
        else
          && Offset(ChunkSize(zi)) <= zoneSize && zones == zones0[g.zone := NewZone(g.zone, zi, zoneSize)]
          && g.addr == zones[g.zone].base
          && if zoneFree0 != [] then g.zone == zoneFree0[0] && zoneFree == zoneFree0[1..] && pages.runs == runs0
             else zoneFree == [] && Took(runs0, pages.runs, g.zone, ZoneCount())
    }

    /** rt_malloc: null exactly for a refused request, with nothing changed; otherwise a chunk of the best fitting size,
        or the pages that cover the request. Valid says that it is nobody else's. */
    method Malloc(size: nat) returns (ptr: nat, ghost g: Grant)
      requires Valid() && size < 0x1_0000_0000
      modifies this, pages
      ensures Valid()
      ensures ptr == 0 <==> old(Refused(size))
      ensures ptr == 0 ==> unchanged(this) && unchanged(pages)
      ensures ptr != 0 ==> live == old(live) + [g] && Ptr(g) == ptr && Bytes(g) >= size
      ensures ptr != 0 ==> (g.Chunk? <==> size < zoneLimit) && (g.Chunk? ==> exists zi :: BestFit(size, zi) && g.size == ChunkSize(zi))
      ensures ptr != 0 && g.Chunk? ==> FromZone(old(zones), old(zoneArray), old(zoneFree), old(pages.runs), size, g)
      ensures ptr != 0 && g.Large? ==>
                && g.pages == PagesFor(size) && zones == old(zones) && zoneFree == old(zoneFree)
                && Took(old(pages.runs), pages.runs, g.page, g.pages)
      ensures ptr != 0 ==> maxMem == if usedMem > old(maxMem) then usedMem else old(maxMem)
    {
      hide ZonesOk, Listed, Held, Counted, BytesOf, Paged, FreePage, Covered, Claimed, PagesFor, BestFit, ChunkSize, NoZone, NoRun;
      g := Large(0, 0);
      if size == 0 { return 0, g; }
      ListCount(zones, zoneArray);
      if size >= zoneLimit {
        Covers(pages.runs, size);
        ptr, g := MallocLarge(size);
        return;
      }
      var zi, n := ZoneIndex(size);
      Best(size, zi, zoneSize, zoneLimit, zoneArray);
      if zoneArray[zi] != [] {
        ptr := TakeChunk(zi);
        g := Chunk(ptr, ChunkSize(zi), old(zoneArray)[zi][0]);
        PagedSame(old(zones), zones, zoneFree, old(live), live, owner, memusage, ZoneCount());
        return;
      }
      var z := FindZone(zi);
      if z == 0 { return 0, g; }
      ptr := OpenZone(zi, z);
      g := Chunk(ptr, ChunkSize(zi), z);
      PagedSame(zones, zones, zoneFree, old(live), live, owner, memusage, ZoneCount());
    }

    /** Put a chunk on the free list of its zone, and list the zone again if it had no free chunk. */
    method GiveChunk(z: nat, ptr: nat, ghost k: nat)
      requires Zoned() && k < |live| && live[k].Chunk? && live[k].zone == z && live[k].addr == ptr
      modifies this`zones, this`zoneArray, this`usedMem, this`live
      ensures Zoned() && zones.Keys == old(zones.Keys) && live == Dropped(old(live), k) && z in zones
      ensures zones == old(zones)[z := Given(old(zones)[z], ptr)] && zones[z].nfree > 0
    {
      hide ZonesOk, Listed, Held, Counted, BytesOf, ChunkSize, Dropped, Given;
      GiveFacts(zones, zoneArray, live, zoneSize, k);
      GivenIs(zones[z], ptr);
      ghost var t := zones[z];
      var zi := zones[z].zoneindex;
      zones := zones[z := zones[z].(freechunk := [ptr] + zones[z].freechunk)];
      usedMem := usedMem - zones[z].chunksize;
      zones := zones[z := zones[z].(nfree := zones[z].nfree + 1)];
      if zones[z].nfree - 1 == 0 { zoneArray := zoneArray[zi := [z] + zoneArray[zi]]; }
      live := Dropped(live, k);
      assert zones == old(zones)[z := Given(t, ptr)];
    }

    /** Move a zone with no chunk in use from its list to the spare zones. */
    method Retire(z: nat)
      requires Zoned() && z in zones && zones[z].nfree == zones[z].nmax
      modifies this`zones, this`zoneArray, this`zoneFree
      ensures Zoned() && zones == old(zones) - {z} && zoneFree == [z] + old(zoneFree)
    {
      hide ZonesOk, Listed, Held, Counted, BytesOf, ChunkSize, Dropped;
      RetireFacts(zones, zoneArray, live, zoneSize, z);
      var zi := zones[z].zoneindex;
      var i := 0;
      while zoneArray[zi][i] != z
        invariant 0 <= i < |zoneArray[zi]| && z !in zoneArray[zi][..i]
        modifies {}
        decreases |zoneArray[zi]| - i
      {
        i := i + 1;
        Onward(zoneArray[zi], z, i);
      }
      RetiredLists(zones, zoneArray, zi, i);
      zoneArray := zoneArray[zi := Dropped(zoneArray[zi], i)];
      zones := zones - {z};
      zoneFree := [z] + zoneFree;
    }

    /** Mark the pages of a zone in memusage as free. */
    method MarkFree(z: nat)
      modifies this`memusage
      ensures forall p: nat :: p in old(memusage) && !(z <= p < z + ZoneCount()) ==> p in memusage && memusage[p] == old(memusage)[p]
      ensures forall p: nat :: z <= p < z + ZoneCount() ==> p in memusage && memusage[p] == Usage(FREE, 0)
    {
      var i := 0;
      while i < ZoneCount()
        invariant 0 <= i <= ZoneCount()
        invariant forall p: nat :: z <= p < z + i ==> p in memusage && memusage[p] == Usage(FREE, 0)
        invariant forall p: nat :: p in old(memusage) && !(z <= p < z + ZoneCount()) ==> p in memusage && memusage[p] == old(memusage)[p]
      {
        memusage := memusage[z + i := Usage(FREE, 0)];
        i := i + 1;
      }
    }

    /** Give the pages of the last spare zone back to the page allocator. */
    method DropSpare()
      requires pages.Valid() && Zoned() && Paged(zones, zoneFree, live, owner, memusage, ZoneCount()) && Covered(owner, pages.runs, low, high)
      requires 0 < |zoneFree| <= ZONE_RELEASE_THRESH + 1
      modifies this`memusage, this`zoneFree, this`owner, pages
      ensures Valid() && zoneFree == old(zoneFree)[1..]
      ensures Gave(old(pages.runs), pages.runs, old(zoneFree)[0], ZoneCount())
    {
      hide ZonesOk, Listed, Held, Counted, BytesOf, Paged, FreePage, Covered, Cleared;
      var z := zoneFree[0];
      WholePages(zoneSize, zoneLimit);
      MarkFree(z);
      PagedReleased(zones, zoneFree, live, owner, old(memusage), memusage, ZoneCount());
      OwnedPages(owner, pages.runs, z, ZoneCount(), low, high);
      zoneFree := zoneFree[1..];
      pages.Release(z, ZoneCount());
      forall p: nat ensures FreePage(pages.runs, p) <==> FreePage(old(pages.runs), p) || InRun(Run(z, ZoneCount()), p) {
        assert pages.IsFree(p) <==> old(pages.IsFree(p)) || InRun(Run(z, ZoneCount()), p);
      }
      ClearedFree(owner, old(pages.runs), pages.runs, z, ZoneCount(), low, high);
      owner := Cleared(owner, z, ZoneCount());
    }

    /** Give back a large block. */
    method FreeLarge(p: nat, ghost k: nat)
      requires Valid() && k < |live| && live[k].Large? && live[k].page == p
      modifies this`memusage, this`usedMem, this`live, this`owner, pages
      ensures Valid() && live == Dropped(old(live), k)
      ensures Gave(old(pages.runs), pages.runs, p, old(live)[k].pages)
    {
      hide ZonesOk, Listed, Counted, BytesOf, Paged, FreePage, Covered, Cleared, Dropped, HeldChunk;
      IsLarge(zones, zoneFree, live, owner, memusage, ZoneCount(), k);
      var n := memusage[p].size;
      PagedDropped(zones, zoneFree, live, owner, memusage, ZoneCount(), k);
      OwnedPages(owner, pages.runs, p, n, low, high);
      DroppedHeld(zones, live, k);
      CountedDropLarge(zones, live, k);
      DroppedCount(live, k, 0);
      memusage := memusage[p := Usage(LARGE, 0)];
      usedMem := usedMem - n * PAGE;
      pages.Release(p, n);
      forall q: nat ensures FreePage(pages.runs, q) <==> FreePage(old(pages.runs), q) || InRun(Run(p, n), q) {
        assert pages.IsFree(q) <==> old(pages.IsFree(q)) || InRun(Run(p, n), q);
      }
      ClearedFree(owner, old(pages.runs), pages.runs, p, n, low, high);
      owner := Cleared(owner, p, n);
      live := Dropped(live, k);
    }

    /** What becomes of a zone when a chunk of it is given back: it takes the chunk, but when it has no other chunk out and there
        is another zone of its index to allocate from, it becomes the first spare zone, or its pages become free when there
        are spare zones enough. */
    ghost predicate BackInZone(zones0: map<nat, Zone>, zoneFree0: seq<nat>, runs0: seq<Run>, g: Grant)
      reads this, pages`runs
      requires g.Chunk?
    {
      && g.zone in zones0
      && var t := Given(zones0[g.zone], g.addr);
         if t.nfree == t.nmax && exists y :: y != g.zone && HasRoom(zones0, y, t.zoneindex) then
           && zones == zones0 - {g.zone}
           && if |zoneFree0| < 2 then zoneFree == [g.zone] + zoneFree0 && pages.runs == runs0
              else zoneFree == zoneFree0 && Gave(runs0, pages.runs, g.zone, ZoneCount())
         else zones == zones0[g.zone := t] && zoneFree == zoneFree0 && pages.runs == runs0
    }

    /** rt_free: the block is nobody's any more; the zone it was in is kept, made a spare zone, or a spare zone too many
        goes back to the page allocator. */
    method Free(ptr: nat, ghost k: nat)
      requires Valid() && (ptr != 0 ==> k < |live| && Ptr(live[k]) == ptr)
      modifies this, pages
      ensures Valid() && maxMem == old(maxMem)
      ensures if ptr == 0 then unchanged(this) && unchanged(pages) else live == Dropped(old(live), k)
      ensures ptr != 0 && old(live)[k].Large? ==>
                zones == old(zones) && zoneFree == old(zoneFree) && Gave(old(pages.runs), pages.runs, old(live)[k].page, old(live)[k].pages)
      ensures ptr != 0 && old(live)[k].Chunk? ==> BackInZone(old(zones), old(zoneFree), old(pages.runs), old(live)[k])
    {
      hide ZonesOk, Listed, Held, Counted, BytesOf, Paged, Covered, Cleared, Dropped;
      if ptr == 0 { return; }
      KindOf(zones, zoneFree, live, owner, memusage, zoneSize, zoneLimit, k);
      var p := ptr / PAGE;
      if memusage[p].kind == LARGE {
        FreeLarge(p, k);
        return;
      }
      var z := p - memusage[p].size;
      Kept(zones, live, k);
      GiveChunk(z, ptr, k);
      PagedSame(old(zones), zones, zoneFree, old(live), live, owner, memusage, ZoneCount());
      ListCount(zones, zoneArray);
      IndexIn(zones, zoneSize, z);
      OnlyOne(old(zones), zones, zoneArray, z);
      if zones[z].nfree == zones[z].nmax && zoneArray[zones[z].zoneindex] != [z] {
        PagedRetired(zones, z, zoneFree, live, owner, memusage, ZoneCount());
        Retire(z);
        assert ([z] + old(zoneFree))[1..] == old(zoneFree);
        if |zoneFree| > ZONE_RELEASE_THRESH { DropSpare(); }
      }
    }

    /** rt_realloc: a chunk stays where it is exactly when the new size rounds to the same chunk size; any other block
        is replaced by a new one, or nothing changes, exactly when rt_malloc refuses the size it is asked for. */
    method Realloc(ptr: nat, size: nat, ghost k: nat) returns (r: nat, ghost g: Grant)
      requires Valid() && size < 0x1_0000_0000 && (ptr != 0 ==> k < |live| && Ptr(live[k]) == ptr)
      modifies this, pages
      ensures Valid()
      ensures ptr == 0 ==> (r == 0 <==> old(Refused(size))) && (r != 0 ==> live == old(live) + [g])
      ensures ptr != 0 && size == 0 ==> r == 0 && live == Dropped(old(live), k)
      ensures ptr != 0 && size != 0 && old(SameChunk(live[k], size)) ==> r == ptr && unchanged(this) && unchanged(pages)
      ensures ptr != 0 && size != 0 && !old(SameChunk(live[k], size)) ==> (r == 0 <==> old(Refused(NewSize(live[k], size))))
      ensures ptr != 0 && size != 0 && !old(SameChunk(live[k], size)) && r != 0 ==> live == Dropped(old(live) + [g], k)
      ensures r == 0 && !(ptr != 0 && size == 0) ==> unchanged(this) && unchanged(pages)
      ensures r != 0 && !(ptr != 0 && old(SameChunk(live[k], size))) ==> Ptr(g) == r && Bytes(g) >= size
      ensures r == 0 ==> maxMem == old(maxMem)
      ensures r != 0 && !(ptr != 0 && size != 0 && old(SameChunk(live[k], size))) ==>
                maxMem == if BytesOf(old(live) + [g]) > old(maxMem) then BytesOf(old(live) + [g]) else old(maxMem)
    {
      hide ZonesOk, Listed, Held, Counted, BytesOf, Paged, Covered, Dropped, BestFit, ChunkSize, NoZone;
      g := Grant.Large(0, 0);
      if ptr == 0 {
        r, g := Malloc(size);
        return;
      }
      if size == 0 {
        Free(ptr, k);
        return 0, g;
      }
      KindOf(zones, zoneFree, live, owner, memusage, zoneSize, zoneLimit, k);
      var p := ptr / PAGE;
      var n := size;
      if memusage[p].kind != LARGE {
        var z := p - memusage[p].size;
        ChunkOf(zones, zoneFree, live, owner, memusage, zoneSize, zoneLimit, k);
        var zi;
        zi, n := ZoneIndex(size);
        SameSize(live[k], size, zi, n);
        if zones[z].chunksize == n { return ptr, g; }
      }
      r, g := Malloc(n);
      if r != 0 {
        Longer(old(live), g, k);
        Free(ptr, k);
      }
    }

    /** Blocks in callers' hands do not overlap. */
    lemma NoOverlap(i: nat, j: nat)
      requires Valid() && i < |live| && j < |live| && i != j
      ensures Ptr(live[i]) + Bytes(live[i]) <= Ptr(live[j]) || Ptr(live[j]) + Bytes(live[j]) <= Ptr(live[i])
    {
      hide ZonesOk, Held, Paged, FreePage, Covered;
      WholePages(zoneSize, zoneLimit);
      NotEmpty(zones, zoneFree, live, owner, memusage, zoneSize, i);
      NotEmpty(zones, zoneFree, live, owner, memusage, zoneSize, j);
      var x := if Ptr(live[i]) < Ptr(live[j]) then Ptr(live[j]) else Ptr(live[i]);
      if Ptr(live[i]) <= x < Ptr(live[i]) + Bytes(live[i]) && Ptr(live[j]) <= x < Ptr(live[j]) + Bytes(live[j]) {
        PageOf(zones, zoneFree, live, owner, memusage, zoneSize, i, x);
        PageOf(zones, zoneFree, live, owner, memusage, zoneSize, j, x);
        SameOwner(zones, zoneFree, live, owner, memusage, zoneSize, i, j);
      }
    }
  }

  /** A request for `size` bytes is met by the chunk already held. */
  ghost predicate SameChunk(g: Grant, size: nat) {
    g.Chunk? && exists zi :: BestFit(size, zi) && ChunkSize(zi) == g.size
  }

  /** The size rt_realloc asks rt_malloc for: for a chunk, rounded to a chunk size as far as there is one. */
  ghost function NewSize(g: Grant, size: nat): nat {
    if g.Chunk? && exists zi :: BestFit(size, zi) then
      var zi :| BestFit(size, zi);
      ChunkSize(zi)
    else size
  }

  lemma SameSize(g: Grant, size: nat, zi: int, n: nat)
    requires g.Chunk? && size > 0 && (exists i :: 0 <= i < NZONES && g.size == ChunkSize(i))
    requires (size < 16384 ==> BestFit(size, zi) && n == ChunkSize(zi)) && (size >= 16384 ==> n == size)
    ensures n >= size && (n == size || n <= 16384) && (SameChunk(g, size) <==> g.size == n) && NewSize(g, size) == n
  {
    hide ChunkSize;
    if size < 16384 {
      AtMost(zi);
      forall i | BestFit(size, i) ensures i == zi { IndexIsUnique(size, i, zi); }
    } else {
      var j :| 0 <= j < NZONES && g.size == ChunkSize(j);
      if g.size == size { Exactly(j); }
      forall i | BestFit(size, i) ensures ChunkSize(i) == size { AtMost(i); }
    }
  }

  lemma AtMost(i: nat)
    requires i < NZONES
    ensures ChunkSize(i) <= 16384
  {
  }

  lemma Exactly(i: nat)
    requires i < NZONES
    ensures BestFit(ChunkSize(i), i)
  {
    if i > 0 { ChunkSizesGrow(i - 1, i); }
  }

  lemma ChunkOf(zones: map<nat, Zone>, zoneFree: seq<nat>, live: seq<Grant>, owner: map<nat, Owner>,
                memusage: map<nat, Usage>, zoneSize: nat, zoneLimit: nat, k: nat)
    requires Paged(zones, zoneFree, live, owner, memusage, zoneSize / PAGE) && Held(zones, live) && ZonesOk(zones, zoneSize)
    requires k < |live| && live[k].Chunk? && ZoneSizes(zoneSize, zoneLimit)
    ensures live[k].zone in zones && zones[live[k].zone].chunksize == live[k].size
    ensures exists i :: 0 <= i < NZONES && live[k].size == ChunkSize(i)
  {
    WholePages(zoneSize, zoneLimit);
    IsSmall(zones, zoneFree, live, owner, memusage, zoneSize, k);
    assert live[k].size == ChunkSize(zones[live[k].zone].zoneindex);
  }

  lemma Longer(live: seq<Grant>, g: Grant, k: nat)
    requires k < |live|
    ensures k < |live + [g]| && (live + [g])[k] == live[k]
  {
  }

  /** Pages for a request, on 32-bit numbers. */
  function PagesFor(size: nat): nat { (size + PAGE - 1) % 0x1_0000_0000 / PAGE }

  /** No zone of the index for a size has a free chunk. */
  ghost predicate NoZone(zoneArray: seq<seq<nat>>, size: nat)
    requires |zoneArray| == NZONES
  {
    forall zi :: BestFit(size, zi) ==> zoneArray[zi] == []
  }

  lemma ListCount(zones: map<nat, Zone>, zoneArray: seq<seq<nat>>)
    requires Listed(zones, zoneArray)
    ensures |zoneArray| == NZONES
  {
  }

  /** The pages cover the request, unless rounding wraps around, which asks for no pages at all. */
  lemma Covers(runs: seq<Run>, size: nat)
    requires size < 0x1_0000_0000
    ensures PagesFor(size) * PAGE >= size || NoRun(runs, PagesFor(size))
  {
  }

  lemma Best(size: nat, zi: int, zoneSize: nat, zoneLimit: nat, zoneArray: seq<seq<nat>>)
    requires ZoneSizes(zoneSize, zoneLimit) && 0 < size < zoneLimit && |zoneArray| == NZONES
    requires BestFit(size, zi)
    ensures 0 <= zi < NZONES && size <= ChunkSize(zi) <= zoneLimit && size < 16384
    ensures NoZone(zoneArray, size) <==> zoneArray[zi] == []
  {
    forall i | BestFit(size, i) ensures i == zi { IndexIsUnique(size, i, zi); }
  }

  lemma WholePages(zoneSize: nat, zoneLimit: nat)
    requires ZoneSizes(zoneSize, zoneLimit)
    ensures zoneSize / PAGE * PAGE == zoneSize && zoneSize / PAGE > 0
  {
  }

  lemma GivenIs(t: Zone, p: nat)
    ensures Given(t, p) == t.(nfree := t.nfree + 1, freechunk := [p] + t.freechunk)
  {
  }

  lemma GiveFacts(zones: map<nat, Zone>, zoneArray: seq<seq<nat>>, live: seq<Grant>, zoneSize: nat, k: nat)
    requires ZonesOk(zones, zoneSize) && Listed(zones, zoneArray) && Held(zones, live) && Counted(zones, live)
    requires k < |live| && live[k].Chunk?
    ensures live[k].zone in zones
    ensures var g := live[k];
            var t := zones[g.zone];
            var n, l := Given(t, g.addr), Dropped(live, k);
            && t.zoneindex < NZONES == |zoneArray| && g.size == t.chunksize
            && ZonesOk(zones[g.zone := n], zoneSize) && n.nfree == t.nfree + 1 > 0
            && Listed(zones[g.zone := n], if t.nfree == 0 then zoneArray[t.zoneindex := [g.zone] + zoneArray[t.zoneindex]] else zoneArray)
            && Held(zones[g.zone := n], l) && Counted(zones[g.zone := n], l)
            && BytesOf(l) == BytesOf(live) - t.chunksize
  {
    hide ZoneOk, Counted, BytesOf, Out, HeldChunk, CountOf, ZonesOk, Dropped, ListIs;
    var g := live[k];
    assert g in live;
    GiveOk(zones, zoneSize, g);
    var t := zones[g.zone];
    var n, zi := Given(t, g.addr), t.zoneindex;
    assert ListIs(zones, zoneArray[zi], zi);
    if t.nfree == 0 {
      FirstNew(zones, zoneArray[zi], zi, g.zone, n);
      SetLists(zones, zoneArray, zi, g.zone, n, [g.zone] + zoneArray[zi]);
    } else {
      SetList(zones, zoneArray[zi], zi, g.zone, n);
      SetLists(zones, zoneArray, zi, g.zone, n, zoneArray[zi]);
      assert zoneArray[zi := zoneArray[zi]] == zoneArray;
    }
    GivenHeld(zones, live, k, n);
    InZone(zones, live, g.zone);
    CountedDrop(zones, live, k, g.zone, n);
    DroppedCount(live, k, g.zone);
  }

  lemma InZone(zones: map<nat, Zone>, live: seq<Grant>, z: nat)
    requires Counted(zones, live) && z in zones
    ensures CountOf(live, z) + zones[z].nfree == zones[z].nmax
  {
  }

  lemma GiveOk(zones: map<nat, Zone>, zoneSize: nat, g: Grant)
    requires ZonesOk(zones, zoneSize) && g.Chunk? && HeldChunk(zones, g)
    ensures g.zone in zones
    ensures var t := zones[g.zone];
            var n := Given(t, g.addr);
            && t.zoneindex < NZONES && g.size == t.chunksize && t.nfree >= 0 && ZonesOk(zones[g.zone := n], zoneSize)
            && forall q: nat | q != g.addr :: Out(n, q) <==> Out(t, q)
  {
    var t := zones[g.zone];
    GivenFacts(t, g.addr);
    SamePlaces(t, Given(t, g.addr), t.nmax);
    SetZones(zones, zoneSize, g.zone, Given(t, g.addr));
  }

  lemma RetireFacts(zones: map<nat, Zone>, zoneArray: seq<seq<nat>>, live: seq<Grant>, zoneSize: nat, z: nat)
    requires ZonesOk(zones, zoneSize) && Listed(zones, zoneArray) && Held(zones, live) && Counted(zones, live)
    requires z in zones && zones[z].nfree == zones[z].nmax
    ensures zones[z].zoneindex < NZONES == |zoneArray| && z in zoneArray[zones[z].zoneindex]
    ensures ZonesOk(zones - {z}, zoneSize) && Held(zones - {z}, live) && Counted(zones - {z}, live)
  {
    hide Held, HeldChunk, CountOf, ChunkSize, ChunkAt;
    RetiredHeld(zones, live, z);
    assert ListIs(zones, zoneArray[zones[z].zoneindex], zones[z].zoneindex);
    assert HasRoom(zones, z, zones[z].zoneindex);
  }

  lemma Onward(list: seq<nat>, z: nat, i: nat)
    requires z in list && 0 < i <= |list| && z !in list[..i - 1] && list[i - 1] != z
    ensures i < |list| && z !in list[..i]
  {
    assert list[..i] == list[..i - 1] + [list[i - 1]];
    assert list == list[..i] + list[i..];
  }

  lemma OwnedPages(owner: map<nat, Owner>, runs: seq<Run>, at: nat, n: nat, low: nat, high: nat)
    requires Covered(owner, runs, low, high) && forall p: nat :: at <= p < at + n ==> p in owner
    ensures forall p: nat :: InRun(Run(at, n), p) ==> !FreePage(runs, p)
  {
  }

  /** A chunk given back leaves the large blocks as they are. */
  lemma Kept(zones: map<nat, Zone>, live: seq<Grant>, k: nat)
    requires k < |live| && live[k].Chunk? && Held(zones, live)
    ensures forall g: Grant :: g.Large? ==> (g in Dropped(live, k) <==> g in live)
  {
    forall g: Grant | g.Large? ensures g in Dropped(live, k) <==> g in live { DroppedMember(live, k, g); }
  }

  /** A zone with a free chunk is the only one listed for its index when no other zone of the index has a free chunk. */
  lemma OnlyOne(before: map<nat, Zone>, zones: map<nat, Zone>, zoneArray: seq<seq<nat>>, z: nat)
    requires Listed(zones, zoneArray) && z in zones && zones[z].nfree > 0 && zones[z].zoneindex < NZONES
    requires z in before && zones == before[z := zones[z]]
    ensures |zoneArray| == NZONES
    ensures zoneArray[zones[z].zoneindex] != [z] <==> exists y :: y != z && HasRoom(before, y, zones[z].zoneindex)
  {
    var zi := zones[z].zoneindex;
    var list := zoneArray[zi];
    assert ListIs(zones, list, zi);
    assert HasRoom(zones, z, zi);
    forall y | y != z ensures y in list <==> HasRoom(before, y, zi) { assert HasRoom(zones, y, zi) <==> HasRoom(before, y, zi); }
    if list != [z] {
      var y := if list[0] != z then list[0] else list[1];
      assert y in list;
    }
  }

  lemma IndexIn(zones: map<nat, Zone>, zoneSize: nat, z: nat)
    requires ZonesOk(zones, zoneSize) && z in zones
    ensures zones[z].zoneindex < NZONES
  {
  }

  lemma IsLarge(zones: map<nat, Zone>, zoneFree: seq<nat>, live: seq<Grant>, owner: map<nat, Owner>,
                memusage: map<nat, Usage>, count: nat, k: nat)
    requires Paged(zones, zoneFree, live, owner, memusage, count) && k < |live| && live[k].Large?
    ensures live[k].page in memusage && memusage[live[k].page] == Usage(LARGE, live[k].pages) && live[k].page > 0 && live[k].pages > 0
    ensures forall p: nat :: live[k].page <= p < live[k].page + live[k].pages ==> p in owner && owner[p] == LargeAt(live[k].page)
  {
    assert live[k] in live;
    LargeOwns(owner, memusage, live[k].page, live[k].pages);
  }

  /** The bytes of a chunk lie in its zone, and the zone's pages are its own. */
  lemma IsSmall(zones: map<nat, Zone>, zoneFree: seq<nat>, live: seq<Grant>, owner: map<nat, Owner>,
                memusage: map<nat, Usage>, zoneSize: nat, k: nat)
    requires Paged(zones, zoneFree, live, owner, memusage, zoneSize / PAGE) && Held(zones, live) && ZonesOk(zones, zoneSize)
    requires k < |live| && live[k].Chunk? && zoneSize / PAGE * PAGE == zoneSize > 0
    ensures var g := live[k];
            && g.zone > 0 && g.zone in zones && g.size == zones[g.zone].chunksize > 0
            && g.zone * PAGE + ZONE_HEADER <= g.addr && g.addr + g.size <= g.zone * PAGE + zoneSize
            && Out(zones[g.zone], g.addr)
    ensures forall p: nat :: live[k].zone <= p < live[k].zone + zoneSize / PAGE ==>
              p in owner && owner[p] == ZoneAt(live[k].zone) && p in memusage && memusage[p] == Usage(SMALL, p - live[k].zone)
  {
    var g := live[k];
    assert g in live && HeldChunk(zones, g);
    OutAbove(g.zone, zones[g.zone], zoneSize, g.addr);
    assert ZonePages(owner, memusage, g.zone, zoneSize / PAGE);
    ZoneOwns(owner, memusage, g.zone, zoneSize / PAGE);
  }

  /** memusage tells what a pointer belongs to. */
  lemma KindOf(zones: map<nat, Zone>, zoneFree: seq<nat>, live: seq<Grant>, owner: map<nat, Owner>,
               memusage: map<nat, Usage>, zoneSize: nat, zoneLimit: nat, k: nat)
    requires Paged(zones, zoneFree, live, owner, memusage, zoneSize / PAGE) && Held(zones, live) && ZonesOk(zones, zoneSize)
    requires k < |live| && ZoneSizes(zoneSize, zoneLimit)
    ensures var p := Ptr(live[k]) / PAGE;
            && p in memusage && (memusage[p].kind == LARGE <==> live[k].Large?)
            && (live[k].Large? ==> live[k].page == p)
            && (live[k].Chunk? ==> live[k].addr == Ptr(live[k]) && p >= memusage[p].size && live[k].zone == p - memusage[p].size)
  {
    hide ZonesOk, Held, Paged;
    WholePages(zoneSize, zoneLimit);
    if live[k].Large? {
      IsLarge(zones, zoneFree, live, owner, memusage, zoneSize / PAGE, k);
    } else {
      IsSmall(zones, zoneFree, live, owner, memusage, zoneSize, k);
      assert live[k].zone <= live[k].addr / PAGE < live[k].zone + zoneSize / PAGE;
    }
  }

  function OwnerOf(g: Grant): Owner { if g.Chunk? then ZoneAt(g.zone) else LargeAt(g.page) }

  /** The pages a grant touches are its owner's. */
  lemma PageOf(zones: map<nat, Zone>, zoneFree: seq<nat>, live: seq<Grant>, owner: map<nat, Owner>,
                memusage: map<nat, Usage>, zoneSize: nat, k: nat, x: nat)
    requires Paged(zones, zoneFree, live, owner, memusage, zoneSize / PAGE) && Held(zones, live) && ZonesOk(zones, zoneSize)
    requires k < |live| && zoneSize / PAGE * PAGE == zoneSize > 0 && Ptr(live[k]) <= x < Ptr(live[k]) + Bytes(live[k])
    ensures x / PAGE in owner && owner[x / PAGE] == OwnerOf(live[k])
  {
    hide ZonesOk, Held, Paged;
    if live[k].Large? {
      IsLarge(zones, zoneFree, live, owner, memusage, zoneSize / PAGE, k);
    } else {
      IsSmall(zones, zoneFree, live, owner, memusage, zoneSize, k);
      assert live[k].zone <= x / PAGE < live[k].zone + zoneSize / PAGE;
    }
  }

  lemma NotEmpty(zones: map<nat, Zone>, zoneFree: seq<nat>, live: seq<Grant>, owner: map<nat, Owner>,
                 memusage: map<nat, Usage>, zoneSize: nat, k: nat)
    requires Paged(zones, zoneFree, live, owner, memusage, zoneSize / PAGE) && Held(zones, live) && ZonesOk(zones, zoneSize)
    requires k < |live| && zoneSize / PAGE * PAGE == zoneSize > 0
    ensures Bytes(live[k]) > 0
  {
    hide ZonesOk, Held, Paged;
    if live[k].Large? {
      IsLarge(zones, zoneFree, live, owner, memusage, zoneSize / PAGE, k);
    } else {
      IsSmall(zones, zoneFree, live, owner, memusage, zoneSize, k);
    }
  }

  lemma SameOwner(zones: map<nat, Zone>, zoneFree: seq<nat>, live: seq<Grant>, owner: map<nat, Owner>,
                  memusage: map<nat, Usage>, zoneSize: nat, i: nat, j: nat)
    requires Paged(zones, zoneFree, live, owner, memusage, zoneSize / PAGE) && Held(zones, live) && ZonesOk(zones, zoneSize)
    requires i < |live| && j < |live| && i != j && zoneSize / PAGE * PAGE == zoneSize > 0 && OwnerOf(live[i]) == OwnerOf(live[j])
    ensures Ptr(live[i]) + Bytes(live[i]) <= Ptr(live[j]) || Ptr(live[j]) + Bytes(live[j]) <= Ptr(live[i])
  {
    hide ZonesOk, Paged, HeldChunk, Out;
    assert live[i] != live[j] by { Same(live, i, j); }
    if live[i].Large? {
      IsLarge(zones, zoneFree, live, owner, memusage, zoneSize / PAGE, i);
      IsLarge(zones, zoneFree, live, owner, memusage, zoneSize / PAGE, j);
    } else {
      IsSmall(zones, zoneFree, live, owner, memusage, zoneSize, i);
      IsSmall(zones, zoneFree, live, owner, memusage, zoneSize, j);
      ChunkPlaces(zones[live[i].zone], live[i].addr, live[j].addr);
    }
  }

  lemma ChunkPlaces(t: Zone, p: nat, q: nat)
    requires t.chunksize > 0 && Out(t, p) && Out(t, q) && p != q
    ensures p + t.chunksize <= q || q + t.chunksize <= p
  {
    hide ChunkAt;
    var i :| 0 <= i <= t.uindex && p == ChunkAt(t, i);
    var j :| 0 <= j <= t.uindex && q == ChunkAt(t, j);
    if i < j { ChunksApart(t, i, j); } else if j < i { ChunksApart(t, j, i); }
  }

  /** A zone before and after its next chunk, at p, has been taken. */
  ghost predicate TakenFrom(t: Zone, u: Zone, p: nat) {
    (t.uindex + 1 == t.nmax ==> t.freechunk != []) && p == Next(t) && u == Taken(t)
  }

  /** The pages from `at` on, the first n in the first run that is long enough, are no longer free. */
  ghost predicate Took(before: seq<Run>, after: seq<Run>, at: nat, n: nat) {
    && (exists i: nat :: FirstLong(before, n, i) && before[i].at == at)
    && forall p: nat :: FreePage(after, p) <==> FreePage(before, p) && !InRun(Run(at, n), p)
  }

  /** Exactly the n pages from `at` on have become free. */
  ghost predicate Gave(before: seq<Run>, after: seq<Run>, at: nat, n: nat) {
    forall p: nat :: FreePage(after, p) <==> FreePage(before, p) || InRun(Run(at, n), p)
  }

  /** No run has n pages. */
  ghost predicate NoRun(runs: seq<Run>, n: nat) {
    n == 0 || forall i :: 0 <= i < |runs| ==> runs[i].n < n
  }

  lemma TakenIs(t: Zone)
    requires t.uindex + 1 == t.nmax ==> t.freechunk != []
    ensures Taken(t) == if t.uindex + 1 != t.nmax then t.(nfree := t.nfree - 1, uindex := t.uindex + 1)
                        else t.(nfree := t.nfree - 1, freechunk := t.freechunk[1..])
    ensures Next(t) == if t.uindex + 1 != t.nmax then ChunkAt(Taken(t), t.uindex + 1) else t.freechunk[0]
  {
  }

  lemma TakeFacts(zones: map<nat, Zone>, zoneArray: seq<seq<nat>>, live: seq<Grant>, zoneSize: nat, zi: nat)
    requires ZonesOk(zones, zoneSize) && Listed(zones, zoneArray) && Held(zones, live) && Counted(zones, live)
    requires zi < NZONES && zoneArray[zi] != []
    ensures |zoneArray| == NZONES && zoneArray[zi][0] in zones
    ensures var z := zoneArray[zi][0];
            var t := zones[z];
            && (t.uindex + 1 == t.nmax ==> t.freechunk != []) && Next(t) > 0 && t.chunksize == ChunkSize(zi)
            && var n, g := Taken(t), Chunk(Next(t), t.chunksize, z);
            && ZonesOk(zones[z := n], zoneSize) && n.nfree == t.nfree - 1 >= 0
            && Listed(zones[z := n], if n.nfree == 0 then zoneArray[zi := zoneArray[zi][1..]] else zoneArray)
            && Held(zones[z := n], live + [g]) && Counted(zones[z := n], live + [g])
            && BytesOf(live + [g]) == BytesOf(live) + t.chunksize
  {
    hide ZoneOk, Held, Counted, BytesOf, ChunkAt, ChunkSize, Out, HeldChunk, IsChunk, CountOf;
    var list, z := zoneArray[zi], zoneArray[zi][0];
    assert ListIs(zones, list, zi);
    assert z in list;
    var t := zones[z];
    TakeOk(zones, zoneSize, z, zi, live);
    var n, g := Taken(t), Chunk(Next(t), t.chunksize, z);
    FirstGone(zones, list, zi, n);
    SetLists(zones, zoneArray, zi, z, n, if n.nfree <= 0 then list[1..] else list);
    assert zoneArray[zi := list] == zoneArray;
    TakenHeld(zones, live, n, g);
    CountedAppend(zones, live, z, n, g);
    Appended(live, g, z);
  }

  lemma TakeOk(zones: map<nat, Zone>, zoneSize: nat, z: nat, zi: nat, live: seq<Grant>)
    requires ZonesOk(zones, zoneSize) && z in zones && zones[z].zoneindex == zi < NZONES && zones[z].nfree > 0 && Counted(zones, live)
    ensures var t := zones[z];
            && (t.uindex + 1 == t.nmax ==> t.freechunk != []) && Next(t) > 0 && t.chunksize == ChunkSize(zi)
            && ZonesOk(zones[z := Taken(t)], zoneSize) && !Out(t, Next(t)) && Out(Taken(t), Next(t))
            && (forall p: nat | p != Next(t) :: Out(Taken(t), p) <==> Out(t, p))
            && CountOf(live, z) + t.nfree == t.nmax
  {
    var t := zones[z];
    TakenFacts(t);
    SamePlaces(t, Taken(t), t.nmax);
    SetZones(zones, zoneSize, z, Taken(t));
    OutAbove(z, Taken(t), zoneSize, Next(t));
  }

  lemma OutAbove(z: nat, t: Zone, zoneSize: nat, p: nat)
    requires ZoneOk(t) && Inside(z, t, zoneSize) && IsChunk(t, p)
    ensures z * PAGE + ZONE_HEADER <= p && p + t.chunksize <= z * PAGE + zoneSize
  {
    hide ChunkAt, ChunkSize;
    var i :| 0 <= i <= t.uindex && p == ChunkAt(t, i);
    ChunksApart(t, i, t.nmax);
    ChunkFrom(t, i);
  }

  lemma ChunkFrom(t: Zone, i: int)
    requires i >= 0
    ensures ChunkAt(t, i) >= t.base
  {
    assert i * t.chunksize >= 0;
  }

  lemma OpenFacts(zones: map<nat, Zone>, zoneArray: seq<seq<nat>>, live: seq<Grant>, zoneSize: nat, zoneLimit: nat, zi: nat, z: nat)
    requires ZonesOk(zones, zoneSize) && Listed(zones, zoneArray) && Held(zones, live) && Counted(zones, live)
    requires zi < NZONES && ZoneSizes(zoneSize, zoneLimit) && ChunkSize(zi) <= zoneLimit && z !in zones
    ensures |zoneArray| == NZONES && ChunkSize(zi) > 0 && Offset(ChunkSize(zi)) <= zoneSize
    ensures var t := NewZone(z, zi, zoneSize);
            var g := Chunk(t.base, ChunkSize(zi), z);
            && t.base > 0 && ZonesOk(zones[z := t], zoneSize) && Listed(zones[z := t], zoneArray[zi := [z] + zoneArray[zi]])
            && Held(zones[z := t], live + [g]) && Counted(zones[z := t], live + [g])
            && BytesOf(live + [g]) == BytesOf(live) + ChunkSize(zi)
  {
    hide ZoneOk, Held, Counted, BytesOf, ChunkAt, ChunkSize, Out, HeldChunk, IsChunk, CountOf, Offset, Inside;
    PositiveSize(zi);
    NewZoneFacts(z, zi, zoneSize, zoneLimit);
    var t := NewZone(z, zi, zoneSize);
    var g := Chunk(t.base, ChunkSize(zi), z);
    SetZones(zones, zoneSize, z, t);
    assert ListIs(zones, zoneArray[zi], zi);
    FirstNew(zones, zoneArray[zi], zi, z, t);
    SetLists(zones, zoneArray, zi, z, t, [z] + zoneArray[zi]);
    TakenHeld(zones, live, t, g);
    NoneHeld(zones, live, z);
    CountedAppend(zones, live, z, t, g);
    Appended(live, g, z);
  }

  lemma PositiveSize(zi: nat)
    requires zi < NZONES
    ensures ChunkSize(zi) > 0
  {
  }

  lemma NoneHeld(zones: map<nat, Zone>, live: seq<Grant>, z: nat)
    requires Held(zones, live) && z !in zones
    ensures CountOf(live, z) == 0
  {
    hide CountOf;
    NotHeld(live, z);
    forall k | 0 <= k < |live| && live[k].Chunk? ensures live[k].zone != z { assert live[k] in live && HeldChunk(zones, live[k]); }
  }

  lemma ZoneFits(zi: nat, zoneSize: nat, zoneLimit: nat)
    requires ZoneSizes(zoneSize, zoneLimit) && zi < NZONES && ChunkSize(zi) <= zoneLimit
    ensures Offset(ChunkSize(zi)) <= zoneSize && zoneSize / PAGE * PAGE == zoneSize && zoneSize / PAGE > 0
  {
    NewZoneFacts(1, zi, zoneSize, zoneLimit);
  }

  lemma SparePage(zones: map<nat, Zone>, zoneFree: seq<nat>, live: seq<Grant>, owner: map<nat, Owner>,
                  memusage: map<nat, Usage>, count: nat)
    requires Paged(zones, zoneFree, live, owner, memusage, count) && zoneFree != []
    ensures zoneFree[0] > 0
  {
    assert zoneFree[0] in zoneFree && ZonePages(owner, memusage, zoneFree[0], count);
  }

  lemma FreeOne(first: nat, npages: nat)
    ensures forall p: nat :: FreePage([Run(first, npages)], p) <==> first <= p < first + npages
  {
    forall p: nat ensures FreePage([Run(first, npages)], p) <==> first <= p < first + npages {
      assert [Run(first, npages)][0] == Run(first, npages);
      if first <= p < first + npages { assert InRun([Run(first, npages)][0], p); }
    }
  }

  // ---------- one zone changes ----------

  lemma SetZones(zones: map<nat, Zone>, zoneSize: nat, z: nat, t: Zone)
    requires ZonesOk(zones, zoneSize) && ZoneOk(t) && Inside(z, t, zoneSize)
    ensures ZonesOk(zones[z := t], zoneSize)
  {
  }

  lemma SetCounted(zones: map<nat, Zone>, live: seq<Grant>, z: nat, t: Zone, l: seq<Grant>)
    requires Counted(zones, live) && CountOf(l, z) + t.nfree == t.nmax
    requires forall x :: x in zones && x != z ==> CountOf(l, x) == CountOf(live, x)
    ensures Counted(zones[z := t], l)
  {
  }

  lemma CountedAppend(zones: map<nat, Zone>, live: seq<Grant>, z: nat, t: Zone, g: Grant)
    requires Counted(zones, live) && g.Chunk? && g.zone == z && CountOf(live, z) + 1 + t.nfree == t.nmax
    ensures Counted(zones[z := t], live + [g])
  {
    hide CountOf;
    Appended(live, g, z);
    forall x | x in zones && x != z ensures CountOf(live + [g], x) == CountOf(live, x) { Appended(live, g, x); }
    SetCounted(zones, live, z, t, live + [g]);
  }

  lemma CountedDrop(zones: map<nat, Zone>, live: seq<Grant>, k: nat, z: nat, t: Zone)
    requires Counted(zones, live) && k < |live| && live[k].Chunk? && live[k].zone == z && CountOf(live, z) - 1 + t.nfree == t.nmax
    ensures Counted(zones[z := t], Dropped(live, k))
  {
    hide CountOf, Dropped;
    DroppedCount(live, k, z);
    forall x | x in zones && x != z ensures CountOf(Dropped(live, k), x) == CountOf(live, x) { DroppedCount(live, k, x); }
    SetCounted(zones, live, z, t, Dropped(live, k));
  }

  /** Large blocks do not count for any zone. */
  lemma CountedLarge(zones: map<nat, Zone>, live: seq<Grant>, g: Grant)
    requires Counted(zones, live) && g.Large?
    ensures Counted(zones, live + [g])
  {
    hide CountOf;
    forall x | x in zones ensures CountOf(live + [g], x) == CountOf(live, x) { Appended(live, g, x); }
  }

  lemma CountedDropLarge(zones: map<nat, Zone>, live: seq<Grant>, k: nat)
    requires Counted(zones, live) && k < |live| && live[k].Large?
    ensures Counted(zones, Dropped(live, k))
  {
    hide CountOf, Dropped;
    forall x | x in zones ensures CountOf(Dropped(live, k), x) == CountOf(live, x) { DroppedCount(live, k, x); }
  }

  /** What the changed zone has to do with the lists of an index. */
  lemma SetList(zones: map<nat, Zone>, list: seq<nat>, zi: nat, z: nat, t: Zone)
    requires ListIs(zones, list, zi) && (HasRoom(zones, z, zi) <==> t.zoneindex == zi && t.nfree > 0)
    ensures ListIs(zones[z := t], list, zi)
  {
    var zs := zones[z := t];
    forall x ensures HasRoom(zs, x, zi) <==> HasRoom(zones, x, zi) {}
  }

  lemma SetLists(zones: map<nat, Zone>, zoneArray: seq<seq<nat>>, zi: nat, z: nat, t: Zone, list: seq<nat>)
    requires Listed(zones, zoneArray) && zi < NZONES && t.zoneindex == zi && (z in zones ==> zones[z].zoneindex == zi)
    requires ListIs(zones[z := t], list, zi)
    ensures Listed(zones[z := t], zoneArray[zi := list])
  {
    hide ListIs;
    var zs, za := zones[z := t], zoneArray[zi := list];
    forall i | 0 <= i < NZONES ensures ListIs(zs, za[i], i) {
      if i != zi { SetList(zones, zoneArray[i], i, z, t); }
    }
  }

  lemma FirstGone(zones: map<nat, Zone>, list: seq<nat>, zi: nat, t: Zone)
    requires ListIs(zones, list, zi) && list != [] && t.zoneindex == zi
    ensures HasRoom(zones, list[0], zi)
    ensures ListIs(zones[list[0] := t], if t.nfree <= 0 then list[1..] else list, zi)
  {
    assert list[0] in list;
    if t.nfree <= 0 {
      var zs, rest := zones[list[0] := t], list[1..];
      assert list == [list[0]] + rest;
      forall x ensures x in rest <==> HasRoom(zs, x, zi) {
        assert x in rest <==> x in list && x != list[0];
      }
    } else {
      SetList(zones, list, zi, list[0], t);
    }
  }

  lemma FirstNew(zones: map<nat, Zone>, list: seq<nat>, zi: nat, z: nat, t: Zone)
    requires ListIs(zones, list, zi) && !HasRoom(zones, z, zi) && t.zoneindex == zi && t.nfree > 0
    ensures ListIs(zones[z := t], [z] + list, zi)
  {
    assert z !in list;
    Prepended(list, z);
    var zs, longer := zones[z := t], [z] + list;
    forall x ensures x in longer <==> HasRoom(zs, x, zi) {}
  }

  /** A zone with no chunk in use is taken off its list and away. */
  lemma RetiredLists(zones: map<nat, Zone>, zoneArray: seq<seq<nat>>, zi: nat, i: nat)
    requires Listed(zones, zoneArray) && zi < NZONES && i < |zoneArray[zi]|
    ensures Listed(zones - {zoneArray[zi][i]}, zoneArray[zi := Dropped(zoneArray[zi], i)])
  {
    hide Dropped;
    var list := zoneArray[zi];
    var z, zs := list[i], zones - {list[i]};
    assert ListIs(zones, list, zi);
    assert z in list;
    DroppedDistinct(list, i);
    forall x ensures x in Dropped(list, i) <==> HasRoom(zs, x, zi) { DroppedMember(list, i, x); }
    var za := zoneArray[zi := Dropped(list, i)];
    forall k | 0 <= k < NZONES ensures ListIs(zs, za[k], k) {
      if k != zi {
        assert ListIs(zones, zoneArray[k], k);
        forall x ensures HasRoom(zs, x, k) <==> HasRoom(zones, x, k) {}
      }
    }
  }

  lemma TakenHeld(zones: map<nat, Zone>, live: seq<Grant>, t: Zone, g: Grant)
    requires Held(zones, live) && g.Chunk? && g.size == t.chunksize && Out(t, g.addr)
    requires g.zone in zones ==>
               (zones[g.zone].chunksize == t.chunksize && !Out(zones[g.zone], g.addr)
                && forall p: nat | p != g.addr :: Out(t, p) <==> Out(zones[g.zone], p))
    ensures g !in live && Held(zones[g.zone := t], live + [g])
  {
    hide Out;
    assert g in live ==> HeldChunk(zones, g);
    AppendedDistinct(live, g);
    forall h | h in live + [g] && h.Chunk? ensures HeldChunk(zones[g.zone := t], h) {
      if h != g { assert h in live && HeldChunk(zones, h); }
    }
  }

  lemma GivenHeld(zones: map<nat, Zone>, live: seq<Grant>, k: nat, t: Zone)
    requires Held(zones, live) && k < |live| && live[k].Chunk?
    requires live[k].zone in zones && zones[live[k].zone].chunksize == t.chunksize
    requires forall q: nat | q != live[k].addr :: Out(t, q) <==> Out(zones[live[k].zone], q)
    ensures Held(zones[live[k].zone := t], Dropped(live, k))
  {
    hide Out, Dropped;
    DroppedDistinct(live, k);
    assert live[k] in live && HeldChunk(zones, live[k]);
    forall h | h in Dropped(live, k) && h.Chunk? ensures HeldChunk(zones[live[k].zone := t], h) {
      DroppedMember(live, k, h);
      assert HeldChunk(zones, h);
    }
  }

  lemma RetiredHeld(zones: map<nat, Zone>, live: seq<Grant>, z: nat)
    requires Held(zones, live) && CountOf(live, z) == 0
    ensures Held(zones - {z}, live)
  {
    hide Out, CountOf;
    NotHeld(live, z);
    forall h | h in live && h.Chunk? ensures HeldChunk(zones - {z}, h) {
      var k :| 0 <= k < |live| && live[k] == h;
      assert HeldChunk(zones, h);
    }
  }

  lemma LargeHeld(zones: map<nat, Zone>, live: seq<Grant>, g: Grant)
    requires Held(zones, live) && g.Large? && g !in live
    ensures Held(zones, live + [g])
  {
    hide HeldChunk;
    AppendedDistinct(live, g);
  }

  lemma DroppedHeld(zones: map<nat, Zone>, live: seq<Grant>, k: nat)
    requires Held(zones, live) && k < |live|
    ensures Held(zones, Dropped(live, k))
  {
    hide HeldChunk, Dropped;
    DroppedDistinct(live, k);
    forall h | h in Dropped(live, k) && h.Chunk? ensures HeldChunk(zones, h) { DroppedMember(live, k, h); }
  }

  // ---------- pages change hands ----------

  ghost function Claimed(owner: map<nat, Owner>, at: nat, n: nat, o: Owner): (r: map<nat, Owner>)
    ensures forall p :: p in r <==> p in owner || at <= p < at + n
    ensures forall p :: p in r ==> r[p] == if at <= p < at + n then o else owner[p]
  {
    if n == 0 then owner else Claimed(owner, at, n - 1, o)[at + n - 1 := o]
  }

  ghost function Cleared(owner: map<nat, Owner>, at: nat, n: nat): map<nat, Owner> {
    map p | p in owner && !(at <= p < at + n) :: owner[p]
  }

  lemma ClaimedFree(owner: map<nat, Owner>, runs: seq<Run>, rs: seq<Run>, at: nat, n: nat, o: Owner, low: nat, high: nat)
    requires Covered(owner, runs, low, high)
    requires forall p: nat :: FreePage(rs, p) <==> FreePage(runs, p) && !InRun(Run(at, n), p)
    requires forall p: nat :: InRun(Run(at, n), p) ==> FreePage(runs, p)
    ensures Covered(Claimed(owner, at, n, o), rs, low, high)
    ensures forall p: nat :: at <= p < at + n ==> p !in owner
  {
    hide FreePage;
    forall p: nat | at <= p < at + n ensures p !in owner { assert InRun(Run(at, n), p); }
    forall p: nat
      ensures p in Claimed(owner, at, n, o) ==> !FreePage(rs, p)
      ensures (p in Claimed(owner, at, n, o) || FreePage(rs, p)) <==> low <= p < high
    {
      assert at <= p < at + n <==> InRun(Run(at, n), p);
    }
  }

  lemma ClearedFree(owner: map<nat, Owner>, runs: seq<Run>, rs: seq<Run>, at: nat, n: nat, low: nat, high: nat)
    requires Covered(owner, runs, low, high) && forall p: nat :: at <= p < at + n ==> p in owner
    requires forall p: nat :: FreePage(rs, p) <==> FreePage(runs, p) || InRun(Run(at, n), p)
    ensures Covered(Cleared(owner, at, n), rs, low, high)
  {
    hide FreePage;
    forall p: nat
      ensures p in Cleared(owner, at, n) ==> !FreePage(rs, p)
      ensures (p in Cleared(owner, at, n) || FreePage(rs, p)) <==> low <= p < high
    {
      assert p in Cleared(owner, at, n) <==> p in owner && !(at <= p < at + n);
      assert at <= p < at + n <==> InRun(Run(at, n), p);
    }
  }

  /** Owners and types of the pages outside a run stay as they are. */
  ghost predicate KeptBut(owner: map<nat, Owner>, memusage: map<nat, Usage>, os: map<nat, Owner>, mu: map<nat, Usage>, at: nat, n: nat) {
    forall p: nat :: p in owner && !(at <= p < at + n) ==>
      p in os && os[p] == owner[p] && (p in memusage ==> p in mu && mu[p] == memusage[p])
  }

  lemma ZoneKept(owner: map<nat, Owner>, memusage: map<nat, Usage>, os: map<nat, Owner>, mu: map<nat, Usage>, at: nat, n: nat,
                 z: nat, count: nat)
    requires KeptBut(owner, memusage, os, mu, at, n) && ZonePages(owner, memusage, z, count)
    requires forall p: nat :: at <= p < at + n && p in owner ==> owner[p] != ZoneAt(z)
    ensures ZonePages(os, mu, z, count)
  {
    forall p: nat | z <= p < z + count
      ensures p in os && os[p] == ZoneAt(z) && p in mu && mu[p] == Usage(SMALL, p - z)
    {
      assert p in owner && owner[p] == ZoneAt(z);
    }
  }

  lemma LargeKept(owner: map<nat, Owner>, memusage: map<nat, Usage>, os: map<nat, Owner>, mu: map<nat, Usage>, at: nat, n: nat,
                  page: nat, m: nat)
    requires KeptBut(owner, memusage, os, mu, at, n) && LargePages(owner, memusage, page, m)
    requires forall p: nat :: at <= p < at + n && p in owner ==> owner[p] != LargeAt(page)
    ensures LargePages(os, mu, page, m)
  {
    forall p: nat | page <= p < page + m ensures p in os && os[p] == LargeAt(page) {
      assert p in owner && owner[p] == LargeAt(page);
    }
    assert page in owner && owner[page] == LargeAt(page);
  }

  lemma InItsZone(zones: map<nat, Zone>, zoneFree: seq<nat>, live: seq<Grant>, o: Owner, p: nat, count: nat)
    requires Justified(zones, zoneFree, live, o, p, count)
    ensures o.ZoneAt? ==> o.zone <= p < o.zone + count
  {
  }

  lemma StillJustified(zones: map<nat, Zone>, zoneFree: seq<nat>, live: seq<Grant>, zs: map<nat, Zone>, zf: seq<nat>, l: seq<Grant>,
                       o: Owner, p: nat, count: nat)
    requires Justified(zones, zoneFree, live, o, p, count)
    requires o.ZoneAt? && (o.zone in zones || o.zone in zoneFree) ==> o.zone in zs || o.zone in zf
    requires o.LargeAt? ==> forall g :: g in live && LargeOn(g, o.page, p) ==> g in l
    ensures Justified(zs, zf, l, o, p, count)
  {
    if o.LargeAt? {
      var g :| g in live && LargeOn(g, o.page, p);
      assert g in l && LargeOn(g, o.page, p);
    }
  }

  lemma PagedSame(zones: map<nat, Zone>, zs: map<nat, Zone>, zoneFree: seq<nat>, live: seq<Grant>, l: seq<Grant>,
                  owner: map<nat, Owner>, memusage: map<nat, Usage>, count: nat)
    requires Paged(zones, zoneFree, live, owner, memusage, count) && zs.Keys == zones.Keys
    requires forall g: Grant :: g.Large? ==> (g in l <==> g in live)
    ensures Paged(zs, zoneFree, l, owner, memusage, count)
  {
    hide ZonePages, LargePages;
    forall p | p in owner ensures Justified(zs, zoneFree, l, owner[p], p, count) {
      StillJustified(zones, zoneFree, live, zs, zoneFree, l, owner[p], p, count);
    }
    forall z | z in zs || z in zoneFree ensures ZonePages(owner, memusage, z, count) { assert z in zs <==> z in zones; }
    forall z | z in zoneFree ensures z !in zs { assert z in zs <==> z in zones.Keys; }
  }

  /** Pages fresh from the free list become a zone. */
  lemma PagedNew(zones: map<nat, Zone>, z: nat, t: Zone, zoneFree: seq<nat>, live: seq<Grant>, owner: map<nat, Owner>,
                 memusage: map<nat, Usage>, mu: map<nat, Usage>, count: nat)
    requires Paged(zones, zoneFree, live, owner, memusage, count) && z > 0 && count > 0
    requires forall p: nat :: z <= p < z + count ==> p !in owner && p in mu && mu[p] == Usage(SMALL, p - z)
    requires forall p: nat :: p in memusage && !(z <= p < z + count) ==> p in mu && mu[p] == memusage[p]
    ensures z !in zones && z !in zoneFree
    ensures Paged(zones[z := t], zoneFree, live, Claimed(owner, z, count, ZoneAt(z)), mu, count)
  {
    hide Claimed, ZonePages, LargePages;
    var os := Claimed(owner, z, count, ZoneAt(z));
    assert KeptBut(owner, memusage, os, mu, z, count);
    assert ZonePages(os, mu, z, count) by { NewPages(owner, mu, z, count); }
    if z in zones || z in zoneFree { ZoneOwns(owner, memusage, z, count); }
    forall x | x in zones || x in zoneFree ensures ZonePages(os, mu, x, count) {
      ZoneKept(owner, memusage, os, mu, z, count, x, count);
    }
    forall g | g in live && g.Large? ensures LargePages(os, mu, g.page, g.pages) {
      LargeKept(owner, memusage, os, mu, z, count, g.page, g.pages);
    }
  }

  lemma NewPages(owner: map<nat, Owner>, mu: map<nat, Usage>, z: nat, count: nat)
    requires z > 0 && forall p: nat :: z <= p < z + count ==> p in mu && mu[p] == Usage(SMALL, p - z)
    ensures ZonePages(Claimed(owner, z, count, ZoneAt(z)), mu, z, count)
  {
  }

  lemma ZoneOwns(owner: map<nat, Owner>, memusage: map<nat, Usage>, z: nat, count: nat)
    requires ZonePages(owner, memusage, z, count) && count > 0
    ensures z > 0 && z in owner && owner[z] == ZoneAt(z)
    ensures forall p: nat :: z <= p < z + count ==> p in owner && owner[p] == ZoneAt(z) && p in memusage && memusage[p] == Usage(SMALL, p - z)
  {
    assert z <= z < z + count;
  }

  /** A spare zone goes back into use. */
  lemma PagedReused(zones: map<nat, Zone>, t: Zone, zoneFree: seq<nat>, live: seq<Grant>, owner: map<nat, Owner>,
                    memusage: map<nat, Usage>, count: nat)
    requires Paged(zones, zoneFree, live, owner, memusage, count) && zoneFree != []
    ensures zoneFree[0] !in zones && Paged(zones[zoneFree[0] := t], zoneFree[1..], live, owner, memusage, count)
  {
    hide ZonePages, LargePages;
    assert zoneFree[0] in zoneFree;
    assert zoneFree == [zoneFree[0]] + zoneFree[1..];
  }

  lemma PagedRetired(zones: map<nat, Zone>, z: nat, zoneFree: seq<nat>, live: seq<Grant>, owner: map<nat, Owner>,
                     memusage: map<nat, Usage>, count: nat)
    requires Paged(zones, zoneFree, live, owner, memusage, count) && z in zones
    ensures Paged(zones - {z}, [z] + zoneFree, live, owner, memusage, count)
  {
    hide ZonePages, LargePages;
    Prepended(zoneFree, z);
  }

  /** The pages of a spare zone are given up. */
  lemma PagedReleased(zones: map<nat, Zone>, zoneFree: seq<nat>, live: seq<Grant>, owner: map<nat, Owner>,
                      memusage: map<nat, Usage>, mu: map<nat, Usage>, count: nat)
    requires Paged(zones, zoneFree, live, owner, memusage, count) && zoneFree != []
    requires forall p: nat :: p in memusage && !(zoneFree[0] <= p < zoneFree[0] + count) ==> p in mu && mu[p] == memusage[p]
    ensures Paged(zones, zoneFree[1..], live, Cleared(owner, zoneFree[0], count), mu, count)
    ensures zoneFree[0] > 0 && forall p: nat :: zoneFree[0] <= p < zoneFree[0] + count ==> p in owner
  {
    hide LargePages, Justified;
    var z, rest, os := zoneFree[0], zoneFree[1..], Cleared(owner, zoneFree[0], count);
    assert zoneFree == [z] + rest;
    assert z in zoneFree && ZonePages(owner, memusage, z, count);
    assert KeptBut(owner, memusage, os, mu, z, count);
    forall p: nat | z <= p < z + count ensures p in owner && owner[p] == ZoneAt(z) {}
    forall p | p in os ensures Justified(zones, rest, live, os[p], p, count) {
      assert p in owner && Justified(zones, zoneFree, live, owner[p], p, count);
      InItsZone(zones, zoneFree, live, owner[p], p, count);
      StillJustified(zones, zoneFree, live, zones, rest, live, owner[p], p, count);
    }
    forall x | x in zones || x in rest ensures ZonePages(os, mu, x, count) {
      ZoneKept(owner, memusage, os, mu, z, count, x, count);
    }
    forall g | g in live && g.Large? ensures LargePages(os, mu, g.page, g.pages) {
      LargeKept(owner, memusage, os, mu, z, count, g.page, g.pages);
    }
  }

  /** Pages fresh from the free list become a large block. */
  lemma PagedLarge(zones: map<nat, Zone>, zoneFree: seq<nat>, live: seq<Grant>, owner: map<nat, Owner>,
                   memusage: map<nat, Usage>, count: nat, page: nat, n: nat)
    requires Paged(zones, zoneFree, live, owner, memusage, count) && page > 0 && n > 0
    requires forall p: nat :: page <= p < page + n ==> p !in owner
    ensures Large(page, n) !in live
    ensures Paged(zones, zoneFree, live + [Large(page, n)], Claimed(owner, page, n, LargeAt(page)), memusage[page := Usage(LARGE, n)], count)
  {
    hide Claimed, ZonePages, LargePages;
    var os, mu := Claimed(owner, page, n, LargeAt(page)), memusage[page := Usage(LARGE, n)];
    assert KeptBut(owner, memusage, os, mu, page, n);
    forall m | Large(page, m) in live ensures false { LargeOwns(owner, memusage, page, m); }
    assert LargePages(os, mu, page, n) by { NewLarge(owner, mu, page, n); }
    var g0, l := Large(page, n), live + [Large(page, n)];
    assert g0 in l;
    forall p | p in os ensures Justified(zones, zoneFree, l, os[p], p, count) {
      if page <= p < page + n {
        assert os[p] == LargeAt(page) && LargeOn(g0, page, p);
      } else {
        StillJustified(zones, zoneFree, live, zones, zoneFree, l, owner[p], p, count);
      }
    }
    forall x | x in zones || x in zoneFree ensures ZonePages(os, mu, x, count) {
      ZoneKept(owner, memusage, os, mu, page, n, x, count);
    }
    forall g | g in live + [Large(page, n)] && g.Large? ensures LargePages(os, mu, g.page, g.pages) {
      if g in live { LargeKept(owner, memusage, os, mu, page, n, g.page, g.pages); }
    }
  }

  lemma NewLarge(owner: map<nat, Owner>, mu: map<nat, Usage>, page: nat, n: nat)
    requires page > 0 && n > 0 && page in mu && mu[page] == Usage(LARGE, n)
    ensures LargePages(Claimed(owner, page, n, LargeAt(page)), mu, page, n)
  {
  }

  lemma LargeOwns(owner: map<nat, Owner>, memusage: map<nat, Usage>, page: nat, n: nat)
    requires LargePages(owner, memusage, page, n)
    ensures page > 0 && n > 0 && page in owner && owner[page] == LargeAt(page) && page in memusage && memusage[page] == Usage(LARGE, n)
    ensures forall p: nat :: page <= p < page + n ==> p in owner && owner[p] == LargeAt(page)
  {
    assert page <= page < page + n;
  }

  /** A large block is given back. */
  lemma PagedDropped(zones: map<nat, Zone>, zoneFree: seq<nat>, live: seq<Grant>, owner: map<nat, Owner>,
                     memusage: map<nat, Usage>, count: nat, k: nat)
    requires Paged(zones, zoneFree, live, owner, memusage, count) && Distinct(live) && k < |live| && live[k].Large?
    ensures var g := live[k];
            Paged(zones, zoneFree, Dropped(live, k), Cleared(owner, g.page, g.pages), memusage[g.page := Usage(LARGE, 0)], count)
  {
    hide ZonePages, LargePages, Dropped;
    var g := live[k];
    var os, mu := Cleared(owner, g.page, g.pages), memusage[g.page := Usage(LARGE, 0)];
    assert g in live;
    LargeOwns(owner, memusage, g.page, g.pages);
    assert KeptBut(owner, memusage, os, mu, g.page, g.pages);
    forall x | x in zones || x in zoneFree ensures ZonePages(os, mu, x, count) {
      ZoneKept(owner, memusage, os, mu, g.page, g.pages, x, count);
    }
    forall p | p in os ensures Justified(zones, zoneFree, Dropped(live, k), os[p], p, count) {
      if owner[p].LargeAt? {
        forall h | h in live && LargeOn(h, owner[p].page, p) ensures h in Dropped(live, k) { DroppedMember(live, k, h); }
      }
      StillJustified(zones, zoneFree, live, zones, zoneFree, Dropped(live, k), owner[p], p, count);
    }
    forall h | h in Dropped(live, k) && h.Large? ensures LargePages(os, mu, h.page, h.pages) {
      DroppedMember(live, k, h);
      LargeOwns(owner, memusage, h.page, h.pages);
      LargeKept(owner, memusage, os, mu, g.page, g.pages, h.page, h.pages);
    }
  }
}
