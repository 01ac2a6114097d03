/** Zones of the slab allocator: chunks of one size in a run of pages, and what callers hold of them. */
module SlabZones {
  import opened Arithmetic
  import opened Sequences

  const NZONES := 72
  const PAGE := 4096 // RT_MM_PAGE_SIZE
  const ZONE_HEADER := 36 // sizeof(slab_zone)

  // ---------- chunk sizes ----------

  /** n rounded up to a multiple of a. */
  function RoundUp(n: nat, a: nat): nat
    requires a > 0
  {
    (n + a - 1) / a * a
  }

  /** Chunk size of the zones with an index. */
  function ChunkSize(zi: nat): nat
    requires zi < NZONES
  {
    if zi < 16 then 8 * (zi + 1)
    else if zi < 24 then 16 * (zi - 7)
    else if zi < 32 then 32 * (zi - 15)
    else if zi < 40 then 64 * (zi - 23)
    else if zi < 48 then 128 * (zi - 31)
    else if zi < 56 then 256 * (zi - 39)
    else if zi < 64 then 512 * (zi - 47)
    else 1024 * (zi - 55)
  }

  /** zi is the index of the smallest chunk size that holds n bytes. */
  ghost predicate BestFit(n: nat, zi: int) {
    0 <= zi < NZONES && n <= ChunkSize(zi) && (zi > 0 ==> ChunkSize(zi - 1) < n)
  }

  lemma ChunkSizesGrow(i: nat, j: nat)
    requires i < j < NZONES
    ensures ChunkSize(i) < ChunkSize(j) <= 16384
  {
  }

  /** A size has one index, and an index is that of its own chunk size. */
  lemma IndexIsUnique(n: nat, i: int, j: int)
    requires BestFit(n, i) && BestFit(n, j)
    ensures i == j && BestFit(ChunkSize(i), i)
  {
    if i < j - 1 { ChunkSizesGrow(i, j - 1); }
    if j < i - 1 { ChunkSizesGrow(j, i - 1); }
    if i > 0 { ChunkSizesGrow(i - 1, i); }
  }

  /** At most seven bytes, or less than an eighth of the request, are lost by rounding. */
  lemma RoundingLoss(n: nat, zi: int)
    requires BestFit(n, zi) && n > 0
    ensures ChunkSize(zi) % 8 == 0 && (ChunkSize(zi) - n < 8 || 8 * (ChunkSize(zi) - n) < n)
  {
  }

  lemma Rounded(n: nat, a: nat)
    requires a > 0
    ensures RoundUp(n, a) / a * a == RoundUp(n, a) && n <= RoundUp(n, a) < n + a
  {
    var q := (n + a - 1) / a;
    DivMod(q, 0, a, q * a);
  }

  /** zoneindex: the index for a request, and the size it is rounded up to. */
  method ZoneIndex(bytes: nat) returns (zi: int, size: nat)
    requires bytes < 0x1_0000_0000
    ensures 0 < bytes < 16384 ==> BestFit(bytes, zi) && size == ChunkSize(zi)
    ensures bytes == 0 ==> zi == -1 && size == 0
    ensures bytes >= 16384 ==> zi == 0 && size == bytes
  {
    hide RoundUp;
    size := bytes;
    if size < 128 {
      Rounded(size, 8);
      size := RoundUp(size, 8);
      return size / 8 - 1, size;
    }
    if size < 256 {
      Rounded(size, 16);
      size := RoundUp(size, 16);
      return size / 16 + 7, size;
    }
    if size < 8192 {
      if size < 512 {
        Rounded(size, 32);
        size := RoundUp(size, 32);
        return size / 32 + 15, size;
      }
      if size < 1024 {
        Rounded(size, 64);
        size := RoundUp(size, 64);
        return size / 64 + 23, size;
      }
      if size < 2048 {
        Rounded(size, 128);
        size := RoundUp(size, 128);
        return size / 128 + 31, size;
      }
      if size < 4096 {
        Rounded(size, 256);
        size := RoundUp(size, 256);
        return size / 256 + 39, size;
      }
      Rounded(size, 512);
      size := RoundUp(size, 512);
      return size / 512 + 47, size;
    }
    if size < 16384 {
      Rounded(size, 1024);
      size := RoundUp(size, 1024);
      return size / 1024 + 55, size;
    }
    return 0, size;
  }

  // ---------- zones ----------

  /** struct slab_zone, without its place in a list of zones. */
  datatype Zone = Zone(nfree: int, nmax: int, uindex: int, base: nat, chunksize: nat, zoneindex: nat, freechunk: seq<nat>)

  /** Address of chunk i. */
  function ChunkAt(z: Zone, i: int): int { z.base + i * z.chunksize }

  /** p is a chunk that has been in use. */
  ghost predicate IsChunk(z: Zone, p: nat) {
    exists i :: 0 <= i <= z.uindex && p == ChunkAt(z, i)
  }

  /** z_nfree counts the chunks never used and those on the free list. */
  ghost predicate ZoneOk(z: Zone) {
    && 0 <= z.uindex < z.nmax && z.chunksize > 0 && z.nfree == z.nmax - 1 - z.uindex + |z.freechunk|
    && Distinct(z.freechunk) && (forall p :: p in z.freechunk ==> IsChunk(z, p))
    && z.zoneindex < NZONES && z.chunksize == ChunkSize(z.zoneindex)
  }

  /** A chunk in a caller's hands. */
  ghost predicate Out(z: Zone, p: nat) { IsChunk(z, p) && p !in z.freechunk }

  lemma ChunksApart(z: Zone, i: int, j: int)
    requires z.chunksize > 0 && i < j
    ensures ChunkAt(z, i) + z.chunksize <= ChunkAt(z, j)
  {
    Products(i, j, z.chunksize);
  }

  lemma Products(i: int, j: int, a: nat)
    requires i < j
    ensures i * a + a <= j * a
  {
    assert (j - i - 1) * a >= 0;
    assert (j - i - 1) * a == j * a - i * a - a;
  }

  /** The chunk rt_malloc takes from a zone: the next one never used, or the first on the free list. */
  function Next(z: Zone): int
    requires z.uindex + 1 == z.nmax ==> z.freechunk != []
  {
    if z.uindex + 1 != z.nmax then ChunkAt(z, z.uindex + 1) else z.freechunk[0]
  }

  function Taken(z: Zone): Zone
    requires z.uindex + 1 == z.nmax ==> z.freechunk != []
  {
    if z.uindex + 1 != z.nmax then z.(nfree := z.nfree - 1, uindex := z.uindex + 1)
    else z.(nfree := z.nfree - 1, freechunk := z.freechunk[1..])
  }

  function Given(z: Zone, p: nat): Zone { z.(nfree := z.nfree + 1, freechunk := [p] + z.freechunk) }

  /** Taking a chunk hands out one that nobody held, and changes nothing for those held. */
  lemma TakenFacts(z: Zone)
    requires ZoneOk(z) && z.nfree > 0
    ensures z.uindex + 1 == z.nmax ==> z.freechunk != []
    ensures Next(z) >= 0 && ZoneOk(Taken(z)) && !Out(z, Next(z)) && Out(Taken(z), Next(z))
    ensures forall p: nat | p != Next(z) :: Out(Taken(z), p) <==> Out(z, p)
  {
    hide ChunkAt, ChunkSize;
    BaseIs(z);
    if z.uindex + 1 != z.nmax {
      TakeUnused(z);
    } else {
      TakeListed(z);
    }
  }

  lemma BaseIs(z: Zone)
    ensures forall i :: 0 <= i ==> ChunkAt(z, i) >= 0
  {
    forall i | 0 <= i ensures ChunkAt(z, i) >= 0 { assert i * z.chunksize >= 0; }
  }

  lemma TakeUnused(z: Zone)
    requires ZoneOk(z) && z.uindex + 1 < z.nmax && ChunkAt(z, z.uindex + 1) >= 0
    ensures ZoneOk(Taken(z)) && !Out(z, Next(z)) && Out(Taken(z), Next(z))
    ensures forall p: nat | p != Next(z) :: Out(Taken(z), p) <==> Out(z, p)
  {
    hide ChunkAt, ChunkSize;
    var t := Taken(z);
    forall i ensures ChunkAt(t, i) == ChunkAt(z, i) { SamePlaces(z, t, i); }
    forall i | 0 <= i <= z.uindex ensures ChunkAt(z, i) != Next(z) { ChunksApart(z, i, z.uindex + 1); }
    assert !IsChunk(z, Next(z));
    assert ChunkAt(t, t.uindex) == Next(z);
    assert IsChunk(t, Next(z));
    forall p: nat | p != Next(z) ensures IsChunk(t, p) <==> IsChunk(z, p) {
      if IsChunk(z, p) {
        var i :| 0 <= i <= z.uindex && p == ChunkAt(z, i);
        assert ChunkAt(t, i) == p;
      }
    }
    forall p | p in t.freechunk ensures IsChunk(t, p) { assert IsChunk(z, p) && p != Next(z); }
  }

  lemma SamePlaces(z: Zone, t: Zone, i: int)
    requires t.base == z.base && t.chunksize == z.chunksize
    ensures ChunkAt(t, i) == ChunkAt(z, i)
  {
  }

  lemma SameChunks(z: Zone, t: Zone)
    requires t.base == z.base && t.chunksize == z.chunksize && t.uindex == z.uindex
    ensures forall p: nat :: IsChunk(t, p) <==> IsChunk(z, p)
  {
    hide ChunkAt;
    forall i ensures ChunkAt(t, i) == ChunkAt(z, i) { SamePlaces(z, t, i); }
  }

  lemma TakeListed(z: Zone)
    requires ZoneOk(z) && z.nfree > 0 && z.uindex + 1 == z.nmax
    ensures z.freechunk != [] && ZoneOk(Taken(z)) && !Out(z, Next(z)) && Out(Taken(z), Next(z))
    ensures forall p: nat | p != Next(z) :: Out(Taken(z), p) <==> Out(z, p)
  {
    hide IsChunk, ChunkSize;
    var t := Taken(z);
    SameChunks(z, t);
    assert z.freechunk == [z.freechunk[0]] + t.freechunk;
    assert z.freechunk[0] in z.freechunk;
    forall p | p in t.freechunk ensures p in z.freechunk && p != z.freechunk[0] {
      var k :| 0 <= k < |t.freechunk| && t.freechunk[k] == p;
      assert z.freechunk[k + 1] == p;
    }
  }

  lemma GivenFacts(z: Zone, p: nat)
    requires ZoneOk(z) && Out(z, p)
    ensures ZoneOk(Given(z, p)) && !Out(Given(z, p), p)
    ensures forall q: nat | q != p :: Out(Given(z, p), q) <==> Out(z, q)
  {
    hide IsChunk, ChunkSize;
    SameChunks(z, Given(z, p));
    Prepended(z.freechunk, p);
  }

  // ---------- what callers hold ----------

  /** A chunk of a zone, or whole pages. */
  datatype Grant = Chunk(addr: nat, size: nat, zone: nat) | Large(page: nat, pages: nat)

  function Ptr(g: Grant): nat { if g.Chunk? then g.addr else g.page * PAGE }

  function Bytes(g: Grant): nat { if g.Chunk? then g.size else g.pages * PAGE }

  function BytesOf(live: seq<Grant>): nat {
    if live == [] then 0 else Bytes(live[0]) + BytesOf(live[1..])
  }

  /** How many chunks of a zone callers hold. */
  function CountOf(live: seq<Grant>, z: nat): nat {
    if live == [] then 0 else (if live[0].Chunk? && live[0].zone == z then 1 else 0) + CountOf(live[1..], z)
  }

  lemma {:induction false} Split(a: seq<Grant>, b: seq<Grant>, z: nat)
    ensures BytesOf(a + b) == BytesOf(a) + BytesOf(b) && CountOf(a + b, z) == CountOf(a, z) + CountOf(b, z)
  {
    if a == [] {
      assert a + b == b;
    } else {
      assert (a + b)[1..] == a[1..] + b;
      Split(a[1..], b, z);
    }
  }

  lemma Appended(live: seq<Grant>, g: Grant, z: nat)
    ensures BytesOf(live + [g]) == BytesOf(live) + Bytes(g)
    ensures CountOf(live + [g], z) == CountOf(live, z) + if g.Chunk? && g.zone == z then 1 else 0
  {
    Split(live, [g], z);
    assert [g][1..] == [];
  }

  lemma DroppedCount(live: seq<Grant>, k: nat, z: nat)
    requires k < |live|
    ensures BytesOf(Dropped(live, k)) == BytesOf(live) - Bytes(live[k])
    ensures CountOf(Dropped(live, k), z) == CountOf(live, z) - if live[k].Chunk? && live[k].zone == z then 1 else 0
  {
    hide BytesOf, CountOf;
    assert live == live[..k] + ([live[k]] + live[k + 1..]);
    Split(live[..k], [live[k]] + live[k + 1..], z);
    Split([live[k]], live[k + 1..], z);
    Split(live[..k], live[k + 1..], z);
    One(live[k], z);
  }

  lemma One(g: Grant, z: nat)
    ensures BytesOf([g]) == Bytes(g) && CountOf([g], z) == if g.Chunk? && g.zone == z then 1 else 0
  {
    Appended([], g, z);
    assert [] + [g] == [g];
  }

  lemma {:induction false} NotHeld(live: seq<Grant>, z: nat)
    ensures CountOf(live, z) == 0 <==> forall k :: 0 <= k < |live| && live[k].Chunk? ==> live[k].zone != z
  {
    if live != [] {
      NotHeld(live[1..], z);
      assert live == [live[0]] + live[1..];
      forall k | 1 <= k < |live| ensures live[k] == live[1..][k - 1] {}
    }
  }

  // ---------- where a zone puts its chunks ----------

  /** The test of rt_malloc for a power of two, on 32-bit words. */
  predicate PowerTest(b: bv32) { (b | (b - 1)) + 1 == b << 1 }

  predicate PowerOfTwo(n: nat) {
    n == 8 || n == 16 || n == 32 || n == 64 || n == 128 || n == 256 || n == 512 || n == 1024 || n == 2048 || n == 4096 || n == 8192 || n == 16384
  }

  lemma PowerBits(b: bv32)
    requires 8 <= b <= 16384
    ensures PowerTest(b) <==>
            b == 8 || b == 16 || b == 32 || b == 64 || b == 128 || b == 256 || b == 512 || b == 1024 || b == 2048 || b == 4096 || b == 8192 || b == 16384
  {
  }

  /** Offset of the first chunk: behind the header, and for a power of two at a multiple of the size. */
  function Offset(size: nat): nat
    requires size > 0
  {
    if PowerOfTwo(size) then RoundUp(ZONE_HEADER, size) else RoundUp(ZONE_HEADER, 8)
  }

  /** A zone at page z with one chunk handed out. */
  function NewZone(z: nat, zi: nat, zoneSize: nat): Zone
    requires zi < NZONES && Offset(ChunkSize(zi)) <= zoneSize
  {
    var size := ChunkSize(zi);
    var nmax := (zoneSize - Offset(size)) / size;
    Zone(nmax - 1, nmax, 0, z * PAGE + Offset(size), size, zi, [])
  }

  /** A zone of 32 KB at page 1 for chunks of 8 bytes has 4091 of them, from address 4136 on; for chunks of 4096 bytes it has 7. */
  lemma ZoneInNumbers()
    ensures ChunkSize(0) == 8 && Offset(8) <= 0x8000 && NewZone(1, 0, 0x8000) == Zone(4090, 4091, 0, 4136, 8, 0, [])
    ensures Offset(4096) == 4096 && (0x8000 - Offset(4096)) / 4096 == 7
  {
  }

  /** All chunks lie between the header and the end of the zone. */
  ghost predicate Inside(z: nat, t: Zone, zoneSize: nat) {
    z * PAGE + ZONE_HEADER <= t.base && ChunkAt(t, t.nmax) <= z * PAGE + zoneSize
  }

  predicate ZoneSizes(zoneSize: nat, zoneLimit: nat) {
    && (zoneSize == 0x8000 || zoneSize == 0x1_0000 || zoneSize == 0x2_0000)
    && zoneLimit == if zoneSize == 0x8000 then 0x2000 else 0x4000
  }

  lemma OffsetFits(size: nat)
    requires size > 0
    ensures ZONE_HEADER <= Offset(size) < ZONE_HEADER + 8 || (ZONE_HEADER <= Offset(size) < ZONE_HEADER + size)
  {
    hide RoundUp;
    Rounded(ZONE_HEADER, size);
    Rounded(ZONE_HEADER, 8);
  }

  /** A new zone has room for at least one chunk more. */
  lemma NewZoneFacts(z: nat, zi: nat, zoneSize: nat, zoneLimit: nat)
    requires ZoneSizes(zoneSize, zoneLimit) && zi < NZONES && ChunkSize(zi) <= zoneLimit
    ensures Offset(ChunkSize(zi)) <= zoneSize
    ensures var t := NewZone(z, zi, zoneSize);
            ZoneOk(t) && Inside(z, t, zoneSize) && t.nfree > 0 && Out(t, t.base) && t.base > 0
            && (forall p: nat :: Out(t, p) ==> p == t.base)
            && ChunkAt(t, t.nmax + 1) > z * PAGE + zoneSize // no further chunk fits
  {
    hide Offset, RoundUp, IsChunk;
    var size := ChunkSize(zi);
    OffsetFits(size);
    ChunksIn(zoneSize - Offset(size), size);
    NoMore(zoneSize - Offset(size), size);
    FirstChunk(NewZone(z, zi, zoneSize));
  }

  lemma FirstChunk(t: Zone)
    requires t.uindex == 0
    ensures forall p: nat :: IsChunk(t, p) <==> p == t.base
  {
    assert ChunkAt(t, 0) == t.base;
  }

  lemma NoMore(room: nat, size: nat)
    requires size > 0
    ensures (room / size + 1) * size > room
  {
  }

  lemma ChunksIn(room: nat, size: nat)
    requires size > 0 && 3 * size <= room + 72 && size >= 8 && 2 * size <= room
    ensures 2 <= room / size && room / size * size <= room
  {
    if room / size <= 1 { Products(room / size, 2, size); }
  }

  /** What callers ask to be a power of two is aligned to it exactly when its zone is: always, for at most a page. */
  lemma ChunkAlignment(z: nat, zi: nat, zoneSize: nat, zoneLimit: nat, i: nat)
    requires ZoneSizes(zoneSize, zoneLimit) && zi < NZONES && ChunkSize(zi) <= zoneLimit && PowerOfTwo(ChunkSize(zi))
    ensures Offset(ChunkSize(zi)) <= zoneSize
    ensures ChunkAt(NewZone(z, zi, zoneSize), i) % ChunkSize(zi) == 0 <==> z * PAGE % ChunkSize(zi) == 0
    ensures ChunkSize(zi) <= PAGE ==> z * PAGE % ChunkSize(zi) == 0
  {
    hide RoundUp, ChunkSize;
    var size := ChunkSize(zi);
    OffsetFits(size);
    Rounded(ZONE_HEADER, size);
    var k := RoundUp(ZONE_HEADER, size) / size;
    Shifted(z * PAGE, k + i, size);
    assert ChunkAt(NewZone(z, zi, zoneSize), i) == z * PAGE + (k + i) * size;
    if size <= PAGE { PageAligned(z, size); }
  }

  /** A zone that starts on an odd page puts chunks of two pages at odd pages. */
  lemma ChunkMisaligned()
    ensures ChunkSize(63) == 8192 && Offset(8192) == 8192 && ChunkAt(NewZone(1, 63, 0x8000), 0) % 8192 == 4096
  {
    assert RoundUp(ZONE_HEADER, 8192) == 8192;
  }

  lemma Shifted(x: nat, k: nat, m: nat)
    requires m > 0
    ensures (x + k * m) % m == x % m
  {
    DivMod(x / m + k, x % m, m, x + k * m);
  }

  lemma PageAligned(z: nat, size: nat)
    requires PowerOfTwo(size) && size <= PAGE
    ensures z * PAGE % size == 0
  {
    var k := if size == 8 then 512 else if size == 16 then 256 else if size == 32 then 128 else if size == 64 then 64
             else if size == 128 then 32 else if size == 256 then 16 else if size == 512 then 8 else if size == 1024 then 4
             else if size == 2048 then 2 else 1;
    assert k * size == PAGE;
    Multiple(z, k, size);
    DivMod(z * k, 0, size, z * PAGE);
  }

  lemma Multiple(z: nat, k: nat, size: nat)
    ensures z * (k * size) == z * k * size
  {
  }
}
