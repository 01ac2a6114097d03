/** f_lseek: following or stretching the chain, and seeking through the link map. */
module FatSeek {
  import opened Arithmetic
  import Bits
  import opened FatVolume
  import opened FatEntry
  import opened FatChain
  import opened FatLayout
  import opened FatLinkMap
  import opened FatFile
  import opened FatWrite

  // ---------- places of clusters ----------

  lemma RoundDown(p: nat, m: nat)
    requires m > 0
    ensures p - p % m == p / m * m
  {
  }

  /** A position rounded down to the start of its cluster, with a mask. */
  function ClusterStart(g: Geometry, p: nat): (r: int)
    requires g.WellFormed()
    ensures Bcs(g) > 0 && r == p - p % Bcs(g)
  {
    ClusterPower(g.csize);
    SectorPower(g.ss);
    Bits.PowerTimes(g.csize, g.ss);
    BcsBound(g);
    Bits.MaskRoundsDown(p, Bcs(g));
    Bits.AndNot(p, Bcs(g) - 1)
  }

  /** `rest` bytes from the start of cluster k on. */
  lemma SeekPlace(g: Geometry, k: nat, rest: nat)
    requires g.WellFormed() && 0 < rest <= Bcs(g)
    ensures CluIdx(g, SecIdx(g, Start(g, k) + rest - 1)) == k
    ensures SecOff(g, Start(g, k) + rest) == rest % g.ss
    ensures rest % g.ss != 0 ==>
              var s := SecIdx(g, Start(g, k) + rest);
              CluIdx(g, s) == k && CluOff(g, s) == rest / g.ss
  {
    hide CluIdx;
    InCluster(g, k, Start(g, k) + rest - 1);
    InCluster(g, k, Start(g, k) + rest);
    SectorStart(g, k);
    Jump(g.ss, Start(g, k), rest);
    if rest % g.ss != 0 {
      assert rest < Bcs(g) by { WholeCluster(g); }
      SectorsBelow(rest, g.csize, g.ss);
      Jump(g.csize, SecIdx(g, Start(g, k)), rest / g.ss);
      DivMod(0, rest / g.ss, g.csize, rest / g.ss);
    }
  }

  lemma WholeCluster(g: Geometry)
    requires g.ss > 0
    ensures Bcs(g) % g.ss == 0
  {
    DivMod(g.csize, 0, g.ss, Bcs(g));
  }

  lemma SectorsBelow(r: nat, c: nat, m: nat)
    requires m > 0 && r < c * m
    ensures r / m < c
  {
    if r / m >= c { Grows(c, r / m, m); }
  }

  lemma Grows(c: nat, d: nat, m: nat)
    requires c <= d
    ensures c * m <= d * m
  {
  }

  /** A cluster starts on a sector boundary, with the first of its sectors. */
  lemma SectorStart(g: Geometry, k: nat)
    requires g.ss > 0 && g.csize > 0
    ensures Start(g, k) % g.ss == 0 && SecIdx(g, Start(g, k)) % g.csize == 0
  {
    assert Start(g, k) == (k * g.csize) * g.ss by { Reassociate(k, g.csize, g.ss); }
    DivMod(k * g.csize, 0, g.ss, Start(g, k));
    DivMod(k, 0, g.csize, k * g.csize);
  }

  lemma Reassociate(a: nat, b: nat, c: nat)
    ensures a * (b * c) == (a * b) * c
  {
  }

  // ---------- following the chain ----------

  /** The loop of f_lseek at cluster k: the pointer is at its start, and `rest` bytes are to go. */
  ghost predicate Walking(fp: File, target: nat, rest: nat, clst: nat, k: nat)
    reads fp, fp.buf, fp.fs, fp.fs.win
  {
    && fp.Stable() && fp.cltbl == [] && k < |fp.chain| && clst == fp.clust == fp.chain[k]
    && fp.fptr == Start(fp.fs.g, k) && fp.fptr + rest == target && 0 < rest
  }

  /** f_lseek at the end of its loop: the current cluster is cluster k, and the pointer will be `rest`
      bytes behind its start, short of the target when the volume was full. */
  ghost predicate Arriving(fp: File, target: nat, rest: nat, clst: nat, k: nat, full: bool)
    reads fp, fp.buf, fp.fs, fp.fs.win
  {
    && Walking(fp, if full then Start(fp.fs.g, k + 1) else target, rest, fp.clust, k) && rest <= Bcs(fp.fs.g)
    && (full || clst == fp.clust)
    && (full ==> k + 1 == |fp.chain| && fp.fptr + rest < target && FreeCount(Fat0(fp.fs)) == 0)
  }

  /** One turn of the loop: the next cluster becomes the current one; false when the volume is full. */
  method NextCluster(fp: File, ghost target: dword, rest: dword, cl: dword, ghost k: nat) returns (ok: bool, clst: dword)
    requires Walking(fp, target, rest, cl, k) && rest > Bcs(fp.fs.g)
    requires fp.canWrite || InFile(fp.fs.g, fp.chain, target - 1)
    modifies fp`sclust, fp`chain, fp`clust, fp`fptr
    modifies fp.fs`disk, fp.fs`wflag, fp.fs`winsect, fp.fs`lastClust, fp.fs`freeClust, fp.fs`fsiDirty, fp.fs.win
    ensures Grown(fp) && fp.Stable() && fp.Content() == old(fp.Content())
    ensures k + 1 < |old(fp.chain)| ==> ok && fp.chain == old(fp.chain) && Fat0(fp.fs) == old(Fat0(fp.fs))
    ensures ok ==> Walking(fp, target, rest - Bcs(fp.fs.g), clst, k + 1)
    ensures !ok ==> fp.canWrite && Arriving(fp, target, Bcs(fp.fs.g), clst, k, true)
    ensures StartBelow(fp.fs.g, |old(fp.chain)|, |fp.chain|, target)
  {
    hide StartBelow, SecIdx, CluIdx, Start, Bcs, Clusters, ChainOk, IsChain, Owned, BufferOk, MapOk, FileBytes, Fat, Fat0, Foreign, Grew, FreeCount, Link;
    hide Volume.Mirrored, Volume.Logical, InFile;
    NextPlace(fp.fs.g, fp.chain, k, target);
    ContentBelow(fp);
    if fp.canWrite {
      clst := Stretch(fp, cl, k + 1);
      ContentBelow(fp);
      OneBelow(fp.fs.g, |old(fp.chain)|, |fp.chain|, k + 1, target);
      if clst == 0 { return false, 0; }
    } else {
      ChainLinks(Fat0(fp.fs), fp.sclust, fp.chain, k + 1);
      clst := fp.FollowLink(cl);
    }
    NextPlace(fp.fs.g, fp.chain, k, target);
    OneBelow(fp.fs.g, |old(fp.chain)|, |fp.chain|, k + 1, target);
    fp.clust := clst;
    fp.fptr := fp.fptr + Bcs(fp.fs.g);
    ok := true;
  }

  /** At most cluster i is new, and it starts before the target. */
  lemma OneBelow(g: Geometry, m: nat, n: nat, i: nat, target: nat)
    requires n == m || (m == i && n == m + 1 && Start(g, i) < target)
    ensures StartBelow(g, m, n, target)
  {
  }

  /** All clusters start before the end of the last one. */
  lemma AllBelow(g: Geometry, m: nat, n: nat)
    requires g.WellFormed()
    ensures StartBelow(g, m, n, Start(g, n))
  {
    BcsBound(g);
    forall i | m <= i < n ensures Start(g, i) < Start(g, n) {
      StartNext(g, i);
      Grows(i + 1, n, Bcs(g));
    }
  }

  lemma NextPlace(g: Geometry, chain: seq<nat>, k: nat, target: nat)
    requires g.WellFormed()
    ensures Bcs(g) > 0 && Start(g, k + 1) == Start(g, k) + Bcs(g) > 0
    ensures k < |chain| ==> InFile(g, chain, Start(g, k + 1) - 1)
    ensures target > Start(g, k + 1) && InFile(g, chain, target - 1) ==> k + 1 < |chain|
  {
    hide SecIdx, CluIdx, Bcs, Start;
    BcsBound(g);
    StartNext(g, k);
    InCluster(g, k, Start(g, k + 1) - 1);
    if target > Start(g, k + 1) && InFile(g, chain, target - 1) {
      InFileBelow(g, chain, Start(g, k + 1), target - 1);
      InCluster(g, k + 1, Start(g, k + 1));
    }
  }

  lemma ContentBelow(fp: File)
    requires fp.Stable()
    ensures fp.Content() == fp.Bytes(fp.Extent())[..fp.fsize]
    ensures Grew(Fat0(fp.fs), fp.chain, Fat0(fp.fs), fp.chain)
  {
    hide SecIdx, CluIdx, Clusters, ChainOk, Owned, BufferOk, MapOk, Fat, Fat0, Grew;
    SameChain(fp.fs.g, Fat0(fp.fs), fp.sclust, fp.chain);
  }

  /** Where f_lseek starts to follow the chain: at the current cluster when the target lies in it or
      behind it, else at the first one, which is allocated for an empty file. */
  method StartWalk(fp: File, ofs: dword) returns (clst: dword, rest: dword, ghost k: nat)
    requires fp.Ready() && fp.cltbl == [] && 0 < ofs && (fp.canWrite || ofs <= fp.fsize)
    modifies fp`sclust, fp`chain, fp`clust, fp`fptr
    modifies fp.fs`disk, fp.fs`wflag, fp.fs`winsect, fp.fs`lastClust, fp.fs`freeClust, fp.fs`fsiDirty, fp.fs.win
    ensures Grown(fp) && fp.Stable() && fp.Content() == old(fp.Content())
    ensures old(fp.chain) != [] ==> clst != 0 && fp.chain == old(fp.chain) && Fat0(fp.fs) == old(Fat0(fp.fs))
    ensures clst != 0 ==> Walking(fp, ofs, rest, clst, k)
    ensures clst == 0 ==> fp.fptr == 0 && fp.chain == [] && FreeCount(Fat0(fp.fs)) == 0 && fp.canWrite
    ensures StartBelow(fp.fs.g, |old(fp.chain)|, |fp.chain|, ofs)
  {
    hide StartBelow, SecIdx, CluIdx, Start, Bcs, Clusters, ChainOk, IsChain, Owned, BufferOk, MapOk, FileBytes, Fat, Fat0, Foreign, Grew, FreeCount, Link;
    hide Volume.Mirrored, Volume.Logical, InFile;
    var g := fp.fs.g;
    StartPlace(fp, ofs);
    var ifptr := fp.fptr;
    k := 0;
    rest := ofs;
    var bcs := Bcs(g);
    if ifptr > 0 && (ofs - 1) / bcs >= (ifptr - 1) / bcs {
      k := CluIdx(g, SecIdx(g, ifptr - 1));
      fp.fptr := ClusterStart(g, ifptr - 1);
      rest := ofs - fp.fptr;
      clst := fp.clust;
    } else {
      fp.fptr := 0;
      clst := fp.sclust;
      if clst == 0 {
        clst := Stretch(fp, 0, 0);
        ContentBelow(fp);
      }
      fp.clust := clst;
    }
    OneBelow(g, |old(fp.chain)|, |fp.chain|, 0, ofs);
  }

  lemma StartPlace(fp: File, ofs: dword)
    requires fp.Ready() && 0 < ofs
    ensures var g := fp.fs.g;
            && Bcs(g) > 0 && Start(g, 0) == 0
            && (fp.fptr > 0 ==>
                  var k := CluIdx(g, SecIdx(g, fp.fptr - 1));
                  && k < |fp.chain| && fp.chain[k] == fp.clust && fp.clust >= 2
                  && fp.fptr - 1 - (fp.fptr - 1) % Bcs(g) == Start(g, k) <= fp.fptr - 1
                  && ((ofs - 1) / Bcs(g) >= (fp.fptr - 1) / Bcs(g) ==> Start(g, k) < ofs))
    ensures if fp.sclust == 0 then fp.chain == [] && fp.fsize == 0 else fp.chain != [] && fp.chain[0] == fp.sclust
    ensures fp.fsize > 0 ==> InFile(fp.fs.g, fp.chain, fp.fsize - 1)
    ensures Grew(Fat0(fp.fs), fp.chain, Fat0(fp.fs), fp.chain)
    ensures fp.Content() == fp.Bytes(fp.Extent())[..fp.fsize] && fp.Extent() == fp.fsize
  {
    hide SecIdx, CluIdx, Clusters, IsChain, Start, Bcs, Grew, Fat0, Owned, BufferOk, MapOk, FileBytes;
    BcsBound(fp.fs.g);
    SameChain(fp.fs.g, Fat0(fp.fs), fp.sclust, fp.chain);
    ContentBelow(fp);
    if fp.fptr > 0 { WalkStart(fp.fs.g, fp.fptr - 1, ofs - 1); }
  }

  /** The start of the cluster of position p, and whether q lies behind it. */
  lemma WalkStart(g: Geometry, p: nat, q: nat)
    requires g.WellFormed()
    ensures var k := CluIdx(g, SecIdx(g, p));
            && Bcs(g) > 0 && p - p % Bcs(g) == Start(g, k) <= p
            && (q / Bcs(g) >= p / Bcs(g) ==> Start(g, k) <= q)
  {
    hide SecIdx, CluIdx, IsSectorSize, IsClusterSize;
    GeometryBounds(g);
    ClusterIndex(g, p);
    RoundDown(p, Bcs(g));
    StartMonotonic(g, CluIdx(g, SecIdx(g, p)), q);
  }

  /** A position in cluster k or behind it lies behind the start of cluster k. */
  lemma StartMonotonic(g: Geometry, k: nat, q: nat)
    requires g.WellFormed()
    ensures Bcs(g) > 0 && (q / Bcs(g) >= k ==> Start(g, k) <= q)
  {
    BcsBound(g);
    if q / Bcs(g) >= k { Grows(k, q / Bcs(g), Bcs(g)); RoundDown(q, Bcs(g)); }
  }

  /** The loop of f_lseek. */
  method WalkLoop(fp: File, ghost target: dword, first: dword, cl: dword, ghost k0: nat) returns (clst: dword, rest: dword, ghost k: nat, ghost full: bool)
    requires Walking(fp, target, first, cl, k0) && (fp.canWrite || InFile(fp.fs.g, fp.chain, target - 1))
    modifies fp`sclust, fp`chain, fp`clust, fp`fptr
    modifies fp.fs`disk, fp.fs`wflag, fp.fs`winsect, fp.fs`lastClust, fp.fs`freeClust, fp.fs`fsiDirty, fp.fs.win
    ensures Grown(fp) && Arriving(fp, target, rest, clst, k, full) && fp.Content() == old(fp.Content())
    ensures full ==> fp.canWrite
    ensures StartBelow(fp.fs.g, |old(fp.chain)|, |fp.chain|, target)
    ensures old(InFile(fp.fs.g, fp.chain, target - 1)) ==> !full && fp.chain == old(fp.chain) && Fat0(fp.fs) == old(Fat0(fp.fs))
  {
    hide StartBelow, File.Stable, Grew, Foreign, FreeKnown, Volume.Valid, Volume.Mirrored, Volume.Logical, Clusters, InFile, Start, Bcs, Fat0, File.Content, FreeCount;
    NoneTaken(fp.fs.g, |fp.chain|, target);
    clst, rest, k, full := cl, first, k0, false;
    var bcs := Bcs(fp.fs.g);
    WalkParts(fp);
    while rest > bcs
      invariant Walking(fp, target, rest, clst, k) && Grown(fp) && fp.Content() == old(fp.Content())
      invariant fp.canWrite || InFile(fp.fs.g, fp.chain, target - 1)
      invariant StartBelow(fp.fs.g, |old(fp.chain)|, |fp.chain|, target)
      invariant old(InFile(fp.fs.g, fp.chain, target - 1)) ==> fp.chain == old(fp.chain) && Fat0(fp.fs) == old(Fat0(fp.fs))
      decreases rest
    {
      ghost var ys, u, b := fp.chain, Fat0(fp.fs), fp.fs.Logical();
      ghost var last, free, dirty := fp.fs.lastClust, fp.fs.freeClust, fp.fs.fsiDirty;
      NextPlace(fp.fs.g, fp.chain, k, target);
      BcsBound(fp.fs.g);
      var ok: bool;
      ok, clst := NextCluster(fp, target, rest, clst, k);
      WalkParts(fp);
      BelowOn(fp.fs.g, |old(fp.chain)|, |ys|, |fp.chain|, target, target);
      GrownTwice(fp.fs.g, old(fp.chain), ys, fp.chain, old(Fat0(fp.fs)), u, Fat0(fp.fs), old(fp.fs.Logical()), b, fp.fs.Logical());
      NotedTwice(old(fp.chain), old(fp.fs.lastClust), old(fp.fs.freeClust), old(fp.fs.fsiDirty), ys, last, free, dirty,
                 fp.chain, fp.fs.lastClust, fp.fs.freeClust, fp.fs.fsiDirty);
      if !ok {
        rest := bcs;
        full := true;
        break;
      }
      k := k + 1;
      rest := rest - bcs;
    }
  }

  lemma WalkParts(fp: File)
    requires fp.Stable()
    ensures fp.fs.Valid() && fp.fs.g.WellFormed() && Clusters(fp.fs.g, fp.chain)
    ensures Grew(Fat0(fp.fs), fp.chain, Fat0(fp.fs), fp.chain)
  {
    SameChain(fp.fs.g, Fat0(fp.fs), fp.sclust, fp.chain);
  }

  /** The end of f_lseek: move the pointer, and load the sector under it when it is inside a sector. */
  method Land(fp: File, clst: dword, rest: dword, ghost target: dword, ghost k: nat, ghost full: bool)
    requires Arriving(fp, target, rest, clst, k, full)
    modifies fp`fptr, fp`dsect, fp`dirty, fp.buf, fp.fs`disk
    ensures fp.Stable() && fp.AtBuffer() && fp.AtCluster() && fp.Content() == old(fp.Content())
    ensures fp.OthersKept() && Fat0(fp.fs) == old(Fat0(fp.fs))
    ensures fp.fptr == if full then Start(fp.fs.g, |fp.chain|) else target
    ensures full ==> fp.fptr < target && FreeCount(Fat0(fp.fs)) == 0
  {
    hide SecIdx, SecOff, CluIdx, CluOff, Start, Bcs, Clusters, SectorAt, ChainOk, IsChain, Owned, BufferOk, MapOk, FileBytes, Fat, Fat0, Foreign, FreeCount;
    hide Volume.Mirrored, Volume.Logical, InFile;
    var g := fp.fs.g;
    BcsBound(g);
    LandPlace(g, fp.chain, k, rest);
    fp.fptr := fp.fptr + rest;
    if rest % g.ss != 0 {
      var nsect := Clust2Sect(g, clst) + rest / g.ss;
      fp.LoadBuffer(nsect);
    }
  }

  /** The place in a file `rest` bytes behind the start of its cluster k. */
  lemma LandPlace(g: Geometry, chain: seq<nat>, k: nat, rest: nat)
    requires g.WellFormed() && 0 < rest <= Bcs(g) && Clusters(g, chain) && k < |chain|
    ensures Start(g, k + 1) == Start(g, k) + Bcs(g) && Bcs(g) % g.ss == 0
    ensures var p := Start(g, k) + rest;
            && InFile(g, chain, p - 1) && CluIdx(g, SecIdx(g, p - 1)) == k && SecOff(g, p) == rest % g.ss
            && (rest % g.ss != 0 ==>
                  var s := Clust2Sect(g, chain[k]) + rest / g.ss;
                  && 0 < s < g.sectors && InFile(g, chain, p) && HoldsSector(g, chain, s, SecIdx(g, p)) && Owned(g, chain, s))
  {
    hide SecIdx, SecOff, CluIdx, CluOff, Start, Bcs, Clusters, SectorAt, Owned;
    StartNext(g, k);
    WholeCluster(g);
    SeekPlace(g, k, rest);
    if rest % g.ss != 0 {
      FindSector(g, chain, SecIdx(g, Start(g, k) + rest));
      SectorOwned(g, chain, SecIdx(g, Start(g, k) + rest));
    }
  }

  /** Where a seek is to go: a file that may not be written is not extended. */
  function Clipped(to: nat, fsize: nat, canWrite: bool): nat {
    if to > fsize && !canWrite then fsize else to
  }

  /** f_lseek in normal seek mode. The pointer goes where asked, allocating clusters and extending the
      size as needed; it stops at the end of the chain only when the volume is full. What the file held
      stays, and a seek inside the chain does not touch the FAT. */
  method Seek(fp: File, to: dword)
    requires fp.Ready() && fp.cltbl == []
    modifies fp`sclust, fp`chain, fp`clust, fp`fptr, fp`fsize, fp`dsect, fp`dirty, fp`written, fp.buf
    modifies fp.fs`disk, fp.fs`wflag, fp.fs`winsect, fp.fs`lastClust, fp.fs`freeClust, fp.fs`fsiDirty, fp.fs.win
    ensures fp.Ready() && Grown(fp)
    ensures var target := Clipped(to, old(fp.fsize), fp.canWrite);
            && (fp.fptr == target || (fp.canWrite && FreeCount(Fat0(fp.fs)) == 0 && fp.fptr == Start(fp.fs.g, |fp.chain|) < target))
            && (target == 0 || old(InFile(fp.fs.g, fp.chain, target - 1)) ==>
                  fp.fptr == target && fp.chain == old(fp.chain) && Fat0(fp.fs) == old(Fat0(fp.fs)))
    ensures fp.fsize == if fp.fptr > old(fp.fsize) then fp.fptr else old(fp.fsize)
    ensures fp.Content()[..old(fp.fsize)] == old(fp.Content())
    ensures fp.written <==> old(fp.written) || fp.fptr > old(fp.fsize)
    ensures StartBelow(fp.fs.g, |old(fp.chain)|, |fp.chain|, fp.fptr)
  {
    hide Noted, StartBelow, File.Stable, File.AtBuffer, File.AtCluster, File.Content, Grew, Foreign, Fat0, FreeCount, Volume.Valid, Volume.Mirrored, Volume.Logical, InFile, Start;
    var ofs := to;
    if ofs > fp.fsize && !fp.canWrite { ofs := fp.fsize; }
    SeekParts(fp, if ofs == 0 then 0 else ofs - 1);
    MoveTo(fp, ofs);
    ExtendSize(fp);
  }

  /** Move the pointer to the target, or as near to it as the volume has room for. */
  method MoveTo(fp: File, target: dword)
    requires fp.Ready() && fp.cltbl == [] && (fp.canWrite || target <= fp.fsize)
    modifies fp`sclust, fp`chain, fp`clust, fp`fptr, fp`dsect, fp`dirty, fp.buf
    modifies fp.fs`disk, fp.fs`wflag, fp.fs`winsect, fp.fs`lastClust, fp.fs`freeClust, fp.fs`fsiDirty, fp.fs.win
    ensures fp.Stable() && fp.AtBuffer() && fp.AtCluster() && Grown(fp) && fp.Content() == old(fp.Content())
    ensures fp.fptr == target || (fp.canWrite && FreeCount(Fat0(fp.fs)) == 0 && fp.fptr == Start(fp.fs.g, |fp.chain|) < target)
    ensures target == 0 || old(InFile(fp.fs.g, fp.chain, target - 1)) ==>
              fp.fptr == target && fp.chain == old(fp.chain) && Fat0(fp.fs) == old(Fat0(fp.fs))
    ensures StartBelow(fp.fs.g, |old(fp.chain)|, |fp.chain|, fp.fptr)
  {
    hide StartBelow, File.Stable, File.AtBuffer, File.AtCluster, File.Content, Grew, Foreign, Fat0, FreeCount, Volume.Valid, Volume.Mirrored, Volume.Logical, Clusters, InFile, Start, Bcs;
    SeekParts(fp, if target == 0 then 0 else target - 1);
    if target == 0 {
      Rewind(fp);
      NoneTaken(fp.fs.g, |fp.chain|, fp.fptr);
    } else {
      var clst, rest, k := StartWalk(fp, target);
      WalkParts(fp);
      if clst == 0 {
        AtTop(fp);
        NoneTaken(fp.fs.g, 0, fp.fptr);
      } else {
        ghost var ys, u, b := fp.chain, Fat0(fp.fs), fp.fs.Logical();
        ghost var last, free, dirty := fp.fs.lastClust, fp.fs.freeClust, fp.fs.fsiDirty;
        WalkAndLand(fp, target, rest, clst, k);
        WalkParts(fp);
        BelowOn(fp.fs.g, |old(fp.chain)|, |ys|, |fp.chain|, target, target);
        AllBelow(fp.fs.g, |old(fp.chain)|, |fp.chain|);
        GrownTwice(fp.fs.g, old(fp.chain), ys, fp.chain, old(Fat0(fp.fs)), u, Fat0(fp.fs), old(fp.fs.Logical()), b, fp.fs.Logical());
        NotedTwice(old(fp.chain), old(fp.fs.lastClust), old(fp.fs.freeClust), old(fp.fs.fsiDirty), ys, last, free, dirty,
                   fp.chain, fp.fs.lastClust, fp.fs.freeClust, fp.fs.fsiDirty);
      }
    }
  }

  lemma SeekParts(fp: File, q: nat)
    requires fp.Ready()
    ensures fp.fs.Valid() && fp.fs.g.WellFormed() && Start(fp.fs.g, 0) == 0 && |fp.Content()| == fp.fsize
    ensures q < fp.fsize ==> InFile(fp.fs.g, fp.chain, q)
    ensures InFile(fp.fs.g, fp.chain, q) ==> fp.chain != []
  {
    hide SecIdx, CluIdx, Clusters, ChainOk, Owned, BufferOk, MapOk, FileBytes, Fat;
    BcsBound(fp.fs.g);
    if q < fp.fsize { InFileBelow(fp.fs.g, fp.chain, q, fp.fsize - 1); }
  }

  lemma AtTop(fp: File)
    requires fp.fs.g.WellFormed() && fp.fptr == 0
    ensures fp.AtBuffer() && fp.AtCluster()
  {
    Before(fp.fs.g, 0);
  }

  /** The size follows a pointer that has gone past it. */
  method ExtendSize(fp: File)
    requires fp.Stable() && fp.AtBuffer() && fp.AtCluster()
    modifies fp`fsize, fp`written
    ensures fp.Ready() && fp.fsize == if fp.fptr > old(fp.fsize) then fp.fptr else old(fp.fsize)
    ensures fp.Content()[..old(fp.fsize)] == old(fp.Content())
    ensures fp.written <==> old(fp.written) || fp.fptr > old(fp.fsize)
  {
    hide Fat0, InFile, Opens, BytesOf, Volume.Valid, Volume.Logical, File.Stable, File.Bytes, File.AtBuffer, File.AtCluster;
    ContentBelow(fp);
    OpenIsStable(fp);
    if fp.fptr > fp.fsize {
      fp.fsize := fp.fptr;
      fp.written := true;
    }
    OpenIsStable(fp);
  }

  /** Follow the chain to the target, then move the pointer there. */
  method WalkAndLand(fp: File, ghost target: dword, first: dword, cl: dword, ghost k0: nat)
    requires Walking(fp, target, first, cl, k0) && (fp.canWrite || InFile(fp.fs.g, fp.chain, target - 1))
    modifies fp`sclust, fp`chain, fp`clust, fp`fptr, fp`dsect, fp`dirty, fp.buf
    modifies fp.fs`disk, fp.fs`wflag, fp.fs`winsect, fp.fs`lastClust, fp.fs`freeClust, fp.fs`fsiDirty, fp.fs.win
    ensures fp.Stable() && fp.AtBuffer() && fp.AtCluster() && Grown(fp) && fp.Content() == old(fp.Content())
    ensures fp.fptr == target || (fp.canWrite && FreeCount(Fat0(fp.fs)) == 0 && fp.fptr == Start(fp.fs.g, |fp.chain|) < target)
    ensures old(InFile(fp.fs.g, fp.chain, target - 1)) ==>
              fp.fptr == target && fp.chain == old(fp.chain) && Fat0(fp.fs) == old(Fat0(fp.fs))
    ensures StartBelow(fp.fs.g, |old(fp.chain)|, |fp.chain|, target)
  {
    hide StartBelow, File.Stable, File.AtBuffer, File.AtCluster, File.Content, Grew, Foreign, Fat0, FreeCount, Volume.Valid, Volume.Mirrored, Volume.Logical, Clusters, InFile, Start, Bcs;
    var clst, rest, k, full := WalkLoop(fp, target, first, cl, k0);
    ghost var ys, u, b := fp.chain, Fat0(fp.fs), fp.fs.Logical();
    Land(fp, clst, rest, target, k, full);
    WalkParts(fp);
  }

  /** Back to the start. */
  method Rewind(fp: File)
    requires fp.Ready()
    modifies fp`fptr
    ensures fp.Ready() && fp.fptr == 0 && fp.Content() == old(fp.Content()) && Grown(fp)
  {
    hide SecIdx, SecOff, CluIdx, Clusters, ChainOk, Owned, BufferOk, MapOk, FileBytes, Fat, Fat0, Foreign, Grew, FreeCount;
    WalkParts(fp);
    fp.fptr := 0;
    Before(fp.fs.g, 0);
  }

  // ---------- seeking through the link map ----------

  /** f_lseek with a link map: never past the size, and without any access to the FAT. It is aborted
      exactly when the map does not have the cluster of the target, which is so for a file that was
      empty when the map was made and has been written since. */
  method FastSeek(fp: File, to: dword) returns (res: Result)
    requires fp.Ready() && fp.cltbl != [] && fp.err == Ok
    modifies fp`clust, fp`fptr, fp`dsect, fp`dirty, fp`err, fp.buf, fp.fs`disk
    ensures fp.Valid() && fp.err == res && fp.Content() == old(fp.Content())
    ensures fp.OthersKept() && Fat0(fp.fs) == old(Fat0(fp.fs))
    ensures fp.fptr == if to > fp.fsize then fp.fsize else to
    ensures res == if fp.fptr > 0 && !Maps(fp.cltbl, 1, fp.chain) then IntErr else Ok
  {
    hide SecIdx, SecOff, CluIdx, CluOff, Clusters, SectorAt, ChainOk, IsChain, Owned, BufferOk, MapOk, FileBytes, Fat, Fat0, Foreign;
    hide Volume.Mirrored, Volume.Logical, InFile, Maps;
    var g := fp.fs.g;
    var ofs := to;
    if ofs > fp.fsize { ofs := fp.fsize; }
    SeekParts(fp, ofs);
    if ofs == 0 {
      Rewind(fp);
      return Ok;
    }
    var dsc := MapStep(fp, ofs);
    if dsc == 0 {
      fp.err := IntErr;
      return IntErr;
    }
    if SecOff(g, fp.fptr) != 0 {
      fp.LoadBuffer(dsc);
    }
    res := Ok;
  }

  /** Move the pointer and take the cluster of the byte before it from the link map; the sector of that
      byte is the answer, 0 when the map does not have it. */
  method MapStep(fp: File, ofs: dword) returns (dsc: dword)
    requires fp.Stable() && fp.cltbl != [] && 0 < ofs <= fp.fsize && fp.fptr <= fp.fsize
    modifies fp`clust, fp`fptr
    ensures fp.Stable() && fp.fptr == ofs && fp.Content() == old(fp.Content())
    ensures dsc == 0 <==> !Maps(fp.cltbl, 1, fp.chain)
    ensures dsc != 0 ==> fp.AtCluster() && dsc < fp.fs.g.sectors && Owned(fp.fs.g, fp.chain, dsc)
    ensures dsc != 0 && SecOff(fp.fs.g, ofs) != 0 ==>
              InFile(fp.fs.g, fp.chain, ofs) && HoldsSector(fp.fs.g, fp.chain, dsc, SecIdx(fp.fs.g, ofs))
  {
    hide SecIdx, SecOff, CluIdx, CluOff, Clusters, SectorAt, ChainOk, IsChain, Owned, BufferOk, MapOk, FileBytes, Fat, Fat0, Maps;
    var g := fp.fs.g;
    ghost var mapped := FastPlace(fp, ofs);
    fp.fptr := ofs;
    fp.clust := ClmtClust(g, fp.cltbl, ofs - 1, mapped);
    var sect := Clust2Sect(g, fp.clust);
    dsc := if sect == 0 then 0 else sect + Csect(g, ofs - 1);
  }

  /** What the link map says of the byte before a position inside the file. */
  lemma FastPlace(fp: File, ofs: dword) returns (mapped: seq<nat>)
    requires fp.Stable() && fp.cltbl != [] && 0 < ofs <= fp.fsize
    ensures Maps(fp.cltbl, 1, mapped) && (mapped == fp.chain <==> Maps(fp.cltbl, 1, fp.chain)) && (mapped == fp.chain || mapped == [])
    ensures var g := fp.fs.g;
            var k := SecIdx(g, ofs - 1);
            && CluIdx(g, k) < |fp.chain| && InFile(g, fp.chain, ofs - 1)
            && var s := Clust2Sect(g, fp.chain[CluIdx(g, k)]);
               && 0 < s && s + CluOff(g, k) < g.sectors && Owned(g, fp.chain, s + CluOff(g, k))
               && HoldsSector(g, fp.chain, s + CluOff(g, k), k)
               && (SecOff(g, ofs) != 0 ==> SecIdx(g, ofs) == k && InFile(g, fp.chain, ofs))
  {
    hide SecIdx, SecOff, CluIdx, CluOff, Clusters, SectorAt, ChainOk, IsChain, Owned, BufferOk, FileBytes, Fat;
    InFileBelow(fp.fs.g, fp.chain, ofs - 1, fp.Extent() - 1);
    Before(fp.fs.g, ofs);
    FindSector(fp.fs.g, fp.chain, SecIdx(fp.fs.g, ofs - 1));
    SectorOwned(fp.fs.g, fp.chain, SecIdx(fp.fs.g, ofs - 1));
    mapped := if Maps(fp.cltbl, 1, fp.chain) then fp.chain else [];
  }

  /** What CREATE_LINKMAP makes of the table and the file: item 0 is the size needed; the file seeks through the table
      unless it was too small; and the end mark of the chain may have stopped it. Nothing else of the file changes. */
  twostate predicate LinkmapMade(fp: File, table: array<dword>, res: Result)
    reads fp, table, fp.fs, fp.fs.win
    requires table.Length > 0
  {
    && old(fp.fs.Valid()) && fp.fs.Valid() && Fat0(fp.fs) == old(Fat0(fp.fs))
    && fp.fptr == old(fp.fptr) && fp.fsize == old(fp.fsize) && fp.chain == old(fp.chain)
    && (res == IntErr <==> EndsInNext(Fat0(fp.fs), fp.chain))
    && fp.err == (if res == IntErr then IntErr else Ok)
    && (res != IntErr ==>
          && table[0] == 2 + 2 * Fragments(fp.chain, |fp.chain|)
          && res == if table[0] <= old(table[0]) then Ok else NotEnoughCore)
    && fp.cltbl == (if res == Ok then table[..] else old(fp.cltbl))
    && (res == Ok ==> Maps(fp.cltbl, 1, fp.chain))
  }

  /** f_lseek with CREATE_LINKMAP on the table the application has given: afterwards the file seeks
      through it, unless it was too small or the end mark of the chain stopped it. */
  method MakeLinkmap(fp: File, table: array<dword>) returns (res: Result)
    requires fp.Valid() && fp.err == Ok && fp.buf as object != table && fp.fs.win as object != table
    requires table.Length > 0 && table[0] <= table.Length
    modifies fp`cltbl, fp`err, fp.fs`disk, fp.fs`wflag, fp.fs`winsect, fp.fs.win, table
    ensures fp.Valid() && fp.Content() == old(fp.Content()) && fp.OthersKept() && LinkmapMade(fp, table, res)
  {
    hide Clusters, IsChain, Owned, BufferOk, Fat, Foreign, Rest, Maps, InFile, EndsInNext, Fragments, FileBytes, IsImage, Shown;
    hide Volume.Valid, Volume.Logical, Volume.Mirrored, Geometry.WellFormed, File.Stable, File.Bytes, File.AtBuffer, File.AtCluster;
    var fs := fp.fs;
    OpenIsStable(fp);
    ghost var d0, w0, win0 := fs.disk, fs.winsect, fs.win[..];
    res := CreateLinkmap(fs, fp.sclust, table, fp.chain);
    ValidParts(fs);
    UnderFile(fs.g, fp.chain, fp.chain, fp.dsect, fp.dirty, fp.buf[..], fp.fsize, d0, w0, win0, fs.disk, fs.winsect, fs.win[..]);
    if res == Ok { fp.cltbl := table[..]; }
    if res == IntErr { fp.err := IntErr; }
    OpenIsStable(fp);
  }

  /** The offset that asks f_lseek for a link map. */
  const CREATE_LINKMAP: dword := 0xFFFF_FFFF

  /** f_lseek, with the table the application has given the file, if any. A table is made into the link map on
      CREATE_LINKMAP and is sought through on any other offset; without one the chain is followed. */
  method Lseek(fp: File, ofs: dword, table: array?<dword>) returns (res: Result)
    requires fp.Valid() && (table == null ==> fp.cltbl == [])
    requires table != null ==> fp.buf as object != table && fp.fs.win as object != table && table.Length > 0
    requires table != null ==> if ofs == CREATE_LINKMAP then table[0] <= table.Length else table[..] == fp.cltbl
    modifies fp`sclust, fp`chain, fp`clust, fp`fptr, fp`fsize, fp`dsect, fp`dirty, fp`written, fp`err, fp`cltbl, fp.buf
    modifies fp.fs`disk, fp.fs`wflag, fp.fs`winsect, fp.fs`lastClust, fp.fs`freeClust, fp.fs`fsiDirty, fp.fs.win, table
    ensures fp.Valid() && Grown(fp)
    ensures old(fp.err) != Ok ==> res == old(fp.err) == fp.err && fp.fptr == old(fp.fptr) && fp.Content() == old(fp.Content())
    ensures old(fp.err) == Ok && table != null && ofs == CREATE_LINKMAP ==> LinkmapMade(fp, table, res)
    ensures !(table != null && ofs == CREATE_LINKMAP) ==> fp.err == res && fp.cltbl == old(fp.cltbl)
    ensures old(fp.fsize) <= fp.fsize && fp.Content()[..old(fp.fsize)] == old(fp.Content())
    ensures StartBelow(fp.fs.g, |old(fp.chain)|, |fp.chain|, fp.fptr)
    ensures fp.written <==> old(fp.written) || fp.fptr > old(fp.fsize)
    ensures res == Ok && !(table != null && ofs == CREATE_LINKMAP) ==>
              if ofs <= old(fp.fsize) then fp.fptr == ofs && fp.fsize == old(fp.fsize) && Fat0(fp.fs) == old(Fat0(fp.fs))
              else if !fp.canWrite || table != null then fp.fptr == fp.fsize == old(fp.fsize)
              else fp.fptr == fp.fsize == ofs || (FreeCount(Fat0(fp.fs)) == 0 && fp.fptr == Start(fp.fs.g, |fp.chain|) < ofs)
  {
    hide SecIdx, SecOff, CluIdx, CluOff, Clusters, ChainOk, IsChain, Owned, BufferOk, MapOk, FileBytes, Fat, Fat0, Foreign, FreeCount, Grew;
    hide Volume.Mirrored, Volume.Logical, InFile, Maps, Start, StartBelow, File.AtBuffer, File.AtCluster, EndsInNext, Fragments;
    WalkParts(fp);
    LseekParts(fp, ofs);
    NoneTaken(fp.fs.g, |fp.chain|, fp.fptr);
    if fp.err != Ok { return fp.err; }
    if table != null {
      if ofs == CREATE_LINKMAP {
        res := MakeLinkmap(fp, table);
      } else {
        res := FastSeek(fp, ofs);
        NoneTaken(fp.fs.g, |fp.chain|, fp.fptr);
      }
    } else {
      Seek(fp, ofs);
      res := Ok;
    }
  }

  lemma LseekParts(fp: File, ofs: dword)
    requires fp.Valid()
    ensures fp.Content()[..fp.fsize] == fp.Content()
    ensures 0 < ofs <= fp.fsize ==> InFile(fp.fs.g, fp.chain, ofs - 1)
  {
    hide SecIdx, CluIdx, Clusters, ChainOk, Owned, BufferOk, MapOk, FileBytes, Fat;
    if 0 < ofs <= fp.fsize { InFileBelow(fp.fs.g, fp.chain, ofs - 1, fp.fsize - 1); }
  }
}
