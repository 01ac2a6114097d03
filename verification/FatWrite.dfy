/** f_write: replacing and adding bytes at the pointer, stretching the chain as needed. */
module FatWrite {
  import opened FatVolume
  import opened FatEntry
  import opened FatChain
  import opened FatLayout
  import opened FatLinkMap
  import opened FatFile
  import opened FatOverlay

  // ---------- the chain of an open file gets longer ----------

  /** From table t and chain xs to table u and chain ys: only formerly free clusters are added,
      only entries of the chain change, and none when no cluster is added. */
  ghost predicate Grew(t: seq<nat>, xs: seq<nat>, u: seq<nat>, ys: seq<nat>) {
    && |u| == |t| && xs <= ys && (ys == xs ==> u == t)
    && (forall i :: |xs| <= i < |ys| ==> ys[i] < |t| && t[ys[i]] == 0)
    && (forall c :: 0 <= c < |t| && c !in ys ==> u[c] == t[c])
  }

  lemma GrewTwice(g: Geometry, t: seq<nat>, xs: seq<nat>, u: seq<nat>, ys: seq<nat>, v: seq<nat>, zs: seq<nat>)
    requires Grew(t, xs, u, ys) && Grew(u, ys, v, zs) && Clusters(g, zs)
    ensures Grew(t, xs, v, zs)
  {
    forall i | |xs| <= i < |zs| ensures zs[i] < |t| && t[zs[i]] == 0 {
      if i < |ys| { assert ys[i] == zs[i]; }
    }
  }

  /** What the FSINFO values become when a chain gets longer: the last cluster taken is noted, and the counter is
      updated unless it is unknown. */
  ghost predicate Noted(xs: seq<nat>, last0: nat, free0: nat, dirty0: bool, ys: seq<nat>, last1: nat, free1: nat, dirty1: bool) {
    && (free0 == 0xFFFF_FFFF ==> free1 == 0xFFFF_FFFF)
    && if ys == xs then last1 == last0 && free1 == free0 && dirty1 == dirty0
       else last1 == Last(ys) && dirty1 == (dirty0 || free0 != 0xFFFF_FFFF)
  }

  lemma NotedNothing(xs: seq<nat>, last: nat, free: nat, dirty: bool)
    ensures Noted(xs, last, free, dirty, xs, last, free, dirty)
  {
  }

  lemma NotedTwice(xs: seq<nat>, last0: nat, free0: nat, dirty0: bool, ys: seq<nat>, last1: nat, free1: nat, dirty1: bool,
                   zs: seq<nat>, last2: nat, free2: nat, dirty2: bool)
    requires Noted(xs, last0, free0, dirty0, ys, last1, free1, dirty1) && Noted(ys, last1, free1, dirty1, zs, last2, free2, dirty2)
    requires xs <= ys <= zs
    ensures Noted(xs, last0, free0, dirty0, zs, last2, free2, dirty2)
  {
  }

  /** What create_chain does at cluster i of the chain of an open file (0 stands for an empty chain). */
  lemma StretchChain(g: Geometry, t: seq<nat>, lastClust: dword, sclust: nat, xs: seq<nat>, i: nat, r: dword, u: seq<nat>)
    requires g.WellFormed() && |t| == g.nFatent && ChainOk(t, sclust, xs) && Clusters(g, xs)
    requires i <= |xs| && (i == 0 ==> xs == [])
    requires Created(t, lastClust, if i == 0 then 0 else xs[i - 1], r, u, g.EndMark())
    ensures r == 0 ==> i == |xs| && FreeCount(t) == 0
    ensures r == 0 || i < |xs| ==> u == t && Grew(t, xs, u, xs)
    ensures r != 0 && i < |xs| ==> r == xs[i] && sclust != 0
    ensures r != 0 && i == |xs| ==>
              && u != t && Clusters(g, xs + [r]) && Grew(t, xs, u, xs + [r])
              && ChainOk(u, if sclust == 0 then r else sclust, xs + [r])
  {
    hide ScanAnswer;
    ScanMeets(t, ScanStart(lastClust, if i == 0 then 0 else xs[i - 1], |t|), r);
    if i > 0 { LinkAboveOne(t, xs, xs[i - 1]); }
    if 0 < i < |xs| {
      assert t[xs[i - 1]] == xs[i];
    } else if r != 0 && i == |xs| {
      ChainGrow(t, xs, r, g.EndMark());
    }
  }

  /** Without broken entries the scan answers 0 when nothing is free, and a free cluster otherwise. */
  lemma ScanMeets(t: seq<nat>, s: nat, r: nat)
    requires forall c :: 2 <= c < |t| ==> t[c] != 1
    ensures ScanAnswer(t, s, r) && r == 0 ==> FreeCount(t) == 0
    ensures ScanAnswer(t, s, r) && r != 0 ==> 2 <= r < |t| && t[r] == 0
  {
    if ScanAnswer(t, s, r) && r == 0 && 2 <= |t| { NoneFreeCount(t, 2); }
  }

  /** An image without a chain's sectors is also one without the sectors of a longer chain. */
  lemma ForeignGrow(g: Geometry, xs: seq<nat>, ys: seq<nat>, a: seq<seq<byte>>, b: seq<seq<byte>>)
    requires g.csize > 0 && xs <= ys && |a| == |b|
    requires Foreign(g, xs, a) == Foreign(g, xs, b)
    ensures Foreign(g, ys, a) == Foreign(g, ys, b)
  {
    forall s | 0 <= s < |a| ensures Foreign(g, ys, a)[s] == Foreign(g, ys, b)[s] {
      assert Foreign(g, xs, a)[s] == Foreign(g, xs, b)[s];
    }
  }

  lemma MapGrown(cltbl: seq<dword>, xs: seq<nat>, ys: seq<nat>)
    requires MapOk(cltbl, xs) && (xs == ys || cltbl == [] || (xs == [] && |ys| == 1))
    ensures MapOk(cltbl, ys)
  {
  }

  /** What an operation that may stretch the chain of an open file leaves alone: all sectors that are
      not the file's, all FAT entries but those of the chain and of clusters that were free, and the
      correctness of the free-cluster counter. */
  twostate predicate Grown(fp: File)
    reads fp`fptr, fp`fsize, fp`sclust, fp`dsect, fp`dirty, fp`cltbl, fp`chain
    reads fp.buf, fp.fs`disk, fp.fs`winsect, fp.fs`wflag, fp.fs`lastClust, fp.fs`freeClust, fp.fs`fsiDirty, fp.fs.win
  {
    && fp.OthersKept()
    && Grew(old(Fat0(fp.fs)), old(fp.chain), Fat0(fp.fs), fp.chain)
    && Noted(old(fp.chain), old(fp.fs.lastClust), old(fp.fs.freeClust), old(fp.fs.fsiDirty),
             fp.chain, fp.fs.lastClust, fp.fs.freeClust, fp.fs.fsiDirty)
    && KeptCount(fp.fs)
  }

  /** A counter of free clusters that is right stays right, and is not forgotten. */
  twostate predicate KeptCount(fs: Volume)
    reads fs`disk, fs`winsect, fs`wflag, fs`freeClust, fs.win
    requires old(fs.Valid()) && fs.Valid()
  {
    old(FreeKnown(fs)) ==> FreeKnown(fs) && (fs.freeClust == 0xFFFF_FFFF <==> old(fs.freeClust) == 0xFFFF_FFFF)
  }

  /** The first n bytes of a file, seen through its sector buffer. */
  ghost function Seen(g: Geometry, chain: seq<nat>, dsect: nat, dirty: bool, buf: seq<byte>, disk: seq<seq<byte>>, n: nat): (c: seq<byte>)
    requires IsImage(g, disk) && Clusters(g, chain) && |buf| == g.ss && BufferOk(g, chain, dsect, dirty, buf, disk)
    requires n > 0 ==> InFile(g, chain, n - 1)
    ensures |c| == n
  {
    FileBytes(g, chain, Shown(disk, dsect, dirty, buf), n)
  }

  /** What create_chain at cluster i makes of the chain, the sector buffer, the link map and the n bytes of an open file. */
  lemma StretchKeeps(g: Geometry, t: seq<nat>, lastClust: dword, sclust: nat, xs: seq<nat>, i: nat, r: dword, u: seq<nat>, ys: seq<nat>,
                     cltbl: seq<dword>, dsect: nat, dirty: bool, buf: seq<byte>, n: nat,
                     d0: seq<seq<byte>>, w0: nat, win0: seq<byte>, d1: seq<seq<byte>>, w1: nat, win1: seq<byte>)
    requires g.WellFormed() && |t| == g.nFatent && ChainOk(t, sclust, xs) && Clusters(g, xs) && MapOk(cltbl, xs)
    requires i <= |xs| && (i == 0 || cltbl != [] ==> xs == [])
    requires Created(t, lastClust, if i == 0 then 0 else xs[i - 1], r, u, g.EndMark())
    requires ys == if r != 0 && i == |xs| then xs + [r] else xs
    requires IsImage(g, d0) && IsImage(g, d1) && w0 < g.sectors && w1 < g.sectors && |buf| == g.ss
    requires Rest(g, d0[w0 := win0]) == Rest(g, d1[w1 := win1])
    requires BufferOk(g, xs, dsect, dirty, buf, d0) && !Owned(g, xs, w0)
    requires (w1 == w0 || g.InFat(w1)) && (u != t ==> g.InFat(w1))
    requires n > 0 ==> InFile(g, xs, n - 1)
    ensures r == 0 ==> i == |xs| && FreeCount(u) == 0
    ensures r != 0 ==> i < |ys| && r == ys[i]
    ensures i < |xs| ==> r != 0 && u == t
    ensures (u != t <==> ys != xs) && (ys != xs ==> Last(ys) == r)
    ensures Grew(t, xs, u, ys) && Clusters(g, ys) && ChainOk(u, NewStart(sclust, r), ys) && MapOk(cltbl, ys)
    ensures BufferOk(g, ys, dsect, dirty, buf, d1) && !Owned(g, ys, w1)
    ensures n > 0 ==> InFile(g, ys, n - 1)
    ensures Seen(g, ys, dsect, dirty, buf, d1, n) == Seen(g, xs, dsect, dirty, buf, d0, n)
    ensures Foreign(g, ys, d0[w0 := win0]) == Foreign(g, ys, d1[w1 := win1])
  {
    hide FreeCount, Rest, Foreign, Created, Owned, Clusters, BufferOk, ChainOk, MapOk, InFile, FileBytes, Grew, Geometry.WellFormed, IsImage;
    StretchChain(g, t, lastClust, sclust, xs, i, r, u);
    UnderFile(g, xs, ys, dsect, dirty, buf, n, d0, w0, win0, d1, w1, win1);
    MapGrown(cltbl, xs, ys);
  }

  /** What Stable says of an open file, for a start cluster, a chain and an extent that may not have been stored yet. */
  ghost predicate Opens(fp: File, sclust: nat, chain: seq<nat>, n: nat)
    reads fp`dsect, fp`dirty, fp`cltbl
    reads fp.buf, fp.fs`disk, fp.fs`winsect, fp.fs`wflag, fp.fs.win
  {
    var fs := fp.fs;
    && fs.Valid() && IsImage(fs.g, fs.disk) && fs.winsect < fs.g.sectors && fp.buf.Length == fs.g.ss && fp.buf != fs.win
    && fs.Logical() == fs.disk[fs.winsect := fs.win[..]]
    && ChainOk(Fat0(fs), sclust, chain) && Clusters(fs.g, chain) && MapOk(fp.cltbl, chain)
    && BufferOk(fs.g, chain, fp.dsect, fp.dirty, fp.buf[..], fs.disk) && !Owned(fs.g, chain, fs.winsect)
    && (n > 0 ==> InFile(fs.g, chain, n - 1))
  }

  /** The n bytes of an open file with this chain. */
  ghost function BytesOf(fp: File, sclust: nat, chain: seq<nat>, n: nat): (c: seq<byte>)
    reads fp`dsect, fp`dirty, fp`cltbl
    reads fp.buf, fp.fs`disk, fp.fs`winsect, fp.fs`wflag, fp.fs.win
    requires Opens(fp, sclust, chain, n)
    ensures |c| == n
  {
    Seen(fp.fs.g, chain, fp.dsect, fp.dirty, fp.buf[..], fp.fs.disk, n)
  }

  lemma OpenIsStable(fp: File)
    ensures Opens(fp, fp.sclust, fp.chain, fp.Extent()) <==> fp.Stable()
    ensures fp.Stable() ==> fp.fs.Valid() && fp.buf != fp.fs.win && fp.Bytes(fp.Extent()) == BytesOf(fp, fp.sclust, fp.chain, fp.Extent())
  {
    hide ChainOk, Clusters, MapOk, BufferOk, Owned, InFile, FileBytes, Fat0, Geometry.WellFormed;
  }

  lemma ValidParts(fs: Volume)
    requires fs.Valid()
    ensures fs.g.WellFormed() && IsImage(fs.g, fs.disk) && fs.winsect < fs.g.sectors
    ensures fs.Logical() == fs.disk[fs.winsect := fs.win[..]]
  {
  }

  /** The start cluster after create_chain has answered r. */
  function NewStart(sclust: nat, r: nat): nat { if sclust == 0 && r != 0 then r else sclust }

  /** create_chain under an open file, at cluster i of its chain; ys is the chain that results. */
  method Allocate(fp: File, cl: dword, ghost i: nat) returns (clst: dword, ghost ys: seq<nat>)
    requires Opens(fp, fp.sclust, fp.chain, fp.Extent()) && i <= |fp.chain| && cl == (if i == 0 then 0 else fp.chain[i - 1])
    requires i == 0 || fp.cltbl != [] ==> fp.chain == []
    modifies fp.fs`disk, fp.fs`wflag, fp.fs`winsect, fp.fs`lastClust, fp.fs`freeClust, fp.fs`fsiDirty, fp.fs.win
    ensures Opens(fp, NewStart(fp.sclust, clst), ys, fp.Extent())
    ensures BytesOf(fp, NewStart(fp.sclust, clst), ys, fp.Extent()) == old(BytesOf(fp, fp.sclust, fp.chain, fp.Extent()))
    ensures ys == if clst != 0 && i == |fp.chain| then fp.chain + [clst] else fp.chain
    ensures clst == 0 ==> i == |ys| && FreeCount(Fat0(fp.fs)) == 0
    ensures clst != 0 ==> i < |ys| && clst == ys[i]
    ensures i < |fp.chain| ==> clst != 0 && Fat0(fp.fs) == old(Fat0(fp.fs))
    ensures Grew(old(Fat0(fp.fs)), fp.chain, Fat0(fp.fs), ys)
    ensures Foreign(fp.fs.g, ys, fp.fs.Logical()) == Foreign(fp.fs.g, ys, old(fp.fs.Logical()))
    ensures Noted(fp.chain, old(fp.fs.lastClust), old(fp.fs.freeClust), old(fp.fs.fsiDirty),
                  ys, fp.fs.lastClust, fp.fs.freeClust, fp.fs.fsiDirty)
    ensures (old(fp.fs.Mirrored()) ==> fp.fs.Mirrored()) && KeptCount(fp.fs)
  {
    hide Fat, Fat0, FreeKnown, FreeCount, FreeFrom, Rest, Foreign, Created, Owned, Clusters, BufferOk, ChainOk, MapOk, InFile, FileBytes, Grew;
    hide IsChain, Volume.Mirrored, Volume.Valid, Volume.Logical, Geometry.WellFormed, Maps, Link, Shown, IsImage;
    var fs := fp.fs;
    ValidParts(fs);
    ghost var t, d0, w0, win0 := Fat0(fs), fs.disk, fs.winsect, fs.win[..];
    clst := CreateChain(fs, cl);
    ValidParts(fs);
    ys := if clst != 0 && i == |fp.chain| then fp.chain + [clst] else fp.chain;
    StretchKeeps(fs.g, t, old(fs.lastClust), fp.sclust, fp.chain, i, clst, Fat0(fs), ys,
                 fp.cltbl, fp.dsect, fp.dirty, fp.buf[..], fp.Extent(), d0, w0, win0, fs.disk, fs.winsect, fs.win[..]);
  }

  /** create_chain for an open file, at cluster i of its chain. */
  method Stretch(fp: File, cl: dword, ghost i: nat) returns (clst: dword)
    requires fp.Stable() && i <= |fp.chain| && cl == (if i == 0 then 0 else fp.chain[i - 1])
    requires i == 0 || fp.cltbl != [] ==> fp.chain == []
    modifies fp`sclust, fp`chain
    modifies fp.fs`disk, fp.fs`wflag, fp.fs`winsect, fp.fs`lastClust, fp.fs`freeClust, fp.fs`fsiDirty, fp.fs.win
    ensures fp.Stable() && Grown(fp)
    ensures clst == 0 ==> i == |fp.chain| && FreeCount(Fat0(fp.fs)) == 0 && fp.chain == old(fp.chain)
    ensures clst != 0 ==> i < |fp.chain| && clst == fp.chain[i] && |fp.chain| <= |old(fp.chain)| + 1
    ensures i < |old(fp.chain)| ==> clst != 0 && fp.chain == old(fp.chain) && Fat0(fp.fs) == old(Fat0(fp.fs))
    ensures fp.Bytes(fp.Extent()) == old(fp.Bytes(fp.Extent()))
  {
    hide Fat0, FreeKnown, FreeCount, Foreign, Owned, Clusters, BufferOk, ChainOk, MapOk, InFile, FileBytes, Grew, Opens;
    hide Volume.Mirrored, Volume.Logical, Geometry.WellFormed, File.Stable, File.Bytes, Shown, IsImage;
    OpenIsStable(fp);
    ghost var ys;
    clst, ys := Allocate(fp, cl, i);
    if clst != 0 && fp.sclust == 0 { fp.sclust := clst; }
    fp.chain := ys;
    OpenIsStable(fp);
  }

  /** clmt_clust on a cluster boundary behind the start of the file. */
  lemma MapTarget(cltbl: seq<dword>, chain: seq<nat>, i: nat) returns (mapped: seq<nat>)
    requires MapOk(cltbl, chain) && cltbl != [] && i > 0
    ensures Maps(cltbl, 1, mapped)
    ensures if i < |chain| then i < |mapped| && mapped[i] == chain[i] else i >= |mapped|
  {
    mapped := if Maps(cltbl, 1, chain) then chain else [];
  }

  /** A chain of m clusters has n now: as before, or with one more, the one that position p lies in. */
  predicate TakenAt(g: Geometry, m: nat, n: nat, p: nat)
    requires g.ss > 0 && g.csize > 0
  {
    n == m || (n == m + 1 && m == CluIdx(g, SecIdx(g, p)))
  }

  /** The clusters of a file from index m up to n start before position p. */
  ghost predicate StartBelow(g: Geometry, m: nat, n: nat, p: nat) { forall i :: m <= i < n ==> Start(g, i) < p }

  lemma TakenBelow(g: Geometry, m: nat, n: nat, p: nat, q: nat)
    requires g.WellFormed() && g.ss > 0 && g.csize > 0 && p <= q && TakenAt(g, m, n, p) && (n == m || p < q)
    ensures StartBelow(g, m, n, q)
  {
    hide SecIdx, CluIdx, Start;
    InCluster(g, m, p);
  }

  lemma BelowOn(g: Geometry, l: nat, m: nat, n: nat, p: nat, q: nat)
    requires StartBelow(g, l, m, p) && StartBelow(g, m, n, q) && p <= q
    ensures StartBelow(g, l, n, q)
  {
    hide Start;
  }

  /** On a sector boundary: have the cluster under the pointer, allocating one at the end of the chain. */
  method AdvanceForWrite(fp: File) returns (ok: bool)
    requires fp.Stable() && fp.AtCluster() && SecOff(fp.fs.g, fp.fptr) == 0
    modifies fp`sclust, fp`chain, fp`clust
    modifies fp.fs`disk, fp.fs`wflag, fp.fs`winsect, fp.fs`lastClust, fp.fs`freeClust, fp.fs`fsiDirty, fp.fs.win
    ensures fp.Stable() && Grown(fp) && fp.Bytes(fp.Extent()) == old(fp.Bytes(fp.Extent()))
    ensures ok ==> HasCluster(fp)
    ensures TakenAt(fp.fs.g, |old(fp.chain)|, |fp.chain|, fp.fptr)
    ensures !ok ==> fp.AtCluster() && fp.chain == old(fp.chain) && !InFile(fp.fs.g, fp.chain, fp.fptr)
    ensures !ok ==> fp.cltbl != [] || FreeCount(Fat0(fp.fs)) == 0
  {
    hide SecIdx, SecOff, CluIdx, CluOff, Clusters, BufferOk, ChainOk, MapOk, Grew, Foreign, IsChain, FileBytes, Owned, Fat;
    hide Fat0, FreeKnown, FreeCount, FreeFrom, Rest, Maps, Volume.Mirrored, Geometry.WellFormed, Volume.Logical, File.Bytes;
    var fs := fp.fs;
    GeometryBounds(fs.g);
    Before(fs.g, fp.fptr);
    SameChain(fs.g, Fat0(fs), fp.sclust, fp.chain);
    ghost var i := CluIdx(fs.g, SecIdx(fs.g, fp.fptr));
    if Csect(fs.g, fp.fptr) == 0 {
      var clst: dword;
      if fp.fptr == 0 {
        clst := fp.sclust;
        if clst == 0 { clst := Stretch(fp, 0, 0); }
      } else if fp.cltbl != [] {
        ghost var mapped := MapTarget(fp.cltbl, fp.chain, i);
        clst := ClmtClust(fs.g, fp.cltbl, fp.fptr, mapped);
      } else {
        clst := Stretch(fp, fp.clust, i);
      }
      if clst == 0 { return false; }
      fp.clust := clst;
    }
    return true;
  }

  lemma SameChain(g: Geometry, t: seq<nat>, sclust: nat, chain: seq<nat>)
    requires g.WellFormed() && ChainOk(t, sclust, chain) && Clusters(g, chain)
    ensures Grew(t, chain, t, chain)
    ensures if sclust == 0 then chain == [] else chain != [] && chain[0] == sclust
    ensures forall i :: 0 <= i < |chain| ==> 2 <= chain[i] < 0x1000_0000
  {
  }

  /** The current cluster is the one under the pointer. */
  ghost predicate HasCluster(fp: File)
    reads fp`fptr, fp`clust, fp`chain
    requires fp.fs.g.WellFormed()
  {
    InFile(fp.fs.g, fp.chain, fp.fptr) && fp.clust == fp.chain[CluIdx(fp.fs.g, SecIdx(fp.fs.g, fp.fptr))]
  }

  /** The sector buffer after a direct write that may have gone over its sector. */
  lemma BufferRefilled(g: Geometry, chain: seq<nat>, dsect: dword, buf: seq<byte>, disk: seq<seq<byte>>, data: seq<byte>, off: nat, sect: dword, cc: nat)
    requires g.WellFormed() && |disk| == g.sectors && BufferOk(g, chain, dsect, false, buf, disk)
    requires 0 < sect && sect + cc <= g.sectors && off + Whole(g, cc) <= |data|
    ensures var d := Overwritten(g, disk, data, off, sect, cc);
            if Sub32(dsect, sect) < cc then
              && sect <= dsect && off + Whole(g, dsect - sect) + g.ss <= |data|
              && BufferOk(g, chain, dsect, false, Slice(g, data, off, dsect - sect), d)
            else BufferOk(g, chain, dsect, false, buf, d)
  {
    hide Overwritten, Slice, Whole, Owned;
    InRun(dsect, sect, cc);
    if dsect != 0 { OverwrittenAt(g, disk, data, off, sect, cc, dsect); }
    if sect <= dsect < sect + cc { RunBound(g, dsect - sect, cc); }
  }

  /** The sectors of a run are the file's, so no other sector changes. */
  lemma RunForeign(g: Geometry, chain: seq<nat>, p: nat, cc: nat, disk: seq<seq<byte>>, w: nat, win: seq<byte>, data: seq<byte>, off: nat)
    requires g.WellFormed() && Clusters(g, chain) && |disk| == g.sectors && w < g.sectors && InFile(g, chain, p)
    requires CluOff(g, SecIdx(g, p)) + cc <= g.csize && !Owned(g, chain, w) && off + Whole(g, cc) <= |data|
    requires SectorAt(g, chain, SecIdx(g, p)) >= 0
    ensures var sect := SectorAt(g, chain, SecIdx(g, p));
            && !(sect <= w < sect + cc)
            && Foreign(g, chain, Overwritten(g, disk, data, off, sect, cc)[w := win]) == Foreign(g, chain, disk[w := win])
  {
    hide SecIdx, CluIdx, CluOff, SectorAt, Clusters, Owned, Overwritten, Whole;
    var k := SecIdx(g, p);
    var sect := SectorAt(g, chain, k);
    if sect <= w < sect + cc { RunOwned(g, chain, k, w - sect); }
    var d := Overwritten(g, disk, data, off, sect, cc);
    var x, y := Foreign(g, chain, d[w := win]), Foreign(g, chain, disk[w := win]);
    forall s | 0 <= s < |disk| ensures x[s] == y[s] {
      OverwrittenAt(g, disk, data, off, sect, cc, s);
      if sect <= s < sect + cc { RunOwned(g, chain, k, s - sect); }
    }
  }

  lemma RunOwned(g: Geometry, chain: seq<nat>, k: nat, j: nat)
    requires g.WellFormed() && Clusters(g, chain) && CluIdx(g, k) < |chain| && CluOff(g, k) + j < g.csize
    requires SectorAt(g, chain, k) >= 0
    ensures Owned(g, chain, SectorAt(g, chain, k) + j)
  {
    hide CluIdx, CluOff, SectorAt, Clusters, Owned;
    Contiguous(g, chain, k, j);
    SectorOwned(g, chain, k + j);
  }

  /** disk_write of cc sectors of the file, and the refill of the sector buffer that it may have outdated. */
  method TransferRun(fp: File, wbuff: seq<byte>, off: nat, sect: dword, cc: nat)
    requires fp.Stable() && !fp.dirty && HasCluster(fp)
    requires HoldsSector(fp.fs.g, fp.chain, sect, SecIdx(fp.fs.g, fp.fptr)) && fp.fs.g.database <= sect
    requires CluOff(fp.fs.g, SecIdx(fp.fs.g, fp.fptr)) + cc <= fp.fs.g.csize && sect + cc <= fp.fs.g.sectors
    requires off + Whole(fp.fs.g, cc) <= |wbuff|
    modifies fp`dirty, fp.buf, fp.fs`disk
    ensures fp.Stable() && !fp.dirty && fp.OthersKept() && Fat0(fp.fs) == old(Fat0(fp.fs))
    ensures fp.fs.disk == Overwritten(fp.fs.g, old(fp.fs.disk), wbuff, off, sect, cc)
  {
    hide SecIdx, SecOff, CluIdx, CluOff, Whole, SectorAt, ChainOk, Clusters, Owned, BufferOk, Fat, Fat0, MapOk, Foreign;
    hide Spliced, Overwritten, Slice, Sub32, InFile;
    var fs := fp.fs;
    RunForeign(fs.g, fp.chain, fp.fptr, cc, fs.disk, fs.winsect, fs.win[..], wbuff, off);
    BufferRefilled(fs.g, fp.chain, fp.dsect, fp.buf[..], fs.disk, wbuff, off, sect, cc);
    DiskWrite(fs, wbuff, off, sect, cc);
    if Sub32(fp.dsect, sect) < cc {
      SplicedAll(fp.buf[..], Slice(fs.g, wbuff, off, fp.dsect - sect));
      MemCpy(fp.buf, 0, Slice(fs.g, wbuff, off, fp.dsect - sect));
      fp.dirty := false;
    }
  }

  /** Whole sectors straight from the caller's data, as far as the request and the cluster go. */
  method WriteDirect(fp: File, wbuff: seq<byte>, off: nat, btw: nat, sect: dword) returns (wcnt: nat)
    requires fp.Stable() && !fp.dirty && SecOff(fp.fs.g, fp.fptr) == 0 && HasCluster(fp)
    requires HoldsSector(fp.fs.g, fp.chain, sect, SecIdx(fp.fs.g, fp.fptr)) && fp.fs.g.database <= sect
    requires off + btw <= |wbuff| && btw > 0 && SecIdx(fp.fs.g, btw) > 0 && fp.fptr + btw < 0x1_0000_0000
    modifies fp`fptr, fp`dirty, fp.buf, fp.fs`disk
    ensures fp.Stable() && fp.AtBuffer() && fp.AtCluster() && fp.OthersKept() && Fat0(fp.fs) == old(Fat0(fp.fs))
    ensures 0 < wcnt <= btw && fp.fptr == old(fp.fptr) + wcnt
    ensures fp.Bytes(fp.Extent()) == Overlay(old(fp.Bytes(fp.Extent())), old(fp.fptr), wbuff[off..off + wcnt])
  {
    hide SecIdx, SecOff, CluIdx, CluOff, Whole, SectorAt, ChainOk, Clusters, Owned, BufferOk, Fat, Fat0, MapOk, Foreign;
    hide FileBytes, Overwritten, Overlay, InFile;
    var fs := fp.fs;
    var csect := Csect(fs.g, fp.fptr);
    var cc := SecIdx(fs.g, btw);
    if csect + cc > fs.g.csize { cc := fs.g.csize - csect; }
    WholeBelow(fs.g, cc, btw);
    ghost var p, n, d0 := fp.fptr, fp.Extent(), fs.disk;
    RunMoves(fs.g, fp.chain, p, cc);
    TransferRun(fp, wbuff, off, sect, cc);
    wcnt := Whole(fs.g, cc);
    fp.fptr := fp.fptr + wcnt;
    RunWritten(fs.g, fp.chain, d0, fs.disk, wbuff, off, p, cc, n, fp.Extent());
  }

  /** What a write of n bytes at p makes of a pointer: still in the same sector or on a boundary, and
      the byte before it in the same cluster. */
  ghost predicate Moved(g: Geometry, chain: seq<nat>, p: nat, n: nat)
    requires g.WellFormed() && n > 0
  {
    && (SecOff(g, p + n) != 0 ==> InFile(g, chain, p + n) && SecIdx(g, p + n) == SecIdx(g, p))
    && InFile(g, chain, p + n - 1) && CluIdx(g, SecIdx(g, p + n - 1)) == CluIdx(g, SecIdx(g, p))
  }

  lemma RunMoves(g: Geometry, chain: seq<nat>, p: nat, cc: nat)
    requires g.WellFormed() && Clusters(g, chain) && InFile(g, chain, p) && SecOff(g, p) == 0
    requires 0 < cc && CluOff(g, SecIdx(g, p)) + cc <= g.csize
    ensures 0 < Whole(g, cc) && Moved(g, chain, p, Whole(g, cc)) && SecOff(g, p + Whole(g, cc)) == 0
    ensures 0 <= SectorAt(g, chain, SecIdx(g, p)) <= g.sectors - cc
  {
    hide SecIdx, SecOff, CluIdx, CluOff, Whole, SectorAt, Clusters;
    StepWhole(g, chain, p, cc);
    SectorOwned(g, chain, SecIdx(g, p));
  }

  /** A direct write of cc sectors at p, for a file whose n bytes all are on the drive. */
  lemma RunWritten(g: Geometry, chain: seq<nat>, a: seq<seq<byte>>, b: seq<seq<byte>>, data: seq<byte>, off: nat, p: nat, cc: nat, n: nat, m: nat)
    requires IsImage(g, a) && IsImage(g, b) && Clusters(g, chain) && SecOff(g, p) == 0
    requires p <= n && (n > 0 ==> InFile(g, chain, n - 1)) && InFile(g, chain, p)
    requires 0 < cc && CluOff(g, SecIdx(g, p)) + cc <= g.csize && off + Whole(g, cc) <= |data| && 0 < Whole(g, cc)
    requires b == Overwritten(g, a, data, off, SectorAt(g, chain, SecIdx(g, p)), cc)
    requires m == if p + Whole(g, cc) > n then p + Whole(g, cc) else n
    ensures m > 0 && InFile(g, chain, m - 1)
    ensures FileBytes(g, chain, b, m) == Overlay(FileBytes(g, chain, a, n), p, data[off..off + Whole(g, cc)])
  {
    hide SecIdx, SecOff, CluIdx, CluOff, Whole, SectorAt, Clusters, Overwritten, Replaces, FileBytes, Overlay, InFile;
    ReplaceRun(g, chain, a, b, data, off, p, cc, n);
    OverlayBytes(g, chain, a, b, p, data[off..off + Whole(g, cc)], n, m);
  }

  /** Bytes for one sector go to the sector buffer; the sector is loaded first when it is another one
      and holds file data. */
  method WritePartial(fp: File, wbuff: seq<byte>, off: nat, btw: nat, sect: dword) returns (wcnt: nat)
    requires fp.Stable() && HasCluster(fp) && off + btw <= |wbuff| && btw > 0 && fp.fptr + btw < 0x1_0000_0000
    requires HoldsSector(fp.fs.g, fp.chain, sect, SecIdx(fp.fs.g, fp.fptr))
    requires fp.dsect != sect ==> !fp.dirty && SecOff(fp.fs.g, fp.fptr) == 0
    modifies fp`fptr, fp`dirty, fp`dsect, fp.buf
    ensures fp.Stable() && fp.AtBuffer() && fp.AtCluster() && fp.OthersKept() && Fat0(fp.fs) == old(Fat0(fp.fs))
    ensures 0 < wcnt <= btw && fp.fptr == old(fp.fptr) + wcnt
    ensures fp.Bytes(fp.Extent()) == Overlay(old(fp.Bytes(fp.Extent())), old(fp.fptr), wbuff[off..off + wcnt])
  {
    hide SecIdx, SecOff, CluIdx, Clusters, Fat0, Foreign, Opens, HoldsSector, Overlay, InFile, BytesOf, File.AtBuffer, File.AtCluster;
    hide Volume.Logical, Volume.Mirrored, Volume.Valid, File.Stable, File.Bytes, Geometry.WellFormed;
    OpenIsStable(fp);
    ValidParts(fp.fs);
    GeometryBounds(fp.fs.g);
    ghost var p := fp.fptr;
    var at := SecOff(fp.fs.g, fp.fptr);
    wcnt := fp.fs.g.ss - at;
    if wcnt > btw { wcnt := btw; }
    StorePiece(fp, sect, at, wbuff[off..off + wcnt]);
    fp.fptr := fp.fptr + wcnt;
    PieceLanded(fp, p, wcnt);
    OpenIsStable(fp);
  }

  /** A piece of one sector goes to the sector buffer, at the pointer. */
  method StorePiece(fp: File, sect: dword, at: nat, d: seq<byte>)
    requires Opens(fp, fp.sclust, fp.chain, fp.Extent()) && HasCluster(fp) && at == SecOff(fp.fs.g, fp.fptr)
    requires 0 < |d| && at + |d| <= fp.fs.g.ss && HoldsSector(fp.fs.g, fp.chain, sect, SecIdx(fp.fs.g, fp.fptr))
    requires fp.dsect != sect ==> !fp.dirty && at == 0
    modifies fp`dirty, fp`dsect, fp.buf
    ensures fp.dsect == sect
    ensures var n := if fp.fptr + |d| > fp.Extent() then fp.fptr + |d| else fp.Extent();
            && Opens(fp, fp.sclust, fp.chain, n)
            && BytesOf(fp, fp.sclust, fp.chain, n) == Overlay(old(BytesOf(fp, fp.sclust, fp.chain, fp.Extent())), fp.fptr, d)
  {
    hide SecIdx, SecOff, CluIdx, ChainOk, Clusters, Owned, Fat0, MapOk, BufferOk, HoldsSector, Seen, Spliced, Overlay, InFile;
    hide Volume.Logical, Volume.Valid, IsImage, Geometry.WellFormed;
    var fs := fp.fs;
    ValidParts(fs);
    GeometryBounds(fs.g);
    LoadFacts(fs.g, fp.chain, fs.disk, fp.dsect, fp.dirty, fp.buf[..], sect, SecIdx(fs.g, fp.fptr));
    ghost var p, n, dsect, dirty, buf := fp.fptr, fp.Extent(), fp.dsect, fp.dirty, fp.buf[..];
    PutBytes(fp, sect, at, d);
    PieceWritten(fs.g, fp.chain, fs.disk, dsect, dirty, buf, sect,
                 if dsect != sect && p < fp.fsize then fs.disk[sect] else buf, p, d, n, if p + |d| > n then p + |d| else n);
  }

  /** The sector a piece is written to, and the sector the buffer shows before. */
  lemma LoadFacts(g: Geometry, chain: seq<nat>, disk: seq<seq<byte>>, dsect: nat, dirty: bool, buf: seq<byte>, sect: nat, k: nat)
    requires IsImage(g, disk) && Clusters(g, chain) && BufferOk(g, chain, dsect, dirty, buf, disk)
    requires HoldsSector(g, chain, sect, k)
    ensures 0 < sect < g.sectors && |disk| == g.sectors && |disk[sect]| == g.ss > 0
  {
    hide SecIdx, CluIdx, Clusters, Owned;
    SectorOwned(g, chain, k);
  }

  /** Fit bytes into the sector buffer, which is made to stand for sector `sect`. */
  method PutBytes(fp: File, sect: dword, at: nat, data: seq<byte>)
    requires sect < |fp.fs.disk| && |fp.fs.disk[sect]| == fp.buf.Length && at + |data| <= fp.buf.Length
    modifies fp`dirty, fp`dsect, fp.buf
    ensures fp.dsect == sect && fp.dirty
    ensures fp.buf[..] ==
            Spliced(if old(fp.dsect) != sect && fp.fptr < fp.fsize then fp.fs.disk[sect] else old(fp.buf[..]), at, data)
  {
    if fp.dsect != sect {
      if fp.fptr < fp.fsize {
        MemCpy(fp.buf, 0, fp.fs.disk[sect]);
      }
    }
    fp.dsect := sect;
    MemCpy(fp.buf, at, data);
    fp.dirty := true;
  }

  /** The cursor after a piece of the sector in the buffer. */
  lemma PieceLanded(fp: File, p: nat, n: nat)
    requires fp.fs.g.WellFormed() && InFile(fp.fs.g, fp.chain, p) && 0 < n && SecOff(fp.fs.g, p) + n <= fp.fs.g.ss
    requires HoldsSector(fp.fs.g, fp.chain, fp.dsect, SecIdx(fp.fs.g, p)) && fp.clust == fp.chain[CluIdx(fp.fs.g, SecIdx(fp.fs.g, p))]
    requires fp.fptr == p + n
    ensures fp.AtBuffer() && fp.AtCluster()
  {
    hide SecIdx, SecOff, CluIdx, SectorAt;
    StepInside(fp.fs.g, p, n);
  }

  /** A write of d into the buffer of one sector; `under` is what the buffer held of that sector. */
  lemma PieceWritten(g: Geometry, chain: seq<nat>, disk: seq<seq<byte>>, dsect: nat, dirty: bool, buf: seq<byte>,
                     sect: nat, under: seq<byte>, p: nat, d: seq<byte>, n: nat, m: nat)
    requires IsImage(g, disk) && Clusters(g, chain) && |buf| == g.ss && BufferOk(g, chain, dsect, dirty, buf, disk)
    requires p <= n && (n > 0 ==> InFile(g, chain, n - 1)) && InFile(g, chain, p) && sect < g.sectors
    requires HoldsSector(g, chain, sect, SecIdx(g, p)) && 0 < |d| && SecOff(g, p) + |d| <= g.ss && |under| == g.ss
    requires if dsect == sect then under == buf && dsect != 0 else !dirty && (under == disk[sect] || (SecOff(g, p) == 0 && p == n))
    requires m == if p + |d| > n then p + |d| else n
    ensures m > 0 && InFile(g, chain, m - 1)
    ensures BufferOk(g, chain, sect, true, Spliced(under, SecOff(g, p), d), disk)
    ensures Seen(g, chain, sect, true, Spliced(under, SecOff(g, p), d), disk, m) == Overlay(Seen(g, chain, dsect, dirty, buf, disk, n), p, d)
  {
    hide SecIdx, SecOff, CluIdx, CluOff, Whole, SectorAt, Clusters, Owned, FileBytes, Spliced, Overlay, Replaces, InFile;
    SectorOwned(g, chain, SecIdx(g, p));
    var a, b := Shown(disk, dsect, dirty, buf), disk[sect := Spliced(under, SecOff(g, p), d)];
    ReplacePiece(g, chain, a, b, under, p, d, n);
    OverlayBytes(g, chain, a, b, p, d, n, m);
  }

  /** One turn of the loop in f_write; false when no cluster can be had. */
  method WriteStep(fp: File, wbuff: seq<byte>, off: nat, btw: nat) returns (ok: bool, wcnt: nat)
    requires fp.Stable() && fp.AtBuffer() && fp.AtCluster()
    requires off + btw <= |wbuff| && btw > 0 && fp.fptr + btw < 0x1_0000_0000
    modifies fp`fptr, fp`dirty, fp`dsect, fp.buf, fp`sclust, fp`chain, fp`clust
    modifies fp.fs`disk, fp.fs`wflag, fp.fs`winsect, fp.fs`lastClust, fp.fs`freeClust, fp.fs`fsiDirty, fp.fs.win
    ensures fp.Stable() && fp.AtBuffer() && fp.AtCluster() && Grown(fp)
    ensures fp.fptr == old(fp.fptr) + wcnt && wcnt <= btw && (ok <==> 0 < wcnt)
    ensures !ok ==> NoRoom(fp) && fp.chain == old(fp.chain)
    ensures TakenAt(fp.fs.g, |old(fp.chain)|, |fp.chain|, old(fp.fptr))
    ensures fp.Bytes(fp.Extent()) == Overlay(old(fp.Bytes(fp.Extent())), old(fp.fptr), wbuff[off..off + wcnt])
  {
    hide SecIdx, SecOff, CluIdx, CluOff, Clusters, Foreign, Fat0, Overlay, Grew, FreeCount, HoldsSector, File.Stable, File.Bytes, File.AtBuffer, File.AtCluster;
    hide HasCluster, Volume.Mirrored, Volume.Logical;
    var fs := fp.fs;
    var sect: dword := fp.dsect;
    StableParts(fp);
    OverlayNothing(fp.Bytes(fp.Extent()), fp.fptr, wbuff[off..]);
    if SecOff(fs.g, fp.fptr) == 0 {
      ok := AdvanceForWrite(fp);
      if !ok { return false, 0; }
      fp.FlushBuffer();
      StableParts(fp);
      sect := SectorUnder(fp);
      if SecIdx(fs.g, btw) > 0 {
        wcnt := WriteDirect(fp, wbuff, off, btw, sect);
        return true, wcnt;
      }
    } else {
      InsideSector(fp);
    }
    wcnt := WritePartial(fp, wbuff, off, btw, sect);
    ok := true;
  }

  /** The sector under the pointer, in the current cluster. */
  method SectorUnder(fp: File) returns (sect: dword)
    requires fp.Stable() && HasCluster(fp)
    ensures fp.fs.g.database <= sect && HoldsSector(fp.fs.g, fp.chain, sect, SecIdx(fp.fs.g, fp.fptr))
  {
    hide SecIdx, CluIdx, CluOff, Clusters, SectorAt, Owned;
    FindSector(fp.fs.g, fp.chain, SecIdx(fp.fs.g, fp.fptr));
    SectorOwned(fp.fs.g, fp.chain, SecIdx(fp.fs.g, fp.fptr));
    sect := Clust2Sect(fp.fs.g, fp.clust) + Csect(fp.fs.g, fp.fptr);
  }

  lemma StableParts(fp: File)
    requires fp.Stable()
    ensures fp.fs.Valid() && fp.fptr <= fp.Extent() == |fp.Bytes(fp.Extent())|
    ensures Grew(Fat0(fp.fs), fp.chain, Fat0(fp.fs), fp.chain)
  {
    hide Clusters, IsChain;
    SameChain(fp.fs.g, Fat0(fp.fs), fp.sclust, fp.chain);
  }

  lemma InsideSector(fp: File)
    requires fp.Stable() && fp.AtBuffer() && fp.AtCluster() && SecOff(fp.fs.g, fp.fptr) != 0
    ensures HasCluster(fp) && HoldsSector(fp.fs.g, fp.chain, fp.dsect, SecIdx(fp.fs.g, fp.fptr))
  {
    hide SecIdx, SecOff, CluIdx, Clusters, HoldsSector;
    Before(fp.fs.g, fp.fptr);
  }

  /** No cluster is free, or the link map ends, at a pointer on the end of the chain. */
  ghost predicate NoRoom(fp: File)
    reads fp`fptr, fp`fsize, fp`sclust, fp`dsect, fp`dirty, fp`cltbl, fp`chain
    reads fp.buf, fp.fs`disk, fp.fs`winsect, fp.fs`wflag, fp.fs.win
    requires fp.fs.Valid()
  {
    !InFile(fp.fs.g, fp.chain, fp.fptr) && (fp.cltbl != [] || FreeCount(Fat0(fp.fs)) == 0)
  }

  /** The invariant of the loop in f_write: bw of the bytes of wbuff have gone to position p on, in a
      file that held c. */
  ghost predicate Accepted(fp: File, c: seq<byte>, p: nat, wbuff: seq<byte>, bw: nat)
    reads fp, fp.buf, fp.fs, fp.fs.win
  {
    && fp.Stable() && fp.AtBuffer() && fp.AtCluster() && p <= |c| && bw <= |wbuff| && fp.fptr == p + bw
    && fp.Bytes(fp.Extent()) == Overlay(c, p, wbuff[..bw])
  }

  /** One turn of the loop in f_write keeps the invariant. */
  method WriteTurn(fp: File, wbuff: seq<byte>, bw: nat, btw: nat, ghost c: seq<byte>, ghost p: nat) returns (ok: bool, wcnt: nat)
    requires Accepted(fp, c, p, wbuff, bw) && btw > 0 && bw + btw <= |wbuff| && p + bw + btw < 0x1_0000_0000
    modifies fp`fptr, fp`dirty, fp`dsect, fp.buf, fp`sclust, fp`chain, fp`clust
    modifies fp.fs`disk, fp.fs`wflag, fp.fs`winsect, fp.fs`lastClust, fp.fs`freeClust, fp.fs`fsiDirty, fp.fs.win
    ensures Accepted(fp, c, p, wbuff, bw + wcnt) && Grown(fp)
    ensures wcnt <= btw && (ok <==> 0 < wcnt)
    ensures !ok ==> NoRoom(fp)
    ensures StartBelow(fp.fs.g, |old(fp.chain)|, |fp.chain|, fp.fptr)
  {
    hide File.Stable, File.AtBuffer, File.AtCluster, File.Bytes, Overlay, Grown, NoRoom, StartBelow, TakenAt;
    StableParts(fp);
    OverlayOn(c, p, wbuff, bw, 0);
    ok, wcnt := WriteStep(fp, wbuff, bw, btw);
    OverlayOn(c, p, wbuff, bw, wcnt);
    if !ok { NoneTaken(fp.fs.g, |fp.chain|, fp.fptr); }
    TakenBelow(fp.fs.g, |old(fp.chain)|, |fp.chain|, old(fp.fptr), fp.fptr);
  }

  lemma NoneTaken(g: Geometry, n: nat, p: nat)
    ensures StartBelow(g, n, n, p)
  {
  }

  /** Two stretches of the chain are one. */
  lemma GrownTwice(g: Geometry, xs: seq<nat>, ys: seq<nat>, zs: seq<nat>, t: seq<nat>, u: seq<nat>, v: seq<nat>,
                   a: seq<seq<byte>>, b: seq<seq<byte>>, c: seq<seq<byte>>)
    requires g.csize > 0 && |a| == |b| == |c| && Grew(t, xs, u, ys) && Grew(u, ys, v, zs) && Clusters(g, zs)
    requires Foreign(g, ys, b) == Foreign(g, ys, a) && Foreign(g, zs, c) == Foreign(g, zs, b)
    ensures Grew(t, xs, v, zs) && xs <= ys <= zs && Foreign(g, zs, c) == Foreign(g, zs, a)
  {
    hide Clusters, Foreign;
    GrewTwice(g, t, xs, u, ys, v, zs);
    assert ys <= zs;
    ForeignGrow(g, ys, zs, a, b);
  }

  /** The loop in f_write. */
  method WriteLoop(fp: File, wbuff: seq<byte>, total: nat) returns (bw: nat)
    requires fp.Ready() && total <= |wbuff| && fp.fptr + total < 0x1_0000_0000
    modifies fp`fptr, fp`dirty, fp`dsect, fp.buf, fp`sclust, fp`chain, fp`clust
    modifies fp.fs`disk, fp.fs`wflag, fp.fs`winsect, fp.fs`lastClust, fp.fs`freeClust, fp.fs`fsiDirty, fp.fs.win
    ensures bw <= total && Accepted(fp, old(fp.Content()), old(fp.fptr), wbuff, bw) && Grown(fp)
    ensures bw < total ==> NoRoom(fp)
    ensures StartBelow(fp.fs.g, |old(fp.chain)|, |fp.chain|, fp.fptr)
  {
    hide Noted, StartBelow, File.Stable, File.AtBuffer, File.AtCluster, File.Bytes, Overlay, Grew, Foreign, FreeKnown, Volume.Valid, Volume.Mirrored, Volume.Logical, NoRoom, Clusters;
    bw := 0;
    var btw := total;
    ghost var c, p := fp.Content(), fp.fptr;
    StartWriting(fp, wbuff);
    NoneTaken(fp.fs.g, |fp.chain|, fp.fptr);
    NotedNothing(fp.chain, fp.fs.lastClust, fp.fs.freeClust, fp.fs.fsiDirty);
    while btw > 0
      invariant Accepted(fp, c, p, wbuff, bw) && bw + btw == total
      invariant Grown(fp) && StartBelow(fp.fs.g, |old(fp.chain)|, |fp.chain|, fp.fptr)
      decreases btw
    {
      ghost var ys, u, b := fp.chain, Fat0(fp.fs), fp.fs.Logical();
      ghost var q, last, free, dirty := fp.fptr, fp.fs.lastClust, fp.fs.freeClust, fp.fs.fsiDirty;
      var ok, wcnt := WriteTurn(fp, wbuff, bw, btw, c, p);
      BelowOn(fp.fs.g, |old(fp.chain)|, |ys|, |fp.chain|, q, fp.fptr);
      bw := bw + wcnt;
      btw := btw - wcnt;
      AcceptedParts(fp, c, p, wbuff, bw);
      GrownTwice(fp.fs.g, old(fp.chain), ys, fp.chain, old(Fat0(fp.fs)), u, Fat0(fp.fs), old(fp.fs.Logical()), b, fp.fs.Logical());
      NotedTwice(old(fp.chain), old(fp.fs.lastClust), old(fp.fs.freeClust), old(fp.fs.fsiDirty), ys, last, free, dirty,
                 fp.chain, fp.fs.lastClust, fp.fs.freeClust, fp.fs.fsiDirty);
      if !ok { return; }
    }
  }

  lemma StartWriting(fp: File, wbuff: seq<byte>)
    requires fp.Valid()
    ensures fp.Content() == Overlay(fp.Content(), fp.fptr, wbuff[..0])
    ensures fp.Ready() ==> Accepted(fp, fp.Content(), fp.fptr, wbuff, 0)
    ensures fp.fs.Valid() && fp.fs.g.csize > 0 && Grew(Fat0(fp.fs), fp.chain, Fat0(fp.fs), fp.chain)
  {
    hide Clusters, IsChain, Overlay, Grew;
    OverlayNothing(fp.Content(), fp.fptr, wbuff);
    StableParts(fp);
  }

  lemma AcceptedParts(fp: File, c: seq<byte>, p: nat, wbuff: seq<byte>, bw: nat)
    requires Accepted(fp, c, p, wbuff, bw)
    ensures fp.fs.Valid() && Clusters(fp.fs.g, fp.chain)
  {
  }

  /** f_write: the bytes of wbuff replace or extend the file from the pointer on. Fewer are written
      only when the volume is full or the link map ends, none when the size would reach 4 GB. */
  method Write(fp: File, wbuff: seq<byte>) returns (res: Result, bw: nat)
    requires fp.Valid() && |wbuff| < 0x1_0000_0000
    modifies fp`fptr, fp`fsize, fp`dirty, fp`dsect, fp.buf, fp`sclust, fp`chain, fp`clust, fp`written
    modifies fp.fs`disk, fp.fs`wflag, fp.fs`winsect, fp.fs`lastClust, fp.fs`freeClust, fp.fs`fsiDirty, fp.fs.win
    ensures fp.Valid() && Grown(fp)
    ensures res == if fp.err != Ok then fp.err else if fp.canWrite then Ok else Denied
    ensures bw <= |wbuff| && fp.fptr == old(fp.fptr) + bw
    ensures fp.Content() == Overlay(old(fp.Content()), old(fp.fptr), wbuff[..bw])
    ensures res != Ok || old(fp.fptr) + |wbuff| >= 0x1_0000_0000 ==> bw == 0
    ensures res == Ok && bw < |wbuff| ==> old(fp.fptr) + |wbuff| >= 0x1_0000_0000 || NoRoom(fp)
    ensures StartBelow(fp.fs.g, |old(fp.chain)|, |fp.chain|, fp.fptr)
    ensures fp.written <==> old(fp.written) || res == Ok
  {
    hide StartBelow, File.Stable, File.Bytes, File.AtBuffer, File.AtCluster, Opens, BytesOf, Overlay, Grew, Foreign, FreeKnown, FreeCount, Fat0, InFile;
    hide Volume.Valid, Volume.Mirrored, Volume.Logical;
    StartWriting(fp, wbuff);
    NoneTaken(fp.fs.g, |fp.chain|, fp.fptr);
    if fp.err != Ok { return fp.err, 0; }
    if !fp.canWrite { return Denied, 0; }
    var btw := |wbuff|;
    if (fp.fptr + btw) % 0x1_0000_0000 < fp.fptr { btw := 0; }
    bw := WriteLoop(fp, wbuff, btw);
    OpenIsStable(fp);
    if fp.fptr > fp.fsize { fp.fsize := fp.fptr; }
    fp.written := true;
    OpenIsStable(fp);
    res := Ok;
  }
}
