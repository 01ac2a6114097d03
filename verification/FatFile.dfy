/** One open file: f_read, f_write and f_lseek over the private sector buffer and direct transfers. */
module FatFile {
  import opened FatVolume
  import opened FatEntry
  import opened FatChain
  import opened FatLayout
  import opened FatLinkMap

  /** Position p lies in a cluster of the chain. */
  predicate InFile(g: Geometry, chain: seq<nat>, p: nat)
    requires g.WellFormed()
  {
    CluIdx(g, SecIdx(g, p)) < |chain|
  }

  /** The byte at position p, for a drive image. */
  ghost function ByteAt(g: Geometry, chain: seq<nat>, image: seq<seq<byte>>, p: nat): byte
    requires IsImage(g, image) && Clusters(g, chain) && InFile(g, chain, p)
  {
    SectorOwned(g, chain, SecIdx(g, p));
    image[SectorAt(g, chain, SecIdx(g, p))][SecOff(g, p)]
  }

  /** Where the byte at position p lies, in numbers. */
  lemma BytePlaced(g: Geometry, chain: seq<nat>, image: seq<seq<byte>>, p: nat)
    requires IsImage(g, image) && Clusters(g, chain) && InFile(g, chain, p)
    ensures g.ss > 0 && g.csize > 0 && g.csize * g.ss > 0 && p / (g.csize * g.ss) < |chain|
    ensures var s := g.database + (chain[p / (g.csize * g.ss)] - 2) * g.csize + p / g.ss % g.csize;
            0 <= s < |image| && p % g.ss < |image[s]| && ByteAt(g, chain, image, p) == image[s][p % g.ss]
  {
    GeometryBounds(g);
    ClusterIndex(g, p);
    SectorOwned(g, chain, SecIdx(g, p));
  }

  /** The difference of two unsigned 32-bit numbers. */
  function Sub32(a: dword, b: dword): dword { (a - b) % 0x1_0000_0000 }

  /** The comparison that asks whether a sector lies in a run of cc sectors. */
  lemma InRun(dsect: dword, sect: dword, cc: nat)
    requires sect + cc <= 0x1_0000_0000
    ensures Sub32(dsect, sect) < cc <==> sect <= dsect < sect + cc
    ensures sect <= dsect ==> Sub32(dsect, sect) == dsect - sect
  {
  }

  /** s with the elements from `at` on replaced by d. */
  function Spliced(s: seq<byte>, at: nat, d: seq<byte>): (r: seq<byte>)
    requires at + |d| <= |s|
    ensures |r| == |s|
  {
    s[..at] + d + s[at + |d|..]
  }

  lemma SplicedNothing(s: seq<byte>, c: seq<byte>, p: nat)
    requires p <= |c|
    ensures Spliced(s, 0, c[p..p]) == s
  {
  }

  lemma SplicedAll(s: seq<byte>, d: seq<byte>)
    requires |d| == |s|
    ensures Spliced(s, 0, d) == d
  {
  }

  lemma SplicedOn(s: seq<byte>, c: seq<byte>, p: nat, m: nat, q: nat)
    requires p <= m <= q <= |c| && q - p <= |s|
    ensures Spliced(Spliced(s, 0, c[p..m]), m - p, c[m..q]) == Spliced(s, 0, c[p..q])
  {
    SplicedTwice(s, 0, c[p..m], c[m..q]);
    assert c[p..m] + c[m..q] == c[p..q];
  }

  lemma SplicedTwice(s: seq<byte>, at: nat, d: seq<byte>, e: seq<byte>)
    requires at + |d| + |e| <= |s|
    ensures Spliced(Spliced(s, at, d), at + |d|, e) == Spliced(s, at, d + e)
  {
  }

  lemma SplicedInside(s: seq<byte>, at: nat, d: seq<byte>, q: nat, e: seq<byte>)
    requires at + |d| <= |s| && q + |e| <= |d|
    ensures Spliced(Spliced(s, at, d), at + q, e) == Spliced(s, at, Spliced(d, q, e))
  {
  }

  /** The bytes of cc consecutive sectors. */
  ghost function RunBytes(g: Geometry, image: seq<seq<byte>>, sect: nat, cc: nat): (r: seq<byte>)
    requires IsImage(g, image) && sect + cc <= g.sectors
    ensures |r| == Whole(g, cc)
  {
    seq(Whole(g, cc), i requires 0 <= i < Whole(g, cc) => RunInside(g, i, cc); image[sect + SecIdx(g, i)][SecOff(g, i)])
  }

  /** disk_read: cc sectors into a caller's buffer. */
  method DiskRead(fs: Volume, buff: array<byte>, off: nat, sect: nat, cc: nat)
    requires fs.Valid() && sect + cc <= fs.g.sectors && off + Whole(fs.g, cc) <= buff.Length
    requires buff != fs.win
    modifies buff
    ensures buff[..] == Spliced(old(buff[..]), off, RunBytes(fs.g, fs.disk, sect, cc))
  {
    forall i | 0 <= i < Whole(fs.g, cc) ensures SecIdx(fs.g, i) < cc { RunInside(fs.g, i, cc); }
    forall i | off <= i < off + Whole(fs.g, cc) {
      buff[i] := fs.disk[sect + SecIdx(fs.g, i - off)][SecOff(fs.g, i - off)];
    }
  }

  /** mem_cpy into a buffer. */
  method MemCpy(dst: array<byte>, off: nat, data: seq<byte>)
    requires off + |data| <= dst.Length
    modifies dst
    ensures dst[..] == Spliced(old(dst[..]), off, data)
  {
    forall i | off <= i < off + |data| {
      dst[i] := data[i - off];
    }
  }

  /** A run in which one sector has been replaced. */
  lemma RunPatched(g: Geometry, image: seq<seq<byte>>, sect: nat, cc: nat, q: nat, data: seq<byte>)
    requires IsImage(g, image) && sect + cc <= g.sectors && q < cc && |data| == g.ss
    ensures Whole(g, q) + g.ss <= Whole(g, cc)
    ensures RunBytes(g, image[sect + q := data], sect, cc) == Spliced(RunBytes(g, image, sect, cc), Whole(g, q), data)
  {
    hide SecIdx, SecOff, Whole;
    RunIndex(g, q);
    RunBound(g, q, cc);
    forall i | 0 <= i < Whole(g, cc) ensures SecIdx(g, i) < cc { RunInside(g, i, cc); }
  }

  /** Sector j of a run of bytes. */
  function Slice(g: Geometry, data: seq<byte>, off: nat, j: nat): (r: seq<byte>)
    requires off + Whole(g, j) + g.ss <= |data|
    ensures |r| == g.ss
  {
    data[off + Whole(g, j)..off + Whole(g, j) + g.ss]
  }

  /** The sectors of the drive after a run of them has been written. */
  function Overwritten(g: Geometry, disk: seq<seq<byte>>, data: seq<byte>, off: nat, sect: nat, cc: nat): (r: seq<seq<byte>>)
    requires off + Whole(g, cc) <= |data|
    ensures |r| == |disk|
  {
    seq(|disk|, s requires 0 <= s < |disk| =>
          if sect <= s < sect + cc then RunBound(g, s - sect, cc); Slice(g, data, off, s - sect) else disk[s])
  }

  lemma OverwrittenAt(g: Geometry, disk: seq<seq<byte>>, data: seq<byte>, off: nat, sect: nat, cc: nat, s: nat)
    requires off + Whole(g, cc) <= |data| && s < |disk|
    ensures sect <= s < sect + cc ==>
              (off + Whole(g, s - sect) + g.ss <= |data| && Overwritten(g, disk, data, off, sect, cc)[s] == Slice(g, data, off, s - sect))
    ensures !(sect <= s < sect + cc) ==> Overwritten(g, disk, data, off, sect, cc)[s] == disk[s]
  {
    if sect <= s < sect + cc { RunBound(g, s - sect, cc); }
  }

  /** disk_write: cc sectors of the data area, none of which is in the window. */
  method DiskWrite(fs: Volume, data: seq<byte>, off: nat, sect: nat, cc: nat)
    requires fs.Valid() && fs.g.database <= sect && sect + cc <= fs.g.sectors && off + Whole(fs.g, cc) <= |data|
    requires !(sect <= fs.winsect < sect + cc)
    modifies fs`disk
    ensures fs.Valid() && Fat0(fs) == old(Fat0(fs))
    ensures old(fs.Mirrored()) ==> fs.Mirrored()
    ensures fs.disk == Overwritten(fs.g, old(fs.disk), data, off, sect, cc)
    ensures forall s :: 0 <= s < fs.g.sectors && !(sect <= s < sect + cc) ==> fs.disk[s] == old(fs.disk)[s]
  {
    hide Flat, Overwritten, Slice, Whole;
    fs.disk := Overwritten(fs.g, fs.disk, data, off, sect, cc);
    forall s | 0 <= s < fs.g.sectors
      ensures |fs.disk[s]| == fs.g.ss
      ensures !(sect <= s < sect + cc) ==> fs.disk[s] == old(fs.disk)[s]
    {
      OverwrittenAt(fs.g, old(fs.disk), data, off, sect, cc, s);
      OverwrittenSize(fs.g, old(fs.disk), data, off, sect, cc, s);
    }
    SameFlat(fs.g, old(fs.Logical()), fs.Logical());
  }

  lemma OverwrittenSize(g: Geometry, disk: seq<seq<byte>>, data: seq<byte>, off: nat, sect: nat, cc: nat, s: nat)
    requires off + Whole(g, cc) <= |data| && s < |disk| && |disk[s]| == g.ss
    ensures |Overwritten(g, disk, data, off, sect, cc)[s]| == g.ss
  {
    OverwrittenAt(g, disk, data, off, sect, cc, s);
  }

  /** The table has no broken entry, and the chain of the file starts at sclust. */
  ghost predicate ChainOk(t: seq<nat>, sclust: nat, chain: seq<nat>) {
    && (forall c :: 2 <= c < |t| ==> t[c] != 1)
    && if sclust == 0 then chain == [] else IsChain(t, chain) && chain[0] == sclust
  }

  /** The link map covers the chain, but for the first cluster of a file that was empty when the map
      was made. */
  ghost predicate MapOk(cltbl: seq<dword>, chain: seq<nat>) {
    cltbl == [] || Maps(cltbl, 1, chain) || (|chain| == 1 && Maps(cltbl, 1, []))
  }

  lemma MapCovers(cltbl: seq<dword>, chain: seq<nat>, i: nat)
    requires MapOk(cltbl, chain) && cltbl != [] && 0 < i < |chain|
    ensures Maps(cltbl, 1, chain)
  {
  }

  /** The buffer shows sector dsect of the file; when it is clean it equals that sector. */
  ghost predicate BufferOk(g: Geometry, chain: seq<nat>, dsect: nat, dirty: bool, buf: seq<byte>, disk: seq<seq<byte>>)
    requires g.WellFormed() && |disk| == g.sectors
  {
    && (dirty ==> dsect != 0)
    && (dsect != 0 ==> Owned(g, chain, dsect) && dsect < g.sectors && (!dirty ==> buf == disk[dsect]))
  }

  /** The drive as an open file sees it. */
  function Shown(disk: seq<seq<byte>>, dsect: nat, dirty: bool, buf: seq<byte>): seq<seq<byte>>
    requires dirty ==> dsect < |disk|
  {
    if dirty then disk[dsect := buf] else disk
  }

  class File {
    const fs: Volume
    const buf: array<byte>
    const canRead: bool
    const canWrite: bool
    var fptr: dword
    var fsize: dword
    var sclust: dword
    var clust: dword
    var dsect: dword
    var dirty: bool
    var written: bool
    var err: Result  // set by an aborted operation, reported by every later one
    var cltbl: seq<dword>  // the cluster link map; empty in normal seek mode
    ghost var chain: seq<nat>  // the clusters of the file, in order

    /** The end of f_open, for a file with this start cluster and size in its directory entry. */
    constructor (volume: Volume, start: dword, size: dword, read: bool, write: bool, ghost clusters: seq<nat>)
      requires volume.Valid() && ChainOk(Fat0(volume), start, clusters) && Clusters(volume.g, clusters)
      requires !Owned(volume.g, clusters, volume.winsect)
      requires size > 0 ==> InFile(volume.g, clusters, size - 1)
      ensures Valid() && fresh(buf) && fs == volume && chain == clusters && sclust == start && cltbl == []
      ensures fptr == 0 && fsize == size && !dirty && canRead == read && canWrite == write
      ensures Image() == volume.disk && err == Ok && !written
    {
      fs, chain, sclust := volume, clusters, start;
      canRead, canWrite := read, write;
      fptr, fsize, clust, dsect, dirty, written := 0, size, 0, 0, false, false;
      cltbl, err := [], Ok;
      buf := new byte[volume.g.ss](_ => 0);
    }

    /** Everything but the rule for the current cluster; holds between any two steps of a transfer. */
    ghost predicate Stable()
      reads this`fptr, this`fsize, this`sclust, this`dsect, this`dirty, this`cltbl, this`chain
      reads buf, fs`disk, fs`winsect, fs`wflag, fs.win
    {
      && fs.Valid() && buf.Length == fs.g.ss && buf != fs.win
      && ChainOk(Fat0(fs), sclust, chain) && Clusters(fs.g, chain)
      && BufferOk(fs.g, chain, dsect, dirty, buf[..], fs.disk)
      && !Owned(fs.g, chain, fs.winsect)
      && (Extent() > 0 ==> InFile(fs.g, chain, Extent() - 1))
      && MapOk(cltbl, chain)
    }

    /** Positions below it hold file data: the size, or the pointer while a write goes past the size. */
    ghost function Extent(): nat
      reads this`fptr, this`fsize
    {
      if fptr > fsize then fptr else fsize
    }

    /** The cursor: in the middle of a sector that sector is in the buffer. */
    ghost predicate AtBuffer()
      reads this`fptr, this`dsect, this`chain
      requires fs.g.WellFormed()
    {
      SecOff(fs.g, fptr) != 0 ==> InFile(fs.g, chain, fptr) && HoldsSector(fs.g, chain, dsect, SecIdx(fs.g, fptr))
    }

    /** For fptr > 0 the current cluster is the chain element of the last byte before the pointer. */
    ghost predicate AtCluster()
      reads this`fptr, this`clust, this`chain
      requires fs.g.WellFormed()
    {
      fptr > 0 ==> InFile(fs.g, chain, fptr - 1) && clust == chain[CluIdx(fs.g, SecIdx(fs.g, fptr - 1))]
    }

    ghost predicate Ready()
      reads this, buf, fs, fs.win
    {
      Stable() && AtBuffer() && AtCluster() && fptr <= fsize
    }

    /** What every operation keeps; after an aborted one the cursor means nothing and is not used again. */
    ghost predicate Valid()
      reads this, buf, fs, fs.win
    {
      Stable() && fptr <= fsize && (err == Ok ==> Ready())
    }

    /** The drive as the file sees it: the dirty buffer laid over its sector. */
    ghost function Image(): (image: seq<seq<byte>>)
      reads this`fptr, this`fsize, this`sclust, this`dsect, this`dirty, this`cltbl, this`chain
      reads buf, fs`disk, fs`winsect, fs`wflag, fs.win
      requires Stable()
      ensures IsImage(fs.g, image)
    {
      Shown(fs.disk, dsect, dirty, buf[..])
    }

    /** The first n bytes of the file. */
    ghost function Bytes(n: nat): (c: seq<byte>)
      reads this`fptr, this`fsize, this`sclust, this`dsect, this`dirty, this`cltbl, this`chain
      reads buf, fs`disk, fs`winsect, fs`wflag, fs.win
      requires Stable() && n <= Extent()
      ensures |c| == n
    {
      if n > 0 then InFileBelow(fs.g, chain, n - 1, Extent() - 1); FileBytes(fs.g, chain, Image(), n) else []
    }

    /** The contents of the file. */
    ghost function Content(): (c: seq<byte>)
      reads this`fptr, this`fsize, this`sclust, this`dsect, this`dirty, this`cltbl, this`chain
      reads buf, fs`disk, fs`winsect, fs`wflag, fs.win
      requires Stable()
      ensures |c| == fsize
    {
      Bytes(fsize)
    }

    /** Sectors outside the FAT copies that are not the file's keep their logical contents. */
    twostate predicate OthersKept()
      reads this`fptr, this`fsize, this`sclust, this`dsect, this`dirty, this`cltbl, this`chain
      reads buf, fs`disk, fs`winsect, fs`wflag, fs.win
    {
      && old(fs.Valid()) && fs.Valid()
      && Foreign(fs.g, chain, fs.Logical()) == Foreign(fs.g, chain, old(fs.Logical()))
      && (old(fs.Mirrored()) ==> fs.Mirrored())
    }

    /** Write-back of the dirty sector buffer. */
    method FlushBuffer()
      requires Stable()
      modifies fs`disk, this`dirty
      ensures Stable() && !dirty && OthersKept()
      ensures Image() == old(Image()) == fs.disk && Fat0(fs) == old(Fat0(fs))
      ensures Bytes(Extent()) == old(Bytes(Extent()))
    {
      hide Fat, Fat0, MapOk, ChainOk, Clusters, InFile, Owned, Foreign, Overwritten, Slice, Whole, FileBytes;
      if dirty {
        OneSector(fs.g, chain, fs.disk, fs.winsect, fs.win[..], dsect, buf[..]);
        DiskWrite(fs, buf[..], 0, dsect, 1);
        dirty := false;
      }
    }

    /** Bring a sector of the file into the buffer, writing back what was there. */
    method LoadBuffer(sect: dword)
      requires Stable() && sect < fs.g.sectors && Owned(fs.g, chain, sect) && sect != 0
      modifies fs`disk, this`dirty, this`dsect, buf
      ensures Stable() && OthersKept()
      ensures Image() == old(Image()) && Fat0(fs) == old(Fat0(fs))
      ensures dsect == sect && buf[..] == Image()[sect]
    {
      hide Fat, MapOk, ChainOk, Clusters, Owned;
      if dsect != sect {
        FlushBuffer();
        forall i | 0 <= i < buf.Length { buf[i] := fs.disk[sect][i]; }
        assert buf[..] == fs.disk[sect];
      }
      dsect := sect;
    }

    /** The start of a turn of the loop in f_read on a sector boundary: step to the next cluster if
        need be and find the sector under the pointer. */
    method LocateForRead() returns (sect: dword)
      requires Stable() && AtCluster() && fptr < fsize && SecOff(fs.g, fptr) == 0
      modifies this`clust, fs`disk, fs`wflag, fs`winsect, fs.win
      ensures Stable() && OthersKept() && Fat0(fs) == old(Fat0(fs)) && Content() == old(Content())
      ensures HoldsSector(fs.g, chain, sect, SecIdx(fs.g, fptr)) && clust == chain[CluIdx(fs.g, SecIdx(fs.g, fptr))]
    {
      hide SecIdx, SecOff, CluIdx, CluOff, SectorAt, Clust2Sect, HoldsSector, Bytes, AtCluster;
      hide ChainOk, IsChain, Clusters, Owned, BufferOk, Fat, MapOk, Rest;
      InFileBelow(fs.g, chain, fptr, fsize - 1);
      FindSector(fs.g, chain, SecIdx(fs.g, fptr));
      StepForRead();
      sect := Clust2Sect(fs.g, clust) + Csect(fs.g, fptr);
    }

    /** Direct transfer of whole sectors to the caller's buffer, with the dirty buffer laid over it. */
    method DirectRead(rbuff: array<byte>, off: nat, sect: dword, cc: nat)
      requires Stable() && rbuff != buf && rbuff != fs.win && sect + cc <= fs.g.sectors
      requires off + Whole(fs.g, cc) <= rbuff.Length
      modifies rbuff
      ensures Stable()
      ensures rbuff[..] == Spliced(old(rbuff[..]), off, RunBytes(fs.g, Image(), sect, cc))
    {
      hide SecIdx, SecOff, Whole, ChainOk, IsChain, Clusters, Owned, Fat, MapOk, RunBytes, Spliced;
      DiskRead(fs, rbuff, off, sect, cc);
      InRun(dsect, sect, cc);
      if dirty && Sub32(dsect, sect) < cc {
        RunPatched(fs.g, fs.disk, sect, cc, dsect - sect, buf[..]);
        SplicedInside(old(rbuff[..]), off, RunBytes(fs.g, fs.disk, sect, cc), Whole(fs.g, dsect - sect), buf[..]);
        MemCpy(rbuff, off + Whole(fs.g, dsect - sect), buf[..]);
      } else if dirty {
        RunApart(fs.g, fs.disk, sect, cc, dsect, buf[..]);
      }
    }

    /** Whole sectors from the sector under the pointer on, as far as the request and the cluster go. */
    method ReadDirect(rbuff: array<byte>, off: nat, btr: nat, sect: dword) returns (rcnt: nat)
      requires Stable() && SecOff(fs.g, fptr) == 0 && HoldsSector(fs.g, chain, sect, SecIdx(fs.g, fptr))
      requires clust == chain[CluIdx(fs.g, SecIdx(fs.g, fptr))]
      requires rbuff != buf && rbuff != fs.win && off + btr <= rbuff.Length
      requires SecIdx(fs.g, btr) > 0 && btr > 0 && fptr + btr <= fsize
      modifies this`fptr, rbuff
      ensures Stable() && AtBuffer() && AtCluster() && Content() == old(Content())
      ensures 0 < rcnt <= btr && fptr == old(fptr) + rcnt
      ensures rbuff[..] == Spliced(old(rbuff[..]), off, Content()[old(fptr)..fptr])
    {
      hide SecIdx, SecOff, CluIdx, CluOff, Whole, SectorAt, ChainOk, IsChain, Clusters, Owned, BufferOk, Fat, MapOk, Rest;
      hide FileBytes, RunBytes, Spliced;
      var csect := Csect(fs.g, fptr);
      var cc := SecIdx(fs.g, btr);
      if csect + cc > fs.g.csize { cc := fs.g.csize - csect; }
      WholeBelow(fs.g, cc, btr);
      RunIsFile(fs.g, chain, Image(), fptr, cc, fsize);
      DirectRead(rbuff, off, sect, cc);
      rcnt := Whole(fs.g, cc);
      fptr := fptr + rcnt;
    }

    /** The rest of the request that lies in the sector shown by the buffer. */
    method ReadPartial(rbuff: array<byte>, off: nat, btr: nat) returns (rcnt: nat)
      requires Stable() && HoldsSector(fs.g, chain, dsect, SecIdx(fs.g, fptr)) && dsect != 0
      requires clust == chain[CluIdx(fs.g, SecIdx(fs.g, fptr))]
      requires rbuff != buf && rbuff != fs.win && off + btr <= rbuff.Length
      requires btr > 0 && fptr + btr <= fsize
      modifies this`fptr, rbuff
      ensures Stable() && AtBuffer() && AtCluster() && Content() == old(Content())
      ensures 0 < rcnt <= btr && fptr == old(fptr) + rcnt
      ensures rbuff[..] == Spliced(old(rbuff[..]), off, Content()[old(fptr)..fptr])
    {
      hide SecIdx, SecOff, CluIdx, CluOff, SectorAt, ChainOk, IsChain, Clusters, Owned, Fat, MapOk, Rest, FileBytes, Spliced;
      var at := SecOff(fs.g, fptr);
      rcnt := fs.g.ss - at;
      if rcnt > btr { rcnt := btr; }
      PieceIsFile(fs.g, chain, Image(), fptr, rcnt, fsize);
      MemCpy(rbuff, off, buf[at..at + rcnt]);
      fptr := fptr + rcnt;
    }

    /** One turn of the loop in f_read. */
    method ReadStep(rbuff: array<byte>, off: nat, btr: nat) returns (rcnt: nat)
      requires Ready() && rbuff != buf && rbuff != fs.win && off + btr <= rbuff.Length
      requires btr > 0 && fptr + btr <= fsize
      modifies this`fptr, this`clust, this`dsect, this`dirty, buf, fs`disk, fs`wflag, fs`winsect, fs.win, rbuff
      ensures Ready() && OthersKept() && Fat0(fs) == old(Fat0(fs)) && Content() == old(Content())
      ensures 0 < rcnt <= btr && fptr == old(fptr) + rcnt
      ensures rbuff[..] == Spliced(old(rbuff[..]), off, Content()[old(fptr)..fptr])
    {
      hide SecIdx, SecOff, CluIdx, CluOff, SectorAt, ChainOk, IsChain, Clusters, Owned, Fat, MapOk, Rest, FileBytes, Spliced, Foreign;
      if SecOff(fs.g, fptr) == 0 {
        var sect := LocateForRead();
        if SecIdx(fs.g, btr) > 0 {
          rcnt := ReadDirect(rbuff, off, btr, sect);
          return;
        }
        SectorOwned(fs.g, chain, SecIdx(fs.g, fptr));
        LoadBuffer(sect);
      } else {
        SectorOwned(fs.g, chain, SecIdx(fs.g, fptr));
        Before(fs.g, fptr);
      }
      rcnt := ReadPartial(rbuff, off, btr);
    }

    lemma ReadyParts()
      requires Ready()
      ensures fs.Valid() && Stable() && |Content()| == fsize && fptr <= fsize
    {
    }

    /** The invariant of the loop in f_read: br of the bytes from position p on have been delivered
        into a buffer that held r. */
    ghost predicate Delivered(rbuff: array<byte>, c: seq<byte>, p: nat, r: seq<byte>, br: nat)
      reads this, buf, fs, fs.win, rbuff
    {
      && rbuff != buf && rbuff != fs.win
      && Ready() && Content() == c && p + br == fptr <= |c| && br <= |r|
      && rbuff[..] == Spliced(r, 0, c[p..p + br])
    }

    /** One turn of the loop in f_read keeps the invariant. */
    method ReadTurn(rbuff: array<byte>, br: nat, btr: nat, ghost c: seq<byte>, ghost p: nat, ghost r: seq<byte>) returns (rcnt: nat)
      requires Delivered(rbuff, c, p, r, br) && 0 < btr && p + br + btr <= |c| && br + btr <= |r|
      modifies this`fptr, this`clust, this`dsect, this`dirty, buf, fs`disk, fs`wflag, fs`winsect, fs.win, rbuff
      ensures Delivered(rbuff, c, p, r, br + rcnt) && 0 < rcnt <= btr
      ensures OthersKept() && Fat0(fs) == old(Fat0(fs))
    {
      hide Stable, AtBuffer, AtCluster, Bytes, Spliced, OthersKept, Fat0, FileBytes;
      rcnt := ReadStep(rbuff, br, btr);
      SplicedOn(r, c, p, p + br, p + br + rcnt);
    }

    /** The loop in f_read. */
    method ReadLoop(rbuff: array<byte>, total: nat) returns (br: nat)
      requires Ready() && rbuff != buf && rbuff != fs.win && total <= rbuff.Length && fptr + total <= fsize
      modifies this`fptr, this`clust, this`dsect, this`dirty, buf, fs`disk, fs`wflag, fs`winsect, fs.win, rbuff
      ensures Ready() && OthersKept() && Fat0(fs) == old(Fat0(fs)) && Content() == old(Content())
      ensures br == total && fptr == old(fptr) + total
      ensures rbuff[..] == Spliced(old(rbuff[..]), 0, Content()[old(fptr)..fptr])
    {
      hide Stable, AtBuffer, AtCluster, Ready, Bytes, Spliced, Fat0, Foreign, Volume.Valid, Volume.Mirrored, Volume.Logical, Content;
      hide IsChain, Clusters, ChainOk, MapOk, Owned, IsImage;
      ReadyParts();
      br := 0;
      var btr := total;
      ghost var c, p, r := Content(), fptr, rbuff[..];
      SplicedNothing(r, c, p);
      while btr > 0
        invariant Delivered(rbuff, c, p, r, br) && br + btr == total
        invariant OthersKept() && Fat0(fs) == old(Fat0(fs))
        decreases btr
      {
        var rcnt := ReadTurn(rbuff, br, btr, c, p, r);
        br := br + rcnt;
        btr := btr - rcnt;
      }
    }

    /** f_read: as many bytes as asked for and as there are, from the pointer on. */
    method Read(rbuff: array<byte>, request: dword) returns (res: Result, br: nat)
      requires Valid() && rbuff != buf && rbuff != fs.win && request <= rbuff.Length
      modifies this`fptr, this`clust, this`dsect, this`dirty, buf, fs`disk, fs`wflag, fs`winsect, fs.win, rbuff
      ensures Valid() && OthersKept() && Fat0(fs) == old(Fat0(fs)) && Content() == old(Content())
      ensures res == if err != Ok then err else if canRead then Ok else Denied
      ensures br == if res != Ok then 0 else if request < fsize - old(fptr) then request else fsize - old(fptr)
      ensures fptr == old(fptr) + br
      ensures rbuff[..] == Spliced(old(rbuff[..]), 0, Content()[old(fptr)..fptr])
    {
      SplicedNothing(rbuff[..], Content(), fptr);
      if err != Ok {
        return err, 0;
      }
      if !canRead {
        return Denied, 0;
      }
      var btr: nat := request;
      var remain := fsize - fptr;
      if btr > remain { btr := remain; }
      br := ReadLoop(rbuff, btr);
      res := Ok;
    }

    /** On a cluster boundary inside the file, step to the cluster under the pointer. */
    method StepForRead()
      requires Stable() && AtCluster() && InFile(fs.g, chain, fptr) && SecOff(fs.g, fptr) == 0
      modifies this`clust, fs`disk, fs`wflag, fs`winsect, fs.win
      ensures Stable() && OthersKept() && Fat0(fs) == old(Fat0(fs)) && Content() == old(Content())
      ensures clust == chain[CluIdx(fs.g, SecIdx(fs.g, fptr))]
    {
      hide SecIdx, SecOff, CluIdx, CluOff, Bytes, ChainOk, IsChain, Clusters, Owned, BufferOk, Fat, MapOk, Rest, Link;
      Before(fs.g, fptr);
      ChainLinks(Fat0(fs), sclust, chain, CluIdx(fs.g, SecIdx(fs.g, fptr)));
      if Csect(fs.g, fptr) == 0 {
        if fptr == 0 {
          clust := sclust;
        } else if cltbl != [] {
          MapCovers(cltbl, chain, CluIdx(fs.g, SecIdx(fs.g, fptr)));
          clust := ClmtClust(fs.g, cltbl, fptr, chain);
        } else {
          clust := FollowLink(clust);
        }
      }
    }

    /** get_fat under an open file: the file is not disturbed. */
    method FollowLink(cl: dword) returns (clst: dword)
      requires Stable()
      modifies fs`disk, fs`wflag, fs`winsect, fs.win
      ensures Stable() && OthersKept() && Fat0(fs) == old(Fat0(fs)) && Content() == old(Content())
      ensures clst == Link(Fat0(fs), cl)
    {
      hide Fat, MapOk, ChainOk, Clusters, InFile, Rest, Owned, BufferOk, FileBytes, Foreign;
      ghost var d0, w0, win0 := fs.disk, fs.winsect, fs.win[..];
      clst := GetFat(fs, cl);
      if fsize > 0 { InFileBelow(fs.g, chain, fsize - 1, Extent() - 1); }
      UnderFile(fs.g, chain, chain, dsect, dirty, buf[..], fsize, d0, w0, win0, fs.disk, fs.winsect, fs.win[..]);
    }
  }

  /** What the drive holds below the window: unchanged outside the FAT copies and the two sectors shown. */
  lemma RestDisk(g: Geometry, d0: seq<seq<byte>>, w0: nat, win0: seq<byte>, d1: seq<seq<byte>>, w1: nat, win1: seq<byte>)
    requires |d0| == |d1| == g.sectors && w0 < g.sectors && w1 < g.sectors
    requires Rest(g, d0[w0 := win0]) == Rest(g, d1[w1 := win1])
    ensures forall s :: 0 <= s < g.sectors && !g.InFat(s) && !g.InMirror(s) ==> d0[w0 := win0][s] == d1[w1 := win1][s]
    ensures forall s :: 0 <= s < g.sectors && !g.InFat(s) && !g.InMirror(s) && s != w0 && s != w1 ==> d0[s] == d1[s]
  {
    forall s | 0 <= s < g.sectors && !g.InFat(s) && !g.InMirror(s)
      ensures d0[w0 := win0][s] == d1[w1 := win1][s]
    {
      assert Rest(g, d0[w0 := win0])[s] == d0[w0 := win0][s];
      assert Rest(g, d1[w1 := win1])[s] == d1[w1 := win1][s];
    }
  }

  lemma RunApart(g: Geometry, image: seq<seq<byte>>, sect: nat, cc: nat, s: nat, data: seq<byte>)
    requires IsImage(g, image) && sect + cc <= g.sectors && s < g.sectors && |data| == g.ss && !(sect <= s < sect + cc)
    ensures RunBytes(g, image[s := data], sect, cc) == RunBytes(g, image, sect, cc)
  {
    forall i | 0 <= i < Whole(g, cc) ensures SecIdx(g, i) < cc { RunInside(g, i, cc); }
  }

  /** A run of sectors inside a cluster of the file holds consecutive bytes of the file, and a
      pointer moved over it is again on a sector boundary, in or at the end of that cluster. */
  lemma RunIsFile(g: Geometry, chain: seq<nat>, image: seq<seq<byte>>, p: nat, cc: nat, n: nat)
    requires IsImage(g, image) && Clusters(g, chain) && SecOff(g, p) == 0 && 0 < cc
    requires p + Whole(g, cc) <= n && (n > 0 ==> InFile(g, chain, n - 1)) && InFile(g, chain, p)
    requires CluOff(g, SecIdx(g, p)) + cc <= g.csize
    ensures 0 < Whole(g, cc) && SectorAt(g, chain, SecIdx(g, p)) + cc <= g.sectors && 0 <= SectorAt(g, chain, SecIdx(g, p))
    ensures FileBytes(g, chain, image, n)[p..p + Whole(g, cc)] == RunBytes(g, image, SectorAt(g, chain, SecIdx(g, p)), cc)
    ensures SecOff(g, p + Whole(g, cc)) == 0
    ensures CluIdx(g, SecIdx(g, p + Whole(g, cc) - 1)) == CluIdx(g, SecIdx(g, p))
  {
    hide SecIdx, SecOff, CluIdx, CluOff, Whole, SectorAt, Clusters, Owned, FileBytes;
    SectorOwned(g, chain, SecIdx(g, p));
    StepWhole(g, chain, p, cc);
    var f, r := FileBytes(g, chain, image, n), RunBytes(g, image, SectorAt(g, chain, SecIdx(g, p)), cc);
    forall i | 0 <= i < Whole(g, cc) ensures f[p..p + Whole(g, cc)][i] == r[i] {
      RunInside(g, i, cc);
      assert f[p + i] == ByteAt(g, chain, image, p + i);
    }
  }

  /** A piece of one sector of the file, and the position behind it. */
  lemma PieceIsFile(g: Geometry, chain: seq<nat>, image: seq<seq<byte>>, p: nat, len: nat, n: nat)
    requires IsImage(g, image) && Clusters(g, chain) && 0 < len && SecOff(g, p) + len <= g.ss
    requires p + len <= n && (n > 0 ==> InFile(g, chain, n - 1)) && InFile(g, chain, p)
    ensures var s := SectorAt(g, chain, SecIdx(g, p));
            0 <= s < g.sectors && FileBytes(g, chain, image, n)[p..p + len] == image[s][SecOff(g, p)..SecOff(g, p) + len]
    ensures SecIdx(g, p + len - 1) == SecIdx(g, p)
    ensures SecOff(g, p + len) != 0 ==> SecIdx(g, p + len) == SecIdx(g, p)
  {
    hide SecIdx, SecOff, CluIdx, CluOff, SectorAt, Clusters, Owned, FileBytes;
    SectorOwned(g, chain, SecIdx(g, p));
    StepInside(g, p, len);
    var f, s := FileBytes(g, chain, image, n), image[SectorAt(g, chain, SecIdx(g, p))];
    var x, y := f[p..p + len], s[SecOff(g, p)..SecOff(g, p) + len];
    forall i | 0 <= i < len ensures x[i] == y[i] {
      assert f[p + i] == ByteAt(g, chain, image, p + i);
    }
  }

  /** The bytes of a file depend on its own sectors only. */
  lemma SameFileBytes(g: Geometry, chain: seq<nat>, a: seq<seq<byte>>, b: seq<seq<byte>>, n: nat)
    requires IsImage(g, a) && IsImage(g, b) && Clusters(g, chain) && (n > 0 ==> InFile(g, chain, n - 1))
    requires forall s :: 0 <= s < g.sectors && Owned(g, chain, s) ==> a[s] == b[s]
    ensures FileBytes(g, chain, a, n) == FileBytes(g, chain, b, n)
  {
    forall p | 0 <= p < n
      ensures FileBytes(g, chain, a, n)[p] == FileBytes(g, chain, b, n)[p]
    {
      InFileBelow(g, chain, p, n - 1);
      SectorOwned(g, chain, SecIdx(g, p));
    }
  }

  /** A direct write of the one sector in the buffer changes that sector of the file and nothing else. */
  lemma OneSector(g: Geometry, chain: seq<nat>, disk: seq<seq<byte>>, w: nat, win: seq<byte>, s: nat, data: seq<byte>)
    requires g.csize > 0 && |data| == g.ss && s < |disk| && w < |disk| && Owned(g, chain, s) && !Owned(g, chain, w)
    ensures g.database <= s && Whole(g, 1) == g.ss && s != w && Overwritten(g, disk, data, 0, s, 1) == disk[s := data]
    ensures Foreign(g, chain, disk[s := data][w := win]) == Foreign(g, chain, disk[w := win])
  {
    hide ClusterOf;
    WholeSlice(g, data);
    forall i | 0 <= i < |disk| ensures Overwritten(g, disk, data, 0, s, 1)[i] == disk[s := data][i] {
      OverwrittenAt(g, disk, data, 0, s, 1, i);
    }
  }

  lemma WholeSlice(g: Geometry, data: seq<byte>)
    requires |data| == g.ss
    ensures Whole(g, 0) == 0 && Whole(g, 1) == g.ss && Slice(g, data, 0, 0) == data
  {
  }

  predicate HoldsSector(g: Geometry, chain: seq<nat>, dsect: nat, k: nat)
    requires g.WellFormed()
  {
    CluIdx(g, k) < |chain| && dsect == SectorAt(g, chain, k)
  }

  lemma ChainLinks(t: seq<nat>, sclust: nat, chain: seq<nat>, i: nat)
    requires ChainOk(t, sclust, chain) && i < |chain|
    ensures sclust == chain[0] && 2 <= chain[i] < |t|
    ensures i > 0 ==> Link(t, chain[i - 1]) == chain[i]
  {
    if i > 0 { assert t[chain[i - 1]] == chain[i - 1 + 1]; }
  }

  /** The sector the source computes from the current cluster. */
  lemma FindSector(g: Geometry, chain: seq<nat>, k: nat)
    requires g.WellFormed() && Clusters(g, chain) && CluIdx(g, k) < |chain|
    ensures var c := chain[CluIdx(g, k)];
            && 2 <= c < g.nFatent && Clust2Sect(g, c) > 0 && Clust2Sect(g, c) + CluOff(g, k) < g.sectors
            && HoldsSector(g, chain, Clust2Sect(g, c) + CluOff(g, k), k)
  {
    SectorOwned(g, chain, k);
  }

  lemma InFileBelow(g: Geometry, chain: seq<nat>, p: nat, q: nat)
    requires g.WellFormed() && p <= q && InFile(g, chain, q)
    ensures InFile(g, chain, p)
  {
    DivMonotonic(p, q, g.ss);
    DivMonotonic(SecIdx(g, p), SecIdx(g, q), g.csize);
  }

  lemma DivMonotonic(p: nat, q: nat, m: nat)
    requires p <= q && m > 0
    ensures p / m <= q / m
  {
    assert (q / m - p / m) * m == q - p - q % m + p % m;
    AboveMinusOne(q / m - p / m, m);
  }

  lemma AboveMinusOne(d: int, m: int)
    requires d * m > -m && m > 0
    ensures d >= 0
  {
  }

  /** The first n bytes of a file, for a drive image. */
  ghost function FileBytes(g: Geometry, chain: seq<nat>, image: seq<seq<byte>>, n: nat): (c: seq<byte>)
    requires IsImage(g, image) && Clusters(g, chain) && (n > 0 ==> InFile(g, chain, n - 1))
    ensures |c| == n
    ensures forall p :: 0 <= p < n ==> InFile(g, chain, p) && c[p] == ByteAt(g, chain, image, p)
  {
    assert forall p :: 0 <= p < n ==> InFile(g, chain, p) by {
      forall p | 0 <= p < n ensures InFile(g, chain, p) { InFileBelow(g, chain, p, n - 1); }
    }
    seq(n, p requires 0 <= p < n => ByteAt(g, chain, image, p))
  }

  /** The bytes of a file stay when its chain gets longer. */
  lemma FileBytesGrow(g: Geometry, chain: seq<nat>, longer: seq<nat>, image: seq<seq<byte>>, n: nat)
    requires IsImage(g, image) && Clusters(g, chain) && Clusters(g, longer) && chain <= longer
    requires n > 0 ==> InFile(g, chain, n - 1)
    ensures n > 0 ==> InFile(g, longer, n - 1)
    ensures FileBytes(g, longer, image, n) == FileBytes(g, chain, image, n)
  {
    var x, y := FileBytes(g, longer, image, n), FileBytes(g, chain, image, n);
    forall p | 0 <= p < n ensures x[p] == y[p] {
      InFileBelow(g, chain, p, n - 1);
    }
  }

  /** What a FAT access leaves alone is more than what an open file's operation has to leave alone. */
  lemma RestForeign(g: Geometry, xs: seq<nat>, a: seq<seq<byte>>, b: seq<seq<byte>>)
    requires g.csize > 0 && |a| == |b|
    requires Rest(g, a) == Rest(g, b)
    ensures Foreign(g, xs, a) == Foreign(g, xs, b)
  {
    forall s | 0 <= s < |a| ensures Foreign(g, xs, a)[s] == Foreign(g, xs, b)[s] {
      assert Rest(g, a)[s] == Rest(g, b)[s];
    }
  }

  lemma FatNotOwned(g: Geometry, xs: seq<nat>, s: nat)
    requires g.WellFormed() && g.InFat(s)
    ensures !Owned(g, xs, s)
  {
  }

  /** A FAT access under an open file, whose chain may have become longer: the buffer stays good and
      the bytes of the file stay as they were. */
  lemma UnderFile(g: Geometry, xs: seq<nat>, ys: seq<nat>, dsect: nat, dirty: bool, buf: seq<byte>, n: nat,
                  d0: seq<seq<byte>>, w0: nat, win0: seq<byte>, d1: seq<seq<byte>>, w1: nat, win1: seq<byte>)
    requires IsImage(g, d0) && IsImage(g, d1) && w0 < g.sectors && w1 < g.sectors && |buf| == g.ss
    requires Rest(g, d0[w0 := win0]) == Rest(g, d1[w1 := win1])
    requires Clusters(g, xs) && Clusters(g, ys) && xs <= ys && BufferOk(g, xs, dsect, dirty, buf, d0)
    requires !Owned(g, xs, w0) && (g.InFat(w1) || (w0 == w1 && xs == ys))
    requires n > 0 ==> InFile(g, xs, n - 1)
    ensures BufferOk(g, ys, dsect, dirty, buf, d1) && !Owned(g, ys, w1)
    ensures n > 0 ==> InFile(g, ys, n - 1)
    ensures FileBytes(g, ys, Shown(d1, dsect, dirty, buf), n) == FileBytes(g, xs, Shown(d0, dsect, dirty, buf), n)
    ensures Foreign(g, ys, d0[w0 := win0]) == Foreign(g, ys, d1[w1 := win1])
  {
    hide Clusters, FileBytes, Rest, Foreign, InFile;
    if g.InFat(w1) { FatNotOwned(g, xs, w1); FatNotOwned(g, ys, w1); }
    OwnedKept(g, xs, ys, d0, w0, win0, d1, w1, win1);
    SameFileBytes(g, xs, Shown(d0, dsect, dirty, buf), Shown(d1, dsect, dirty, buf), n);
    FileBytesGrow(g, xs, ys, Shown(d1, dsect, dirty, buf), n);
    RestForeign(g, ys, d0[w0 := win0], d1[w1 := win1]);
  }

  lemma OwnedKept(g: Geometry, xs: seq<nat>, ys: seq<nat>, d0: seq<seq<byte>>, w0: nat, win0: seq<byte>, d1: seq<seq<byte>>, w1: nat, win1: seq<byte>)
    requires g.WellFormed() && |d0| == |d1| == g.sectors && w0 < g.sectors && w1 < g.sectors && xs <= ys
    requires Rest(g, d0[w0 := win0]) == Rest(g, d1[w1 := win1])
    requires !Owned(g, xs, w0) && !Owned(g, xs, w1)
    ensures forall s :: 0 <= s < g.sectors && Owned(g, xs, s) ==> d0[s] == d1[s] && Owned(g, ys, s)
  {
    RestDisk(g, d0, w0, win0, d1, w1, win1);
  }
}
