/** The mounted volume: drive sectors, the one-sector access window over them
    and the geometry fixed at mount time. */
module FatVolume {

  type byte = x: int | 0 <= x < 0x100
  type dword = x: int | 0 <= x < 0x1_0000_0000

  datatype FatType = Fat12 | Fat16 | Fat32

  datatype Result = Ok | IntErr | Denied | NotEnoughCore

  predicate IsSectorSize(ss: int) {
    ss == 512 || ss == 1024 || ss == 2048 || ss == 4096
  }

  predicate IsClusterSize(n: int) {
    n == 1 || n == 2 || n == 4 || n == 8 || n == 16 || n == 32 || n == 64 || n == 128
  }

  /** What find_volume computes once; never written again while the volume stays mounted. */
  datatype Geometry = Geometry(
    ss: nat,         // bytes per sector
    fsType: FatType,
    csize: nat,      // sectors per cluster
    nFats: nat,      // FAT copies
    nFatent: nat,    // FAT entries, clusters + 2
    fsize: nat,      // sectors per FAT
    fatbase: nat,
    database: nat,
    sectors: nat     // sectors on the drive
  ) {
    /** The smallest value an entry can hold as end-of-chain mark is above every cluster number. */
    function EndMark(): nat {
      match fsType
      case Fat12 => 0xFFF
      case Fat16 => 0xFFFF
      case Fat32 => 0x0FFF_FFFF
    }

    predicate WellFormed() {
      && IsSectorSize(ss)
      && IsClusterSize(csize)
      && 1 <= nFats <= 2
      && 2 < nFatent < EndMark()
      && 1 <= fatbase
      && fatbase + FatArea() <= database
      && database <= sectors <= 0x1_0000_0000
      && (forall c :: 2 <= c < nFatent ==> ClusterSector(c) + csize <= sectors)
      && (forall i :: 0 <= i < FatBytes() ==> FatSector(i) < fatbase + fsize)
    }

    /** Bytes the entries 0..nFatent-1 take. */
    function FatBytes(): nat {
      match fsType
      case Fat12 => (nFatent * 3 + 1) / 2
      case Fat16 => nFatent * 2
      case Fat32 => nFatent * 4
    }

    /** First sector of a cluster. */
    function ClusterSector(c: nat): int {
      (c - 2) * csize + database
    }

    /** Sector that holds byte i of the FAT. */
    function FatSector(i: nat): nat
      requires ss > 0
    {
      i / ss + fatbase
    }

    /** Place of byte i of the FAT in its sector. */
    function FatOffset(i: nat): nat
      requires ss > 0
    {
      i % ss
    }

    /** Sectors of all the FAT copies. */
    function FatArea(): nat { if nFats == 2 then fsize + fsize else fsize }

    predicate InFat(s: int) { fatbase <= s < fatbase + fsize }

    /** The sectors of the second FAT copy. */
    predicate InMirror(s: int) { fatbase + fsize <= s < fatbase + FatArea() }
  }

  lemma GeometryBounds(g: Geometry)
    requires g.WellFormed()
    ensures g.ss > 0 && g.csize > 0 && 2 < g.nFatent < g.EndMark() < 0x1000_0000
  {
  }

  /** clust2sect: the first sector of a cluster, 0 for an invalid cluster number. */
  function Clust2Sect(g: Geometry, clst: dword): int {
    if clst < 2 || clst >= g.nFatent then 0 else g.ClusterSector(clst)
  }

  /** The drive after one sector has been written back by sync_window: a FAT sector is reflected into the copy. */
  function WriteBack(g: Geometry, disk: seq<seq<byte>>, s: nat, data: seq<byte>): seq<seq<byte>>
    requires g.WellFormed() && |disk| == g.sectors && s < g.sectors
  {
    if g.InFat(s) && g.nFats == 2 then disk[s := data][s + g.fsize := data] else disk[s := data]
  }

  /** Same contents everywhere but in the FAT copies. */
  ghost predicate SameButMirror(g: Geometry, a: seq<seq<byte>>, b: seq<seq<byte>>) {
    && |a| == |b|
    && forall s :: 0 <= s < |a| && !g.InMirror(s) ==> a[s] == b[s]
  }

  /** Writing a sector back changes that sector and, for a FAT sector, brings its copy up to date. */
  lemma WriteBackKeeps(g: Geometry, disk: seq<seq<byte>>, s: nat, data: seq<byte>)
    requires g.WellFormed() && |disk| == g.sectors && s < g.sectors && |data| == g.ss
    requires forall i :: 0 <= i < |disk| ==> |disk[i]| == g.ss
    requires !g.InMirror(s)
    ensures var d := WriteBack(g, disk, s, data);
            && |d| == |disk| && d[s] == data
            && (forall i :: 0 <= i < |d| ==> |d[i]| == g.ss)
            && SameButMirror(g, d, disk[s := data])
            && (g.nFats == 2 && (forall i :: g.InFat(i) && i != s ==> disk[i] == disk[i + g.fsize]) ==>
                  forall i :: g.InFat(i) ==> d[i] == d[i + g.fsize])
  {
  }

  class Volume {
    const g: Geometry
    var disk: seq<seq<byte>>
    const win: array<byte>
    var winsect: nat
    var wflag: bool
    var lastClust: dword
    var freeClust: dword
    var fsiDirty: bool

    ghost predicate Valid()
      reads this`disk, this`winsect, this`wflag, win
    {
      && g.WellFormed()
      && |disk| == g.sectors
      && (forall s :: 0 <= s < |disk| ==> |disk[s]| == g.ss)
      && win.Length == g.ss
      && winsect < g.sectors
      && (!wflag ==> win[..] == disk[winsect])
      && (wflag ==> !g.InMirror(winsect))
    }

    /** What a reader that goes through the window sees. */
    ghost function Logical(): (log: seq<seq<byte>>)
      reads this`disk, this`winsect, this`wflag, win
      requires Valid()
      ensures |log| == g.sectors && forall s :: 0 <= s < |log| ==> |log[s]| == g.ss
    {
      disk[winsect := win[..]]
    }

    /** Every FAT sector that is not waiting in the window equals its copy. */
    ghost predicate Mirrored()
      reads this`disk, this`winsect, this`wflag, win
      requires Valid()
    {
      g.nFats == 2 ==>
        forall s :: g.InFat(s) && !(wflag && s == winsect) ==> disk[s] == disk[s + g.fsize]
    }

    /** A freshly mounted volume whose window shows sector `sector`. */
    constructor (geometry: Geometry, drive: seq<seq<byte>>, sector: nat)
      requires geometry.WellFormed() && |drive| == geometry.sectors && sector < geometry.sectors
      requires forall s :: 0 <= s < |drive| ==> |drive[s]| == geometry.ss
      ensures Valid() && g == geometry && disk == drive && winsect == sector && !wflag
      ensures Logical() == drive && fresh(win)
      ensures lastClust == 0xFFFF_FFFF && freeClust == 0xFFFF_FFFF && !fsiDirty
    {
      g, disk, winsect, wflag := geometry, drive, sector, false;
      lastClust, freeClust, fsiDirty := 0xFFFF_FFFF, 0xFFFF_FFFF, false;
      win := new byte[geometry.ss](i requires 0 <= i < geometry.ss => drive[sector][i]);
    }

    /** sync_window: write the dirty window back, and into the copy of the FAT if it is a FAT sector. */
    method SyncWindow()
      requires Valid()
      modifies this`disk, this`wflag
      ensures Valid() && !wflag
      ensures disk == if old(wflag) then WriteBack(g, old(disk), winsect, win[..]) else old(disk)
      ensures SameButMirror(g, Logical(), old(Logical()))
      ensures old(Mirrored()) ==> Mirrored()
      ensures Mirrored() && g.nFats == 2 ==> forall s :: g.InFat(s) ==> disk[s] == disk[s + g.fsize]
    {
      if wflag {
        var wsect := winsect;
        disk := disk[wsect := win[..]];
        wflag := false;
        if g.InFat(wsect) {
          ghost var d0 := disk;
          var nf := g.nFats;
          while nf >= 2
            invariant 1 <= nf <= g.nFats && !wflag
            invariant nf == g.nFats ==> wsect == winsect && disk == d0
            invariant nf < g.nFats ==> disk == d0[winsect + g.fsize := win[..]]
          {
            wsect := wsect + g.fsize;
            disk := disk[wsect := win[..]];
            nf := nf - 1;
          }
        }
        WriteBackKeeps(g, old(disk), winsect, win[..]);
      }
    }

    /** move_window: make `sector` appear in the window. */
    method MoveWindow(sector: nat)
      requires Valid() && sector < g.sectors
      modifies this`disk, this`wflag, this`winsect, win
      ensures Valid() && winsect == sector
      ensures sector == old(winsect) ==> disk == old(disk) && win[..] == old(win[..]) && wflag == old(wflag)
      ensures sector != old(winsect) ==> !wflag
      ensures SameButMirror(g, Logical(), old(Logical()))
      ensures old(Mirrored()) ==> Mirrored()
    {
      if sector != winsect {
        SyncWindow();
        label synced:
        CopyToWindow(disk[sector]);
        winsect := sector;
        assert Logical() == disk;
        assert old@synced(Logical()) == disk;
      }
    }

    /** disk_read of one sector into the window. */
    method CopyToWindow(data: seq<byte>)
      requires |data| == win.Length
      modifies win
      ensures win[..] == data
    {
      forall i | 0 <= i < win.Length { win[i] := data[i]; }
    }
  }
}
