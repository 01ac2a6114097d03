/** f_mkfs and find_volume: the geometry written to the boot sector and the geometry read back from it. */
module FatFormat {
  import opened Arithmetic
  import opened Bits
  import opened FatVolume
  import FatLayout

  const MIN_FAT16 := 4086
  const MIN_FAT32 := 65526
  const N_ROOTDIR := 512
  const N_FATS := 1
  const SZ_DIRE := 32

  /** DWORD arithmetic wraps around. */
  function U32(x: int): dword { x % 0x1_0000_0000 }

  /** ST_WORD stores the low 16 bits. */
  function U16(x: nat): nat { x % 0x1_0000 }

  /** The sub-type that goes with a number of clusters. */
  function SubType(n: nat): FatType {
    if n >= MIN_FAT32 then Fat32 else if n >= MIN_FAT16 then Fat16 else Fat12
  }

  /** The geometry fields of the boot sector. */
  datatype Bpb = Bpb(bytsPerSec: nat, secPerClus: nat, rsvdSecCnt: nat, numFats: nat, rootEntCnt: nat,
                     totSec16: nat, totSec32: nat, fatSz16: nat, fatSz32: nat)

  /** The areas of a formatted or mounted volume. */
  datatype Areas = Areas(fsType: FatType, clusters: nat, fatbase: nat, fsize: nat, database: nat)

  datatype Option<T> = None | Some(value: T)

  // ---------- the cluster size ----------

  lemma Halved(n: nat)
    requires PowerOfTwo(n) || n == 0
    ensures PowerOfTwo(n / 2) || n / 2 == 0
  {
  }

  /** Halving again and again. */
  lemma {:induction false} Divided(n: nat, m: nat)
    requires PowerOfTwo(m) && (PowerOfTwo(n) || n == 0)
    ensures PowerOfTwo(n / m) || n / m == 0
    decreases m
  {
    if m > 1 {
      FatLayout.DivDiv(n, 2, m / 2);
      Divided(n / 2, m / 2);
    }
  }

  lemma SmallPower(n: nat)
    requires PowerOfTwo(n) && n <= 128
    ensures IsClusterSize(n)
  {
  }

  const VST: seq<nat> := [1024, 512, 256, 128, 64, 32, 16, 8, 4, 2, 0]
  const CST: seq<nat> := [32768, 16384, 8192, 4096, 2048, 16384, 8192, 4096, 2048, 1024, 512]

  lemma AutoSizes(i: nat)
    requires i < |CST|
    ensures PowerOfTwo(CST[i])
  {
    assert PowerOfTwo(512);
    assert PowerOfTwo(1024);
    assert PowerOfTwo(2048);
    assert PowerOfTwo(4096);
    assert PowerOfTwo(8192);
    assert PowerOfTwo(16384);
    assert PowerOfTwo(32768);
  }

  /** The allocation unit in bytes for a volume of vs half-millions of bytes, in numbers. */
  function AutoUnit(vs: nat): nat {
    if vs >= 1024 then 32768
    else if vs >= 512 then 16384
    else if vs >= 256 then 8192
    else if vs >= 128 then 4096
    else if vs >= 64 then 2048
    else if vs >= 32 then 16384
    else if vs >= 16 then 8192
    else if vs >= 8 then 4096
    else if vs >= 4 then 2048
    else if vs >= 2 then 1024
    else 512
  }

  lemma AutoUnitIs(vs: nat, i: nat)
    requires i < |VST| && VST[i] <= vs && forall k :: 0 <= k < i ==> vs < VST[k]
    ensures CST[i] == AutoUnit(vs)
  {
    assert i > 0 ==> vs < VST[i - 1];
  }

  /** The allocation unit in sectors: as asked for in bytes or sectors, or by the size of the volume. */
  method AllocationUnit(nVol: nat, ss: nat, request: nat) returns (au: nat)
    requires IsSectorSize(ss)
    ensures IsClusterSize(au)
    ensures var unit := if PowerOfTwo(request) then request else AutoUnit(nVol / (2000 / (ss / 512)));
            var n := if unit >= 512 then unit / ss else unit;
            au == if n == 0 then 1 else if n > 128 then 128 else n
  {
    hide PowerOfTwo, AutoUnit;
    au := if PowerOfTwo(request) then request else 0;
    if au == 0 {
      var vs := nVol / (2000 / (ss / 512));
      var i := 0;
      while vs < VST[i]
        invariant 0 <= i < |VST| && forall k :: 0 <= k < i ==> vs < VST[k]
        decreases |VST| - i
      {
        i := i + 1;
      }
      AutoSizes(i);
      AutoUnitIs(vs, i);
      au := CST[i];
    }
    FatLayout.SectorPower(ss);
    Divided(au, ss);
    if au >= 512 { au := au / ss; }
    if au == 0 { au := 1; }
    One();
    if au > 128 { au := 128; }
    SmallPower(au);
  }

  lemma One()
    ensures PowerOfTwo(1) && PowerOfTwo(128) && !PowerOfTwo(0)
  {
    assert PowerOfTwo(16);
  }

  // ---------- formatting ----------

  /** Whole clusters of au sectors. */
  function ClustersIn(n: nat, au: nat): nat
    requires au > 0
  {
    n / au
  }

  /** Bytes the FAT entries of n clusters take, the two reserved entries included, as f_mkfs counts them. */
  function FatBytes(ty: FatType, n: nat): nat {
    match ty
    case Fat12 => (n * 3 + 1) / 2 + 3
    case Fat16 => n * 2 + 4
    case Fat32 => n * 4 + 8
  }

  /** Number of sectors that hold n bytes. */
  function Sectors(n: nat, ss: nat): nat
    requires ss > 0
  {
    (n + ss - 1) / ss
  }

  function Reserved(ty: FatType): nat { if ty.Fat32? then 32 else 1 }

  function RootSectors(ty: FatType, ss: nat): nat
    requires ss > 0
  {
    if ty.Fat32? then 0 else N_ROOTDIR * SZ_DIRE / ss
  }

  /** Sectors to the next erase block boundary, rounding up with a mask. */
  function Padding(at: dword, block: nat): dword
    requires block > 0
  {
    U32(AndNot(U32(at + block - 1), block - 1) - at)
  }

  /** Padding never reaches a whole block, whatever the block size. */
  lemma PaddingBound(at: dword, block: nat)
    requires 0 < block && at + block - 1 < 0x1_0000_0000
    ensures Padding(at, block) < block
  {
    hide AndNot, U32;
    AndNotBound(at + block - 1, block - 1);
    AndNotAbove(at + block - 1, block - 1);
    Fits(at + block - 1);
    Fits(AndNot(at + block - 1, block - 1) - at);
  }

  /** For a block size that is a power of two the padding leads to a block boundary. */
  lemma PaddingAligns(at: dword, block: nat)
    requires PowerOfTwo(block) && at + block - 1 < 0x1_0000_0000
    ensures Padding(at, block) < block && (at + Padding(at, block)) % block == 0
  {
    hide PowerOfTwo, AndNot;
    PowerPositive(block);
    PaddingBound(at, block);
    MaskRoundsDown(at + block - 1, block);
    var q, r := (at + block - 1) / block, (at + block - 1) % block;
    assert at + block - 1 == q * block + r;
    DivMod(q, 0, block, q * block);
  }

  /** Where the data area starts before it is aligned. */
  function DataStart(nVol: dword, bVol: dword, ss: nat, au: nat): dword
    requires IsSectorSize(ss) && IsClusterSize(au)
  {
    var n0 := ClustersIn(nVol, au);
    var ty := SubType(n0);
    U32(bVol + Reserved(ty) + U32(FatBytes(ty, n0) + ss - 1) / ss * N_FATS + RootSectors(ty, ss))
  }

  /** The block size to align to, as far as f_mkfs believes the drive. */
  function BlockSize(eraseBlock: nat): (block: nat)
    ensures 0 < block <= 32768
  {
    if eraseBlock == 0 || eraseBlock > 32768 then 1 else eraseBlock
  }

  /** What f_mkfs computes: the boot sector and the areas it will initialize; nothing when it gives up. */
  function Format(nVol: dword, bVol: dword, ss: nat, au: nat, eraseBlock: nat): Option<(Bpb, Areas)>
    requires IsSectorSize(ss) && IsClusterSize(au)
  {
    var n0 := ClustersIn(nVol, au);
    var ty := SubType(n0);
    var nFat0 := U32(FatBytes(ty, n0) + ss - 1) / ss;
    var nDir := RootSectors(ty, ss);
    var bData := DataStart(nVol, bVol, ss, au);
    if nVol < U32(bData + au - bVol) then None
    else
      var pad := Padding(bData, BlockSize(eraseBlock)) / N_FATS;
      var nRsv := Reserved(ty) + if ty.Fat32? then pad else 0;
      var nFat := nFat0 + if ty.Fat32? then 0 else pad;
      var n := ClustersIn(U32(nVol - nRsv - nFat * N_FATS - nDir), au);
      if (ty.Fat16? && n < MIN_FAT16) || (ty.Fat32? && n < MIN_FAT32) then None
      else
        Some((Bpb(ss, au, U16(nRsv), N_FATS, if ty.Fat32? then 0 else N_ROOTDIR,
                  if nVol < 0x1_0000 then nVol else 0, if nVol < 0x1_0000 then 0 else nVol,
                  if ty.Fat32? then 0 else U16(nFat), if ty.Fat32? then nFat else 0),
              Areas(ty, n, bVol + nRsv, nFat, bVol + nRsv + nFat * N_FATS + nDir)))
  }

  // ---------- mounting ----------

  /** Bytes the FAT entries take, as find_volume counts them. */
  function NeededBytes(ty: FatType, entries: nat): nat {
    match ty
    case Fat12 => entries * 3 / 2 + entries % 2
    case Fat16 => entries * 2
    case Fat32 => entries * 4
  }

  /** Directory entries in a sector. */
  function DirEntries(ss: nat): (n: nat)
    requires IsSectorSize(ss)
    ensures n > 0
  {
    ss / SZ_DIRE
  }

  /** Sectors n root directory entries take. */
  function EntrySectors(n: nat, ss: nat): nat
    requires IsSectorSize(ss)
  {
    n / DirEntries(ss)
  }

  predicate WholeSectors(n: nat, ss: nat)
    requires IsSectorSize(ss)
  {
    n % DirEntries(ss) == 0
  }

  /** What find_volume makes of a boot sector; nothing when it refuses the volume. */
  function Mount(b: Bpb, ss: nat, bsect: dword): Option<Areas>
    requires IsSectorSize(ss)
  {
    if b.bytsPerSec != ss then None
    else
      var fsize := if b.fatSz16 == 0 then b.fatSz32 else b.fatSz16;
      if b.numFats != 1 && b.numFats != 2 then None
      else if b.secPerClus == 0 || !PowerOfTwo(b.secPerClus) then None
      else if !WholeSectors(b.rootEntCnt, ss) then None
      else
        var tsect := if b.totSec16 == 0 then b.totSec32 else b.totSec16;
        if b.rsvdSecCnt == 0 then None
        else
          var fatArea := U32(if b.numFats == 2 then fsize + fsize else fsize);
          var sysect := U32(b.rsvdSecCnt + fatArea + EntrySectors(b.rootEntCnt, ss));
          if tsect < sysect then None
          else
            var n := ClustersIn(tsect - sysect, b.secPerClus);
            var ty := SubType(n);
            if n == 0 then None
            else if ty.Fat32? != (b.rootEntCnt == 0) then None
            else if fsize < U32(U32(NeededBytes(ty, U32(n + 2))) + ss - 1) / ss then None
            else Some(Areas(ty, n, bsect + b.rsvdSecCnt, fsize, bsect + sysect))
  }

  /** The two ways to count the bytes of the FAT agree. */
  lemma SameBytes(ty: FatType, n: nat)
    ensures NeededBytes(ty, n + 2) == FatBytes(ty, n)
  {
    if ty.Fat12? { if n % 2 == 0 { Even12(n / 2); } else { Odd12(n / 2); } }
  }

  lemma Even12(k: nat)
    ensures NeededBytes(Fat12, 2 * k + 2) == 3 * k + 3 == FatBytes(Fat12, 2 * k)
  {
    Half(3 * k + 3);
    Half(3 * k);
    Half(k + 1);
  }

  lemma Half(x: nat)
    ensures 2 * x / 2 == x && (2 * x + 1) / 2 == x && 2 * x % 2 == 0 && (2 * x + 1) % 2 == 1
  {
  }

  lemma Odd12(k: nat)
    ensures NeededBytes(Fat12, 2 * k + 1 + 2) == 3 * k + 5 == FatBytes(Fat12, 2 * k + 1)
  {
    Half(3 * k + 4);
    Half(3 * k + 2);
    Half(k + 1);
  }

  lemma SectorsMonotonic(a: nat, b: nat, ss: nat)
    requires IsSectorSize(ss) && a <= b
    ensures Sectors(a, ss) <= Sectors(b, ss)
  {
    Quotients(a + ss - 1, b + ss - 1, ss);
  }

  lemma SectorsHold(a: nat, ss: nat)
    requires IsSectorSize(ss)
    ensures a <= Sectors(a, ss) * ss
  {
    var q, r := (a + ss - 1) / ss, (a + ss - 1) % ss;
    assert a + ss - 1 == q * ss + r;
  }

  lemma BytesMonotonic(ty: FatType, n: nat, m: nat)
    requires n <= m
    ensures FatBytes(ty, n) <= FatBytes(ty, m)
  {
  }

  lemma Quotients(a: nat, b: nat, m: nat)
    requires m > 0 && a <= b
    ensures a / m <= b / m
  {
    if a / m > b / m {
      Higher(b / m + 1, a / m, m);
    }
  }

  lemma Higher(p: nat, q: nat, m: nat)
    requires p <= q
    ensures p * m <= q * m
  {
  }

  /** The padding of f_mkfs leaves room for a cluster. */
  predicate LeavesCluster(nVol: dword, bVol: dword, ss: nat, au: nat, eraseBlock: nat)
    requires IsSectorSize(ss) && IsClusterSize(au)
  {
    var at := DataStart(nVol, bVol, ss, au);
    at + Padding(at, BlockSize(eraseBlock)) + au <= bVol + nVol
  }

  /** A volume formatted by f_mkfs is accepted by find_volume exactly when the alignment to the erase block
      has left room for a cluster, and then with the sub-type, cluster count and areas it was formatted with;
      the data area starts on an erase block boundary and the FAT has room for every entry. */
  lemma FormattedMounts(nVol: dword, bVol: dword, ss: nat, au: nat, eraseBlock: nat)
    requires IsSectorSize(ss) && IsClusterSize(au) && nVol > 0
    requires ClustersIn(nVol, au) < 0x3FFF_0000 && bVol + nVol + 32768 <= 0x1_0000_0000 // no sum overflows
    requires Format(nVol, bVol, ss, au, eraseBlock).Some?
    ensures var (b, a) := Format(nVol, bVol, ss, au, eraseBlock).value;
            && (LeavesCluster(nVol, bVol, ss, au, eraseBlock) <==> Mount(b, ss, bVol).Some?)
            && (LeavesCluster(nVol, bVol, ss, au, eraseBlock) ==> Mount(b, ss, bVol) == Some(a))
            && (PowerOfTwo(eraseBlock) && eraseBlock <= 32768 ==> a.database % eraseBlock == 0)
            && (LeavesCluster(nVol, bVol, ss, au, eraseBlock) ==> FatBytes(a.fsType, a.clusters) <= a.fsize * ss)
  {
    hide Mount, Sectors, FatBytes, NeededBytes, SubType, RootSectors, Format, U32, ClustersIn, DataStart, Padding, PowerOfTwo, BlockSize;
    var (b, a) := Format(nVol, bVol, ss, au, eraseBlock).value;
    var n0 := ClustersIn(nVol, au);
    var ty := SubType(n0);
    var pad := FormatIs(nVol, bVol, ss, au, eraseBlock);
    Widths(ty, n0, ss, pad);
    var sys := a.database - bVol;
    MountIs(nVol, bVol, ss, au, ty, a.fatbase - bVol, a.fsize);
    if nVol >= sys + au {
      Shrinks(nVol, sys, au);
      SubTypeKept(n0, ClustersIn(nVol - sys, au));
      BytesMonotonic(ty, a.clusters, n0);
      SectorsMonotonic(FatBytes(ty, a.clusters), FatBytes(ty, n0), ss);
      SectorsHold(FatBytes(ty, a.clusters), ss);
      Higher(Sectors(FatBytes(ty, a.clusters), ss), a.fsize, ss);
      SameBytes(ty, a.clusters);
    } else if nVol >= sys {
      NoneLeft(nVol - sys, au);
    }
  }

  /** A volume of 200 sectors aligned to blocks of 1024 sectors: f_mkfs formats it, with no room for a cluster and a
      cluster count that has wrapped around, and find_volume refuses it. */
  lemma RefusedVolume()
    ensures Format(200, 0, 512, 1, 1024).Some? && !LeavesCluster(200, 0, 512, 1, 1024)
    ensures Mount(Format(200, 0, 512, 1, 1024).value.0, 512, 0) == None
  {
    hide AndNot, PowerOfTwo, Mount;
    StartOf200();
    Masked(33, 1024);
    assert Padding(34, 1024) == 990;
    FormattedMounts(200, 0, 512, 1, 1024);
  }

  lemma StartOf200()
    ensures DataStart(200, 0, 512, 1) == 34
  {
    Half(300);
    assert FatBytes(Fat12, 200) == 303;
  }

  lemma Masked(r: nat, m: nat)
    requires m == 1024 && r < m
    ensures AndNot(m + r, m - 1) == m
  {
    assert PowerOfTwo(64);
    assert PowerOfTwo(1024);
    MaskRoundsDown(m + r, m);
    DivMod(1, r, m, m + r);
  }

  /** A block size that is no power of two: with blocks of five sectors the data area starts at sector 49. */
  lemma OtherBlocksMisaligned()
    ensures !PowerOfTwo(5)
    ensures Format(4000, 0, 512, 1, 5).Some? && Format(4000, 0, 512, 1, 5).value.1.database % 5 != 0
  {
    StartOf4000();
    Mask49();
    NotPower();
    MisalignedAt49();
  }

  lemma NotPower()
    ensures !PowerOfTwo(5)
  {
  }

  lemma StartOf4000()
    ensures DataStart(4000, 0, 512, 1) == 45
  {
    Half(6000);
    assert FatBytes(Fat12, 4000) == 6003;
  }

  lemma Mask49()
    ensures AndNot(49, 4) == 49
  {
    AndNotZero(6);
    assert AndNot(12, 1) == 12;
    assert AndNot(24, 2) == 24;
  }

  lemma MisalignedAt49()
    requires DataStart(4000, 0, 512, 1) == 45 && AndNot(49, 4) == 49
    ensures Format(4000, 0, 512, 1, 5).Some? && Format(4000, 0, 512, 1, 5).value.1.database == 49
  {
    hide AndNot, DataStart;
    assert Padding(45, 5) == 4;
  }

  /** What f_mkfs writes, in plain numbers. */
  lemma FormatIs(nVol: dword, bVol: dword, ss: nat, au: nat, eraseBlock: nat) returns (pad: nat)
    requires IsSectorSize(ss) && IsClusterSize(au)
    requires ClustersIn(nVol, au) < 0x3FFF_0000 && bVol + nVol + 32768 <= 0x1_0000_0000
    requires Format(nVol, bVol, ss, au, eraseBlock).Some?
    ensures pad < 32768
    ensures var (b, a) := Format(nVol, bVol, ss, au, eraseBlock).value;
            var ty := SubType(ClustersIn(nVol, au));
            var nFat0 := Sectors(FatBytes(ty, ClustersIn(nVol, au)), ss);
            var nRsv, nFat := Reserved(ty) + (if ty.Fat32? then pad else 0), nFat0 + (if ty.Fat32? then 0 else pad);
            var sys := nRsv + nFat + RootSectors(ty, ss);
            && b == Bpb(ss, au, U16(nRsv), N_FATS, if ty.Fat32? then 0 else N_ROOTDIR,
                        if nVol < 0x1_0000 then nVol else 0, if nVol < 0x1_0000 then 0 else nVol,
                        if ty.Fat32? then 0 else U16(nFat), if ty.Fat32? then nFat else 0)
            && a == Areas(ty, ClustersIn(U32(nVol - sys), au), bVol + nRsv, nFat, bVol + sys)
            && (ty.Fat16? ==> a.clusters >= MIN_FAT16) && (ty.Fat32? ==> a.clusters >= MIN_FAT32)
            && (PowerOfTwo(eraseBlock) && eraseBlock <= 32768 ==> a.database % eraseBlock == 0)
            && a.fatbase - bVol < 0x1_0000 && a.fsize < 0x200_0000
            && DataStart(nVol, bVol, ss, au) + Padding(DataStart(nVol, bVol, ss, au), BlockSize(eraseBlock)) == a.database
  {
    hide Sectors, FatBytes, SubType, RootSectors, Padding, U16, U32, ClustersIn, PowerOfTwo;
    var ty := SubType(ClustersIn(nVol, au));
    FatFits(ty, ClustersIn(nVol, au), ss);
    var bData := bVol + Reserved(ty) + Sectors(FatBytes(ty, ClustersIn(nVol, au)), ss) + RootSectors(ty, ss);
    var block := BlockSize(eraseBlock);
    NoWrap(nVol, bVol, bData, au);
    PaddingBound(bData, block);
    if PowerOfTwo(eraseBlock) {
      PowerPositive(eraseBlock);
      if eraseBlock <= 32768 { PaddingAligns(bData, block); }
    }
    pad := Padding(bData, block);
  }

  /** The size of the FAT is computed without overflow. */
  lemma FatFits(ty: FatType, n0: nat, ss: nat)
    requires IsSectorSize(ss) && n0 < 0x3FFF_0000
    ensures U32(FatBytes(ty, n0) + ss - 1) / ss == Sectors(FatBytes(ty, n0), ss)
    ensures Sectors(FatBytes(ty, n0), ss) < 0x100_0000 && RootSectors(ty, ss) <= 32
  {
    Quotients(FatBytes(ty, n0) + ss - 1, 0xFFFF_FFFF, ss);
  }

  /** A volume that is big enough for its tables holds them below the end of the drive. */
  lemma NoWrap(nVol: dword, bVol: dword, bData: nat, au: nat)
    requires bVol + nVol + 32768 <= 0x1_0000_0000 && au <= 128 && bVol <= bData < bVol + 0x200_0000
    ensures nVol >= U32(U32(bData) + au - bVol) ==> U32(bData) == bData && bData + au <= bVol + nVol
  {
  }

  /** The cluster count after the areas before the data have been taken off. */
  lemma Shrinks(nVol: dword, sys: nat, au: nat)
    requires au > 0 && nVol >= sys + au
    ensures U32(nVol - sys) == nVol - sys && 0 < ClustersIn(nVol - sys, au) <= ClustersIn(nVol, au)
  {
    Quotients(nVol - sys, nVol, au);
    Quotients(au, nVol - sys, au);
    DivMod(1, 0, au, au);
  }

  lemma NoneLeft(n: nat, au: nat)
    requires n < au
    ensures ClustersIn(n, au) == 0
  {
    DivMod(0, n, au, n);
  }

  lemma SubTypeKept(n0: nat, n: nat)
    requires n <= n0
    requires SubType(n0).Fat16? ==> n >= MIN_FAT16
    requires SubType(n0).Fat32? ==> n >= MIN_FAT32
    ensures SubType(n) == SubType(n0)
  {
  }

  /** The fields of the boot sector are wide enough. */
  lemma Widths(ty: FatType, n0: nat, ss: nat, pad: nat)
    requires IsSectorSize(ss) && ty == SubType(n0) && pad < 32768
    ensures Reserved(ty) + pad < 0x1_0000
    ensures var f := Sectors(FatBytes(ty, n0), ss); f > 0 && (!ty.Fat32? ==> f + pad < 0x1_0000)
  {
    if !ty.Fat32? {
      BytesMonotonic(ty, n0, MIN_FAT32);
      SectorsMonotonic(FatBytes(ty, n0), 200_000, ss);
    }
    SectorsMonotonic(1, FatBytes(ty, n0), ss);
  }

  /** What find_volume computes from the boot sector of f_mkfs. */
  lemma MountIs(nVol: dword, bVol: dword, ss: nat, au: nat, ty: FatType, nRsv: nat, nFat: nat)
    requires IsSectorSize(ss) && IsClusterSize(au) && nVol > 0 && 0 < nRsv < 0x1_0000 && 0 < nFat < 0x200_0000
    requires ClustersIn(nVol, au) < 0x3FFF_0000
    ensures var b := Bpb(ss, au, nRsv, N_FATS, if ty.Fat32? then 0 else N_ROOTDIR,
                         if nVol < 0x1_0000 then nVol else 0, if nVol < 0x1_0000 then 0 else nVol,
                         if ty.Fat32? then 0 else nFat, if ty.Fat32? then nFat else 0);
            var sys := nRsv + nFat + RootSectors(ty, ss);
            Mount(b, ss, bVol) ==
              if nVol < sys then None
              else
                var n := ClustersIn(nVol - sys, au);
                if n == 0 || SubType(n).Fat32? != ty.Fat32? || nFat < Sectors(NeededBytes(SubType(n), n + 2), ss) then None
                else Some(Areas(SubType(n), n, bVol + nRsv, nFat, bVol + sys))
  {
    hide SubType, NeededBytes, Sectors, ClustersIn, PowerOfTwo, U32, EntrySectors, WholeSectors, DirEntries, RootSectors;
    FatLayout.ClusterPower(au);
    RootEntries(ss);
    RootSize(ty, ss);
    var sys := nRsv + nFat + RootSectors(ty, ss);
    Fits(nFat);
    Fits(sys);
    if nVol >= sys {
      FewerClusters(nVol - sys, nVol, au);
      var n := ClustersIn(nVol - sys, au);
      NeededFits(SubType(n), n, ss);
    }
  }

  lemma FewerClusters(a: nat, b: nat, au: nat)
    requires au > 0 && a <= b
    ensures ClustersIn(a, au) <= ClustersIn(b, au)
  {
    Quotients(a, b, au);
  }

  /** Nothing wraps around for the FAT of a drive. */
  lemma NeededFits(ty: FatType, n: nat, ss: nat)
    requires IsSectorSize(ss) && n < 0x3FFF_0000
    ensures U32(U32(NeededBytes(ty, U32(n + 2))) + ss - 1) / ss == Sectors(NeededBytes(ty, n + 2), ss)
  {
    hide U32, Sectors;
    var x := NeededBytes(ty, n + 2);
    Fits(n + 2);
    Fits(x);
    Fits(x + ss - 1);
    SectorsAre(x, ss);
  }

  lemma Fits(x: int)
    ensures 0 <= x < 0x1_0000_0000 ==> U32(x) == x
  {
  }

  lemma SectorsAre(n: nat, ss: nat)
    requires ss > 0
    ensures Sectors(n, ss) == (n + ss - 1) / ss
  {
  }

  lemma RootEntries(ss: nat)
    requires IsSectorSize(ss)
    ensures WholeSectors(N_ROOTDIR, ss) && EntrySectors(N_ROOTDIR, ss) == N_ROOTDIR * SZ_DIRE / ss
    ensures WholeSectors(0, ss) && EntrySectors(0, ss) == 0
  {
  }

  lemma RootSize(ty: FatType, ss: nat)
    requires IsSectorSize(ss)
    ensures RootSectors(ty, ss) <= 32 && RootSectors(ty, ss) == if ty.Fat32? then 0 else N_ROOTDIR * SZ_DIRE / ss
  {
  }

  // ---------- in numbers ----------

  function TotalSectors(b: Bpb): nat { if b.totSec16 == 0 then b.totSec32 else b.totSec16 }

  function FatSize(b: Bpb): nat { if b.fatSz16 == 0 then b.fatSz32 else b.fatSz16 }

  /** Sectors of all the FAT copies a boot sector asks for. */
  function FatSectors(b: Bpb): nat { if b.numFats == 2 then FatSize(b) + FatSize(b) else FatSize(b) }

  /** The sub-type by the number of clusters. */
  function TypeOf(n: nat): FatType { if n < 4086 then Fat12 else if n < 65526 then Fat16 else Fat32 }

  /** Bytes the FAT of n clusters takes: 12, 16 or 32 bits for each and for two more. */
  function BytesFor(n: nat): nat {
    if n < 4086 then (3 * (n + 2) + 1) / 2 else if n < 65526 then 2 * (n + 2) else 4 * (n + 2)
  }

  /** What a boot sector must say to be accepted. */
  predicate Acceptable(b: Bpb, ss: nat)
    requires ss > 0
  {
    && b.bytsPerSec == ss && (b.numFats == 1 || b.numFats == 2) && b.secPerClus > 0 && PowerOfTwo(b.secPerClus)
    && b.rsvdSecCnt > 0 && b.rootEntCnt * 32 % ss == 0
    && TotalSectors(b) - SystemSectors(b, ss) >= b.secPerClus
    && (DataClusters(b, ss) >= 65526 <==> b.rootEntCnt == 0)
    && HasRoom(FatSize(b), ss, DataClusters(b, ss))
  }

  /** The number of clusters behind the system area. */
  function DataClusters(b: Bpb, ss: nat): nat
    requires ss > 0
  {
    if b.secPerClus > 0 && TotalSectors(b) >= SystemSectors(b, ss) then (TotalSectors(b) - SystemSectors(b, ss)) / b.secPerClus else 0
  }

  /** A FAT of this many sectors has room for n clusters. */
  predicate HasRoom(fsize: nat, ss: nat, n: nat) { fsize * ss >= BytesFor(n) }

  /** Sectors before the data area. */
  function SystemSectors(b: Bpb, ss: nat): nat
    requires ss > 0
  {
    b.rsvdSecCnt + FatSectors(b) + b.rootEntCnt * 32 / ss
  }

  /** The number of clusters in the data area, with the checks find_volume makes on it. */
  lemma CheckedClusters(b: Bpb, ss: nat)
    requires IsSectorSize(ss) && b.secPerClus > 0 && TotalSectors(b) / b.secPerClus < 0x3FFF_0000 && TotalSectors(b) >= SystemSectors(b, ss)
    ensures var data, n := TotalSectors(b) - SystemSectors(b, ss), DataClusters(b, ss);
            && ClustersIn(data, b.secPerClus) == n && (n == 0 <==> data < b.secPerClus)
            && SubType(n) == TypeOf(n) && (TypeOf(n).Fat32? <==> n >= 65526)
            && (FatSize(b) < U32(U32(NeededBytes(SubType(n), U32(n + 2))) + ss - 1) / ss <==> !HasRoom(FatSize(b), ss, n))
  {
    hide NeededBytes, SubType, U32, TypeOf, BytesFor, Sectors, SystemSectors, TotalSectors, FatSize;
    var data, n := TotalSectors(b) - SystemSectors(b, ss), DataClusters(b, ss);
    Quotients(data, TotalSectors(b), b.secPerClus);
    ClustersAre(data, b.secPerClus);
    SubTypeIs(n);
    NeededFits(SubType(n), n, ss);
    RoomFor(FatSize(b), BytesFor(n), ss);
  }

  /** find_volume accepts just these boot sectors, with the sub-type the number of clusters gives and the areas one
      behind the other. */
  lemma AcceptedExactly(b: Bpb, ss: nat, bsect: dword)
    requires IsSectorSize(ss) && SystemSectors(b, ss) < 0x1_0000_0000 && b.rootEntCnt < 0x1_0000
    requires b.secPerClus > 0 ==> TotalSectors(b) / b.secPerClus < 0x3FFF_0000 // no sum overflows
    ensures Mount(b, ss, bsect).Some? <==> Acceptable(b, ss)
    ensures Acceptable(b, ss) ==>
              Mount(b, ss, bsect) == Some(Areas(TypeOf(DataClusters(b, ss)), DataClusters(b, ss), bsect + b.rsvdSecCnt, FatSize(b),
                                                bsect + SystemSectors(b, ss)))
  {
    hide PowerOfTwo, NeededBytes, SubType, U32, TypeOf, BytesFor, EntrySectors, WholeSectors, ClustersIn, Sectors, HasRoom, DataClusters;
    RootInNumbers(b.rootEntCnt, ss);
    Fits(FatSectors(b));
    Fits(SystemSectors(b, ss));
    if b.secPerClus > 0 && TotalSectors(b) >= SystemSectors(b, ss) { CheckedClusters(b, ss); }
  }

  /** A mounted volume is of FAT12 exactly with fewer than 4086 clusters, and of FAT32 exactly with 65526 or more. */
  lemma MountedSubType(b: Bpb, ss: nat, bsect: dword)
    requires IsSectorSize(ss) && Mount(b, ss, bsect).Some?
    ensures var a := Mount(b, ss, bsect).value;
            && (a.fsType.Fat12? <==> a.clusters < 4086)
            && (a.fsType.Fat32? <==> a.clusters >= 65526)
            && (a.fsType.Fat32? <==> b.rootEntCnt == 0)
  {
    hide PowerOfTwo, NeededBytes, U32;
  }

  lemma RootInNumbers(n: nat, ss: nat)
    requires IsSectorSize(ss)
    ensures WholeSectors(n, ss) <==> n * 32 % ss == 0
    ensures EntrySectors(n, ss) == n * 32 / ss
  {
    var d := DirEntries(ss);
    assert ss == 32 * d;
    var q, r := n / d, n % d;
    DivMod(q, 32 * r, ss, 32 * n);
  }

  lemma ClustersAre(n: nat, au: nat)
    requires au > 0
    ensures ClustersIn(n, au) == n / au && (n / au == 0 <==> n < au)
  {
    if n < au { DivMod(0, n, au, n); } else { Quotients(au, n, au); DivMod(1, 0, au, au); }
  }

  lemma SubTypeIs(n: nat)
    ensures SubType(n) == TypeOf(n) && (SubType(n).Fat32? <==> n >= 65526) && NeededBytes(SubType(n), n + 2) == BytesFor(n)
  {
    if n < 4086 { if n % 2 == 0 { Even12(n / 2); } else { Odd12(n / 2); } }
  }

  /** A FAT has enough sectors when it has enough bytes. */
  lemma RoomFor(fsize: nat, bytes: nat, ss: nat)
    requires IsSectorSize(ss)
    ensures fsize >= Sectors(bytes, ss) <==> fsize * ss >= bytes
  {
  }

  /** Sectors of one FAT for n clusters. */
  function FatOf(n: nat, ss: nat): nat
    requires ss > 0
  {
    (BytesFor(n) + ss - 1) / ss
  }

  /** Sectors before the data, not aligned yet: boot sectors, FAT and 512 root directory entries but on FAT32. */
  function Unaligned(n: nat, ss: nat): nat
    requires ss > 0
  {
    if n >= 65526 then 32 + FatOf(n, ss) else 1 + FatOf(n, ss) + 16384 / ss
  }

  /** The sector the data of a volume start at before they are aligned, in numbers. */
  lemma UnalignedIs(nVol: dword, bVol: dword, ss: nat, au: nat)
    requires IsSectorSize(ss) && IsClusterSize(au) && nVol / au < 0x3FFF_0000 && bVol + nVol + 32768 <= 0x1_0000_0000
    ensures var n := nVol / au;
            && SubType(ClustersIn(nVol, au)) == TypeOf(n) && (TypeOf(n).Fat32? <==> n >= 65526)
            && U32(FatBytes(TypeOf(n), n) + ss - 1) / ss == Sectors(FatBytes(TypeOf(n), n), ss) == FatOf(n, ss) < 0x100_0000
            && DataStart(nVol, bVol, ss, au) == U32(bVol + Unaligned(n, ss))
  {
    hide TypeOf, BytesFor, FatBytes, SubType, U32, Sectors, NeededBytes;
    var n := nVol / au;
    ClustersAre(nVol, au);
    SubTypeIs(n);
    SameBytes(TypeOf(n), n);
    FatFits(TypeOf(n), n, ss);
    SectorsAre(BytesFor(n), ss);
  }

  /** f_mkfs gives up if and only if the unaligned start of the data leaves no room for a cluster, or the padding takes so
      much that there are too few clusters for the sub-type. */
  lemma FormattedExactly(nVol: dword, bVol: dword, ss: nat, au: nat, eraseBlock: nat)
    requires IsSectorSize(ss) && IsClusterSize(au) && nVol / au < 0x3FFF_0000 && bVol + nVol + 32768 <= 0x1_0000_0000
    ensures var n0 := nVol / au;
            var pad := Padding(U32(bVol + Unaligned(n0, ss)), if 1 <= eraseBlock <= 32768 then eraseBlock else 1);
            var n := U32(nVol - Unaligned(n0, ss) - pad) / au;
            Format(nVol, bVol, ss, au, eraseBlock).Some? <==>
              Unaligned(n0, ss) + au <= nVol && (n0 >= 4086 ==> n >= 4086) && (n0 >= 65526 ==> n >= 65526)
  {
    hide TypeOf, BytesFor, FatBytes, U32, Padding, FatOf, DataStart;
    UnalignedIs(nVol, bVol, ss, au);
    ClustersAre(nVol, au);
    RoomTest(nVol, bVol, Unaligned(nVol / au, ss), au);
  }

  lemma RoomTest(nVol: dword, bVol: dword, start: nat, au: nat)
    requires bVol + nVol + 32768 <= 0x1_0000_0000 && 0 < au <= 128 && start < 0x200_0000
    ensures nVol < U32(U32(bVol + start) + au - bVol) <==> start + au > nVol
  {
  }

  /** The boot sector f_mkfs writes, in numbers. */
  lemma FormatInNumbers(nVol: dword, bVol: dword, ss: nat, au: nat, eraseBlock: nat)
    requires IsSectorSize(ss) && IsClusterSize(au) && nVol / au < 0x3FFF_0000 && bVol + nVol + 32768 <= 0x1_0000_0000
    requires Format(nVol, bVol, ss, au, eraseBlock).Some?
    ensures var (b, a) := Format(nVol, bVol, ss, au, eraseBlock).value;
            var n0 := nVol / au;
            var pad := Padding(U32(bVol + Unaligned(n0, ss)), if 1 <= eraseBlock <= 32768 then eraseBlock else 1);
            var small, large := if nVol < 65536 then nVol else 0, if nVol < 65536 then 0 else nVol;
            && b == (if n0 >= 65526 then Bpb(ss, au, 32 + pad, 1, 0, small, large, 0, FatOf(n0, ss))
                     else Bpb(ss, au, 1, 1, 512, small, large, FatOf(n0, ss) + pad, 0))
            && a.fsType == TypeOf(n0) && a.fatbase == bVol + b.rsvdSecCnt && a.database == bVol + Unaligned(n0, ss) + pad
  {
    hide TypeOf, BytesFor, FatBytes, U32, U16, Padding, FatOf, Sectors, Format, DataStart;
    var n0 := nVol / au;
    UnalignedIs(nVol, bVol, ss, au);
    ClustersAre(nVol, au);
    var pad := FormatIs(nVol, bVol, ss, au, eraseBlock);
    Widths(TypeOf(n0), n0, ss, pad);
    FormattedExactly(nVol, bVol, ss, au, eraseBlock);
    Fits(bVol + Unaligned(n0, ss));
    FitsWord(Reserved(TypeOf(n0)) + if TypeOf(n0).Fat32? then pad else 0);
    FitsWord(FatOf(n0, ss) + pad);
  }

  lemma FitsWord(x: nat)
    ensures x < 0x1_0000 ==> U16(x) == x
  {
  }

  // ---------- the mounted volume ----------

  /** The geometry of a mounted volume, on a drive with this many sectors. */
  function GeometryOf(b: Bpb, ss: nat, a: Areas, sectors: nat): Geometry {
    Geometry(ss, a.fsType, b.secPerClus, b.numFats, a.clusters + 2, a.fsize, a.fatbase, a.database, sectors)
  }

  /** The areas the boot sector claims lie on the drive. */
  predicate OnDrive(b: Bpb, ss: nat, bsect: dword, sectors: nat)
    requires IsSectorSize(ss)
  {
    && bsect + TotalSectors(b) <= sectors <= 0x1_0000_0000 && b.secPerClus < 256
    && b.rsvdSecCnt + FatSize(b) + FatSize(b) + EntrySectors(b.rootEntCnt, ss) < 0x1_0000_0000
  }

  /** The cluster numbers of a boot sector without root directory entries, that is of FAT32, run into the
      end-of-chain marks. */
  predicate ReachesMarks(b: Bpb) {
    b.rootEntCnt == 0 && b.secPerClus > 0 && (TotalSectors(b) - b.rsvdSecCnt - FatSectors(b)) / b.secPerClus >= 0x0FFF_FFFD
  }

  /** What find_volume accepts is the geometry every file operation relies on, if and only if the boot sector
      has fewer clusters than lie below the end-of-chain marks; find_volume makes sure of that on FAT12 and
      FAT16 but not on FAT32. */
  lemma MountedGeometry(b: Bpb, ss: nat, bsect: dword, sectors: nat)
    requires IsSectorSize(ss) && Mount(b, ss, bsect).Some? && OnDrive(b, ss, bsect, sectors)
    ensures var g := GeometryOf(b, ss, Mount(b, ss, bsect).value, sectors);
            && (g.WellFormed() <==> !ReachesMarks(b))
            && (!g.fsType.Fat32? ==> g.WellFormed())
  {
    hide Mount, PowerOfTwo, Geometry.WellFormed, OnDrive;
    var a := Mount(b, ss, bsect).value;
    var g := GeometryOf(b, ss, a, sectors);
    Accepted(b, ss, bsect, sectors);
    MarksAbove(a.fsType, a.clusters);
    MarksReached(b, ss, bsect, sectors);
    if g.nFatent < g.EndMark() {
      ClusterSizes(b.secPerClus);
      NeededFits(a.fsType, a.clusters, ss);
      LaidOut(g, TotalSectors(b) - (a.database - bsect), a.clusters);
    }
    BelowMarks(g);
  }

  /** The clusters find_volume counts reach the end-of-chain marks when those of the boot sector do. */
  lemma MarksReached(b: Bpb, ss: nat, bsect: dword, sectors: nat)
    requires IsSectorSize(ss) && Mount(b, ss, bsect).Some? && OnDrive(b, ss, bsect, sectors)
    ensures var a := Mount(b, ss, bsect).value;
            ReachesMarks(b) <==> a.fsType.Fat32? && a.clusters + 2 >= 0x0FFF_FFFF
  {
    hide PowerOfTwo, NeededBytes, SubType, U32;
    RootEntries(ss);
    Fits(FatSectors(b));
    Fits(b.rsvdSecCnt + FatSectors(b) + EntrySectors(b.rootEntCnt, ss));
  }

  /** A FAT32 boot sector that find_volume accepts though its last cluster numbers are end-of-chain marks. */
  lemma BeyondMarks()
    ensures var b := Bpb(512, 1, 32, 1, 0, 0, 32 + 0x20_1000 + 0x1000_0000, 0, 0x20_1000);
            var m := Mount(b, 512, 0);
            && m.Some? && OnDrive(b, 512, 0, 0x2000_0000) && ReachesMarks(b)
            && GeometryOf(b, 512, m.value, 0x2000_0000).nFatent >= GeometryOf(b, 512, m.value, 0x2000_0000).EndMark()
  {
    assert ClustersIn(0x1000_0000, 1) == 0x1000_0000;
    assert NeededBytes(Fat32, 0x1000_0002) == 0x4000_0008;
  }

  lemma BelowMarks(g: Geometry)
    ensures g.WellFormed() ==> g.nFatent < g.EndMark()
  {
  }

  lemma MarksAbove(ty: FatType, n: nat)
    requires SubType(n) == ty
    ensures ty.Fat12? ==> n + 2 < 0xFFF
    ensures ty.Fat16? ==> n + 2 < 0xFFFF
  {
  }

  lemma ClusterSizes(n: nat)
    requires PowerOfTwo(n) && n < 256
    ensures IsClusterSize(n)
  {
    if n > 128 {
      Halved(n);
      SmallPower(n / 2);
    } else {
      SmallPower(n);
    }
  }

  /** What find_volume has checked when it accepts a boot sector. */
  lemma Accepted(b: Bpb, ss: nat, bsect: dword, sectors: nat)
    requires IsSectorSize(ss) && Mount(b, ss, bsect).Some? && OnDrive(b, ss, bsect, sectors)
    ensures var a := Mount(b, ss, bsect).value;
            var sys := a.database - bsect;
            && 1 <= b.numFats <= 2 && PowerOfTwo(b.secPerClus) && 0 < b.secPerClus < 256
            && a.fsize == FatSize(b) && a.fatbase == bsect + b.rsvdSecCnt && b.rsvdSecCnt > 0
            && 0 <= sys <= TotalSectors(b) && bsect + TotalSectors(b) <= sectors <= 0x1_0000_0000
            && a.fatbase + FatSectors(b) <= a.database
            && a.clusters == ClustersIn(TotalSectors(b) - sys, b.secPerClus) > 0 && SubType(a.clusters) == a.fsType
            && a.fsize >= U32(U32(NeededBytes(a.fsType, U32(a.clusters + 2))) + ss - 1) / ss
  {
    hide PowerOfTwo, NeededBytes, SubType, ClustersIn, U32, EntrySectors, WholeSectors, DirEntries;
    Fits(FatSectors(b));
    Fits(b.rsvdSecCnt + FatSectors(b) + EntrySectors(b.rootEntCnt, ss));
  }

  /** The areas of a geometry with room for `n` clusters in `data` sectors and for their entries in the FAT. */
  lemma LaidOut(g: Geometry, data: nat, n: nat)
    requires IsSectorSize(g.ss) && IsClusterSize(g.csize) && 1 <= g.nFats <= 2 && g.nFatent == n + 2
    requires 0 < n == ClustersIn(data, g.csize) && g.nFatent < g.EndMark() && 1 <= g.fatbase
    requires g.fatbase + g.FatArea() <= g.database && g.database + data <= g.sectors <= 0x1_0000_0000
    requires g.fsize >= Sectors(NeededBytes(g.fsType, n + 2), g.ss)
    ensures g.WellFormed()
  {
    hide IsSectorSize, IsClusterSize, Sectors;
    EntryBytes(g);
    forall c: nat | 2 <= c < g.nFatent ensures g.ClusterSector(c) + g.csize <= g.sectors {
      ClusterInside(data, g.csize, c);
    }
    forall i: nat | 0 <= i < g.FatBytes() ensures g.ss > 0 && g.FatSector(i) < g.fatbase + g.fsize {
      EntryInside(g.FatBytes(), g.ss, g.fsize, i);
    }
  }

  lemma EntryBytes(g: Geometry)
    requires IsSectorSize(g.ss) && IsClusterSize(g.csize)
    ensures g.FatBytes() == NeededBytes(g.fsType, g.nFatent) && g.ss > 0 && g.csize > 0
  {
    if g.nFatent % 2 == 0 { Half(3 * (g.nFatent / 2)); } else { Half(3 * (g.nFatent / 2) + 1); Half(3 * (g.nFatent / 2) + 2); }
  }

  lemma ClusterInside(data: nat, csize: nat, c: nat)
    requires csize > 0 && 2 <= c < ClustersIn(data, csize) + 2
    ensures (c - 2) * csize + csize <= data
  {
    Higher(c - 1, data / csize, csize);
    assert (c - 1) * csize == (c - 2) * csize + csize;
  }

  lemma EntryInside(n: nat, ss: nat, fsize: nat, i: nat)
    requires IsSectorSize(ss) && i < n && Sectors(n, ss) <= fsize
    ensures i / ss < fsize
  {
    SectorsHold(n, ss);
    Higher(Sectors(n, ss), fsize, ss);
    Higher(if i / ss < fsize then i / ss else fsize, i / ss, ss);
  }

  /** A formatted volume that mounts has the geometry the file operations rely on. */
  lemma FormattedGeometry(nVol: dword, bVol: dword, ss: nat, au: nat, eraseBlock: nat)
    requires IsSectorSize(ss) && IsClusterSize(au) && nVol > 0
    requires ClustersIn(nVol, au) < 0xFFF_FFFD && bVol + nVol + 32768 <= 0x1_0000_0000
    requires Format(nVol, bVol, ss, au, eraseBlock).Some? && LeavesCluster(nVol, bVol, ss, au, eraseBlock)
    ensures var (b, a) := Format(nVol, bVol, ss, au, eraseBlock).value;
            Mount(b, ss, bVol) == Some(a) && GeometryOf(b, ss, a, bVol + nVol).WellFormed()
  {
    hide Mount, PowerOfTwo, Geometry.WellFormed, Format, DataStart, Padding, SubType, U32, ClustersIn, FatBytes, Sectors;
    var (b, a) := Format(nVol, bVol, ss, au, eraseBlock).value;
    FormattedMounts(nVol, bVol, ss, au, eraseBlock);
    var pad := FormatIs(nVol, bVol, ss, au, eraseBlock);
    Shrinks(nVol, a.database - bVol, au);
    FormattedFits(b, ss, nVol, bVol, a);
    MarksReached(b, ss, bVol, bVol + nVol);
    MountedGeometry(b, ss, bVol, bVol + nVol);
  }

  lemma FormattedFits(b: Bpb, ss: nat, nVol: dword, bVol: dword, a: Areas)
    requires IsSectorSize(ss) && IsClusterSize(b.secPerClus) && bVol + nVol <= 0x1_0000_0000 && nVol > 0
    requires b.totSec16 == (if nVol < 0x1_0000 then nVol else 0) && b.totSec32 == (if nVol < 0x1_0000 then 0 else nVol)
    requires b.rsvdSecCnt < 0x1_0000 && FatSize(b) < 0x200_0000 && b.rootEntCnt <= N_ROOTDIR
    ensures OnDrive(b, ss, bVol, bVol + nVol)
  {
    if ss == 512 { assert b.rootEntCnt / 16 <= N_ROOTDIR; }
  }
}
