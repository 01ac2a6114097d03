/** The packed FAT12/16/32 entry codec on top of the sector window. */
module FatEntry {
  import opened FatVolume

  // ---------- the table as a run of bytes ----------

  /** LD_WORD. */
  function Word(lo: byte, hi: byte): nat { lo + 0x100 * hi }

  /** LD_DWORD. */
  function Dword(b0: byte, b1: byte, b2: byte, b3: byte): dword { Word(b0, b1) + 0x1_0000 * Word(b2, b3) }

  /** The two bytes a FAT12 entry touches hold it and one nibble of a neighbour. */
  function Unpack12(c: nat, lo: byte, hi: byte): (r: nat)
    ensures r < 0x1000
  {
    if c % 2 == 1 then Word(lo, hi) / 0x10 else Word(lo, hi) % 0x1000
  }

  /** Position of the first byte of entry c. */
  function At(ty: FatType, c: nat): nat {
    match ty
    case Fat12 => c + c / 2
    case Fat16 => 2 * c
    case Fat32 => 4 * c
  }

  /** Number of bytes an entry touches. */
  function Width(ty: FatType): nat { if ty.Fat32? then 4 else 2 }

  predicate HasEntry(ty: FatType, bs: seq<byte>, c: nat) { At(ty, c) + Width(ty) <= |bs| }

  /** All four bytes of a FAT32 entry, the reserved top four bits included. */
  function Raw32(bs: seq<byte>, c: nat): dword
    requires HasEntry(Fat32, bs, c)
  {
    Dword(bs[4 * c], bs[4 * c + 1], bs[4 * c + 2], bs[4 * c + 3])
  }

  /** The value entry c holds, as the on-disk format defines it. */
  function Entry(ty: FatType, bs: seq<byte>, c: nat): nat
    requires HasEntry(ty, bs, c)
  {
    match ty
    case Fat12 => Unpack12(c, bs[c + c / 2], bs[c + c / 2 + 1])
    case Fat16 => Word(bs[2 * c], bs[2 * c + 1])
    case Fat32 => Raw32(bs, c) % 0x1000_0000
  }

  /** Two FAT12 entries lie in three bytes, low digits first. */
  lemma Pair12(bs: seq<byte>, k: nat)
    requires 3 * k + 3 <= |bs|
    ensures HasEntry(Fat12, bs, 2 * k) && HasEntry(Fat12, bs, 2 * k + 1)
    ensures Entry(Fat12, bs, 2 * k) + 0x1000 * Entry(Fat12, bs, 2 * k + 1) == LittleEndian(bs[3 * k..3 * k + 3])
  {
    var lo: nat, mid: nat, hi: nat := bs[3 * k], bs[3 * k + 1], bs[3 * k + 2];
    assert Word(lo, mid) % 0x1000 == lo + 0x100 * (mid % 0x10);
    assert Word(mid, hi) / 0x10 == mid / 0x10 + 0x10 * hi;
    Digits3(bs[3 * k..3 * k + 3]);
  }

  /** A FAT16 entry is two bytes, a FAT32 entry 28 bits of four, low byte first. */
  lemma WideEntries(bs: seq<byte>, c: nat)
    ensures 2 * c + 2 <= |bs| ==> HasEntry(Fat16, bs, c) && Entry(Fat16, bs, c) == LittleEndian(bs[2 * c..2 * c + 2])
    ensures 4 * c + 4 <= |bs| ==> HasEntry(Fat32, bs, c) && Entry(Fat32, bs, c) == LittleEndian(bs[4 * c..4 * c + 4]) % 0x1000_0000
  {
    if 2 * c + 2 <= |bs| { Digits3(bs[2 * c..2 * c + 2]); }
    if 4 * c + 4 <= |bs| {
      Digits3(bs[4 * c..4 * c + 4][1..]);
      assert Raw32(bs, c) == LittleEndian(bs[4 * c..4 * c + 4]);
    }
  }

  /** A number in digits of a byte, low byte first. */
  function LittleEndian(d: seq<byte>): nat { if d == [] then 0 else d[0] + 0x100 * LittleEndian(d[1..]) }

  lemma Digits3(d: seq<byte>)
    requires 2 <= |d| <= 3
    ensures LittleEndian(d) == Word(d[0], d[1]) + if |d| == 3 then Word(0, d[2]) * 0x100 else 0
  {
    assert d[1..][1..] == d[2..];
    if |d| == 3 { assert d[2..][1..] == []; } else { assert d[2..] == []; }
  }

  /** One value per cluster number. */
  ghost function Table(ty: FatType, bs: seq<byte>, n: nat): (t: seq<nat>)
    requires forall c :: 0 <= c < n ==> HasEntry(ty, bs, c)
    ensures |t| == n
  {
    seq(n, c requires 0 <= c < n => Entry(ty, bs, c))
  }

  // ---------- the bytes put_fat stores ----------

  function LowByte12(c: nat, val: dword, was: byte): byte {
    if c % 2 == 1 then was % 0x10 + (val % 0x10) * 0x10 else val % 0x100
  }

  function HighByte12(c: nat, val: dword, was: byte): byte {
    if c % 2 == 1 then val / 0x10 % 0x100 else was / 0x10 * 0x10 + val / 0x100 % 0x10
  }

  /** The reserved bits of a stored FAT32 entry: those of the value or-ed with those already there. */
  function TopBits(val: dword, was: dword): nat {
    ((val / 0x1000_0000) as bv4 | (was / 0x1000_0000) as bv4) as nat
  }

  function Store32(val: dword, was: dword): dword {
    val % 0x1000_0000 + 0x1000_0000 * TopBits(val, was)
  }

  /** The bytes of the table after put_fat. */
  function Stored(ty: FatType, bs: seq<byte>, c: nat, val: dword): (r: seq<byte>)
    requires HasEntry(ty, bs, c)
    ensures |r| == |bs|
  {
    var i := At(ty, c);
    match ty
    case Fat12 => bs[i := LowByte12(c, val, bs[i])][i + 1 := HighByte12(c, val, bs[i + 1])]
    case Fat16 => bs[i := val % 0x100][i + 1 := val / 0x100 % 0x100]
    case Fat32 => PutDword(bs, i, Store32(val, Raw32(bs, c)))
  }

  /** ST_DWORD. */
  function PutDword(bs: seq<byte>, i: nat, w: dword): (r: seq<byte>)
    requires i + 4 <= |bs|
    ensures |r| == |bs|
  {
    bs[i := w % 0x100][i + 1 := w / 0x100 % 0x100][i + 2 := w / 0x1_0000 % 0x100][i + 3 := w / 0x100_0000]
  }

  /** The part of a value that an entry has room for. */
  function Cut(ty: FatType, val: dword): nat {
    match ty
    case Fat12 => val % 0x1000
    case Fat16 => val % 0x1_0000
    case Fat32 => val % 0x1000_0000
  }

  /** Storing a value changes entry c to the value cut to the entry's width, and no other entry. */
  lemma StoredTable(ty: FatType, bs: seq<byte>, c: nat, val: dword, n: nat)
    requires c < n && forall d :: 0 <= d < n ==> HasEntry(ty, bs, d)
    ensures forall d :: 0 <= d < n ==> HasEntry(ty, Stored(ty, bs, c, val), d)
    ensures Table(ty, Stored(ty, bs, c, val), n) == Table(ty, bs, n)[c := Cut(ty, val)]
  {
    forall d | 0 <= d < n
      ensures HasEntry(ty, Stored(ty, bs, c, val), d)
      ensures Entry(ty, Stored(ty, bs, c, val), d) == if d == c then Cut(ty, val) else Entry(ty, bs, d)
    {
      assert HasEntry(ty, bs, c) && HasEntry(ty, bs, d);
      StoredEntry(ty, bs, c, val, d);
    }
  }

  lemma StoredEntry(ty: FatType, bs: seq<byte>, c: nat, val: dword, d: nat)
    requires HasEntry(ty, bs, c) && HasEntry(ty, bs, d)
    ensures Entry(ty, Stored(ty, bs, c, val), d) == if d == c then Cut(ty, val) else Entry(ty, bs, d)
  {
    match ty
    case Fat12 => Stored12(bs, c, val, d);
    case Fat16 => Stored16(bs, c, val, d);
    case Fat32 => Stored32(bs, c, val, d);
  }

  lemma Stored12(bs: seq<byte>, c: nat, val: dword, d: nat)
    requires HasEntry(Fat12, bs, c) && HasEntry(Fat12, bs, d)
    ensures Entry(Fat12, Stored(Fat12, bs, c, val), d) == if d == c then val % 0x1000 else Entry(Fat12, bs, d)
  {
    var lo, hi := bs[c + c / 2], bs[c + c / 2 + 1];
    if c % 2 == 1 {
      JoinOdd(c, val, lo, hi);
      if d + 1 == c { HalfByte(d, bs[d + d / 2], lo, LowByte12(c, val, lo)); }
    } else {
      JoinEven(c, val, lo, hi);
      if d == c + 1 { HalfByte(d, bs[d + d / 2 + 1], hi, HighByte12(c, val, hi)); }
    }
  }

  /** Half of one of its two bytes never decides an entry's value. */
  lemma HalfByte(d: nat, full: byte, half: byte, other: byte)
    ensures d % 2 == 0 && half % 0x10 == other % 0x10 ==> Unpack12(d, full, half) == Unpack12(d, full, other)
    ensures d % 2 == 1 && half / 0x10 == other / 0x10 ==> Unpack12(d, half, full) == Unpack12(d, other, full)
  {
    if d % 2 == 1 {
      assert Word(half, full) / 0x10 == half / 0x10 + 0x10 * full;
      assert Word(other, full) / 0x10 == other / 0x10 + 0x10 * full;
    } else {
      assert Word(full, half) % 0x1000 == full + 0x100 * (half % 0x10);
      assert Word(full, other) % 0x1000 == full + 0x100 * (other % 0x10);
    }
  }

  /** Odd entries: the low nibble of the first byte is the neighbour's. */
  lemma JoinOdd(c: nat, val: dword, lo: byte, hi: byte)
    requires c % 2 == 1
    ensures var l, h := LowByte12(c, val, lo), HighByte12(c, val, hi);
            Word(l, h) / 0x10 == val % 0x1000 && l % 0x10 == lo % 0x10
  {
    var n, h, k := val % 0x10, val / 0x10 % 0x100, val / 0x10 / 0x100;
    assert val == n + 0x10 * h + 0x1000 * k;
    Remainder(n + 0x10 * h, k, 0x1000, val);
    Remainder(lo % 0x10, n + 0x10 * h, 0x10, lo % 0x10 + n * 0x10 + 0x100 * h);
    Remainder(lo % 0x10, n, 0x10, lo % 0x10 + n * 0x10);
  }

  /** Even entries: the high nibble of the second byte is the neighbour's. */
  lemma JoinEven(c: nat, val: dword, lo: byte, hi: byte)
    requires c % 2 == 0
    ensures var l, h := LowByte12(c, val, lo), HighByte12(c, val, hi);
            Word(l, h) % 0x1000 == val % 0x1000 && h / 0x10 == hi / 0x10
  {
    var l, m, k := val % 0x100, val / 0x100 % 0x10, val / 0x100 / 0x10;
    assert val == l + 0x100 * m + 0x1000 * k;
    Remainder(l + 0x100 * m, k, 0x1000, val);
    Remainder(l + 0x100 * m, hi / 0x10, 0x1000, Word(l, hi / 0x10 * 0x10 + m));
    Remainder(m, hi / 0x10, 0x10, hi / 0x10 * 0x10 + m);
  }

  /** Quotient and remainder are determined by the division equation. */
  lemma Remainder(r: nat, q: nat, m: nat, x: nat)
    requires (m == 0x10 || m == 0x1000) && r < m && x == r + m * q
    ensures x % m == r && x / m == q
  {
  }

  lemma Stored16(bs: seq<byte>, c: nat, val: dword, d: nat)
    requires HasEntry(Fat16, bs, c) && HasEntry(Fat16, bs, d)
    ensures Entry(Fat16, Stored(Fat16, bs, c, val), d) == if d == c then val % 0x1_0000 else Entry(Fat16, bs, d)
  {
    assert Word(val % 0x100, val / 0x100 % 0x100) == val % 0x1_0000;
  }

  lemma Stored32(bs: seq<byte>, c: nat, val: dword, d: nat)
    requires HasEntry(Fat32, bs, c) && HasEntry(Fat32, bs, d)
    ensures Raw32(Stored(Fat32, bs, c, val), d) == if d == c then Store32(val, Raw32(bs, c)) else Raw32(bs, d)
    ensures Entry(Fat32, Stored(Fat32, bs, c, val), d) == if d == c then val % 0x1000_0000 else Entry(Fat32, bs, d)
  {
    PutDwordRaw(bs, c, Store32(val, Raw32(bs, c)), d);
    LowBits(val % 0x1000_0000, TopBits(val, Raw32(bs, c)));
  }

  lemma LowBits(low: nat, top: nat)
    requires low < 0x1000_0000
    ensures (low + 0x1000_0000 * top) % 0x1000_0000 == low
    ensures (low + 0x1000_0000 * top) / 0x1000_0000 == top
  {
  }

  lemma PutDwordRaw(bs: seq<byte>, c: nat, w: dword, d: nat)
    requires HasEntry(Fat32, bs, c) && HasEntry(Fat32, bs, d)
    ensures Raw32(PutDword(bs, 4 * c, w), d) == if d == c then w else Raw32(bs, d)
  {
    Bytes32(w);
  }

  lemma Bytes32(w: dword)
    ensures Word(w % 0x100, w / 0x100 % 0x100) + 0x1_0000 * Word(w / 0x1_0000 % 0x100, w / 0x100_0000) == w
  {
    assert w == w % 0x100 + 0x100 * (w / 0x100);
    assert w / 0x100 == w / 0x100 % 0x100 + 0x100 * (w / 0x1_0000);
    assert w / 0x1_0000 == w / 0x1_0000 % 0x100 + 0x100 * (w / 0x100_0000);
  }

  /** A 28-bit value keeps the four reserved bits of every FAT32 entry as they were. */
  lemma TopBitsKept(bs: seq<byte>, c: nat, val: dword, d: nat)
    requires HasEntry(Fat32, bs, c) && HasEntry(Fat32, bs, d) && val < 0x1000_0000
    ensures Raw32(Stored(Fat32, bs, c, val), d) / 0x1000_0000 == Raw32(bs, d) / 0x1000_0000
  {
    Stored32(bs, c, val, d);
    var top := (Raw32(bs, c) / 0x1000_0000) as bv4;
    assert 0 as bv4 | top == top;
  }

  // ---------- the table in the FAT area of the drive ----------

  ghost predicate IsImage(g: Geometry, log: seq<seq<byte>>) {
    g.WellFormed() && |log| == g.sectors && forall s :: 0 <= s < |log| ==> |log[s]| == g.ss
  }

  /** The bytes of the first FAT copy. */
  ghost function Flat(g: Geometry, log: seq<seq<byte>>): (bs: seq<byte>)
    requires IsImage(g, log)
    ensures |bs| == g.FatBytes()
  {
    seq(g.FatBytes(), i requires 0 <= i < g.FatBytes() => log[g.FatSector(i)][g.FatOffset(i)])
  }

  /** The FAT of a volume image. */
  ghost function Fat(g: Geometry, log: seq<seq<byte>>): (t: seq<nat>)
    requires IsImage(g, log)
    ensures |t| == g.nFatent
  {
    Table(g.fsType, Flat(g, log), g.nFatent)
  }

  /** Every byte of the table has its own place in the FAT area. */
  lemma BytePlace(g: Geometry, i: nat)
    requires g.WellFormed() && i < g.FatBytes()
    ensures g.InFat(g.FatSector(i)) && g.FatOffset(i) < g.ss
  {
  }

  lemma PlaceInjective(g: Geometry, i: nat, j: nat)
    requires g.ss > 0 && g.FatSector(i) == g.FatSector(j) && g.FatOffset(i) == g.FatOffset(j)
    ensures i == j
  {
    assert i == i / g.ss * g.ss + i % g.ss && j == j / g.ss * g.ss + j % g.ss;
  }

  /** Storing into the sector buffer stores one byte of the table. */
  lemma SetByte(g: Geometry, a: seq<seq<byte>>, b: seq<seq<byte>>, i: nat, v: byte)
    requires IsImage(g, a) && IsImage(g, b) && i < g.FatBytes()
    requires forall s :: g.InFat(s) && s != g.FatSector(i) ==> b[s] == a[s]
    requires b[g.FatSector(i)] == a[g.FatSector(i)][g.FatOffset(i) := v]
    ensures Flat(g, b) == Flat(g, a)[i := v]
  {
    hide Geometry.FatSector, Geometry.FatOffset, Geometry.FatBytes;
    BytePlace(g, i);
    forall j | 0 <= j < g.FatBytes()
      ensures Flat(g, b)[j] == Flat(g, a)[i := v][j]
    {
      BytePlace(g, j);
      if g.FatSector(i) == g.FatSector(j) && g.FatOffset(i) == g.FatOffset(j) {
        PlaceInjective(g, i, j);
      }
    }
  }

  lemma SameFlat(g: Geometry, a: seq<seq<byte>>, b: seq<seq<byte>>)
    requires IsImage(g, a) && IsImage(g, b)
    requires forall s :: g.InFat(s) ==> a[s] == b[s]
    ensures Flat(g, a) == Flat(g, b)
  {
  }

  /** The sector and the offset get_fat and put_fat compute for a FAT16 or FAT32 entry of w bytes. */
  function EntrySector(g: Geometry, w: nat, c: nat): nat
    requires g.WellFormed() && (w == 2 || w == 4)
  {
    g.fatbase + c / (g.ss / w)
  }

  function EntryOffset(g: Geometry, w: nat, c: nat): nat
    requires g.WellFormed()
  {
    c * w % g.ss
  }

  /** An entry never crosses a sector: those are the sector and the offset of all its bytes. */
  lemma Place(g: Geometry, w: nat, c: nat, k: nat)
    requires g.WellFormed() && (w == 2 || w == 4) && k < w
    ensures g.FatSector(w * c + k) == EntrySector(g, w, c)
    ensures g.FatOffset(w * c + k) == EntryOffset(g, w, c) + k < g.ss
  {
    if w == 2 {
      EntryPlace2(g.ss, c, k);
      EntryPlace2(g.ss, c, 0);
    } else {
      EntryPlace4(g.ss, c, k);
      EntryPlace4(g.ss, c, 0);
    }
  }

  lemma EntryPlace2(ss: nat, c: nat, k: nat)
    requires IsSectorSize(ss) && k < 2
    ensures (2 * c + k) / ss == c / (ss / 2)
    ensures (2 * c + k) % ss == 2 * (c % (ss / 2)) + k < ss
  {
    if ss == 512 {
      assert (2 * c + k) / 512 == c / 256;
    } else if ss == 1024 {
      assert (2 * c + k) / 1024 == c / 512;
    } else if ss == 2048 {
      assert (2 * c + k) / 2048 == c / 1024;
    } else {
      assert (2 * c + k) / 4096 == c / 2048;
    }
  }

  lemma EntryPlace4(ss: nat, c: nat, k: nat)
    requires IsSectorSize(ss) && k < 4
    ensures (4 * c + k) / ss == c / (ss / 4)
    ensures (4 * c + k) % ss == 4 * (c % (ss / 4)) + k < ss
  {
    if ss == 512 {
      assert (4 * c + k) / 512 == c / 128;
    } else if ss == 1024 {
      assert (4 * c + k) / 1024 == c / 256;
    } else if ss == 2048 {
      assert (4 * c + k) / 2048 == c / 512;
    } else {
      assert (4 * c + k) / 4096 == c / 1024;
    }
  }


  // ---------- the accessors ----------

  /** A volume image with both FAT copies blanked out. */
  ghost function Rest(g: Geometry, log: seq<seq<byte>>): (r: seq<seq<byte>>)
    ensures |r| == |log|
  {
    seq(|log|, s requires 0 <= s < |log| => if g.InFat(s) || g.InMirror(s) then [] else log[s])
  }

  /** What every FAT access leaves alone: all sectors outside the FAT copies keep their logical
      contents, and copies that were equal stay equal. */
  twostate predicate Kept(fs: Volume)
    reads fs`disk, fs`winsect, fs`wflag, fs.win
  {
    && old(fs.Valid()) && fs.Valid()
    && Rest(fs.g, fs.Logical()) == old(Rest(fs.g, fs.Logical()))
    && (old(fs.Mirrored()) ==> fs.Mirrored())
  }

  /** get_fat: the value of an entry, 1 for a cluster number out of range. */
  method GetFat(fs: Volume, clst: dword) returns (val: dword)
    requires fs.Valid()
    modifies fs`disk, fs`wflag, fs`winsect, fs.win
    ensures Kept(fs)
    ensures Flat(fs.g, fs.Logical()) == old(Flat(fs.g, fs.Logical()))
    ensures Fat(fs.g, fs.Logical()) == old(Fat(fs.g, fs.Logical()))
    ensures val == if 2 <= clst < fs.g.nFatent then Fat(fs.g, fs.Logical())[clst] else 1
    ensures 2 <= clst < fs.g.nFatent ==> fs.g.InFat(fs.winsect)
    ensures !(2 <= clst < fs.g.nFatent) ==> fs.winsect == old(fs.winsect)
  {
    if clst < 2 || clst >= fs.g.nFatent {
      return 1;
    }
    match fs.g.fsType {
      case Fat12 => val := GetFat12(fs, clst);
      case Fat16 => val := GetFat16(fs, clst);
      case Fat32 => val := GetFat32(fs, clst);
    }
  }

  method GetFat12(fs: Volume, clst: dword) returns (val: dword)
    requires fs.Valid() && fs.g.fsType.Fat12? && 2 <= clst < fs.g.nFatent
    modifies fs`disk, fs`wflag, fs`winsect, fs.win
    ensures Kept(fs) && fs.g.InFat(fs.winsect)
    ensures Flat(fs.g, fs.Logical()) == old(Flat(fs.g, fs.Logical()))
    ensures val == Entry(Fat12, Flat(fs.g, fs.Logical()), clst)
  {
    hide Unpack12, Flat, Rest;
    var bc := clst + clst / 2;
    var lo := LoadByte(fs, bc);
    bc := bc + 1;
    var hi := LoadByte(fs, bc);
    val := Unpack12(clst, lo, hi);
  }

  /** Fetch one byte of the FAT through the window. */
  method LoadByte(fs: Volume, i: nat) returns (b: byte)
    requires fs.Valid() && i < fs.g.FatBytes()
    modifies fs`disk, fs`wflag, fs`winsect, fs.win
    ensures Kept(fs) && fs.g.InFat(fs.winsect)
    ensures Flat(fs.g, fs.Logical()) == old(Flat(fs.g, fs.Logical()))
    ensures b == Flat(fs.g, fs.Logical())[i]
  {
    SeekEntry(fs, i, fs.g.FatSector(i));
    b := fs.win[fs.g.FatOffset(i)];
  }

  method GetFat16(fs: Volume, clst: dword) returns (val: dword)
    requires fs.Valid() && fs.g.fsType.Fat16? && 2 <= clst < fs.g.nFatent
    modifies fs`disk, fs`wflag, fs`winsect, fs.win
    ensures Kept(fs) && fs.g.InFat(fs.winsect)
    ensures Flat(fs.g, fs.Logical()) == old(Flat(fs.g, fs.Logical()))
    ensures val == Entry(Fat16, Flat(fs.g, fs.Logical()), clst)
  {
    hide Geometry.FatSector, Geometry.FatOffset, Geometry.WellFormed, EntrySector, EntryOffset;
    Place(fs.g, 2, clst, 0); Place(fs.g, 2, clst, 1);
    SeekEntry(fs, 2 * clst, EntrySector(fs.g, 2, clst));
    var p := EntryOffset(fs.g, 2, clst);
    val := Word(fs.win[p], fs.win[p + 1]);
  }

  method GetFat32(fs: Volume, clst: dword) returns (val: dword)
    requires fs.Valid() && fs.g.fsType.Fat32? && 2 <= clst < fs.g.nFatent
    modifies fs`disk, fs`wflag, fs`winsect, fs.win
    ensures Kept(fs) && fs.g.InFat(fs.winsect)
    ensures Flat(fs.g, fs.Logical()) == old(Flat(fs.g, fs.Logical()))
    ensures val == Entry(Fat32, Flat(fs.g, fs.Logical()), clst)
  {
    hide Geometry.FatSector, Geometry.FatOffset, Geometry.WellFormed, EntrySector, EntryOffset, Dword, Store32;
    Place(fs.g, 4, clst, 0); Place(fs.g, 4, clst, 1); Place(fs.g, 4, clst, 2); Place(fs.g, 4, clst, 3);
    SeekEntry(fs, 4 * clst, EntrySector(fs.g, 4, clst));
    var p := EntryOffset(fs.g, 4, clst);
    val := Dword(fs.win[p], fs.win[p + 1], fs.win[p + 2], fs.win[p + 3]) % 0x1000_0000;
  }

  /** Bring the FAT sector that holds byte i into the window. */
  method SeekEntry(fs: Volume, i: nat, sector: nat)
    requires fs.Valid() && i < fs.g.FatBytes() && sector == fs.g.FatSector(i)
    modifies fs`disk, fs`wflag, fs`winsect, fs.win
    ensures Kept(fs) && fs.winsect == sector && fs.g.InFat(sector)
    ensures Flat(fs.g, fs.Logical()) == old(Flat(fs.g, fs.Logical()))
    ensures forall k :: 0 <= k < fs.g.FatBytes() && fs.g.FatSector(k) == sector ==>
              fs.g.FatOffset(k) < fs.win.Length && fs.win[fs.g.FatOffset(k)] == Flat(fs.g, fs.Logical())[k]
  {
    fs.MoveWindow(sector);
    SameFlat(fs.g, old(fs.Logical()), fs.Logical());
    assert fs.Logical()[sector] == fs.win[..];
  }

  /** put_fat: store a value in an entry. */
  method PutFat(fs: Volume, clst: dword, val: dword) returns (res: Result)
    requires fs.Valid()
    modifies fs`disk, fs`wflag, fs`winsect, fs.win
    ensures Kept(fs)
    ensures res == if 2 <= clst < fs.g.nFatent then Ok else IntErr
    ensures res == IntErr ==> Flat(fs.g, fs.Logical()) == old(Flat(fs.g, fs.Logical())) && fs.winsect == old(fs.winsect)
    ensures res == Ok ==> fs.g.InFat(fs.winsect)
    ensures HasEntry(fs.g.fsType, old(Flat(fs.g, fs.Logical())), clst) || res == IntErr
    ensures res == Ok ==> Flat(fs.g, fs.Logical()) == Stored(fs.g.fsType, old(Flat(fs.g, fs.Logical())), clst, val)
    ensures res == Ok ==> Fat(fs.g, fs.Logical()) == old(Fat(fs.g, fs.Logical()))[clst := Cut(fs.g.fsType, val)]
  {
    if clst < 2 || clst >= fs.g.nFatent {
      return IntErr;
    }
    ghost var bs := Flat(fs.g, fs.Logical());
    match fs.g.fsType {
      case Fat12 => PutFat12(fs, clst, val);
      case Fat16 => PutFat16(fs, clst, val);
      case Fat32 => PutFat32(fs, clst, val);
    }
    StoredTable(fs.g.fsType, bs, clst, val, fs.g.nFatent);
    return Ok;
  }

  method PutFat12(fs: Volume, clst: dword, val: dword)
    requires fs.Valid() && fs.g.fsType.Fat12? && 2 <= clst < fs.g.nFatent
    modifies fs`disk, fs`wflag, fs`winsect, fs.win
    ensures Kept(fs) && fs.g.InFat(fs.winsect)
    ensures Flat(fs.g, fs.Logical()) == Stored(Fat12, old(Flat(fs.g, fs.Logical())), clst, val)
  {
    hide LowByte12, HighByte12, Flat, Rest;
    var bc := clst + clst / 2;
    PutHalf(fs, bc, clst, val, true);
    bc := bc + 1;
    PutHalf(fs, bc, clst, val, false);
  }

  /** One of the two byte updates of a FAT12 entry. */
  method PutHalf(fs: Volume, i: nat, clst: dword, val: dword, first: bool)
    requires fs.Valid() && i < fs.g.FatBytes()
    modifies fs`disk, fs`wflag, fs`winsect, fs.win
    ensures Kept(fs) && fs.g.InFat(fs.winsect)
    ensures var was := old(Flat(fs.g, fs.Logical()));
            Flat(fs.g, fs.Logical()) == was[i := if first then LowByte12(clst, val, was[i]) else HighByte12(clst, val, was[i])]
  {
    hide Geometry.FatSector, Geometry.FatOffset, Geometry.WellFormed, LowByte12, HighByte12, Rest;
    GeometryBounds(fs.g);
    SeekEntry(fs, i, fs.g.FatSector(i));
    var p := fs.win[fs.g.FatOffset(i)];
    PutByte(fs, i, if first then LowByte12(clst, val, p) else HighByte12(clst, val, p));
  }

  method PutFat16(fs: Volume, clst: dword, val: dword)
    requires fs.Valid() && fs.g.fsType.Fat16? && 2 <= clst < fs.g.nFatent
    modifies fs`disk, fs`wflag, fs`winsect, fs.win
    ensures Kept(fs) && fs.g.InFat(fs.winsect)
    ensures Flat(fs.g, fs.Logical()) == Stored(Fat16, old(Flat(fs.g, fs.Logical())), clst, val)
  {
    hide Geometry.FatSector, Geometry.FatOffset, Geometry.WellFormed, EntrySector, EntryOffset;
    Place(fs.g, 2, clst, 0); Place(fs.g, 2, clst, 1);
    SeekEntry(fs, 2 * clst, EntrySector(fs.g, 2, clst));
    PutByte(fs, 2 * clst, val % 0x100);
    PutByte(fs, 2 * clst + 1, val / 0x100 % 0x100);
  }

  method PutFat32(fs: Volume, clst: dword, val: dword)
    requires fs.Valid() && fs.g.fsType.Fat32? && 2 <= clst < fs.g.nFatent
    modifies fs`disk, fs`wflag, fs`winsect, fs.win
    ensures Kept(fs) && fs.g.InFat(fs.winsect)
    ensures Flat(fs.g, fs.Logical()) == Stored(Fat32, old(Flat(fs.g, fs.Logical())), clst, val)
  {
    hide Geometry.FatSector, Geometry.FatOffset, Geometry.WellFormed, EntrySector, EntryOffset, Dword, Store32;
    Place(fs.g, 4, clst, 0); Place(fs.g, 4, clst, 1); Place(fs.g, 4, clst, 2); Place(fs.g, 4, clst, 3);
    SeekEntry(fs, 4 * clst, EntrySector(fs.g, 4, clst));
    var p := EntryOffset(fs.g, 4, clst);
    var was := Dword(fs.win[p], fs.win[p + 1], fs.win[p + 2], fs.win[p + 3]);
    var w := Store32(val, was);
    PutByte(fs, 4 * clst, w % 0x100);
    PutByte(fs, 4 * clst + 1, w / 0x100 % 0x100);
    PutByte(fs, 4 * clst + 2, w / 0x1_0000 % 0x100);
    PutByte(fs, 4 * clst + 3, w / 0x100_0000);
  }

  /** Store one byte of the FAT through the window that shows its sector. */
  method PutByte(fs: Volume, i: nat, b: byte)
    requires fs.Valid() && i < fs.g.FatBytes() && fs.winsect == fs.g.FatSector(i) && fs.g.InFat(fs.winsect)
    modifies fs`wflag, fs.win
    ensures Kept(fs)
    ensures Flat(fs.g, fs.Logical()) == old(Flat(fs.g, fs.Logical()))[i := b]
  {
    ghost var log := fs.Logical();
    fs.win[fs.g.FatOffset(i)] := b;
    fs.wflag := true;
    SetByte(fs.g, log, fs.Logical(), i, b);
  }
}
