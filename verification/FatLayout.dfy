/** Where the bytes of a file lie: positions, file sectors and the clusters of its chain. */
module FatLayout {
  import opened Arithmetic
  import Bits
  import opened FatVolume

  /** Index of the file sector that holds position p. */
  function SecIdx(g: Geometry, p: nat): nat
    requires g.ss > 0
  {
    p / g.ss
  }

  function SecOff(g: Geometry, p: nat): (r: nat)
    requires g.ss > 0
    ensures r < g.ss
  {
    p % g.ss
  }

  /** Bytes in n whole sectors. */
  function Whole(g: Geometry, n: nat): nat { n * g.ss }

  /** Index in the chain of the cluster that holds file sector k. */
  function CluIdx(g: Geometry, k: nat): nat
    requires g.csize > 0
  {
    k / g.csize
  }

  /** Place of file sector k in its cluster. */
  function CluOff(g: Geometry, k: nat): (r: nat)
    requires g.csize > 0
    ensures r < g.csize
  {
    k % g.csize
  }

  /** Sector offset in the cluster, as the transfers compute it with a mask. */
  function Csect(g: Geometry, p: nat): (r: nat)
    requires g.WellFormed()
    ensures r == CluOff(g, SecIdx(g, p))
  {
    ClusterPower(g.csize);
    Bits.MaskIsRemainder(p / g.ss, g.csize);
    Bits.And(p / g.ss, g.csize - 1)
  }

  lemma ClusterPower(n: nat)
    requires IsClusterSize(n)
    ensures Bits.PowerOfTwo(n)
  {
    assert Bits.PowerOfTwo(8);
    assert Bits.PowerOfTwo(32);
  }

  lemma SectorPower(n: nat)
    requires IsSectorSize(n)
    ensures Bits.PowerOfTwo(n)
  {
    assert Bits.PowerOfTwo(64);
    assert Bits.PowerOfTwo(512);
  }

  // ---------- arithmetic of positions ----------

  /** A few bytes further on in the same sector, or at the start of the next one. */
  lemma Forward(m: nat, p: nat, n: nat)
    requires m > 0 && p % m + n <= m
    ensures p % m + n < m ==> (p + n) / m == p / m && (p + n) % m == p % m + n
    ensures p % m + n == m ==> (p + n) / m == p / m + 1 && (p + n) % m == 0
  {
    if p % m + n < m {
      DivMod(p / m, p % m + n, m, p + n);
    } else {
      DivMod(p / m + 1, 0, m, p + n);
    }
  }

  lemma Back(m: nat, p: nat)
    requires m > 0 && p > 0
    ensures p % m == 0 ==> p / m > 0 && (p - 1) / m == p / m - 1 && (p - 1) % m == m - 1
    ensures p % m > 0 ==> (p - 1) / m == p / m && (p - 1) % m == p % m - 1
  {
    if p % m > 0 {
      DivMod(p / m, p % m - 1, m, p - 1);
    } else {
      Positive(p / m, m, p);
      DivMod(p / m - 1, m - 1, m, p - 1);
    }
  }

  lemma Positive(q: nat, m: nat, p: nat)
    requires q * m == p > 0
    ensures q > 0
  {
  }

  /** The sector before a sector boundary, and the cluster before a cluster boundary. */
  lemma Before(g: Geometry, p: nat)
    requires g.ss > 0 && g.csize > 0
    ensures SecIdx(g, 0) == 0 && CluIdx(g, 0) == 0 && CluOff(g, 0) == 0
    ensures p > 0 && SecOff(g, p) == 0 ==>
              var k := SecIdx(g, p);
              && k > 0 && SecIdx(g, p - 1) == k - 1
              && (CluOff(g, k) == 0 ==> CluIdx(g, k) > 0 && CluIdx(g, k - 1) == CluIdx(g, k) - 1)
              && (CluOff(g, k) > 0 ==> CluIdx(g, k - 1) == CluIdx(g, k))
    ensures SecOff(g, p) != 0 ==> p > 0 && SecIdx(g, p - 1) == SecIdx(g, p)
  {
    if p > 0 {
      Back(g.ss, p);
      if SecOff(g, p) == 0 { Back(g.csize, SecIdx(g, p)); }
    }
  }

  /** Whole units further on. */
  lemma Jump(m: nat, p: nat, i: nat)
    requires m > 0 && p % m == 0
    ensures (p + i) / m == p / m + i / m && (p + i) % m == i % m
  {
    assert (p / m + i / m) * m == p / m * m + i / m * m;
    DivMod(p / m + i / m, i % m, m, p + i);
  }

  /** The cluster index of a position is the quotient by the cluster size in bytes. */
  lemma ClusterIndex(g: Geometry, p: nat)
    requires g.ss > 0 && g.csize > 0
    ensures g.csize * g.ss > 0 && CluIdx(g, SecIdx(g, p)) == p / (g.csize * g.ss)
  {
    DivDiv(p, g.ss, g.csize);
  }

  lemma DivDiv(p: nat, a: nat, b: nat)
    requires a > 0 && b > 0
    ensures b * a > 0 && p / a / b == p / (b * a)
  {
    var i, c, j := p / a / b, p / a % b, p % a;
    Distribute(i, b, c, a);
    Scale(c, b, a, j);
    DivMod(i, c * a + j, b * a, p);
  }

  lemma Distribute(i: nat, b: nat, c: nat, a: nat)
    ensures (i * b + c) * a == i * (b * a) + c * a
  {
  }

  lemma Scale(c: nat, b: nat, a: nat, j: nat)
    requires c < b && j < a
    ensures c * a + j < b * a
  {
    assert (c + 1) * a <= b * a;
  }

  // ---------- clusters as runs of bytes ----------

  /** Cluster size in bytes. */
  function Bcs(g: Geometry): nat { g.csize * g.ss }

  /** Position of the first byte of the file's cluster k. */
  function Start(g: Geometry, k: nat): nat { k * Bcs(g) }

  lemma BcsBound(g: Geometry)
    requires g.WellFormed()
    ensures 0 < Bcs(g) <= 0x8_0000 && Start(g, 0) == 0
  {
  }

  lemma StartNext(g: Geometry, k: nat)
    ensures Start(g, k + 1) == Start(g, k) + Bcs(g)
  {
  }

  /** The positions of cluster k. */
  lemma InCluster(g: Geometry, k: nat, q: nat)
    requires g.WellFormed()
    ensures CluIdx(g, SecIdx(g, q)) == k <==> Start(g, k) <= q < Start(g, k) + Bcs(g)
  {
    hide CluIdx, SecIdx, IsSectorSize, IsClusterSize;
    GeometryBounds(g);
    ClusterIndex(g, q);
    if Start(g, k) <= q < Start(g, k) + Bcs(g) {
      DivMod(k, q - Start(g, k), Bcs(g), q);
    }
  }

  /** The bytes of sector q in a run of sectors. */
  lemma RunIndex(g: Geometry, q: nat)
    requires g.ss > 0
    ensures forall i :: Whole(g, q) <= i < Whole(g, q) + g.ss ==> SecIdx(g, i) == q && SecOff(g, i) == i - Whole(g, q)
    ensures forall i: nat :: SecIdx(g, i) == q ==> Whole(g, q) <= i < Whole(g, q) + g.ss
  {
    forall i | Whole(g, q) <= i < Whole(g, q) + g.ss ensures SecIdx(g, i) == q && SecOff(g, i) == i - Whole(g, q) {
      DivMod(q, i - Whole(g, q), g.ss, i);
    }
  }

  lemma RunBound(g: Geometry, q: nat, cc: nat)
    requires q < cc
    ensures Whole(g, q) + g.ss <= Whole(g, cc)
  {
    assert (q + 1) * g.ss <= cc * g.ss;
  }

  lemma RunInside(g: Geometry, i: nat, cc: nat)
    requires g.ss > 0 && i < Whole(g, cc)
    ensures SecIdx(g, i) < cc
  {
    assert i == i / g.ss * g.ss + i % g.ss;
  }

  lemma WholeBelow(g: Geometry, cc: nat, n: nat)
    requires g.ss > 0 && cc <= SecIdx(g, n)
    ensures Whole(g, cc) <= n
  {
    assert cc * g.ss <= n / g.ss * g.ss;
  }

  /** Position p + i, for p on a sector boundary. */
  lemma RunPosition(g: Geometry, p: nat, i: nat)
    requires g.ss > 0 && SecOff(g, p) == 0
    ensures SecIdx(g, p + i) == SecIdx(g, p) + SecIdx(g, i) && SecOff(g, p + i) == SecOff(g, i)
  {
    Jump(g.ss, p, i);
  }

  // ---------- the sectors of a file ----------

  /** The sector of the drive that holds file sector k of the file with this chain. */
  function SectorAt(g: Geometry, chain: seq<nat>, k: nat): int
    requires g.csize > 0 && CluIdx(g, k) < |chain|
  {
    g.ClusterSector(chain[CluIdx(g, k)]) + CluOff(g, k)
  }

  /** The cluster a sector of the data area belongs to. */
  function ClusterOf(g: Geometry, s: nat): nat
    requires g.csize > 0 && g.database <= s
  {
    (s - g.database) / g.csize + 2
  }

  /** Sector s belongs to a cluster of the chain. */
  predicate Owned(g: Geometry, chain: seq<nat>, s: nat)
    requires g.csize > 0
  {
    g.database <= s && ClusterOf(g, s) in chain
  }

  /** A volume image without the FAT copies and the sectors of a chain. */
  ghost function Foreign(g: Geometry, chain: seq<nat>, log: seq<seq<byte>>): (r: seq<seq<byte>>)
    requires g.csize > 0
    ensures |r| == |log|
  {
    seq(|log|, s requires 0 <= s < |log| =>
          if g.InFat(s) || g.InMirror(s) || Owned(g, chain, s) then [] else log[s])
  }

  ghost predicate Clusters(g: Geometry, chain: seq<nat>) {
    && (forall i :: 0 <= i < |chain| ==> 2 <= chain[i] < g.nFatent)
    && (forall i, j :: 0 <= i < j < |chain| ==> chain[i] != chain[j])
  }

  /** Every sector of the file lies in the data area, in a cluster of its chain. */
  lemma SectorOwned(g: Geometry, chain: seq<nat>, k: nat)
    requires g.WellFormed() && Clusters(g, chain) && CluIdx(g, k) < |chain|
    ensures var s := SectorAt(g, chain, k);
            g.database <= s < g.sectors && Owned(g, chain, s)
  {
    SectorPlace(g, chain, k);
  }

  lemma SectorPlace(g: Geometry, chain: seq<nat>, k: nat)
    requires g.WellFormed() && Clusters(g, chain) && CluIdx(g, k) < |chain|
    ensures var s := SectorAt(g, chain, k);
            && g.database <= s < g.sectors && ClusterOf(g, s) == chain[CluIdx(g, k)]
            && (s - g.database) % g.csize == CluOff(g, k)
  {
    var c := chain[CluIdx(g, k)];
    assert g.ClusterSector(c) + g.csize <= g.sectors;
    DivMod(c - 2, CluOff(g, k), g.csize, SectorAt(g, chain, k) - g.database);
  }

  /** Different file sectors lie in different sectors of the drive. */
  lemma SectorInjective(g: Geometry, chain: seq<nat>, k: nat, l: nat)
    requires g.WellFormed() && Clusters(g, chain) && CluIdx(g, k) < |chain| && CluIdx(g, l) < |chain|
    requires SectorAt(g, chain, k) == SectorAt(g, chain, l)
    ensures k == l
  {
    SectorPlace(g, chain, k);
    SectorPlace(g, chain, l);
    SameQuotient(k, l, g.csize);
  }

  lemma SameQuotient(k: nat, l: nat, m: nat)
    requires m > 0
    ensures k / m == l / m && k % m == l % m ==> k == l
  {
  }

  /** Inside a cluster consecutive file sectors are consecutive on the drive. */
  lemma Contiguous(g: Geometry, chain: seq<nat>, k: nat, j: nat)
    requires g.WellFormed() && Clusters(g, chain) && CluIdx(g, k) < |chain| && CluOff(g, k) + j < g.csize
    ensures CluIdx(g, k + j) == CluIdx(g, k) && SectorAt(g, chain, k + j) == SectorAt(g, chain, k) + j
  {
    Forward(g.csize, k, j);
  }

  /** n bytes on from p in the same sector. */
  lemma StepInside(g: Geometry, p: nat, n: nat)
    requires g.ss > 0 && 0 < n && SecOff(g, p) + n <= g.ss
    ensures forall q :: p <= q < p + n ==> SecIdx(g, q) == SecIdx(g, p) && SecOff(g, q) == SecOff(g, p) + (q - p)
    ensures SecOff(g, p) + n < g.ss ==> SecIdx(g, p + n) == SecIdx(g, p) && SecOff(g, p + n) == SecOff(g, p) + n
    ensures SecOff(g, p) + n == g.ss ==> SecOff(g, p + n) == 0
  {
    forall q | p <= q < p + n ensures SecIdx(g, q) == SecIdx(g, p) && SecOff(g, q) == SecOff(g, p) + (q - p) {
      Forward(g.ss, p, q - p);
    }
    Forward(g.ss, p, n);
  }

  /** cc whole sectors on from the sector boundary p in the same cluster. */
  lemma StepWhole(g: Geometry, chain: seq<nat>, p: nat, cc: nat)
    requires g.WellFormed() && Clusters(g, chain) && SecOff(g, p) == 0 && CluIdx(g, SecIdx(g, p)) < |chain|
    requires 0 < cc && CluOff(g, SecIdx(g, p)) + cc <= g.csize
    ensures Whole(g, cc) > 0 && SecOff(g, p + Whole(g, cc)) == 0
    ensures SectorAt(g, chain, SecIdx(g, p)) + cc <= g.sectors
    ensures forall q :: p <= q < p + Whole(g, cc) ==>
              CluIdx(g, SecIdx(g, q)) == CluIdx(g, SecIdx(g, p))
              && SectorAt(g, chain, SecIdx(g, q)) == SectorAt(g, chain, SecIdx(g, p)) + SecIdx(g, q - p)
              && SecOff(g, q) == SecOff(g, q - p)
  {
    hide SecIdx, SecOff, CluIdx, CluOff, Whole, SectorAt, Clusters, Owned;
    var k := SecIdx(g, p);
    Contiguous(g, chain, k, cc - 1);
    SectorOwned(g, chain, k + cc - 1);
    RunIndex(g, cc);
    RunBound(g, 0, cc);
    RunPosition(g, p, Whole(g, cc));
    forall q | p <= q < p + Whole(g, cc)
      ensures CluIdx(g, SecIdx(g, q)) == CluIdx(g, k)
      ensures SectorAt(g, chain, SecIdx(g, q)) == SectorAt(g, chain, k) + SecIdx(g, q - p) && SecOff(g, q) == SecOff(g, q - p)
    {
      RunInside(g, q - p, cc);
      RunPosition(g, p, q - p);
      Contiguous(g, chain, k, SecIdx(g, q - p));
    }
  }
}
