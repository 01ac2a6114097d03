/** What a write does to the bytes of a file. */
module FatOverlay {
  import opened FatVolume
  import opened FatEntry
  import opened FatLayout
  import opened FatFile

  /** c with the bytes from p on replaced by d; longer than c when d goes past its end. */
  function Overlay(c: seq<byte>, p: nat, d: seq<byte>): (r: seq<byte>)
    requires p <= |c|
    ensures |r| == if p + |d| > |c| then p + |d| else |c|
  {
    c[..p] + d + (if p + |d| < |c| then c[p + |d|..] else [])
  }

  lemma OverlayNothing(c: seq<byte>, p: nat, d: seq<byte>)
    requires p <= |c|
    ensures Overlay(c, p, d[..0]) == c
  {
  }

  /** Two writes in a row are one. */
  lemma OverlayOn(c: seq<byte>, p: nat, d: seq<byte>, k: nat, n: nat)
    requires p <= |c| && k + n <= |d|
    ensures Overlay(Overlay(c, p, d[..k]), p + k, d[k..k + n]) == Overlay(c, p, d[..k + n])
  {
    assert d[..k] + d[k..k + n] == d[..k + n];
  }

  /** A drive image in which the bytes at p.. are d and the other bytes of the file are as before. */
  ghost predicate Replaces(g: Geometry, chain: seq<nat>, a: seq<seq<byte>>, b: seq<seq<byte>>, p: nat, d: seq<byte>, n: nat)
    requires IsImage(g, a) && IsImage(g, b) && Clusters(g, chain)
  {
    && (forall q :: p <= q < p + |d| ==> InFile(g, chain, q) && ByteAt(g, chain, b, q) == d[q - p])
    && (forall q :: 0 <= q < n && !(p <= q < p + |d|) ==>
          InFile(g, chain, q) && ByteAt(g, chain, b, q) == ByteAt(g, chain, a, q))
  }

  lemma OverlayBytes(g: Geometry, chain: seq<nat>, a: seq<seq<byte>>, b: seq<seq<byte>>, p: nat, d: seq<byte>, n: nat, m: nat)
    requires IsImage(g, a) && IsImage(g, b) && Clusters(g, chain) && p <= n && (n > 0 ==> InFile(g, chain, n - 1))
    requires |d| > 0 && Replaces(g, chain, a, b, p, d, n) && m == if p + |d| > n then p + |d| else n
    ensures m > 0 && InFile(g, chain, m - 1)
    ensures FileBytes(g, chain, b, m) == Overlay(FileBytes(g, chain, a, n), p, d)
  {
    hide ByteAt, InFile, Clusters, IsImage;
    var x, y := FileBytes(g, chain, b, m), Overlay(FileBytes(g, chain, a, n), p, d);
    forall q | 0 <= q < m ensures x[q] == y[q] {
    }
  }

  lemma SplitPosition(g: Geometry, i: nat)
    requires g.ss > 0
    ensures i == Whole(g, SecIdx(g, i)) + SecOff(g, i)
  {
  }

  /** Position q lies in sector j of a run of cc sectors that starts at p. */
  lemma RunHolds(g: Geometry, p: nat, q: nat, j: nat, cc: nat)
    requires g.ss > 0 && SecOff(g, p) == 0 && SecIdx(g, q) == SecIdx(g, p) + j && j < cc
    ensures p <= q < p + Whole(g, cc)
  {
    SplitPosition(g, p);
    SplitPosition(g, q);
    RunBound(g, j, cc);
    WholeSum(g, SecIdx(g, p), j);
  }

  lemma WholeSum(g: Geometry, i: nat, j: nat)
    ensures Whole(g, i + j) == Whole(g, i) + Whole(g, j)
  {
  }

  /** A byte inside a run of sectors that has been overwritten with bytes of `data`. */
  lemma ByteInRun(g: Geometry, chain: seq<nat>, a: seq<seq<byte>>, b: seq<seq<byte>>, data: seq<byte>, off: nat, p: nat, cc: nat, i: nat)
    requires IsImage(g, a) && IsImage(g, b) && Clusters(g, chain)
    requires SecOff(g, p) == 0 && 0 < cc && InFile(g, chain, p) && CluOff(g, SecIdx(g, p)) + cc <= g.csize
    requires off + Whole(g, cc) <= |data| && i < Whole(g, cc)
    requires b == Overwritten(g, a, data, off, SectorAt(g, chain, SecIdx(g, p)), cc)
    ensures InFile(g, chain, p + i) && ByteAt(g, chain, b, p + i) == data[off + i]
  {
    hide SecIdx, SecOff, CluIdx, CluOff, Whole, SectorAt, Clusters, Owned, Overwritten;
    var sect := SectorAt(g, chain, SecIdx(g, p));
    SectorOwned(g, chain, SecIdx(g, p));
    StepWhole(g, chain, p, cc);
    RunInside(g, i, cc);
    assert p + i - p == i;
    OverwrittenAt(g, a, data, off, sect, cc, sect + SecIdx(g, i));
    SplitPosition(g, i);
  }

  /** A byte of the file outside the run. */
  lemma ByteOffRun(g: Geometry, chain: seq<nat>, a: seq<seq<byte>>, b: seq<seq<byte>>, data: seq<byte>, off: nat, p: nat, cc: nat, q: nat)
    requires IsImage(g, a) && IsImage(g, b) && Clusters(g, chain) && InFile(g, chain, q)
    requires SecOff(g, p) == 0 && 0 < cc && InFile(g, chain, p) && CluOff(g, SecIdx(g, p)) + cc <= g.csize
    requires off + Whole(g, cc) <= |data| && !(p <= q < p + Whole(g, cc))
    requires b == Overwritten(g, a, data, off, SectorAt(g, chain, SecIdx(g, p)), cc)
    ensures ByteAt(g, chain, b, q) == ByteAt(g, chain, a, q)
  {
    hide SecIdx, SecOff, CluIdx, CluOff, Whole, SectorAt, Clusters, Owned, Overwritten;
    var k := SecIdx(g, p);
    var sect := SectorAt(g, chain, k);
    SectorOwned(g, chain, k);
    SectorOwned(g, chain, SecIdx(g, q));
    var s := SectorAt(g, chain, SecIdx(g, q));
    if sect <= s < sect + cc {
      Contiguous(g, chain, k, s - sect);
      SectorInjective(g, chain, SecIdx(g, q), k + (s - sect));
      RunHolds(g, p, q, s - sect, cc);
    }
    OverwrittenAt(g, a, data, off, sect, cc, s);
  }

  /** The sectors of a run inside a cluster of the file are overwritten with bytes of `data`. */
  lemma ReplaceRun(g: Geometry, chain: seq<nat>, a: seq<seq<byte>>, b: seq<seq<byte>>, data: seq<byte>, off: nat, p: nat, cc: nat, n: nat)
    requires IsImage(g, a) && IsImage(g, b) && Clusters(g, chain) && p <= n && (n > 0 ==> InFile(g, chain, n - 1))
    requires SecOff(g, p) == 0 && 0 < cc && InFile(g, chain, p) && CluOff(g, SecIdx(g, p)) + cc <= g.csize
    requires off + Whole(g, cc) <= |data|
    requires b == Overwritten(g, a, data, off, SectorAt(g, chain, SecIdx(g, p)), cc)
    ensures Replaces(g, chain, a, b, p, data[off..off + Whole(g, cc)], n)
  {
    hide SecIdx, SecOff, CluIdx, CluOff, Whole, SectorAt, Clusters, Owned, Overwritten, ByteAt, InFile;
    forall q | p <= q < p + Whole(g, cc)
      ensures InFile(g, chain, q) && ByteAt(g, chain, b, q) == data[off..off + Whole(g, cc)][q - p]
    {
      ByteInRun(g, chain, a, b, data, off, p, cc, q - p);
    }
    forall q | 0 <= q < n && !(p <= q < p + Whole(g, cc))
      ensures InFile(g, chain, q) && ByteAt(g, chain, b, q) == ByteAt(g, chain, a, q)
    {
      InFileBelow(g, chain, q, n - 1);
      ByteOffRun(g, chain, a, b, data, off, p, cc, q);
    }
  }

  /** A piece of one sector is replaced; the rest of the sector may hold anything when it lies
      behind the end of the file. */
  lemma ReplacePiece(g: Geometry, chain: seq<nat>, a: seq<seq<byte>>, b: seq<seq<byte>>, under: seq<byte>, p: nat, d: seq<byte>, n: nat)
    requires IsImage(g, a) && IsImage(g, b) && Clusters(g, chain) && p <= n && (n > 0 ==> InFile(g, chain, n - 1))
    requires InFile(g, chain, p) && 0 < |d| && SecOff(g, p) + |d| <= g.ss && |under| == g.ss
    requires var s := SectorAt(g, chain, SecIdx(g, p));
             && 0 <= s < g.sectors && b[s] == Spliced(under, SecOff(g, p), d)
             && (under == a[s] || (SecOff(g, p) == 0 && p == n))
    requires forall s :: 0 <= s < g.sectors && Owned(g, chain, s) && s != SectorAt(g, chain, SecIdx(g, p)) ==> b[s] == a[s]
    ensures Replaces(g, chain, a, b, p, d, n)
  {
    hide SecIdx, SecOff, CluIdx, CluOff, Whole, SectorAt, Clusters, Owned;
    var k := SecIdx(g, p);
    StepInside(g, p, |d|);
    forall q | 0 <= q < n && !(p <= q < p + |d|)
      ensures InFile(g, chain, q) && ByteAt(g, chain, b, q) == ByteAt(g, chain, a, q)
    {
      InFileBelow(g, chain, q, n - 1);
      SectorOwned(g, chain, SecIdx(g, q));
      SplitPosition(g, p);
      SplitPosition(g, q);
      if SectorAt(g, chain, SecIdx(g, q)) == SectorAt(g, chain, k) {
        SectorInjective(g, chain, SecIdx(g, q), k);
      }
    }
  }
}
