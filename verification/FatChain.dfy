/** Cluster chains: allocation and release on the linked structure the FAT entries form. */
module FatChain {
  import opened FatVolume
  import opened FatEntry
  import opened Sequences

  // ---------- chains in a table ----------

  /** xs is followed link by link and ends with an end-of-chain mark. */
  ghost predicate IsChain(t: seq<nat>, xs: seq<nat>) {
    && |xs| > 0
    && (forall i :: 0 <= i < |xs| ==> 2 <= xs[i] < |t|)
    && (forall i :: 0 <= i < |xs| - 1 ==> t[xs[i]] == xs[i + 1])
    && t[xs[|xs| - 1]] >= |t|
  }

  /** A chain that ends cannot meet itself. */
  lemma {:induction false} ChainAcyclic(t: seq<nat>, xs: seq<nat>, i: nat, j: nat)
    requires IsChain(t, xs) && i < j < |xs|
    ensures xs[i] != xs[j]
    decreases |xs| - j
  {
    assert t[xs[i]] == xs[i + 1];
    if xs[i] == xs[j] && j < |xs| - 1 {
      ChainAcyclic(t, xs, i + 1, j + 1);
    }
  }

  lemma {:induction false} DistinctBound(xs: seq<nat>, n: nat)
    requires Distinct(xs) && forall i :: 0 <= i < |xs| ==> xs[i] < n
    ensures |xs| <= n
    decreases n
  {
    assert |xs| > 0 ==> xs[0] < n;
    if n > 0 {
      if k :| 0 <= k < |xs| && xs[k] == n - 1 {
        var rest := xs[..k] + xs[k + 1..];
        forall i | 0 <= i < |rest| ensures rest[i] < n - 1 { assert rest[i] == xs[if i < k then i else i + 1]; }
        DistinctBound(rest, n - 1);
      } else {
        DistinctBound(xs, n - 1);
      }
    }
  }

  /** A chain visits no cluster twice, so it is no longer than the table. */
  lemma ChainDistinct(t: seq<nat>, xs: seq<nat>)
    requires IsChain(t, xs)
    ensures Distinct(xs) && |xs| <= |t|
  {
    forall i, j | 0 <= i < j < |xs| ensures xs[i] != xs[j] { ChainAcyclic(t, xs, i, j); }
    DistinctBound(xs, |t|);
  }

  ghost predicate Disjoint(xs: seq<nat>, ys: seq<nat>) {
    forall i, j :: 0 <= i < |xs| && 0 <= j < |ys| ==> xs[i] != ys[j]
  }

  /** The table is a set of pairwise disjoint chains, and everything else is free. */
  ghost predicate Forest(t: seq<nat>, chains: set<seq<nat>>) {
    && (forall xs :: xs in chains ==> IsChain(t, xs))
    && (forall xs, ys :: xs in chains && ys in chains && xs != ys ==> Disjoint(xs, ys))
    && (forall c :: 2 <= c < |t| && t[c] != 0 ==> Covered(chains, c))
  }

  ghost predicate Covered(chains: set<seq<nat>>, c: nat) {
    exists xs :: xs in chains && c in xs
  }

  /** The entries of a chain are links or end marks. */
  lemma LinkAboveOne(t: seq<nat>, xs: seq<nat>, c: nat)
    requires IsChain(t, xs) && c in xs
    ensures 2 <= c < |t| && t[c] > 1
  {
    var i :| 0 <= i < |xs| && xs[i] == c;
    if i < |xs| - 1 { assert t[xs[i]] == xs[i + 1]; }
  }

  /** Free entries from cluster number c up. */
  ghost function FreeFrom(t: seq<nat>, c: nat): nat
    decreases |t| - c
  {
    if c >= |t| then 0 else (if t[c] == 0 then 1 else 0) + FreeFrom(t, c + 1)
  }

  /** Number of free clusters. */
  ghost function FreeCount(t: seq<nat>): nat { FreeFrom(t, 2) }

  lemma {:induction false} FreeCountSet(t: seq<nat>, c: nat, k: nat, v: nat)
    requires 2 <= k < |t| && c <= |t|
    ensures FreeFrom(t[k := v], c) == FreeFrom(t, c) + (if c > k || (v == 0) == (t[k] == 0) then 0 else if v == 0 then 1 else -1)
    decreases |t| - c
  {
    if c < |t| { FreeCountSet(t, c + 1, k, v); }
  }

  lemma {:induction false} FreeBound(t: seq<nat>, c: nat)
    requires c <= |t|
    ensures FreeFrom(t, c) <= |t| - c
    decreases |t| - c
  {
    if c < |t| { FreeBound(t, c + 1); }
  }

  ghost function Fat0(fs: Volume): (t: seq<nat>)
    reads fs`disk, fs`winsect, fs`wflag, fs.win
    requires fs.Valid()
    ensures |t| == fs.g.nFatent
  {
    Fat(fs.g, fs.Logical())
  }

  /** The free-cluster counter, when it is known, tells the number of zero entries. */
  ghost predicate FreeKnown(fs: Volume)
    reads fs`disk, fs`winsect, fs`wflag, fs`freeClust, fs.win
    requires fs.Valid()
  {
    fs.freeClust == 0xFFFF_FFFF || fs.freeClust == FreeCount(Fat0(fs))
  }

  /** What becomes of the FSINFO values when the table changes: a counter that is right stays right and is not
      forgotten, and FSINFO is marked for writing if and only if the counter has been updated. */
  twostate predicate Counted(fs: Volume)
    reads fs`disk, fs`winsect, fs`wflag, fs`freeClust, fs`fsiDirty, fs.win
    requires old(fs.Valid()) && fs.Valid()
  {
    && (old(FreeKnown(fs)) ==> FreeKnown(fs))
    && (old(FreeKnown(fs)) ==> (fs.freeClust == 0xFFFF_FFFF <==> old(fs.freeClust) == 0xFFFF_FFFF))
    && (old(fs.freeClust) == 0xFFFF_FFFF || Fat0(fs) == old(Fat0(fs)) ==>
          fs.freeClust == old(fs.freeClust) && fs.fsiDirty == old(fs.fsiDirty))
    && (old(fs.freeClust) != 0xFFFF_FFFF && Fat0(fs) != old(Fat0(fs)) ==> fs.fsiDirty)
  }

  // ---------- release ----------

  /** The table after remove_chain from c, and whether it met a broken link. */
  ghost function Removed(t: seq<nat>, c: nat): (seq<nat>, Result)
    decreases |t| - FreeCount(t)
  {
    if c >= |t| then (t, Ok)
    else if c < 2 then (t, IntErr)
    else if t[c] == 0 then (t, Ok)
    else if t[c] == 1 then (t, IntErr)
    else
      FreeCountSet(t, 2, c, 0);
      FreeBound(t[c := 0], 2);
      Removed(t[c := 0], t[c])
  }

  /** One turn of the loop in remove_chain: mark a cluster empty and count it. */
  method ReleaseCluster(fs: Volume, clst: dword)
    requires fs.Valid() && 2 <= clst < fs.g.nFatent && Fat0(fs)[clst] != 0
    modifies fs`disk, fs`wflag, fs`winsect, fs`freeClust, fs`fsiDirty, fs.win
    ensures Kept(fs) && Fat0(fs) == old(Fat0(fs))[clst := 0]
    ensures Counted(fs)
  {
    hide Fat, Flat, Volume.Logical, Volume.Mirrored, Geometry.WellFormed;
    ghost var t := Fat0(fs);
    var res := PutFat(fs, clst, 0);
    GeometryBounds(fs.g);
    FreeCountSet(t, 2, clst, 0);
    FreeBound(t[clst := 0], 2);
    if fs.freeClust != 0xFFFF_FFFF {
      fs.freeClust := (fs.freeClust + 1) % 0x1_0000_0000;
      fs.fsiDirty := true;
    }
  }

  /** remove_chain: follows the links, marking every cluster empty, until an end mark, a free
      entry or a broken link. */
  method RemoveChain(fs: Volume, clst: dword) returns (res: Result)
    requires fs.Valid()
    modifies fs`disk, fs`wflag, fs`winsect, fs`freeClust, fs`fsiDirty, fs.win
    ensures Kept(fs)
    ensures !(2 <= clst < fs.g.nFatent) ==> res == IntErr && Fat0(fs) == old(Fat0(fs))
    ensures 2 <= clst < fs.g.nFatent ==> (Fat0(fs), res) == Removed(old(Fat0(fs)), clst)
    ensures Counted(fs)
  {
    hide Fat, Flat, Rest, Volume.Logical, Volume.Mirrored, Geometry.WellFormed;
    if clst < 2 || clst >= fs.g.nFatent {
      return IntErr;
    }
    ghost var t0 := Fat0(fs);
    res := Ok;
    var cl: dword := clst;
    while cl < fs.g.nFatent
      invariant Kept(fs)
      invariant res == Ok && Removed(Fat0(fs), cl) == Removed(t0, clst)
      invariant Counted(fs) && FreeCount(Fat0(fs)) >= FreeCount(t0) && (Fat0(fs) != t0 ==> FreeCount(Fat0(fs)) > FreeCount(t0))
      decreases fs.g.nFatent - FreeCount(Fat0(fs))
    {
      var nxt := GetFat(fs, cl);
      if nxt == 0 { break; }
      if nxt == 1 { res := IntErr; break; }
      FreeCountSet(Fat0(fs), 2, cl, 0);
      FreeBound(Fat0(fs)[cl := 0], 2);
      ReleaseCluster(fs, cl);
      cl := nxt;
    }
  }

  function Zeroed(t: seq<nat>, xs: seq<nat>): (r: seq<nat>)
    ensures |r| == |t|
    ensures forall c :: 0 <= c < |t| ==> r[c] == if c in xs then 0 else t[c]
  {
    seq(|t|, c requires 0 <= c < |t| => if c in xs then 0 else t[c])
  }

  /** Removing a chain frees exactly its clusters. */
  lemma {:induction false} RemovedChain(t: seq<nat>, xs: seq<nat>)
    requires IsChain(t, xs)
    ensures Removed(t, xs[0]) == (Zeroed(t, xs), Ok)
    decreases |xs|
  {
    var t' := t[xs[0] := 0];
    if |xs| == 1 {
      assert t' == Zeroed(t, xs);
    } else {
      forall i | 0 < i < |xs| ensures xs[i] != xs[0] { ChainAcyclic(t, xs, 0, i); }
      assert t[xs[0]] == xs[1];
      assert IsChain(t', xs[1..]);
      RemovedChain(t', xs[1..]);
      assert Zeroed(t', xs[1..]) == Zeroed(t, xs);
    }
  }

  /** Links that lead from the first cluster through distinct clusters to the last one. */
  ghost predicate IsPath(t: seq<nat>, xs: seq<nat>) {
    && |xs| > 0
    && (forall i :: 0 <= i < |xs| ==> 2 <= xs[i] < |t|)
    && (forall i, j :: 0 <= i < j < |xs| ==> xs[i] != xs[j])
    && (forall i :: 0 <= i < |xs| - 1 ==> t[xs[i]] == xs[i + 1])
  }

  /** A path that runs into itself or into a free cluster is freed as well, and the walk halts there. */
  lemma {:induction false} RemovedPath(t: seq<nat>, xs: seq<nat>, back: nat)
    requires IsPath(t, xs) && t[xs[|xs| - 1]] == back && 2 <= back < |t| && (back in xs || t[back] == 0)
    ensures Removed(t, xs[0]) == (Zeroed(t, xs), Ok)
  {
    RemovedPathFrom(t, t, xs, back, 0);
  }

  lemma {:induction false} RemovedPathFrom(t0: seq<nat>, t: seq<nat>, xs: seq<nat>, back: nat, k: nat)
    requires IsPath(t0, xs) && t0[xs[|xs| - 1]] == back && 2 <= back < |t0| && (back in xs || t0[back] == 0)
    requires k < |xs| && t == Zeroed(t0, xs[..k])
    ensures Removed(t, xs[k]) == (Zeroed(t0, xs), Ok)
    decreases |xs| - k
  {
    var t' := t[xs[k] := 0];
    assert xs[..k + 1] == xs[..k] + [xs[k]];
    assert t' == Zeroed(t0, xs[..k + 1]);
    assert t[xs[k]] == t0[xs[k]];
    if k == |xs| - 1 {
      assert xs[..k + 1] == xs;
      assert t'[back] == 0;
    } else {
      RemovedPathFrom(t0, t', xs, back, k + 1);
    }
  }

  /** A chain depends on its own entries only. */
  lemma ChainUntouched(t: seq<nat>, u: seq<nat>, ys: seq<nat>)
    requires IsChain(t, ys) && |u| == |t|
    requires forall i :: 0 <= i < |ys| ==> u[ys[i]] == t[ys[i]]
    ensures IsChain(u, ys)
  {
  }

  /** Removal takes one chain out of the forest and leaves every other chain untouched. */
  lemma ForestRemove(t: seq<nat>, chains: set<seq<nat>>, xs: seq<nat>)
    requires Forest(t, chains) && xs in chains
    ensures Removed(t, xs[0]).1 == Ok
    ensures Forest(Removed(t, xs[0]).0, chains - {xs})
  {
    RemovedChain(t, xs);
    var t' := Zeroed(t, xs);
    forall ys | ys in chains && ys != xs ensures IsChain(t', ys) {
      assert Disjoint(ys, xs);
      ChainUntouched(t, t', ys);
    }
    forall c | 2 <= c < |t| && t'[c] != 0 ensures Covered(chains - {xs}, c) {
      assert Covered(chains, c);
      var ys :| ys in chains && c in ys;
      assert ys in chains - {xs};
    }
  }

  // ---------- allocation ----------

  /** The scan that starts after cluster s passes k before it comes to r. */
  predicate Passed(s: nat, k: nat, r: nat) {
    if r > s then s < k < r else k > s || k < r
  }

  /** The search of create_chain from cluster s answers 0 when no entry is free (or broken),
      otherwise the first free entry in scan order, or 1 if a broken entry comes first. */
  ghost predicate ScanAnswer(t: seq<nat>, s: nat, r: nat) {
    if r == 0 then forall k :: 2 <= k < |t| ==> t[k] > 1
    else exists c: nat :: FirstFound(t, s, c) && t[c] <= 1 && r == if t[c] == 0 then c else 1
  }

  /** All entries the scan passes before c are links or end marks. */
  ghost predicate FirstFound(t: seq<nat>, s: nat, c: nat) {
    2 <= c < |t| && forall k :: 2 <= k < |t| && Passed(s, k, c) ==> t[k] > 1
  }

  /** From one entry of the scan to the next. */
  lemma ScanStep(t: seq<nat>, s: nat, c: nat)
    requires 1 <= s < |t| && 1 <= c < |t| && (c != s ==> FirstFound(t, s, c) && t[c] > 1)
    ensures c + 1 < |t| ==> FirstFound(t, s, c + 1)
    ensures c + 1 == |t| && s >= 2 ==> FirstFound(t, s, 2)
    ensures c + 1 == |t| && s < 2 ==> ScanAnswer(t, s, 0)
  {
  }

  /** The search loop of create_chain: the first entry after `scl` that is free, wrapping around. */
  method FindFree(fs: Volume, scl: dword) returns (ncl: dword)
    requires fs.Valid() && 1 <= scl < fs.g.nFatent
    modifies fs`disk, fs`wflag, fs`winsect, fs.win
    ensures Kept(fs) && Fat0(fs) == old(Fat0(fs))
    ensures ScanAnswer(Fat0(fs), scl, ncl)
    ensures fs.winsect == old(fs.winsect) || fs.g.InFat(fs.winsect)
  {
    hide Fat, Flat, Rest, Volume.Logical, Volume.Mirrored, Geometry.WellFormed, Geometry.InFat, FirstFound;
    GeometryBounds(fs.g);
    ghost var t := Fat0(fs);
    ncl := scl;
    while true
      invariant Kept(fs) && Fat0(fs) == t
      invariant fs.winsect == old(fs.winsect) || fs.g.InFat(fs.winsect)
      invariant 1 <= ncl < |t| && (ncl != scl ==> FirstFound(t, scl, ncl) && t[ncl] > 1)
      decreases if ncl >= scl then |t| - ncl + scl else scl - ncl
    {
      ScanStep(t, scl, ncl);
      ncl := ncl + 1;
      if ncl >= fs.g.nFatent {
        ncl := 2;
        if ncl > scl { return 0; }
      }
      var cs := GetFat(fs, ncl);
      if cs == 0 { return ncl; }
      if cs == 1 { return cs; }
      if ncl == scl {
        NoneFree(t, scl);
        return 0;
      }
    }
  }

  lemma FoundFree(t: seq<nat>, s: nat, r: nat)
    requires ScanAnswer(t, s, r) && r >= 2
    ensures r < |t| && t[r] == 0
  {
  }

  lemma NoneFree(t: seq<nat>, s: nat)
    requires FirstFound(t, s, s) && t[s] > 1
    ensures ScanAnswer(t, s, 0)
  {
    forall k | 2 <= k < |t| ensures t[k] > 1 {
      assert k == s || Passed(s, k, s);
    }
  }

  /** The cluster after which create_chain starts to search. */
  function ScanStart(lastClust: dword, clst: dword, n: nat): nat {
    if clst != 0 then clst
    else if lastClust == 0 || lastClust >= n then 1 else lastClust
  }

  /** The link a cluster number leads to, as get_fat reports it. */
  function Link(t: seq<nat>, c: nat): nat { if 2 <= c < |t| then t[c] else 1 }

  /** The table after a free cluster has been appended to the chain that ends in `clst`, or has
      become a chain of its own. */
  function Appended(t: seq<nat>, clst: nat, ncl: nat, mark: nat): seq<nat>
    requires ncl < |t| && clst < |t|
  {
    if clst == 0 then t[ncl := mark] else t[ncl := mark][clst := ncl]
  }

  /** The answer r of create_chain and the table u it leaves. */
  ghost predicate Created(t: seq<nat>, lastClust: dword, clst: dword, r: nat, u: seq<nat>, mark: nat)
    requires |t| > 2
  {
    if clst != 0 && Link(t, clst) < |t| then
      u == t && r == (if Link(t, clst) < 2 then 1 else Link(t, clst))
    else
      && ScanAnswer(t, ScanStart(lastClust, clst, |t|), r)
      && u == if 2 <= r < |t| && clst < |t| then Appended(t, clst, r, mark) else t
  }

  /** r is the next free cluster behind `from`, or the first one of all when there is none behind it. */
  ghost predicate NextFree(t: seq<nat>, from: nat, r: nat) {
    && 2 <= r < |t| && t[r] == 0
    && (forall k :: from < k < |t| && t[k] == 0 ==> from < r <= k)
    && (r <= from ==> forall k :: 2 <= k < |t| && t[k] == 0 ==> r <= k)
  }

  /** A chain grows into the next free cluster behind its last one; a new chain starts behind the cluster taken last, or
      at the first free one when that is not known. */
  lemma GrowsNear(t: seq<nat>, lastClust: dword, clst: dword, r: nat, u: seq<nat>, mark: nat)
    requires |t| > 2 && Created(t, lastClust, clst, r, u, mark) && r != 0 && forall c :: 2 <= c < |t| ==> t[c] != 1
    requires clst == 0 || (2 <= clst < |t| && t[clst] >= |t|)
    ensures clst != 0 ==> NextFree(t, clst, r)
    ensures clst == 0 && 0 < lastClust < |t| ==> NextFree(t, lastClust, r)
    ensures clst == 0 && !(0 < lastClust < |t|) ==> NextFree(t, 1, r)
  {
    var s := ScanStart(lastClust, clst, |t|);
    var c: nat :| FirstFound(t, s, c) && t[c] <= 1 && r == if t[c] == 0 then c else 1;
    forall k | 2 <= k < |t| && t[k] == 0 ensures !Passed(s, k, r) {}
  }

  /** The end of create_chain: mark the free cluster as last link and link it in. */
  method TakeCluster(fs: Volume, clst: dword, ncl: dword)
    requires fs.Valid() && 2 <= ncl < fs.g.nFatent
    requires clst == 0 || 2 <= clst < fs.g.nFatent
    modifies fs`disk, fs`wflag, fs`winsect, fs.win
    ensures Kept(fs) && fs.g.InFat(fs.winsect)
    ensures Fat0(fs) == Appended(old(Fat0(fs)), clst, ncl, fs.g.EndMark())
  {
    hide Fat, Flat, Rest, Volume.Logical, Volume.Mirrored, Geometry.WellFormed, Geometry.InFat, Cut, Geometry.EndMark, Stored, HasEntry, Table;
    CutFits(fs.g, ncl);
    var res := PutFat(fs, ncl, 0x0FFF_FFFF);
    if clst != 0 {
      res := PutFat(fs, clst, ncl);
    }
  }

  lemma AppendedCount(t: seq<nat>, clst: nat, ncl: nat, mark: nat)
    requires 2 <= ncl < |t| && t[ncl] == 0 && mark > 0
    requires clst == 0 || (2 <= clst < |t| && t[clst] > 1)
    ensures FreeCount(Appended(t, clst, ncl, mark)) == FreeCount(t) - 1 < |t|
  {
    FreeCountSet(t, 2, ncl, mark);
    if clst != 0 { FreeCountSet(t[ncl := mark], 2, clst, ncl); }
    FreeBound(t, 2);
  }

  /** Cluster numbers and the end mark fit the width of an entry. */
  lemma CutFits(g: Geometry, c: nat)
    requires g.WellFormed() && c < g.nFatent
    ensures c < g.nFatent < g.EndMark() < 0x1000_0000
    ensures Cut(g.fsType, c) == c && Cut(g.fsType, 0x0FFF_FFFF) == g.EndMark()
  {
    match g.fsType
    case Fat12 => assert 0x0FFF_FFFF % 0x1000 == 0xFFF;
    case Fat16 => assert 0x0FFF_FFFF % 0x1_0000 == 0xFFFF;
    case Fat32 =>
  }

  /** The FSINFO part of create_chain. */
  method NoteTaken(fs: Volume, ncl: dword)
    modifies fs`lastClust, fs`freeClust, fs`fsiDirty
    ensures fs.lastClust == ncl
    ensures fs.freeClust == if old(fs.freeClust) == 0xFFFF_FFFF then 0xFFFF_FFFF
                            else if old(fs.freeClust) == 0 then 0xFFFF_FFFF else old(fs.freeClust) - 1
    ensures fs.fsiDirty <==> old(fs.fsiDirty) || old(fs.freeClust) != 0xFFFF_FFFF
  {
    fs.lastClust := ncl;
    if fs.freeClust != 0xFFFF_FFFF {
      fs.freeClust := (fs.freeClust + 0xFFFF_FFFF) % 0x1_0000_0000;
      fs.fsiDirty := true;
    }
  }

  /** create_chain: the cluster that already follows `clst`, or a formerly free one linked after it
      (a chain of its own when `clst` is 0); 0 when no cluster is free, 1 on a broken table. */
  method CreateChain(fs: Volume, clst: dword) returns (ncl: dword)
    requires fs.Valid()
    modifies fs`disk, fs`wflag, fs`winsect, fs`lastClust, fs`freeClust, fs`fsiDirty, fs.win
    ensures Kept(fs)
    ensures Counted(fs)
    ensures fs.winsect == old(fs.winsect) || fs.g.InFat(fs.winsect)
    ensures Created(old(Fat0(fs)), old(fs.lastClust), clst, ncl, Fat0(fs), fs.g.EndMark())
    ensures Fat0(fs) != old(Fat0(fs)) ==> fs.lastClust == ncl && fs.g.InFat(fs.winsect)
    ensures Fat0(fs) == old(Fat0(fs)) ==> fs.lastClust == old(fs.lastClust)
    ensures Fat0(fs) != old(Fat0(fs)) ==>
              fs.freeClust == if old(fs.freeClust) == 0xFFFF_FFFF then 0xFFFF_FFFF else (old(fs.freeClust) + 0xFFFF_FFFF) % 0x1_0000_0000
  {
    hide Fat, Flat, Rest, Volume.Logical, Volume.Mirrored, Geometry.WellFormed, Geometry.InFat, ScanAnswer, FirstFound;
    GeometryBounds(fs.g);
    var scl: dword := fs.lastClust;
    if clst == 0 {
      if scl == 0 || scl >= fs.g.nFatent { scl := 1; }
    } else {
      var cs := GetFat(fs, clst);
      if cs < 2 { return 1; }
      if cs < fs.g.nFatent { return cs; }
      scl := clst;
    }
    ncl := FindFree(fs, scl);
    if ncl >= 2 {
      FoundFree(Fat0(fs), scl, ncl);
      AppendedCount(Fat0(fs), clst, ncl, fs.g.EndMark());
      TakeCluster(fs, clst, ncl);
      NoteTaken(fs, ncl);
    }
  }

  /** The last cluster of a chain, 0 for no chain at all. */
  function Last(xs: seq<nat>): nat { if xs == [] then 0 else xs[|xs| - 1] }

  /** Growing at the end of a chain extends that chain by a formerly free cluster. */
  lemma ChainGrow(t: seq<nat>, xs: seq<nat>, ncl: nat, mark: nat)
    requires (xs == [] || IsChain(t, xs)) && 2 <= ncl < |t| <= mark && t[ncl] == 0
    ensures ncl !in xs
    ensures IsChain(Appended(t, Last(xs), ncl, mark), xs + [ncl])
  {
    if ncl in xs { LinkAboveOne(t, xs, ncl); }
    var u, ys := Appended(t, Last(xs), ncl, mark), xs + [ncl];
    forall i | 0 <= i < |xs| - 1 ensures u[xs[i]] == xs[i + 1] {
      ChainAcyclic(t, xs, i, |xs| - 1);
    }
    assert u[ys[|ys| - 1]] == mark;
  }

  /** Other chains are not touched by it. */
  lemma OthersKept(t: seq<nat>, xs: seq<nat>, r: nat, mark: nat, ys: seq<nat>)
    requires IsChain(t, ys) && Disjoint(xs, ys) && 2 <= r < |t| <= mark && t[r] == 0
    requires xs == [] || IsChain(t, xs)
    ensures IsChain(Appended(t, Last(xs), r, mark), ys)
    ensures Disjoint(ys, xs + [r]) && Disjoint(xs + [r], ys)
  {
    if r in ys { LinkAboveOne(t, ys, r); }
    ChainUntouched(t, Appended(t, Last(xs), r, mark), ys);
  }

  /** Allocation keeps the table a forest: the chain grows, or a new chain appears. */
  lemma ForestGrow(t: seq<nat>, chains: set<seq<nat>>, xs: seq<nat>, r: nat, mark: nat)
    requires Forest(t, chains) && (xs == [] || xs in chains) && 2 <= r < |t| <= mark && t[r] == 0
    ensures Forest(Appended(t, Last(xs), r, mark), chains - {xs} + {xs + [r]})
  {
    hide IsChain, Covered, Disjoint;
    if xs != [] { LastLink(t, chains, xs); }
    var u := Appended(t, Last(xs), r, mark);
    ChainGrow(t, xs, r, mark);
    var grown := chains - {xs} + {xs + [r]};
    forall ys | ys in chains && ys != xs
      ensures IsChain(u, ys) && Disjoint(ys, xs + [r]) && Disjoint(xs + [r], ys)
    {
      assert Disjoint(xs, ys) by { if xs == [] { EmptyDisjoint(ys); } }
      OthersKept(t, xs, r, mark, ys);
    }
    forall c | 2 <= c < |t| && u[c] != 0 ensures Covered(grown, c) {
      CoverGrow(chains, xs, r, c);
      if xs != [] { LastIn(t, xs); }
    }
  }

  lemma EmptyDisjoint(ys: seq<nat>)
    ensures Disjoint([], ys)
  {
  }

  lemma LastIn(t: seq<nat>, xs: seq<nat>)
    requires IsChain(t, xs)
    ensures Last(xs) in xs && Last(xs) < |t| && t[Last(xs)] != 0
  {
  }

  lemma CoverGrow(chains: set<seq<nat>>, xs: seq<nat>, r: nat, c: nat)
    ensures Covered(chains, c) || c == r ==> Covered(chains - {xs} + {xs + [r]}, c)
  {
    var grown := chains - {xs} + {xs + [r]};
    assert xs + [r] in grown;
    if c != r && Covered(chains, c) {
      var ys :| ys in chains && c in ys;
      if ys == xs { assert c in xs + [r]; } else { assert ys in grown; }
    }
  }

  /** create_chain on a forest, at the end of a chain or for a new one: it answers 0 exactly when
      no cluster is free, otherwise it has added one formerly free cluster. */
  lemma ForestCreate(t: seq<nat>, chains: set<seq<nat>>, lastClust: dword, xs: seq<nat>, r: nat, u: seq<nat>, mark: nat)
    requires 2 < |t| <= mark && |t| <= 0x1_0000_0000 && Forest(t, chains) && (xs == [] || xs in chains)
    requires Last(xs) < |t| && Created(t, lastClust, Last(xs), r, u, mark)
    ensures r == 0 <==> FreeCount(t) == 0
    ensures r == 0 ==> u == t
    ensures r != 0 ==> 2 <= r < |t| && t[r] == 0 && Forest(u, chains - {xs} + {xs + [r]})
  {
    hide Forest, IsChain;
    NoBrokenEntry(t, chains);
    if xs != [] { LastLink(t, chains, xs); }
    if r == 0 {
      NoneFreeCount(t, 2);
    } else {
      var c: nat :| FirstFound(t, ScanStart(lastClust, Last(xs), |t|), c) && t[c] <= 1 && r == if t[c] == 0 then c else 1;
      SomeFreeCount(t, 2, r);
      ForestGrow(t, chains, xs, r, mark);
    }
  }

  lemma LastLink(t: seq<nat>, chains: set<seq<nat>>, xs: seq<nat>)
    requires Forest(t, chains) && xs in chains
    ensures xs != [] && 2 <= Last(xs) < |t| && Link(t, Last(xs)) >= |t|
  {
    assert IsChain(t, xs);
  }

  lemma NoBrokenEntry(t: seq<nat>, chains: set<seq<nat>>)
    requires Forest(t, chains)
    ensures forall c :: 2 <= c < |t| ==> t[c] != 1
  {
    forall c | 2 <= c < |t| && t[c] != 0 ensures t[c] != 1 {
      assert Covered(chains, c);
      var xs :| xs in chains && c in xs;
      LinkAboveOne(t, xs, c);
    }
  }

  lemma {:induction false} NoneFreeCount(t: seq<nat>, c: nat)
    requires c <= |t| && forall k :: c <= k < |t| ==> t[k] != 0
    ensures FreeFrom(t, c) == 0
    decreases |t| - c
  {
    if c < |t| { NoneFreeCount(t, c + 1); }
  }

  lemma {:induction false} SomeFreeCount(t: seq<nat>, c: nat, k: nat)
    requires c <= k < |t| && t[k] == 0
    ensures FreeFrom(t, c) > 0
    decreases |t| - c
  {
    if c < k { SomeFreeCount(t, c + 1, k); }
  }
}
