/** The cluster link map table: fragments of a chain, for seeking without the FAT. */
module FatLinkMap {
  import opened FatVolume
  import opened FatEntry
  import opened FatChain
  import opened FatLayout

  /** From index `at` on, the chain has `len` consecutive clusters, the first being `top`. */
  ghost predicate Run(chain: seq<nat>, at: nat, top: nat, len: nat) {
    at + len <= |chain| && forall k :: at <= k < at + len ==> chain[k] == top + (k - at)
  }

  /** From item `pos` on, the table lists the fragments (length, first cluster) of the chain and a zero. */
  ghost predicate Maps(tbl: seq<dword>, pos: nat, chain: seq<nat>)
    decreases |chain|
  {
    && pos < |tbl|
    && if chain == [] then tbl[pos] == 0
       else
         && pos + 1 < |tbl| && 0 < tbl[pos] && Run(chain, 0, tbl[pos + 1], tbl[pos])
         && Maps(tbl, pos + 2, chain[tbl[pos]..])
  }

  /** clmt_clust: the cluster of a file offset, 0 behind the end of the chain. */
  method ClmtClust(g: Geometry, cltbl: seq<dword>, ofs: dword, ghost chain: seq<nat>) returns (cl: nat)
    requires g.WellFormed() && Maps(cltbl, 1, chain)
    ensures var i := CluIdx(g, SecIdx(g, ofs)); cl == if i < |chain| then chain[i] else 0
  {
    var tbl: nat := 1;
    cl := ofs / g.ss / g.csize;
    ghost var target, rest := cl, chain;
    while true
      invariant Maps(cltbl, tbl, rest)
      invariant cl <= target && |rest| == |chain| - (target - cl) && rest == chain[target - cl..]
      decreases |rest|
    {
      var ncl := cltbl[tbl];
      tbl := tbl + 1;
      if ncl == 0 { return 0; }
      if cl < ncl { break; }
      rest := rest[ncl..];
      cl := cl - ncl;
      tbl := tbl + 1;
    }
    cl := cl + cltbl[tbl];
  }

  /** Cluster k of the chain starts a fragment. */
  predicate Starts(chain: seq<nat>, k: nat)
    requires k < |chain|
  {
    k == 0 || chain[k] != chain[k - 1] + 1
  }

  /** Number of maximal contiguous fragments in the first n clusters. */
  function Fragments(chain: seq<nat>, n: nat): nat
    requires n <= |chain|
  {
    if n == 0 then 0 else Fragments(chain, n - 1) + if Starts(chain, n - 1) then 1 else 0
  }

  lemma {:induction false} RunFragments(chain: seq<nat>, at: nat, top: nat, len: nat)
    requires Run(chain, at, top, len)
    ensures Fragments(chain, at + len) <= Fragments(chain, at) + 1
  {
    if len > 0 { RunFragments(chain, at, top, len - 1); }
  }

  /** No table that maps a chain is shorter than the one with an entry for every maximal fragment. */
  lemma {:induction false} FewestItems(tbl: seq<dword>, pos: nat, chain: seq<nat>, m: nat)
    requires m <= |chain| && Maps(tbl, pos, chain[m..])
    ensures pos + 2 * (Fragments(chain, |chain|) - Fragments(chain, m)) + 1 <= |tbl|
    decreases |chain| - m
  {
    if m < |chain| {
      var len := tbl[pos];
      assert chain[m..][len..] == chain[m + len..];
      assert Run(chain, m, tbl[pos + 1], len) by {
        forall k | m <= k < m + len ensures chain[k] == tbl[pos + 1] + (k - m) { assert chain[k] == chain[m..][k - m]; }
      }
      RunFragments(chain, m, tbl[pos + 1], len);
      FewestItems(tbl, pos + 2, chain, m + len);
    }
  }

  /** Items 1..pos list the fragments of the first n clusters of the chain. */
  ghost predicate Lists(tbl: seq<dword>, pos: nat, chain: seq<nat>, n: nat)
    decreases n
  {
    && n <= |chain| && pos <= |tbl|
    && if n == 0 then pos == 1
       else
         && pos >= 3 && 0 < tbl[pos - 2] <= n
         && Run(chain, n - tbl[pos - 2], tbl[pos - 1], tbl[pos - 2])
         && Lists(tbl, pos - 2, chain, n - tbl[pos - 2])
  }

  lemma {:induction false} ListsKept(a: seq<dword>, b: seq<dword>, pos: nat, chain: seq<nat>, n: nat)
    requires Lists(a, pos, chain, n) && pos <= |b| && forall i :: 0 < i < pos ==> b[i] == a[i]
    ensures Lists(b, pos, chain, n)
    decreases n
  {
    if n != 0 { ListsKept(a, b, pos - 2, chain, n - a[pos - 2]); }
  }

  /** Listed from the front, read from the front. */
  lemma {:induction false} ListsMaps(tbl: seq<dword>, pos: nat, chain: seq<nat>, n: nat)
    requires Lists(tbl, pos, chain, n) && Maps(tbl, pos, chain[n..])
    ensures Maps(tbl, 1, chain)
    decreases n
  {
    if n == 0 {
      assert chain[n..] == chain;
    } else {
      var m := n - tbl[pos - 2];
      assert chain[m..][tbl[pos - 2]..] == chain[n..];
      assert forall j :: 0 <= j < |chain| - m ==> chain[m..][j] == chain[m + j];
      assert Run(chain[m..], 0, tbl[pos - 1], tbl[pos - 2]);
      ListsMaps(tbl, pos - 2, chain, m);
    }
  }

  /** The end mark of the chain is the number behind its last cluster, which is so when that is the last cluster of the
      volume and the mark is the number of FAT entries. */
  ghost predicate EndsInNext(t: seq<nat>, chain: seq<nat>) {
    IsChain(t, chain) && t[Last(chain)] == Last(chain) + 1
  }

  /** A volume of one cluster whose entry is the number of entries: an end mark to get_fat, the next cluster to the loop. */
  lemma EndTaken()
    ensures EndsInNext([0xFF8, 0xFFF, 3], [2])
  {
  }

  lemma LinkOf(t: seq<nat>, chain: seq<nat>, i: nat)
    requires IsChain(t, chain) && i < |chain|
    ensures 2 <= chain[i] < |t| && t[chain[i]] > 1
    ensures if i + 1 < |chain| then t[chain[i]] == chain[i + 1] && chain[i + 1] < |t| else t[chain[i]] >= |t|
    ensures i + 1 == |chain| ==> (EndsInNext(t, chain) <==> t[chain[i]] == chain[i] + 1)
  {
    assert 2 <= chain[i] < |t|;
    if i + 1 < |chain| { assert 2 <= chain[i + 1] < |t|; } else { assert i == |chain| - 1; }
  }

  /** The inner loop of CREATE_LINKMAP: the length of the fragment that starts with cluster n of the
      chain, and the link that leaves it. The loop takes an end mark for a cluster of the fragment when it is the
      number behind the last cluster, and then meets the error value 1. */
  method CountFragment(fs: Volume, tcl: dword, ghost chain: seq<nat>, ghost n: nat) returns (ncl: dword, cl: dword)
    requires fs.Valid() && IsChain(Fat0(fs), chain) && n < |chain| && tcl == chain[n] && Starts(chain, n)
    modifies fs`disk, fs`wflag, fs`winsect, fs.win
    ensures Kept(fs) && Fat0(fs) == old(Fat0(fs))
    ensures fs.winsect == old(fs.winsect) || fs.g.InFat(fs.winsect)
    ensures cl <= 1 ==> EndsInNext(Fat0(fs), chain)
    ensures cl > 1 ==>
              && ncl > 0 && Run(chain, n, tcl, ncl)
              && Fragments(chain, n + ncl) == Fragments(chain, n) + 1
              && if n + ncl < |chain| then cl == chain[n + ncl] && Starts(chain, n + ncl)
                 else cl >= fs.g.nFatent && !EndsInNext(Fat0(fs), chain)
  {
    hide Fat, Flat, Rest, Volume.Logical, Volume.Mirrored, Geometry.WellFormed, Geometry.InFat, IsChain, EndsInNext;
    ghost var t := Fat0(fs);
    GeometryBounds(fs.g);
    ChainDistinct(t, chain);
    LinkOf(t, chain, n);
    ncl, cl := 0, tcl;
    var pcl: nat := cl;
    var more := true;
    while more
      invariant Kept(fs) && Fat0(fs) == t
      invariant fs.winsect == old(fs.winsect) || fs.g.InFat(fs.winsect)
      invariant Run(chain, n, tcl, ncl) && cl > 1
      invariant more && n + ncl < |chain| ==> cl == chain[n + ncl] == tcl + ncl
      invariant more && n + ncl == |chain| ==> cl >= |t| && EndsInNext(t, chain)
      invariant ncl == 0 ==> more
      invariant ncl > 0 ==> Fragments(chain, n + ncl) == Fragments(chain, n) + 1
      invariant !more && n + ncl < |chain| ==> cl == chain[n + ncl] && Starts(chain, n + ncl)
      invariant !more && n + ncl == |chain| ==> cl >= |t| && !EndsInNext(t, chain)
      decreases |chain| - n - ncl, more
    {
      if n + ncl < |chain| { LinkOf(t, chain, n + ncl); }
      pcl := cl;
      ncl := ncl + 1;
      cl := GetFat(fs, cl);
      if cl <= 1 { return; }
      more := cl == pcl + 1;
    }
  }

  /** Store the length and the first cluster of a fragment. */
  method StoreFragment(cltbl: array<dword>, tbl: nat, ncl: dword, tcl: dword, ghost chain: seq<nat>, ghost n: nat)
    requires 1 <= tbl && tbl + 2 <= cltbl.Length && Lists(cltbl[..], tbl, chain, n) && ncl > 0 && Run(chain, n, tcl, ncl)
    modifies cltbl
    ensures Lists(cltbl[..], tbl + 2, chain, n + ncl) && cltbl[0] == old(cltbl[0])
  {
    ghost var before := cltbl[..];
    cltbl[tbl] := ncl;
    cltbl[tbl + 1] := tcl;
    ListsKept(before, cltbl[..], tbl, chain, n);
  }

  lemma {:induction false} FragmentBound(chain: seq<nat>, n: nat)
    requires n <= |chain|
    ensures Fragments(chain, n) <= n
  {
    if n > 0 { FragmentBound(chain, n - 1); }
  }

  /** The state of the outer loop: the first n clusters are counted, and listed as long as they fit. */
  ghost predicate Building(tbl: seq<dword>, tlen: nat, pos: nat, ulen: nat, chain: seq<nat>, n: nat, cl: nat, entries: nat) {
    && tbl != [] && tbl[0] == tlen <= |tbl|
    && n <= |chain| && (if n < |chain| then cl == chain[n] && Starts(chain, n) else cl >= entries)
    && ulen == 2 + 2 * Fragments(chain, n)
    && (ulen <= tlen ==> pos == ulen - 1 && Lists(tbl, pos, chain, n))
  }

  /** One turn of the outer loop: count a fragment and list it if it fits; a link of 0 or 1 is the abort. */
  method AddFragment(fs: Volume, cltbl: array<dword>, tlen: nat, pos: nat, items: nat, tcl: dword, ghost chain: seq<nat>, ghost n: nat)
      returns (tbl: nat, ulen: nat, cl: dword, ghost m: nat)
    requires fs.Valid() && IsChain(Fat0(fs), chain) && tcl < fs.g.nFatent && fs.win as object != cltbl
    requires Building(cltbl[..], tlen, pos, items, chain, n, tcl, fs.g.nFatent)
    modifies fs`disk, fs`wflag, fs`winsect, fs.win, cltbl
    ensures Kept(fs) && Fat0(fs) == old(Fat0(fs))
    ensures fs.winsect == old(fs.winsect) || fs.g.InFat(fs.winsect)
    ensures cl <= 1 ==> EndsInNext(Fat0(fs), chain)
    ensures cl > 1 ==> n < m <= |chain| && Building(cltbl[..], tlen, tbl, ulen, chain, m, cl, fs.g.nFatent)
    ensures cl > 1 && m == |chain| ==> !EndsInNext(Fat0(fs), chain)
  {
    hide Kept, Fat0, Volume.Valid, Fragments, Starts, EndsInNext;
    tbl, ulen := pos, items + 2;
    var ncl: dword;
    ncl, cl := CountFragment(fs, tcl, chain, n);
    m := n + ncl;
    if cl > 1 && ulen <= tlen {
      StoreFragment(cltbl, tbl, ncl, tcl, chain, n);
      tbl := tbl + 2;
    }
  }

  /** f_lseek with CREATE_LINKMAP: build the table of the chain that starts at `sclust`.
      Item 0 comes in as the size of the table and goes out as the number of items needed. It is aborted exactly when
      the end mark is the number behind the last cluster. */
  method CreateLinkmap(fs: Volume, sclust: dword, cltbl: array<dword>, ghost chain: seq<nat>) returns (res: Result)
    requires fs.Valid() && fs.win as object != cltbl
    requires cltbl.Length > 0 && cltbl[0] <= cltbl.Length
    requires if sclust == 0 then chain == [] else IsChain(Fat0(fs), chain) && chain[0] == sclust
    modifies fs`disk, fs`wflag, fs`winsect, fs.win, cltbl
    ensures Kept(fs) && Fat0(fs) == old(Fat0(fs))
    ensures fs.winsect == old(fs.winsect) || fs.g.InFat(fs.winsect)
    ensures res == IntErr <==> EndsInNext(Fat0(fs), chain)
    ensures res != IntErr ==> cltbl[0] == 2 + 2 * Fragments(chain, |chain|)
    ensures res != IntErr ==> res == if cltbl[0] <= old(cltbl[0]) then Ok else NotEnoughCore
    ensures res == Ok ==> Maps(cltbl[..], 1, chain)
  {
    hide Fat, EndsInNext, Fragments, Starts, Lists, Maps, Last, IsChain, Geometry.WellFormed, Building;
    ghost var t := Fat0(fs);
    FragmentLimit(fs.g, t, chain);
    StartBuilding(cltbl[..], t, chain, sclust);
    var tlen: nat := cltbl[0];
    var tbl: nat := 1;
    var ulen: nat := 2;
    var cl: dword := sclust;
    ghost var n := 0;
    if cl != 0 {
      while cl < fs.g.nFatent
        invariant Kept(fs) && Fat0(fs) == t
        invariant fs.winsect == old(fs.winsect) || fs.g.InFat(fs.winsect)
        invariant Building(cltbl[..], tlen, tbl, ulen, chain, n, cl, |t|)
        invariant n == |chain| ==> !EndsInNext(t, chain)
        decreases |chain| - n
      {
        ghost var m;
        tbl, ulen, cl, m := AddFragment(fs, cltbl, tlen, tbl, ulen, cl, chain, n);
        if cl <= 1 { return IntErr; }
        n := m;
      }
    }
    if chain != [] { DoneBuilding(cltbl[..], tlen, tbl, ulen, t, chain, n, cl); }
    FinishTable(cltbl, ulen, tlen, tbl, chain);
    return if ulen <= tlen then Ok else NotEnoughCore;
  }

  lemma StartBuilding(tbl: seq<dword>, t: seq<nat>, chain: seq<nat>, sclust: nat)
    requires tbl != [] && tbl[0] <= |tbl| && (if sclust == 0 then chain == [] else IsChain(t, chain) && chain[0] == sclust)
    ensures sclust != 0 ==> chain != [] && Building(tbl, tbl[0], 1, 2, chain, 0, sclust, |t|)
    ensures sclust == 0 ==> Fragments(chain, |chain|) == 0 && Lists(tbl, 1, chain, |chain|) && !EndsInNext(t, chain)
  {
  }

  /** The outer loop stops at the end mark, with the whole chain counted. */
  lemma DoneBuilding(tbl: seq<dword>, tlen: nat, pos: nat, ulen: nat, t: seq<nat>, chain: seq<nat>, n: nat, cl: nat)
    requires Building(tbl, tlen, pos, ulen, chain, n, cl, |t|) && IsChain(t, chain) && cl >= |t|
    ensures n == |chain| && ulen == 2 + 2 * Fragments(chain, |chain|)
    ensures tbl != [] && tlen <= |tbl| && (ulen <= tlen ==> pos == ulen - 1 && Lists(tbl, pos, chain, |chain|))
  {
  }

  lemma FragmentLimit(g: Geometry, t: seq<nat>, chain: seq<nat>)
    requires g.WellFormed() && |t| == g.nFatent && (chain == [] || IsChain(t, chain))
    ensures Fragments(chain, |chain|) < 0x1000_0000
  {
    if chain != [] { ChainDistinct(t, chain); }
    FragmentBound(chain, |chain|);
  }

  /** Report the size and terminate the table. */
  method FinishTable(cltbl: array<dword>, ulen: dword, tlen: nat, tbl: nat, ghost chain: seq<nat>)
    requires cltbl.Length > 0 && tlen <= cltbl.Length
    requires ulen >= 2 && (ulen <= tlen ==> tbl == ulen - 1 && Lists(cltbl[..], tbl, chain, |chain|))
    modifies cltbl
    ensures cltbl[0] == ulen
    ensures ulen <= tlen ==> Maps(cltbl[..], 1, chain)
  {
    ghost var before := cltbl[..];
    cltbl[0] := ulen;
    if ulen <= tlen {
      cltbl[tbl] := 0;
      ListsKept(before, cltbl[..], tbl, chain, |chain|);
      ListsMaps(cltbl[..], tbl, chain, |chain|);
    }
  }
}
