/** The page allocator below the slab allocator: free page runs on a list in address order. */
module SlabPages {
  import opened Sequences

  /** A run of free pages, by page number. */
  datatype Run = Run(at: nat, n: nat)

  predicate InRun(r: Run, p: nat) { r.at <= p < r.at + r.n }

  /** Page p is free. */
  ghost predicate FreePage(runs: seq<Run>, p: nat) {
    exists i :: 0 <= i < |runs| && InRun(runs[i], p)
  }

  /** The runs are in address order, not empty, and no two of them touch. */
  ghost predicate Tidy(runs: seq<Run>) {
    && (forall i :: 0 <= i < |runs| ==> runs[i].at > 0 && runs[i].n > 0)
    && forall i :: 0 <= i < |runs| - 1 ==> runs[i].at + runs[i].n < runs[i + 1].at
  }

  /** The first page of run i, or null. */
  function At(runs: seq<Run>, i: nat): nat { if i < |runs| then runs[i].at else 0 }

  ghost predicate NodeIs(runs: seq<Run>, next: map<nat, nat>, page: map<nat, nat>, i: nat)
    requires i < |runs|
  {
    runs[i].at in next && next[runs[i].at] == At(runs, i + 1) && runs[i].at in page && page[runs[i].at] == runs[i].n
  }

  /** The list through the first pages of the runs. */
  ghost predicate Linked(runs: seq<Run>, head: nat, next: map<nat, nat>, page: map<nat, nat>) {
    head == At(runs, 0) && forall i :: 0 <= i < |runs| ==> NodeIs(runs, next, page, i)
  }

  lemma {:induction false} InOrder(runs: seq<Run>, i: nat, j: nat)
    requires Tidy(runs) && i < j < |runs|
    ensures runs[i].at + runs[i].n < runs[j].at
    decreases j
  {
    if i < j - 1 { InOrder(runs, i, j - 1); }
  }

  lemma SameRun(runs: seq<Run>, i: nat, j: nat)
    requires Tidy(runs) && i < |runs| && j < |runs|
    ensures runs[i].at == runs[j].at <==> i == j
  {
    if i < j { InOrder(runs, i, j); } else if j < i { InOrder(runs, j, i); }
  }

  lemma TidyTail(runs: seq<Run>)
    requires Tidy(runs) && runs != []
    ensures Tidy(runs[1..])
    ensures forall p: nat :: FreePage(runs[1..], p) <==> FreePage(runs, p) && !InRun(runs[0], p)
  {
    forall i | 0 <= i < |runs[1..]| - 1 ensures runs[1..][i].at + runs[1..][i].n < runs[1..][i + 1].at {
      assert runs[i + 1].at + runs[i + 1].n < runs[i + 2].at;
    }
    forall p: nat ensures FreePage(runs[1..], p) <==> FreePage(runs, p) && !InRun(runs[0], p) {
      if FreePage(runs[1..], p) {
        var i :| 0 <= i < |runs[1..]| && InRun(runs[1..][i], p);
        InOrder(runs, 0, i + 1);
        assert InRun(runs[i + 1], p);
      }
      if FreePage(runs, p) && !InRun(runs[0], p) {
        var i :| 0 <= i < |runs| && InRun(runs[i], p);
        assert InRun(runs[1..][i - 1], p);
      }
    }
  }

  /** The first run of a list starts at its lowest free page and ends before the first page that is not free. */
  lemma FirstRun(runs: seq<Run>)
    requires Tidy(runs) && runs != []
    ensures forall p: nat :: FreePage(runs, p) ==> p >= runs[0].at
    ensures forall p: nat :: runs[0].at <= p < runs[0].at + runs[0].n ==> FreePage(runs, p)
    ensures !FreePage(runs, runs[0].at + runs[0].n)
  {
    forall p: nat | FreePage(runs, p) ensures p >= runs[0].at && p != runs[0].at + runs[0].n {
      var i :| 0 <= i < |runs| && InRun(runs[i], p);
      if i > 0 { InOrder(runs, 0, i); }
    }
    forall p: nat | runs[0].at <= p < runs[0].at + runs[0].n ensures FreePage(runs, p) {
      assert InRun(runs[0], p);
    }
  }

  lemma FirstFree(runs: seq<Run>)
    requires Tidy(runs) && runs != []
    ensures FreePage(runs, runs[0].at)
  {
    assert InRun(runs[0], runs[0].at);
  }

  /** A tidy list is determined by which pages are free, however it came about. */
  lemma {:induction false} Canonical(a: seq<Run>, b: seq<Run>)
    requires Tidy(a) && Tidy(b) && forall p: nat :: FreePage(a, p) <==> FreePage(b, p)
    ensures a == b
  {
    hide Tidy;
    if a == [] {
      if b != [] { FirstFree(b); }
    } else if b == [] {
      FirstFree(a);
    } else {
      SameFirst(a, b);
      TidyTail(a);
      TidyTail(b);
      Canonical(a[1..], b[1..]);
      assert a == [a[0]] + a[1..] && b == [b[0]] + b[1..];
    }
  }

  lemma SameFirst(a: seq<Run>, b: seq<Run>)
    requires Tidy(a) && Tidy(b) && a != [] && b != [] && forall p: nat :: FreePage(a, p) <==> FreePage(b, p)
    ensures a[0] == b[0]
  {
    hide FreePage, Tidy;
    FirstRun(a);
    FirstRun(b);
    FirstFree(a);
    FirstFree(b);
    assert FreePage(b, a[0].at) && FreePage(a, b[0].at);
    var x, y := a[0].at + a[0].n, b[0].at + b[0].n;
    assert FreePage(a, x) <==> FreePage(b, x);
    assert FreePage(a, y) <==> FreePage(b, y);
  }

  // ---------- changes to the list ----------

  lemma DroppedRun(runs: seq<Run>, i: nat)
    requires Tidy(runs) && i < |runs|
    ensures Tidy(Dropped(runs, i))
    ensures forall p: nat :: FreePage(Dropped(runs, i), p) <==> FreePage(runs, p) && !InRun(runs[i], p)
  {
    hide Dropped;
    var r := Dropped(runs, i);
    DroppedSize(runs, i);
    forall k | 0 <= k < |r| ensures r[k] == runs[if k < i then k else k + 1] { DroppedAt(runs, i, k); }
    forall k | 0 <= k < |r| - 1 ensures r[k].at + r[k].n < r[k + 1].at {
      InOrder(runs, if k < i then k else k + 1, if k + 1 < i then k + 1 else k + 2);
    }
    forall p: nat ensures FreePage(r, p) <==> FreePage(runs, p) && !InRun(runs[i], p) {
      if FreePage(r, p) { DroppedHas(runs, i, r, p); }
      if FreePage(runs, p) && !InRun(runs[i], p) {
        var j :| 0 <= j < |runs| && InRun(runs[j], p);
        assert InRun(r[if j < i then j else j - 1], p);
      }
    }
  }

  lemma DroppedHas(runs: seq<Run>, i: nat, r: seq<Run>, p: nat)
    requires Tidy(runs) && i < |runs| && |r| == |runs| - 1
    requires forall k :: 0 <= k < |r| ==> r[k] == runs[if k < i then k else k + 1]
    requires FreePage(r, p)
    ensures FreePage(runs, p) && !InRun(runs[i], p)
  {
    var k :| 0 <= k < |r| && InRun(r[k], p);
    var j := if k < i then k else k + 1;
    assert InRun(runs[j], p);
    if j < i { InOrder(runs, j, i); } else { InOrder(runs, i, j); }
  }

  /** Run i replaced by one that touches neither neighbour. */
  lemma ReplacedRun(runs: seq<Run>, i: nat, x: Run)
    requires Tidy(runs) && i < |runs| && x.at > 0 && x.n > 0
    requires (i > 0 ==> runs[i - 1].at + runs[i - 1].n < x.at) && (i + 1 < |runs| ==> x.at + x.n < runs[i + 1].at)
    ensures Tidy(runs[i := x])
    ensures forall p: nat :: FreePage(runs[i := x], p) <==> InRun(x, p) || (FreePage(runs, p) && !InRun(runs[i], p))
  {
    var r := runs[i := x];
    forall p: nat ensures FreePage(r, p) <==> InRun(x, p) || (FreePage(runs, p) && !InRun(runs[i], p)) {
      if FreePage(r, p) && !InRun(x, p) {
        var k :| 0 <= k < |r| && InRun(r[k], p);
        assert InRun(runs[k], p);
        if k < i { InOrder(runs, k, i); } else { InOrder(runs, i, k); }
      }
      if InRun(x, p) { assert InRun(r[i], p); }
      if FreePage(runs, p) && !InRun(runs[i], p) {
        var k :| 0 <= k < |runs| && InRun(runs[k], p);
        assert InRun(r[k], p);
      }
    }
  }

  /** A run put in before run i that touches neither neighbour. */
  lemma InsertedRun(runs: seq<Run>, i: nat, x: Run)
    requires Tidy(runs) && i <= |runs| && x.at > 0 && x.n > 0
    requires (i > 0 ==> runs[i - 1].at + runs[i - 1].n < x.at) && (i < |runs| ==> x.at + x.n < runs[i].at)
    ensures Tidy(Inserted(runs, i, x))
    ensures forall p: nat :: FreePage(Inserted(runs, i, x), p) <==> InRun(x, p) || FreePage(runs, p)
  {
    hide Inserted;
    var r := Inserted(runs, i, x);
    InsertedSize(runs, i, x);
    forall k | 0 <= k < |r| ensures r[k] == (if k == i then x else runs[if k < i then k else k - 1]) { InsertedAt(runs, i, x, k); }
    forall k | 0 <= k < |r| - 1 ensures r[k].at + r[k].n < r[k + 1].at {
      if k > i { assert runs[k - 1].at + runs[k - 1].n < runs[k].at; }
    }
    forall p: nat ensures FreePage(r, p) <==> InRun(x, p) || FreePage(runs, p) {
      if FreePage(r, p) && !InRun(x, p) {
        var k :| 0 <= k < |r| && InRun(r[k], p);
        assert InRun(runs[if k < i then k else k - 1], p);
      }
      if InRun(x, p) { assert InRun(r[i], p); }
      if FreePage(runs, p) {
        var k :| 0 <= k < |runs| && InRun(runs[k], p);
        assert InRun(r[if k < i then k else k + 1], p);
      }
    }
  }

  // ---------- the list in memory ----------

  /** The head and the next fields after *prev = x, where prev is the link that leads to run i. */
  function HeadTo(head: nat, prev: nat, x: nat): nat { if prev == 0 then x else head }

  function NextTo(next: map<nat, nat>, prev: nat, x: nat): map<nat, nat> { if prev == 0 then next else next[prev := x] }

  /** The node before run i, or 0 for the head. */
  function Before(runs: seq<Run>, i: nat): nat
    requires i <= |runs|
  {
    if i == 0 then 0 else runs[i - 1].at
  }

  lemma DroppedLinks(runs: seq<Run>, head: nat, next: map<nat, nat>, page: map<nat, nat>, i: nat)
    requires Tidy(runs) && Linked(runs, head, next, page) && i < |runs|
    ensures runs[i].at in next
    ensures Linked(Dropped(runs, i), HeadTo(head, Before(runs, i), next[runs[i].at]), NextTo(next, Before(runs, i), next[runs[i].at]), page)
  {
    assert NodeIs(runs, next, page, i);
    var r, n := Dropped(runs, i), NextTo(next, Before(runs, i), next[runs[i].at]);
    forall k | 0 <= k < |r| ensures NodeIs(r, n, page, k) {
      var j := if k < i then k else k + 1;
      assert NodeIs(runs, next, page, j);
      if i > 0 { SameRun(runs, i - 1, j); }
    }
  }

  /** Run i gets a new node in the place of its own. */
  lemma ReplacedLinks(runs: seq<Run>, head: nat, next: map<nat, nat>, page: map<nat, nat>, i: nat, x: Run)
    requires Tidy(runs) && Linked(runs, head, next, page) && i < |runs| && Tidy(runs[i := x])
    ensures runs[i].at in next
    ensures var n := next[x.at := next[runs[i].at]];
            Linked(runs[i := x], HeadTo(head, Before(runs, i), x.at), NextTo(n, Before(runs, i), x.at), page[x.at := x.n])
  {
    assert NodeIs(runs, next, page, i);
    var r := runs[i := x];
    var n, g := NextTo(next[x.at := next[runs[i].at]], Before(runs, i), x.at), page[x.at := x.n];
    forall k | 0 <= k < |r| ensures NodeIs(r, n, g, k) {
      assert NodeIs(runs, next, page, k);
      SameRun(r, k, i);
      if i > 0 { SameRun(r, i - 1, k); }
    }
  }

  lemma InsertedLinks(runs: seq<Run>, head: nat, next: map<nat, nat>, page: map<nat, nat>, i: nat, x: Run)
    requires Tidy(runs) && Linked(runs, head, next, page) && i <= |runs| && Tidy(Inserted(runs, i, x))
    ensures var n := next[x.at := At(runs, i)];
            Linked(Inserted(runs, i, x), HeadTo(head, Before(runs, i), x.at), NextTo(n, Before(runs, i), x.at), page[x.at := x.n])
  {
    hide Inserted;
    var r := Inserted(runs, i, x);
    InsertedSize(runs, i, x);
    forall k | 0 <= k < |r| ensures r[k] == (if k == i then x else runs[if k < i then k else k - 1]) { InsertedAt(runs, i, x, k); }
    var n, g := NextTo(next[x.at := At(runs, i)], Before(runs, i), x.at), page[x.at := x.n];
    forall k | 0 <= k < |r| ensures NodeIs(r, n, g, k) {
      if k != i { assert NodeIs(runs, next, page, if k < i then k else k - 1); }
      SameRun(r, k, i);
      if i > 0 { SameRun(r, i - 1, k); }
    }
  }

  lemma Node(runs: seq<Run>, head: nat, next: map<nat, nat>, page: map<nat, nat>, i: nat)
    requires Tidy(runs) && Linked(runs, head, next, page) && i < |runs|
    ensures runs[i].at in next && next[runs[i].at] == At(runs, i + 1) && runs[i].at in page && page[runs[i].at] == runs[i].n
    ensures runs[i].at > 0 && runs[i].n > 0 && (i + 1 < |runs| ==> runs[i].at + runs[i].n < runs[i + 1].at)
    ensures i > 0 ==> runs[i - 1].at > 0 && runs[i - 1].at + runs[i - 1].n < runs[i].at
  {
    assert NodeIs(runs, next, page, i);
  }

  class PageList {
    var head: nat // rt_page_list
    var next: map<nat, nat>
    var page: map<nat, nat>
    ghost var runs: seq<Run>

    ghost predicate Valid()
      reads this
    {
      Tidy(runs) && Linked(runs, head, next, page)
    }

    /** Page p is free. */
    ghost predicate IsFree(p: nat)
      reads this`runs
    {
      FreePage(runs, p)
    }

    /** rt_page_init: all pages are free. */
    constructor (addr: nat, npages: nat)
      requires addr > 0 && npages > 0
      ensures Valid() && runs == [Run(addr, npages)]
    {
      head, next, page := addr, map[addr := 0], map[addr := npages];
      runs := [Run(addr, npages)];
    }

    /** rt_page_alloc: 0 exactly when nothing is asked for or no run is long enough; otherwise the start of the first
        run that is, and just these pages are no longer free. */
    method Alloc(npages: nat) returns (b: nat)
      requires Valid()
      modifies this
      ensures Valid()
      ensures b == 0 <==> npages == 0 || forall i :: 0 <= i < |old(runs)| ==> old(runs)[i].n < npages
      ensures b == 0 ==> unchanged(this)
      ensures b != 0 ==> exists i: nat :: FirstLong(old(runs), npages, i) && old(runs)[i].at == b
      ensures b != 0 ==> forall p: nat :: IsFree(p) <==> old(IsFree(p)) && !InRun(Run(b, npages), p)
      ensures b != 0 ==> forall p: nat :: InRun(Run(b, npages), p) ==> old(IsFree(p))
    {
      hide Tidy, Linked, FreePage;
      if npages == 0 { return 0; }
      ghost var i: nat := 0;
      var prev: nat := 0;
      b := head;
      HeadIs(runs, head, next, page);
      while b != 0
        invariant i <= |runs| && b == At(runs, i) && prev == Before(runs, i)
        invariant forall j :: 0 <= j < i ==> runs[j].n < npages
        invariant b == 0 ==> i == |runs|
        modifies {}
        decreases |runs| - i
      {
        Node(runs, head, next, page, i);
        if page[b] >= npages { break; }
        NextAt(runs, i + 1);
        prev, b, i := b, next[b], i + 1;
      }
      if b != 0 {
        assert FirstLong(runs, npages, i);
        TakeRun(b, npages, prev, i);
      }
    }

    /** Take pages from the front of run i. */
    method TakeRun(b: nat, npages: nat, prev: nat, ghost i: nat)
      requires Valid() && i < |runs| && runs[i].at == b && prev == Before(runs, i) && 0 < npages <= runs[i].n
      modifies this
      ensures Valid()
      ensures forall p: nat :: IsFree(p) <==> old(IsFree(p)) && !InRun(Run(b, npages), p)
      ensures forall p: nat :: InRun(Run(b, npages), p) ==> old(IsFree(p))
    {
      hide Tidy, Linked, FreePage;
      Node(runs, head, next, page, i);
      AllFree(runs, i);
      if page[b] > npages {
        var n := b + npages;
        Shorten(runs, i, npages);
        ReplacedLinks(runs, head, next, page, i, Run(n, page[b] - npages));
        next := next[n := next[b]];
        page := page[n := page[b] - npages];
        if prev == 0 { head := n; } else { next := next[prev := n]; }
        runs := runs[i := Run(n, runs[i].n - npages)];
        return;
      }
      DroppedRun(runs, i);
      DroppedLinks(runs, head, next, page, i);
      if prev == 0 { head := next[b]; } else { next := next[prev := next[b]]; }
      runs := Dropped(runs, i);
    }

    /** rt_page_free: just these pages become free. */
    method Release(n: nat, npages: nat)
      requires Valid() && n > 0 && npages > 0 && forall p: nat :: InRun(Run(n, npages), p) ==> !IsFree(p)
      modifies this
      ensures Valid() && forall p: nat :: IsFree(p) <==> old(IsFree(p)) || InRun(Run(n, npages), p)
    {
      hide Tidy, Linked, FreePage;
      ghost var i: nat := 0;
      var prev: nat := 0;
      var b: nat := head;
      HeadIs(runs, head, next, page);
      while b != 0
        invariant i <= |runs| && b == At(runs, i) && prev == Before(runs, i) && (b == 0 ==> i == |runs|)
        invariant i > 0 ==> runs[i - 1].at + runs[i - 1].n < n
        modifies {}
        decreases |runs| - i
      {
        Node(runs, head, next, page, i);
        Apart(runs, i, n, npages);
        if b + page[b] == n || b >= n + npages { break; }
        NextAt(runs, i + 1);
        prev, b, i := b, next[b], i + 1;
      }
      if b != 0 && b + page[b] == n {
        Extend(b, n, npages, i);
        return;
      }
      if b != 0 && b == n + npages {
        Shift(b, n, npages, prev, i);
        return;
      }
      InsertedRun(runs, i, Run(n, npages));
      InsertedLinks(runs, head, next, page, i, Run(n, npages));
      page := page[n := npages];
      next := next[n := b];
      if prev == 0 { head := n; } else { next := next[prev := n]; }
      runs := Inserted(runs, i, Run(n, npages));
    }

    /** Pages behind run i join it, and the run after them too when they fill the gap. */
    method Extend(b: nat, n: nat, npages: nat, ghost i: nat)
      requires Valid() && i < |runs| && runs[i].at == b && b + runs[i].n == n && npages > 0
      requires forall p: nat :: InRun(Run(n, npages), p) ==> !IsFree(p)
      modifies this
      ensures Valid() && forall p: nat :: IsFree(p) <==> old(IsFree(p)) || InRun(Run(n, npages), p)
    {
      hide Tidy, Linked, FreePage;
      ghost var rs := runs;
      Node(rs, head, next, page, i);
      AllFree(rs, i);
      page := page[b := page[b] + npages];
      if b + page[b] == next[b] {
        FillGap(rs, head, next, old(page), i, npages);
        page := page[b := page[b] + page[next[b]]];
        assert page == old(page)[b := page[b]];
        next := next[b := next[next[b]]];
        runs := Dropped(rs, i + 1)[i := Run(b, page[b])];
        return;
      }
      if i + 1 < |rs| { Apart(rs, i + 1, n, npages); }
      ReplacedRun(rs, i, Run(b, page[b]));
      ResizedLinks(rs, head, next, old(page), i, page[b]);
      runs := rs[i := Run(b, page[b])];
    }

    /** Pages in front of run i become its first pages. */
    method Shift(b: nat, n: nat, npages: nat, prev: nat, ghost i: nat)
      requires Valid() && i < |runs| && runs[i].at == b == n + npages && prev == Before(runs, i) && n > 0 && npages > 0
      requires i > 0 ==> runs[i - 1].at + runs[i - 1].n < n
      modifies this
      ensures Valid() && forall p: nat :: IsFree(p) <==> old(IsFree(p)) || InRun(Run(n, npages), p)
    {
      hide Tidy, Linked, FreePage;
      Node(runs, head, next, page, i);
      AllFree(runs, i);
      ReplacedRun(runs, i, Run(n, page[b] + npages));
      ReplacedLinks(runs, head, next, page, i, Run(n, page[b] + npages));
      page := page[n := page[b] + npages];
      next := next[n := next[b]];
      if prev == 0 { head := n; } else { next := next[prev := n]; }
      runs := runs[i := Run(n, runs[i].n + npages)];
    }

    /** Pages that were just handed out leave the list as it was when they are given back. */
    method AllocThenRelease(npages: nat) returns (b: nat)
      requires Valid()
      modifies this
      ensures Valid() && runs == old(runs)
      ensures b != 0 <==> npages > 0 && exists i :: 0 <= i < |runs| && runs[i].n >= npages
    {
      b := Alloc(npages);
      if b != 0 {
        Release(b, npages);
        forall p: nat ensures FreePage(runs, p) <==> FreePage(old(runs), p) {
          assert IsFree(p) <==> old(IsFree(p)) || InRun(Run(b, npages), p);
        }
        Canonical(runs, old(runs));
      }
    }
  }

  /** Run i is the first with enough pages. */
  ghost predicate FirstLong(runs: seq<Run>, npages: nat, i: nat) {
    i < |runs| && runs[i].n >= npages && forall j :: 0 <= j < i ==> runs[j].n < npages
  }

  lemma HeadIs(runs: seq<Run>, head: nat, next: map<nat, nat>, page: map<nat, nat>)
    requires Tidy(runs) && Linked(runs, head, next, page)
    ensures head == At(runs, 0) && (head == 0 ==> runs == [])
  {
  }

  lemma NextAt(runs: seq<Run>, i: nat)
    requires Tidy(runs) && i <= |runs|
    ensures At(runs, i) == 0 <==> i == |runs|
  {
  }

  lemma AllFree(runs: seq<Run>, i: nat)
    requires i < |runs|
    ensures forall p: nat :: InRun(runs[i], p) ==> FreePage(runs, p)
  {
  }

  lemma Shorten(runs: seq<Run>, i: nat, npages: nat)
    requires Tidy(runs) && i < |runs| && 0 < npages < runs[i].n
    ensures var r := runs[i := Run(runs[i].at + npages, runs[i].n - npages)];
            && Tidy(r)
            && forall p: nat :: FreePage(r, p) <==> FreePage(runs, p) && !InRun(Run(runs[i].at, npages), p)
  {
    hide FreePage;
    ReplacedRun(runs, i, Run(runs[i].at + npages, runs[i].n - npages));
    AllFree(runs, i);
  }

  /** Pages that are not free lie before or behind each run. */
  lemma Apart(runs: seq<Run>, i: nat, n: nat, npages: nat)
    requires Tidy(runs) && i < |runs| && npages > 0 && forall p: nat :: InRun(Run(n, npages), p) ==> !FreePage(runs, p)
    ensures runs[i].at + runs[i].n <= n || n + npages <= runs[i].at
  {
    var p := if n < runs[i].at then runs[i].at else n;
    if InRun(runs[i], p) && InRun(Run(n, npages), p) { assert FreePage(runs, p); }
  }

  lemma ResizedLinks(runs: seq<Run>, head: nat, next: map<nat, nat>, page: map<nat, nat>, i: nat, n: nat)
    requires Tidy(runs) && Linked(runs, head, next, page) && i < |runs|
    ensures Linked(runs[i := Run(runs[i].at, n)], head, next, page[runs[i].at := n])
  {
    var r, g := runs[i := Run(runs[i].at, n)], page[runs[i].at := n];
    forall k | 0 <= k < |r| ensures NodeIs(r, next, g, k) {
      assert NodeIs(runs, next, page, k);
      SameRun(runs, k, i);
    }
  }

  /** npages pages fill the gap between run i and the next one. */
  lemma FillGap(runs: seq<Run>, head: nat, next: map<nat, nat>, page: map<nat, nat>, i: nat, npages: nat)
    requires Tidy(runs) && Linked(runs, head, next, page) && i < |runs| && npages > 0
    requires runs[i].at + runs[i].n + npages == At(runs, i + 1)
    ensures i + 1 < |runs| && runs[i + 1].at in page && runs[i + 1].at in next && runs[i].at != runs[i + 1].at
    ensures page[runs[i + 1].at] == runs[i + 1].n
    ensures var r := Dropped(runs, i + 1)[i := Run(runs[i].at, runs[i].n + npages + runs[i + 1].n)];
            && Tidy(r)
            && Linked(r, head, next[runs[i].at := next[runs[i + 1].at]], page[runs[i].at := runs[i].n + npages + runs[i + 1].n])
            && forall p: nat :: FreePage(r, p) <==> FreePage(runs, p) || InRun(Run(runs[i].at + runs[i].n, npages), p)
  {
    hide Tidy, Linked, FreePage;
    Node(runs, head, next, page, i);
    Node(runs, head, next, page, i + 1);
    DroppedRun(runs, i + 1);
    DroppedLinks(runs, head, next, page, i + 1);
    var d, n := Dropped(runs, i + 1), next[runs[i].at := next[runs[i + 1].at]];
    assert d[i] == runs[i];
    var m := runs[i].n + npages + runs[i + 1].n;
    if i + 2 < |runs| {
      Node(runs, head, next, page, i + 2);
      assert d[i + 1] == runs[i + 2];
    }
    if i > 0 {
      Node(runs, head, next, page, i - 1);
      assert d[i - 1] == runs[i - 1];
    }
    ReplacedRun(d, i, Run(runs[i].at, m));
    ResizedLinks(d, head, n, page, i, m);
    AllFree(runs, i);
    AllFree(runs, i + 1);
    var r := d[i := Run(runs[i].at, m)];
    forall p: nat ensures FreePage(r, p) <==> FreePage(runs, p) || InRun(Run(runs[i].at + runs[i].n, npages), p) {
      assert InRun(Run(runs[i].at, m), p) <==>
             InRun(runs[i], p) || InRun(Run(runs[i].at + runs[i].n, npages), p) || InRun(runs[i + 1], p);
      assert FreePage(d, p) <==> FreePage(runs, p) && !InRun(runs[i + 1], p);
    }
  }
}
