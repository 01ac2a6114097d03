/** Circular doubly linked lists: the next and prev links of the nodes of a sequence. */
module Rings {
  import opened Sequences

  function Succ(i: nat, n: nat): nat
    requires i < n
  {
    if i + 1 == n then 0 else i + 1
  }

  function Pred(i: nat, n: nat): nat
    requires i < n
  {
    if i == 0 then n - 1 else i - 1
  }

  ghost predicate NextIs<T>(s: seq<T>, next: map<T, T>, i: nat)
    requires i < |s|
  {
    s[i] in next && next[s[i]] == s[Succ(i, |s|)]
  }

  ghost predicate PrevIs<T>(s: seq<T>, prev: map<T, T>, i: nat)
    requires i < |s|
  {
    s[i] in prev && prev[s[i]] == s[Pred(i, |s|)]
  }

  /** Following the links goes round the sequence. */
  ghost predicate Forth<T>(s: seq<T>, next: map<T, T>) {
    forall i :: 0 <= i < |s| ==> NextIs(s, next, i)
  }

  /** Following the links goes round the sequence backwards. */
  ghost predicate Back<T>(s: seq<T>, prev: map<T, T>) {
    forall i :: 0 <= i < |s| ==> PrevIs(s, prev, i)
  }

  /** The nodes of a circular doubly linked list. */
  ghost predicate Ring<T>(s: seq<T>, next: map<T, T>, prev: map<T, T>) {
    |s| > 0 && Distinct(s) && Forth(s, next) && Back(s, prev)
  }

  lemma InsertedForth<T>(s: seq<T>, next: map<T, T>, i: nat, x: T)
    requires Distinct(s) && Forth(s, next) && i < |s| && x !in s
    ensures NextIs(s, next, i) && Forth(Inserted(s, i + 1, x), next[x := next[s[i]]][s[i] := x])
  {
    hide Inserted, Distinct;
    assert NextIs(s, next, i);
    var r, n := Inserted(s, i + 1, x), next[x := next[s[i]]][s[i] := x];
    InsertedSize(s, i + 1, x);
    forall k | 0 <= k < |r| ensures NextIs(r, n, k) {
      InsertedAt(s, i + 1, x, k);
      InsertedAt(s, i + 1, x, Succ(k, |r|));
      if k != i + 1 {
        Same(s, if k <= i then k else k - 1, i);
        assert NextIs(s, next, if k <= i then k else k - 1);
      }
    }
  }

  lemma InsertedBack<T>(s: seq<T>, prev: map<T, T>, i: nat, x: T)
    requires Distinct(s) && Back(s, prev) && i < |s| && x !in s
    ensures Back(Inserted(s, i + 1, x), prev[x := s[i]][s[Succ(i, |s|)] := x])
  {
    hide Inserted, Distinct;
    var r, p := Inserted(s, i + 1, x), prev[x := s[i]][s[Succ(i, |s|)] := x];
    InsertedSize(s, i + 1, x);
    forall k | 0 <= k < |r| ensures PrevIs(r, p, k) {
      InsertedAt(s, i + 1, x, k);
      InsertedAt(s, i + 1, x, Pred(k, |r|));
      if k != i + 1 {
        Same(s, if k <= i then k else k - 1, Succ(i, |s|));
        assert PrevIs(s, prev, if k <= i then k else k - 1);
      }
    }
  }

  /** Linking x in behind the node at index i. */
  lemma RingInsert<T>(s: seq<T>, next: map<T, T>, prev: map<T, T>, i: nat, x: T)
    requires Ring(s, next, prev) && i < |s| && x !in s
    ensures s[i] in next && Ring(Inserted(s, i + 1, x), next[x := next[s[i]]][s[i] := x], prev[x := s[i]][next[s[i]] := x])
  {
    hide Forth, Back;
    Links(s, next, prev, i);
    InsertedDistinct(s, i + 1, x);
    InsertedForth(s, next, i, x);
    InsertedBack(s, prev, i, x);
  }

  lemma Links<T>(s: seq<T>, next: map<T, T>, prev: map<T, T>, i: nat)
    requires Ring(s, next, prev) && i < |s|
    ensures s[i] in next && next[s[i]] == s[Succ(i, |s|)]
    ensures s[i] in prev && prev[s[i]] == s[Pred(i, |s|)]
  {
    assert NextIs(s, next, i) && PrevIs(s, prev, i);
  }

  lemma DroppedForth<T>(s: seq<T>, next: map<T, T>, i: nat)
    requires Distinct(s) && Forth(s, next) && i < |s|
    ensures Forth(Dropped(s, i), next[s[Pred(i, |s|)] := s[Succ(i, |s|)]])
  {
    hide Dropped, Distinct;
    var r, n := Dropped(s, i), next[s[Pred(i, |s|)] := s[Succ(i, |s|)]];
    DroppedSize(s, i);
    forall k | 0 <= k < |r| ensures NextIs(r, n, k) {
      DroppedAt(s, i, k);
      DroppedAt(s, i, Succ(k, |r|));
      Same(s, if k < i then k else k + 1, Pred(i, |s|));
      assert NextIs(s, next, if k < i then k else k + 1);
    }
  }

  lemma DroppedBack<T>(s: seq<T>, prev: map<T, T>, i: nat)
    requires Distinct(s) && Back(s, prev) && i < |s|
    ensures Back(Dropped(s, i), prev[s[Succ(i, |s|)] := s[Pred(i, |s|)]])
  {
    hide Dropped, Distinct;
    var r, p := Dropped(s, i), prev[s[Succ(i, |s|)] := s[Pred(i, |s|)]];
    DroppedSize(s, i);
    forall k | 0 <= k < |r| ensures PrevIs(r, p, k) {
      DroppedAt(s, i, k);
      DroppedAt(s, i, Pred(k, |r|));
      Same(s, if k < i then k else k + 1, Succ(i, |s|));
      assert PrevIs(s, prev, if k < i then k else k + 1);
    }
  }

  /** Taking the node at index i out. */
  lemma RingRemove<T>(s: seq<T>, next: map<T, T>, prev: map<T, T>, i: nat)
    requires Ring(s, next, prev) && i < |s| && |s| > 1
    ensures s[i] in next && s[i] in prev
    ensures Ring(Dropped(s, i), next[prev[s[i]] := next[s[i]]], prev[next[s[i]] := prev[s[i]]])
  {
    hide Forth, Back, Dropped;
    Links(s, next, prev, i);
    DroppedDistinct(s, i);
    DroppedForth(s, next, i);
    DroppedBack(s, prev, i);
    DroppedSize(s, i);
  }

  /** Links of nodes that are not in the sequence do not matter. */
  lemma RingFrame<T>(s: seq<T>, next: map<T, T>, prev: map<T, T>, n: map<T, T>, p: map<T, T>)
    requires Ring(s, next, prev)
    requires forall x :: x in s ==> x in next && x in prev && x in n && x in p && n[x] == next[x] && p[x] == prev[x]
    ensures Ring(s, n, p)
  {
    forall i | 0 <= i < |s| ensures NextIs(s, n, i) && PrevIs(s, p, i) { Links(s, next, prev, i); }
  }
}
