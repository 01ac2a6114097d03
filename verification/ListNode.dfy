/** rt_list_t: circular doubly linked lists through nodes that point at each other. */
module ListNodes {
  import opened Sequences
  import opened Rings

  class ListNode {
    var next: ListNode
    var prev: ListNode

    /** rt_list_init: a list of its own. */
    constructor ()
      ensures Linked([this])
    {
      next, prev := this, this;
    }

    /** rt_list_insert_after, with this node at index i of a list. */
    method InsertAfter(n: ListNode, ghost ns: seq<ListNode>, ghost i: nat)
      requires Linked(ns) && i < |ns| && ns[i] == this && n !in ns
      modifies ns, n
      ensures Linked(Inserted(ns, i + 1, n))
    {
      hide Inserted, Distinct;
      Joints(ns, i);
      next.prev := n;
      n.next := next;
      next := n;
      n.prev := this;
      InsertedSize(ns, i + 1, n);
      InsertedDistinct(ns, i + 1, n);
      ghost var rs := Inserted(ns, i + 1, n);
      forall k | 0 <= k < |rs| ensures LinkedAt(rs, k) {
        InsertedAt(ns, i + 1, n, k);
        InsertedAt(ns, i + 1, n, Succ(k, |ns| + 1));
        InsertedAt(ns, i + 1, n, Pred(k, |ns| + 1));
        if k != i + 1 {
          var j := if k <= i then k else k - 1;
          Joints(ns, i);
          Same(ns, j, i);
          Same(ns, j, Succ(i, |ns|));
          assert old(LinkedAt(ns, j));
        }
      }
    }

    /** rt_list_insert_before, with this node at index i of a list; before the first node is behind the last. */
    method InsertBefore(n: ListNode, ghost ns: seq<ListNode>, ghost i: nat)
      requires Linked(ns) && i < |ns| && ns[i] == this && n !in ns
      modifies ns, n
      ensures Linked(Inserted(ns, if i == 0 then |ns| else i, n))
    {
      hide Inserted, Distinct;
      ghost var at := if i == 0 then |ns| else i;
      Joints(ns, i);
      prev.next := n;
      n.prev := prev;
      prev := n;
      n.next := this;
      InsertedSize(ns, at, n);
      InsertedDistinct(ns, at, n);
      ghost var rs := Inserted(ns, at, n);
      forall k | 0 <= k < |rs| ensures LinkedAt(rs, k) {
        InsertedAt(ns, at, n, k);
        InsertedAt(ns, at, n, Succ(k, |ns| + 1));
        InsertedAt(ns, at, n, Pred(k, |ns| + 1));
        if k != at {
          var j := if k < at then k else k - 1;
          Joints(ns, i);
          Same(ns, j, i);
          Same(ns, j, Pred(i, |ns|));
          assert old(LinkedAt(ns, j));
        }
      }
    }

    /** rt_list_remove: the other nodes keep their order, and this node is a list of its own. */
    method Remove(ghost ns: seq<ListNode>, ghost i: nat)
      requires Linked(ns) && i < |ns| && ns[i] == this
      modifies ns
      ensures Linked([this]) && (|ns| > 1 ==> Linked(Dropped(ns, i)))
    {
      hide Dropped, Distinct;
      Joints(ns, i);
      next.prev := prev;
      prev.next := next;
      next := this;
      prev := this;
      Alone(this);
      if |ns| > 1 {
        DroppedSize(ns, i);
        DroppedDistinct(ns, i);
        ghost var rs := Dropped(ns, i);
        forall k | 0 <= k < |rs| ensures LinkedAt(rs, k) {
          DroppedAt(ns, i, k);
          DroppedAt(ns, i, Succ(k, |ns| - 1));
          DroppedAt(ns, i, Pred(k, |ns| - 1));
          var j := if k < i then k else k + 1;
          Same(ns, j, i);
          Same(ns, j, Succ(i, |ns|));
          Same(ns, j, Pred(i, |ns|));
          assert old(LinkedAt(ns, j));
        }
      }
    }

    /** rt_list_isempty, for the head of a list. */
    method IsEmpty(ghost s: seq<ListNode>) returns (r: bool)
      requires Linked([this] + s)
      ensures r <==> s == []
    {
      Joints([this] + s, 0);
      r := next == this;
      if s != [] { Same([this] + s, 0, 1); }
    }

    /** rt_list_len, for the head of a list. */
    method Len(ghost s: seq<ListNode>) returns (len: nat)
      requires Linked([this] + s)
      ensures len == |s|
    {
      len := 0;
      var p := this;
      Joints([this] + s, 0);
      while p.next != this
        invariant len <= |s| && p == ([this] + s)[len]
        decreases |s| - len
      {
        Joints([this] + s, len);
        p := p.next;
        len := len + 1;
      }
      Joints([this] + s, len);
      Same([this] + s, 0, Succ(len, |s| + 1));
    }

    /** A node put in behind this one and taken out again leaves the list as it was. */
    method InsertThenRemove(n: ListNode, ghost ns: seq<ListNode>, ghost i: nat)
      requires Linked(ns) && i < |ns| && ns[i] == this && n !in ns
      modifies ns, n
      ensures Linked(ns) && Linked([n])
    {
      InsertAfter(n, ns, i);
      n.Remove(Inserted(ns, i + 1, n), i + 1);
      assert Dropped(Inserted(ns, i + 1, n), i + 1) == ns;
    }

    /** Queueing a thread: a node inserted before the head goes to the end of the list. */
    method Append(n: ListNode, ghost s: seq<ListNode>)
      requires Linked([this] + s) && n !in [this] + s
      modifies [this] + s, n
      ensures Linked([this] + (s + [n]))
    {
      InsertBefore(n, [this] + s, 0);
      assert Inserted([this] + s, |s| + 1, n) == [this] + (s + [n]);
    }
  }

  /** The links of the node at index k lead to its neighbours. */
  ghost predicate LinkedAt(ns: seq<ListNode>, k: nat)
    requires k < |ns|
    reads ns
  {
    ns[k].next == ns[Succ(k, |ns|)] && ns[k].prev == ns[Pred(k, |ns|)]
  }

  /** The nodes of a circular list, from any one of them on. */
  ghost predicate Linked(ns: seq<ListNode>)
    reads ns
  {
    |ns| > 0 && Distinct(ns) && forall k :: 0 <= k < |ns| ==> LinkedAt(ns, k)
  }

  lemma Alone(n: ListNode)
    ensures Distinct([n])
  {
  }

  lemma Joints(ns: seq<ListNode>, i: nat)
    requires |ns| > 0 && i < |ns|
    ensures ns[i] in ns && ns[Succ(i, |ns|)] in ns && ns[Pred(i, |ns|)] in ns
    ensures Linked(ns) ==> ns[i].next == ns[Succ(i, |ns|)] && ns[i].prev == ns[Pred(i, |ns|)]
  {
    assert Linked(ns) ==> LinkedAt(ns, i);
  }
}
