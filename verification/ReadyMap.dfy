/** The bitmap of ready priorities, on one level for up to 32 of them, else on two. */
module ReadyMap {
  import opened Bits

  /** rt_thread_ready_priority_group and rt_thread_ready_table. */
  datatype Bitmap = Bitmap(twoLevel: bool, group: nat, table: seq<nat>)

  /** One level: bit p of the group says whether priority p is ready. */
  ghost predicate Flat(group: nat, ready: seq<bool>) {
    |ready| <= 32 && forall p :: 0 <= p < 32 ==> (Bit(group, p) <==> p < |ready| && ready[p])
  }

  /** Two levels: bit k of byte n says whether priority 8 * n + k is ready, and bit n of the group
      whether byte n is not zero. */
  ghost predicate Nested(group: nat, table: seq<nat>, ready: seq<bool>) {
    && |table| == 32 && |ready| <= 256
    && (forall n :: 0 <= n < 32 ==> (Bit(group, n) <==> table[n] > 0))
    && (forall n, k :: 0 <= n < 32 && 0 <= k < 8 ==> (Bit(table[n], k) <==> 8 * n + k < |ready| && ready[8 * n + k]))
  }

  ghost predicate Maps(m: Bitmap, ready: seq<bool>) {
    && m.group < Mask(32) && |m.table| == 32 && (forall n :: 0 <= n < 32 ==> m.table[n] < 0x100)
    && if m.twoLevel then Nested(m.group, m.table, ready) else Flat(m.group, ready)
  }

  lemma Masks()
    ensures Mask(32) == 0x1_0000_0000 && Mask(8) == 0x100
  {
    assert Mask(4) == 16;
    assert Mask(8) == 256;
    assert Mask(12) == 4096;
    assert Mask(16) == 0x1_0000;
    assert Mask(20) == 0x10_0000;
    assert Mask(24) == 0x100_0000;
    assert Mask(28) == 0x1000_0000;
  }

  /** The masks of a priority, as the thread object holds them. */
  function NumberMask(two: bool, p: nat): nat { if two then Mask(p / 8) else Mask(p) }

  function HighMask(p: nat): nat { Mask(p % 8) }

  /** The end of rt_schedule_insert_thread. */
  function WithBit(m: Bitmap, p: nat): Bitmap
    requires m.twoLevel ==> p / 8 < |m.table|
  {
    var t := if m.twoLevel then m.table[p / 8 := Or(m.table[p / 8], HighMask(p))] else m.table;
    Bitmap(m.twoLevel, Or(m.group, NumberMask(m.twoLevel, p)), t)
  }

  /** The end of rt_schedule_remove_thread, when the queue has become empty. */
  function WithoutBit(m: Bitmap, p: nat): Bitmap
    requires m.twoLevel ==> p / 8 < |m.table|
  {
    if m.twoLevel then
      var b := AndNot(m.table[p / 8], HighMask(p));
      Bitmap(true, if b == 0 then AndNot(m.group, NumberMask(true, p)) else m.group, m.table[p / 8 := b])
    else
      Bitmap(false, AndNot(m.group, NumberMask(false, p)), m.table)
  }

  lemma OrMask(v: nat, p: nat, n: nat)
    requires v < Mask(n) && p < n
    ensures Or(v, Mask(p)) < Mask(n)
    ensures forall q :: Bit(Or(v, Mask(p)), q) <==> Bit(v, q) || q == p
  {
    MaskMonotonic(p, n);
    OrBound(v, Mask(p), n);
    forall q: nat ensures Bit(Or(v, Mask(p)), q) <==> Bit(v, q) || q == p {
      OrBit(v, Mask(p), q);
      MaskBit(p, q);
    }
  }

  lemma AndNotMask(v: nat, p: nat)
    ensures AndNot(v, Mask(p)) <= v
    ensures forall q :: Bit(AndNot(v, Mask(p)), q) <==> Bit(v, q) && q != p
  {
    AndNotBound(v, Mask(p));
    forall q: nat ensures Bit(AndNot(v, Mask(p)), q) <==> Bit(v, q) && q != p {
      AndNotBit(v, Mask(p), q);
      MaskBit(p, q);
    }
  }

  lemma NonZero(v: nat, q: nat)
    requires Bit(v, q)
    ensures v > 0
  {
    if v == 0 { ZeroBit(q); }
  }

  lemma Split8(p: nat, n: nat, k: nat)
    requires k < 8
    ensures p == 8 * n + k <==> n == p / 8 && k == p % 8
  {
  }

  lemma SetBit(m: Bitmap, ready: seq<bool>, p: nat)
    requires Maps(m, ready) && p < |ready|
    ensures m.twoLevel ==> p / 8 < |m.table|
    ensures Maps(WithBit(m, p), ready[p := true])
  {
    hide Or, Bit, Mask;
    if m.twoLevel {
      var n0, k0 := p / 8, p % 8;
      Masks();
      OrMask(m.group, n0, 32);
      OrMask(m.table[n0], k0, 8);
      var r := WithBit(m, p);
      NonZero(r.table[n0], k0);
      forall n, k | 0 <= n < 32 && 0 <= k < 8
        ensures Bit(r.table[n], k) <==> 8 * n + k < |ready| && ready[p := true][8 * n + k]
      {
        Split8(p, n, k);
      }
    } else {
      OrMask(m.group, p, 32);
    }
  }

  lemma ClearBit(m: Bitmap, ready: seq<bool>, p: nat)
    requires Maps(m, ready) && p < |ready|
    ensures m.twoLevel ==> p / 8 < |m.table|
    ensures Maps(WithoutBit(m, p), ready[p := false])
  {
    hide AndNot, Bit, Mask;
    if m.twoLevel {
      var n0, k0 := p / 8, p % 8;
      AndNotMask(m.group, n0);
      AndNotMask(m.table[n0], k0);
      var r := WithoutBit(m, p);
      forall n, k | 0 <= n < 32 && 0 <= k < 8
        ensures Bit(r.table[n], k) <==> 8 * n + k < |ready| && ready[p := false][8 * n + k]
      {
        Split8(p, n, k);
      }
    } else {
      AndNotMask(m.group, p);
    }
  }

  /** How rt_schedule finds the highest ready priority. */
  function Highest(m: Bitmap): int
    requires m.group < 0x1_0000_0000 && |m.table| == 32 && forall n :: 0 <= n < 32 ==> m.table[n] < 0x100
  {
    if m.twoLevel then
      var number := Ffs(m.group) - 1;
      if 0 <= number < 32 then 8 * number + Ffs(m.table[number]) - 1 else -1
    else Ffs(m.group) - 1
  }

  /** It is the numerically lowest priority with a ready thread. */
  lemma HighestIsLowest(m: Bitmap, ready: seq<bool>, some: nat)
    requires Maps(m, ready) && some < |ready| && ready[some]
    ensures m.group < 0x1_0000_0000
    ensures var p := Highest(m); 0 <= p < |ready| && ready[p] && forall q :: 0 <= q < p ==> !ready[q]
  {
    hide Bit, Mask, Ffs;
    Masks();
    if m.twoLevel {
      var n := some / 8;
      assert Bit(m.table[n], some % 8) by { Split8(some, n, some % 8); }
      NonZero(m.table[n], some % 8);
      NonZero(m.group, n);
      FfsRight(m.group);
      var number := Ffs(m.group) - 1;
      BitBelow(m.group, 32, number);
      FfsRight(m.table[number]);
      var k := Ffs(m.table[number]) - 1;
      BitBelow(m.table[number], 8, k);
      forall q | 0 <= q < 8 * number + k ensures q < |ready| && !ready[q] {
        Split8(q, q / 8, q % 8);
        if Bit(m.table[q / 8], q % 8) { NonZero(m.table[q / 8], q % 8); }
      }
    } else {
      NonZero(m.group, some);
      FfsRight(m.group);
      BitBelow(m.group, 32, Ffs(m.group) - 1);
    }
  }

  lemma BitBelow(v: nat, n: nat, p: nat)
    requires v < Mask(n) && Bit(v, p)
    ensures p < n
  {
    if p >= n { HighBits(v, n, p); }
  }
}
