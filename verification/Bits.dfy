/** Words as sets of bits, and finding the lowest one through a table of bytes. */
module Bits {
  import opened Arithmetic

  /** Bit p of a word. */
  function Bit(v: nat, p: nat): bool
    decreases p
  {
    if p == 0 then v % 2 == 1 else Bit(v / 2, p - 1)
  }

  /** 1 << p. */
  function Mask(p: nat): (m: nat)
    ensures m > 0
  {
    if p == 0 then 1 else 2 * Mask(p - 1)
  }

  /** Bitwise or. */
  function Or(a: nat, b: nat): nat
    decreases a
  {
    if a == 0 then b else 2 * Or(a / 2, b / 2) + if a % 2 == 1 || b % 2 == 1 then 1 else 0
  }

  /** Bitwise and. */
  function And(a: nat, b: nat): nat
    decreases a
  {
    if a == 0 then 0 else 2 * And(a / 2, b / 2) + if a % 2 == 1 && b % 2 == 1 then 1 else 0
  }

  /** Bitwise and with the complement. */
  function AndNot(a: nat, b: nat): nat
    decreases a
  {
    if a == 0 then 0 else 2 * AndNot(a / 2, b / 2) + if a % 2 == 1 && b % 2 == 0 then 1 else 0
  }

  lemma {:induction false} ZeroBit(p: nat)
    ensures !Bit(0, p)
  {
    if p > 0 { ZeroBit(p - 1); }
  }

  lemma {:induction false} OrBit(a: nat, b: nat, q: nat)
    ensures Bit(Or(a, b), q) <==> Bit(a, q) || Bit(b, q)
    decreases q
  {
    if a == 0 { ZeroBit(q); } else if q > 0 { OrBit(a / 2, b / 2, q - 1); }
  }

  lemma {:induction false} AndNotBit(a: nat, b: nat, q: nat)
    ensures Bit(AndNot(a, b), q) <==> Bit(a, q) && !Bit(b, q)
    decreases q
  {
    if a == 0 { ZeroBit(q); } else if q > 0 { AndNotBit(a / 2, b / 2, q - 1); }
  }

  lemma {:induction false} MaskBit(p: nat, q: nat)
    ensures Bit(Mask(p), q) <==> p == q
    decreases q
  {
    if q > 0 {
      if p > 0 { MaskBit(p - 1, q - 1); } else { ZeroBit(q - 1); }
    }
  }

  /** A word of n bits has no bit at n or above. */
  lemma {:induction false} HighBits(v: nat, n: nat, p: nat)
    requires v < Mask(n) && n <= p
    ensures !Bit(v, p)
    decreases n
  {
    if n == 0 { ZeroBit(p); } else { HighBits(v / 2, n - 1, p - 1); }
  }

  lemma {:induction false} OrBound(a: nat, b: nat, n: nat)
    requires a < Mask(n) && b < Mask(n)
    ensures Or(a, b) < Mask(n)
    decreases n
  {
    if n > 0 && a > 0 { OrBound(a / 2, b / 2, n - 1); }
  }

  lemma {:induction false} AndNotBound(a: nat, b: nat)
    ensures AndNot(a, b) <= a
    decreases a
  {
    if a > 0 { AndNotBound(a / 2, b / 2); }
  }

  lemma {:induction false} AndNotAbove(a: nat, b: nat)
    ensures a <= AndNot(a, b) + b
    decreases a
  {
    if a > 0 { AndNotAbove(a / 2, b / 2); }
  }

  lemma {:induction false} AndNotZero(a: nat)
    ensures AndNot(a, 0) == a
    decreases a
  {
    if a > 0 { AndNotZero(a / 2); }
  }

  lemma {:induction false} MaskMonotonic(p: nat, n: nat)
    requires p < n
    ensures Mask(p) < Mask(n)
  {
    if p < n - 1 { MaskMonotonic(p, n - 1); }
  }

  // ---------- powers of two as masks ----------

  predicate PowerOfTwo(n: nat)
    decreases n
  {
    n == 1 || (n > 1 && n % 2 == 0 && PowerOfTwo(n / 2))
  }

  lemma PowerPositive(n: nat)
    requires PowerOfTwo(n)
    ensures n > 0
  {
  }

  lemma {:induction false} PowerTimes(m: nat, n: nat)
    requires PowerOfTwo(m) && PowerOfTwo(n)
    ensures PowerOfTwo(m * n)
    decreases m
  {
    if m > 1 {
      PowerTimes(m / 2, n);
      assert m * n == 2 * (m / 2 * n);
    }
  }

  /** Masking with the complement of a power of two minus one rounds down to a multiple of it. */
  lemma {:induction false} MaskRoundsDown(x: nat, m: nat)
    requires PowerOfTwo(m)
    ensures AndNot(x, m - 1) == x - x % m
    decreases m
  {
    if m == 1 {
      AndNotZero(x);
    } else {
      MaskRoundsDown(x / 2, m / 2);
      Doubled(x, m / 2);
    }
  }

  lemma Doubled(x: nat, h: nat)
    requires h > 0
    ensures x % (2 * h) == 2 * (x / 2 % h) + x % 2
  {
    var q, r := x / 2 / h, x / 2 % h;
    assert x / 2 == q * h + r;
    DivMod(q, 2 * r + x % 2, 2 * h, x);
  }

  /** The bits of a word in a mask and those outside it are all its bits. */
  lemma {:induction false} MaskSplits(a: nat, b: nat)
    ensures And(a, b) + AndNot(a, b) == a
    decreases a
  {
    if a > 0 { MaskSplits(a / 2, b / 2); }
  }

  /** Masking with a power of two minus one takes the remainder. */
  lemma MaskIsRemainder(x: nat, m: nat)
    requires PowerOfTwo(m)
    ensures And(x, m - 1) == x % m
  {
    hide And, AndNot;
    MaskRoundsDown(x, m);
    MaskSplits(x, m - 1);
  }

  // ---------- the lowest bit ----------

  /** __lowest_bit_bitmap, in rows of sixteen. */
  const BITMAP: seq<seq<nat>> := [
    [0, 0, 1, 0, 2, 0, 1, 0, 3, 0, 1, 0, 2, 0, 1, 0],
    [4, 0, 1, 0, 2, 0, 1, 0, 3, 0, 1, 0, 2, 0, 1, 0],
    [5, 0, 1, 0, 2, 0, 1, 0, 3, 0, 1, 0, 2, 0, 1, 0],
    [4, 0, 1, 0, 2, 0, 1, 0, 3, 0, 1, 0, 2, 0, 1, 0],
    [6, 0, 1, 0, 2, 0, 1, 0, 3, 0, 1, 0, 2, 0, 1, 0],
    [4, 0, 1, 0, 2, 0, 1, 0, 3, 0, 1, 0, 2, 0, 1, 0],
    [5, 0, 1, 0, 2, 0, 1, 0, 3, 0, 1, 0, 2, 0, 1, 0],
    [4, 0, 1, 0, 2, 0, 1, 0, 3, 0, 1, 0, 2, 0, 1, 0],
    [7, 0, 1, 0, 2, 0, 1, 0, 3, 0, 1, 0, 2, 0, 1, 0],
    [4, 0, 1, 0, 2, 0, 1, 0, 3, 0, 1, 0, 2, 0, 1, 0],
    [5, 0, 1, 0, 2, 0, 1, 0, 3, 0, 1, 0, 2, 0, 1, 0],
    [4, 0, 1, 0, 2, 0, 1, 0, 3, 0, 1, 0, 2, 0, 1, 0],
    [6, 0, 1, 0, 2, 0, 1, 0, 3, 0, 1, 0, 2, 0, 1, 0],
    [4, 0, 1, 0, 2, 0, 1, 0, 3, 0, 1, 0, 2, 0, 1, 0],
    [5, 0, 1, 0, 2, 0, 1, 0, 3, 0, 1, 0, 2, 0, 1, 0],
    [4, 0, 1, 0, 2, 0, 1, 0, 3, 0, 1, 0, 2, 0, 1, 0]
  ]

  lemma BitmapShape()
    ensures |BITMAP| == 16 && forall k :: 0 <= k < 16 ==> |BITMAP[k]| == 16
  {
  }

  function Lowest(b: nat): nat
    requires b < 0x100
  {
    BitmapShape();
    BITMAP[b / 16][b % 16]
  }

  /** __rt_ffs: the number of the lowest set bit, counted from 1; 0 for no bit. */
  function Ffs(v: nat): nat
    requires v < 0x1_0000_0000
  {
    if v == 0 then 0
    else if v % 0x100 != 0 then Lowest(v % 0x100) + 1
    else if v / 0x100 % 0x100 != 0 then Lowest(v / 0x100 % 0x100) + 9
    else if v / 0x1_0000 % 0x100 != 0 then Lowest(v / 0x1_0000 % 0x100) + 17
    else Lowest(v / 0x100_0000) + 25
  }

  /** p is the lowest set bit. */
  ghost predicate IsLowest(v: nat, p: nat) { Bit(v, p) && forall q :: 0 <= q < p ==> !Bit(v, q) }

  /** What the table should hold. */
  function LowBit(b: nat): nat
    requires b > 0
    decreases b
  {
    if b % 2 == 1 then 0 else 1 + LowBit(b / 2)
  }

  lemma {:induction false} LowBitIsLowest(b: nat)
    requires b > 0
    ensures IsLowest(b, LowBit(b))
    decreases b
  {
    if b % 2 == 0 {
      LowBitIsLowest(b / 2);
      forall q | 0 <= q < LowBit(b) ensures !Bit(b, q) { assert q > 0 ==> !Bit(b / 2, q - 1); }
    }
  }

  lemma LowBitDouble(v: nat)
    ensures v > 0 ==> LowBit(2 * v) == 1 + LowBit(v)
    ensures LowBit(2 * v + 1) == 0
  {
  }

  lemma LowBitTimes4(v: nat)
    requires v > 0
    ensures LowBit(4 * v) == 2 + LowBit(v)
  {
    hide LowBit;
    LowBitDouble(2 * v);
    LowBitDouble(v);
  }

  lemma LowBitTimes16(v: nat)
    requires v > 0
    ensures LowBit(16 * v) == 4 + LowBit(v)
  {
    hide LowBit;
    LowBitTimes4(4 * v);
    LowBitTimes4(v);
  }

  lemma LowBitTimes256(v: nat)
    requires v > 0
    ensures LowBit(256 * v) == 8 + LowBit(v)
  {
    hide LowBit;
    LowBitTimes16(16 * v);
    LowBitTimes16(v);
  }

  /** The low digit decides when it is not zero. */
  lemma LowBitMod4(q: nat, k: nat)
    requires 0 < k < 4
    ensures LowBit(4 * q + k) == LowBit(k)
  {
    hide LowBit;
    if k == 2 {
      LowBitDouble(2 * q + 1);
      LowBitDouble(q);
      LowBitDouble(1);
      LowBitDouble(0);
    } else {
      LowBitDouble(2 * q + k / 2);
      LowBitDouble(k / 2);
    }
  }

  lemma LowBitMod16(q: nat, k: nat)
    requires 0 < k < 16
    ensures LowBit(16 * q + k) == LowBit(k)
  {
    hide LowBit;
    var j, i := k / 4, k % 4;
    if i > 0 {
      LowBitMod4(4 * q + j, i);
      LowBitMod4(j, i);
    } else {
      LowBitTimes4(4 * q + j);
      LowBitTimes4(j);
      LowBitMod4(q, j);
    }
  }

  lemma LowBitMod256(q: nat, k: nat)
    requires 0 < k < 256
    ensures LowBit(256 * q + k) == LowBit(k)
  {
    hide LowBit;
    var j, i := k / 16, k % 16;
    if i > 0 {
      LowBitMod16(16 * q + j, i);
      LowBitMod16(j, i);
    } else {
      LowBitTimes16(16 * q + j);
      LowBitTimes16(j);
      LowBitMod16(q, j);
    }
  }

  const TAIL: seq<nat> := [0, 1, 0, 2, 0, 1, 0, 3, 0, 1, 0, 2, 0, 1, 0]

  /** Every row repeats the first but for its head. */
  lemma Rows(k: nat, j: nat)
    requires k < 16 && 0 < j < 16
    ensures |BITMAP| == 16 && |BITMAP[k]| == 16 && BITMAP[k][j] == TAIL[j - 1]
  {
    assert BITMAP[0] == [0] + TAIL;
    assert BITMAP[1] == [4] + TAIL;
    assert BITMAP[2] == [5] + TAIL;
    assert BITMAP[3] == [4] + TAIL;
    assert BITMAP[4] == [6] + TAIL;
    assert BITMAP[5] == [4] + TAIL;
    assert BITMAP[6] == [5] + TAIL;
    assert BITMAP[7] == [4] + TAIL;
    assert BITMAP[8] == [7] + TAIL;
    assert BITMAP[9] == [4] + TAIL;
    assert BITMAP[10] == [5] + TAIL;
    assert BITMAP[11] == [4] + TAIL;
    assert BITMAP[12] == [6] + TAIL;
    assert BITMAP[13] == [4] + TAIL;
    assert BITMAP[14] == [5] + TAIL;
    assert BITMAP[15] == [4] + TAIL;
  }

  lemma Tail(j: nat)
    requires 0 < j < 16
    ensures TAIL[j - 1] == LowBit(j)
  {
    assert LowBit(1) == 0 && LowBit(2) == 1 && LowBit(4) == 2 && LowBit(8) == 3;
    assert LowBit(6) == 1 && LowBit(10) == 1 && LowBit(12) == 2 && LowBit(14) == 1;
  }

  lemma Heads(k: nat)
    requires 0 < k < 16
    ensures |BITMAP| == 16 && |BITMAP[k]| == 16 && BITMAP[k][0] == TAIL[k - 1] + 4
  {
  }

  /** The table of lowest bits is right for every byte. */
  lemma TableRight(b: nat)
    requires 0 < b < 0x100
    ensures Lowest(b) == LowBit(b)
  {
    hide LowBit;
    var j, i := b / 16, b % 16;
    if i > 0 {
      Rows(j, i);
      Tail(i);
      LowBitMod16(j, i);
    } else {
      Heads(j);
      Tail(j);
      LowBitTimes16(j);
    }
  }

  /** The lowest bit of a word whose low byte may be zero. */
  lemma ByteStep(v: nat)
    requires v > 0
    ensures v % 0x100 != 0 ==> LowBit(v) == LowBit(v % 0x100)
    ensures v % 0x100 == 0 ==> v / 0x100 > 0 && LowBit(v) == 8 + LowBit(v / 0x100)
  {
    hide LowBit;
    var q, k := v / 0x100, v % 0x100;
    assert v == 256 * q + k;
    if k != 0 { LowBitMod256(q, k); } else { LowBitTimes256(q); }
  }

  /** __rt_ffs finds the lowest set bit of any word, and says 0 when there is none. */
  lemma FfsRight(v: nat)
    requires v < 0x1_0000_0000
    ensures Ffs(v) == 0 <==> v == 0
    ensures v > 0 ==> 1 <= Ffs(v) && IsLowest(v, Ffs(v) - 1)
  {
    hide LowBit, Lowest, IsLowest;
    if v == 0 { return; }
    LowBitIsLowest(v);
    var a := v / 0x100;
    var b := a / 0x100;
    var c := b / 0x100;
    assert b == v / 0x1_0000 && c == v / 0x100_0000;
    ByteStep(v);
    if v % 0x100 != 0 {
      TableRight(v % 0x100);
    } else {
      ByteStep(a);
      if a % 0x100 != 0 {
        TableRight(a % 0x100);
      } else {
        ByteStep(b);
        if b % 0x100 != 0 {
          TableRight(b % 0x100);
        } else {
          TableRight(c);
        }
      }
    }
  }
}
