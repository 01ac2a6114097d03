/** Rows of a skip list: each one is a sublist of the row below it. */
module SkipRows {
  import opened Sequences

  /** The elements of s that lie in S, in order. */
  ghost function Filter<T>(s: seq<T>, S: set<T>): (r: seq<T>) {
    if s == [] then [] else (if s[0] in S then [s[0]] else []) + Filter(s[1..], S)
  }

  lemma {:induction false} FilterConcat<T>(x: seq<T>, y: seq<T>, S: set<T>)
    ensures Filter(x + y, S) == Filter(x, S) + Filter(y, S)
  {
    if x == [] {
      assert x + y == y;
    } else {
      FilterConcat(x[1..], y, S);
      assert (x + y)[1..] == x[1..] + y;
      var h := if x[0] in S then [x[0]] else [];
      assert Filter(x + y, S) == h + (Filter(x[1..], S) + Filter(y, S));
    }
  }

  lemma {:induction false} FilterMember<T>(s: seq<T>, S: set<T>, x: T)
    ensures x in Filter(s, S) <==> x in s && x in S
  {
    if s != [] {
      FilterMember(s[1..], S, x);
      assert s == [s[0]] + s[1..];
      var h := if s[0] in S then [s[0]] else [];
      assert x in Filter(s, S) <==> x in h || x in Filter(s[1..], S);
    }
  }

  lemma FilterElems<T>(s: seq<T>, S: set<T>)
    ensures Elems(Filter(s, S)) == Elems(s) * S
  {
    forall x | x in Elems(Filter(s, S)) ensures x in Elems(s) * S { FilterMember(s, S, x); }
    forall x | x in Elems(s) * S ensures x in Elems(Filter(s, S)) { FilterMember(s, S, x); }
  }

  lemma {:induction false} FilterTwice<T>(s: seq<T>, S: set<T>, R: set<T>)
    ensures Filter(Filter(s, S), R) == Filter(s, S * R)
  {
    if s != [] {
      FilterTwice(s[1..], S, R);
      FilterConcat(if s[0] in S then [s[0]] else [], Filter(s[1..], S), R);
      assert s[0] in S * R <==> s[0] in S && s[0] in R;
    }
  }

  /** Only the elements of s matter. */
  lemma {:induction false} FilterSame<T>(s: seq<T>, S: set<T>, R: set<T>)
    requires forall x :: x in s ==> (x in S <==> x in R)
    ensures Filter(s, S) == Filter(s, R)
  {
    if s != [] {
      assert s[0] in s;
      FilterSame(s[1..], S, R);
    }
  }

  /** Every row is what is left of the row below it, and the lowest row has no element twice. */
  ghost predicate Sublists<T>(rows: seq<seq<T>>) {
    && |rows| > 0
    && Distinct(rows[|rows| - 1])
    && forall l :: 0 <= l < |rows| - 1 ==> IsSublist(rows[l], rows[l + 1])
  }

  ghost predicate IsSublist<T>(a: seq<T>, b: seq<T>) { a == Filter(b, Elems(a)) }

  lemma SublistElems<T>(a: seq<T>, b: seq<T>)
    requires IsSublist(a, b)
    ensures Elems(a) <= Elems(b)
    ensures forall x :: x in a ==> x in b
  {
    FilterElems(b, Elems(a));
    forall x | x in a ensures x in b { assert x in Elems(a); assert x in Elems(b); }
  }

  // ---------- unlinking an element ----------

  lemma {:induction false} WithoutFilter<T>(s: seq<T>, x: T, S: set<T>)
    requires Elems(s) <= S
    ensures Without(s, x) == Filter(s, S - {x})
  {
    if s != [] {
      assert s[0] in Elems(s);
      assert Elems(s[1..]) <= Elems(s);
      WithoutFilter(s[1..], x, S);
    }
  }

  lemma WithoutSublist<T>(a: seq<T>, b: seq<T>, x: T)
    requires IsSublist(a, b)
    ensures IsSublist(Without(a, x), Without(b, x))
  {
    SublistElems(a, b);
    WithoutFilter(a, x, Elems(a));
    WithoutFilter(b, x, Elems(b));
    FilterElems(a, Elems(a) - {x});
    FilterElems(b, Elems(b) - {x});
    FilterTwice(b, Elems(b) - {x}, Elems(a) - {x});
    FilterTwice(b, Elems(a), Elems(a) - {x});
    assert Elems(a) * (Elems(a) - {x}) == Elems(a) - {x};
    assert (Elems(b) - {x}) * (Elems(a) - {x}) == Elems(a) - {x};
    assert Elems(Without(a, x)) == Elems(a) - {x};
  }

  lemma {:induction false} FilterDistinct<T>(s: seq<T>, S: set<T>)
    requires Distinct(s)
    ensures Distinct(Filter(s, S))
  {
    if s != [] {
      FilterDistinct(s[1..], S);
      var r := Filter(s[1..], S);
      FilterElems(s[1..], S);
      forall i | 0 <= i < |r| ensures r[i] != s[0] {
        assert r[i] in Elems(r);
        assert r[i] in s[1..];
      }
    }
  }

  // ---------- linking an element in ----------

  lemma InsertedElems<T>(s: seq<T>, i: nat, x: T)
    requires i <= |s|
    ensures Elems(Inserted(s, i, x)) == Elems(s) + {x}
  {
    assert s == s[..i] + s[i..];
    forall y ensures y in Elems(Inserted(s, i, x)) <==> y in Elems(s) + {x} {
      assert y in s <==> y in s[..i] || y in s[i..];
    }
  }

  /** Filtering a row in which x has been put in. */
  lemma FilterInserted<T>(b: seq<T>, i: nat, x: T, S: set<T>)
    requires i <= |b|
    ensures Filter(Inserted(b, i, x), S) == Filter(b[..i], S) + (if x in S then [x] else []) + Filter(b[i..], S)
  {
    FilterConcat(b[..i] + [x], b[i..], S);
    FilterConcat(b[..i], [x], S);
  }

  /** The row above leaves x out. */
  lemma InsertedBelow<T>(a: seq<T>, b: seq<T>, i: nat, x: T)
    requires IsSublist(a, b) && i <= |b| && x !in b
    ensures IsSublist(a, Inserted(b, i, x))
  {
    SublistElems(a, b);
    FilterInserted(b, i, x, Elems(a));
    FilterConcat(b[..i], b[i..], Elems(a));
    assert b == b[..i] + b[i..];
  }

  /** Both rows take x in, at indices that split them alike. */
  lemma InsertedBoth<T>(a: seq<T>, b: seq<T>, i: nat, j: nat, x: T)
    requires IsSublist(a, b) && i <= |a| && j <= |b| && x !in b
    requires i == |Filter(b[..j], Elems(a))|
    ensures IsSublist(Inserted(a, i, x), Inserted(b, j, x))
  {
    SublistElems(a, b);
    InsertedElems(a, i, x);
    var S := Elems(a) + {x};
    FilterInserted(b, j, x, S);
    FilterConcat(b[..j], b[j..], Elems(a));
    assert b == b[..j] + b[j..];
    FilterSame(b[..j], S, Elems(a));
    FilterSame(b[j..], S, Elems(a));
  }

  /** All rows without x. */
  function RowsWithout<T(==)>(rows: seq<seq<T>>, x: T): (r: seq<seq<T>>)
    ensures |r| == |rows|
  {
    seq(|rows|, l requires 0 <= l < |rows| => Without(rows[l], x))
  }

  lemma RowsWithoutKeep<T>(rows: seq<seq<T>>, x: T)
    requires Sublists(rows)
    ensures Sublists(RowsWithout(rows, x))
  {
    var r := RowsWithout(rows, x);
    var bottom := rows[|rows| - 1];
    WithoutFilter(bottom, x, Elems(bottom));
    FilterDistinct(bottom, Elems(bottom) - {x});
    forall l | 0 <= l < |r| - 1 ensures IsSublist(r[l], r[l + 1]) {
      assert IsSublist(rows[l], rows[l + 1]);
      WithoutSublist(rows[l], rows[l + 1], x);
    }
  }

  /** The lowest h rows with x put in at the given indices. */
  function RowsLinked<T>(rows: seq<seq<T>>, heads: seq<nat>, x: T, h: nat): (r: seq<seq<T>>)
    requires |heads| == |rows| && h <= |rows| && forall l :: 0 <= l < |rows| ==> heads[l] <= |rows[l]|
    ensures |r| == |rows|
  {
    seq(|rows|, l requires 0 <= l < |rows| => if l >= |rows| - h then Inserted(rows[l], heads[l], x) else rows[l])
  }

  /** One row more. */
  lemma RowsLinkedStep<T>(rows: seq<seq<T>>, heads: seq<nat>, x: T, h: nat)
    requires |heads| == |rows| && h < |rows| && forall l :: 0 <= l < |rows| ==> heads[l] <= |rows[l]|
    ensures RowsLinked(rows, heads, x, 0) == rows
    ensures var i := |rows| - 1 - h;
            && RowsLinked(rows, heads, x, h)[i] == rows[i]
            && RowsLinked(rows, heads, x, h + 1) == RowsLinked(rows, heads, x, h)[i := Inserted(rows[i], heads[i], x)]
  {
    hide RowsLinked, Inserted;
    var i, a, b := |rows| - 1 - h, RowsLinked(rows, heads, x, h), RowsLinked(rows, heads, x, h + 1);
    RowsAre(rows, heads, x, 0);
    RowsAre(rows, heads, x, h);
    RowsAre(rows, heads, x, h + 1);
    assert b == a[i := Inserted(rows[i], heads[i], x)];
  }

  lemma RowsAre<T>(rows: seq<seq<T>>, heads: seq<nat>, x: T, h: nat)
    requires |heads| == |rows| && h <= |rows| && forall l :: 0 <= l < |rows| ==> heads[l] <= |rows[l]|
    ensures var r := RowsLinked(rows, heads, x, h);
            && (forall l :: 0 <= l < |rows| - h ==> r[l] == rows[l])
            && forall l :: |rows| - h <= l < |rows| ==> r[l] == Inserted(rows[l], heads[l], x)
  {
  }

  /** The indices split neighbouring rows alike. */
  ghost predicate Aligned<T>(rows: seq<seq<T>>, heads: seq<nat>) {
    && |heads| == |rows| && (forall l :: 0 <= l < |rows| ==> heads[l] <= |rows[l]|)
    && forall l :: 0 <= l < |rows| - 1 ==> heads[l] == |Filter(rows[l + 1][..heads[l + 1]], Elems(rows[l]))|
  }

  /** Linking an element into the lowest rows, whatever their number, keeps the rows a skip list. */
  lemma RowsLinkedKeep<T>(rows: seq<seq<T>>, heads: seq<nat>, x: T, h: nat)
    requires Sublists(rows) && Aligned(rows, heads) && 1 <= h <= |rows| && x !in rows[|rows| - 1]
    ensures Sublists(RowsLinked(rows, heads, x, h))
  {
    var r := RowsLinked(rows, heads, x, h);
    InsertedDistinct(rows[|rows| - 1], heads[|rows| - 1], x);
    forall l | 0 <= l < |r| - 1 ensures IsSublist(r[l], r[l + 1]) {
      assert IsSublist(rows[l], rows[l + 1]);
      RowInBottom(rows, l + 1);
      if l >= |rows| - h {
        InsertedBoth(rows[l], rows[l + 1], heads[l], heads[l + 1], x);
      } else if l + 1 >= |rows| - h {
        InsertedBelow(rows[l], rows[l + 1], heads[l + 1], x);
      }
    }
  }

  lemma {:induction false} RowInBottom<T>(rows: seq<seq<T>>, l: nat)
    requires Sublists(rows) && l < |rows|
    ensures forall x :: x in rows[l] ==> x in rows[|rows| - 1]
    decreases |rows| - l
  {
    if l < |rows| - 1 {
      assert IsSublist(rows[l], rows[l + 1]);
      SublistElems(rows[l], rows[l + 1]);
      RowInBottom(rows, l + 1);
    }
  }

  lemma AlignedHeads<T>(rows: seq<seq<T>>, heads: seq<nat>)
    requires Aligned(rows, heads)
    ensures |heads| == |rows| && forall l :: 0 <= l < |rows| ==> heads[l] <= |rows[l]|
  {
  }

  /** The rows that hold the element afterwards. */
  lemma RowsLinkedMember<T>(rows: seq<seq<T>>, heads: seq<nat>, x: T, h: nat)
    requires Sublists(rows) && Aligned(rows, heads) && 1 <= h <= |rows| && x !in rows[|rows| - 1]
    ensures RowsLinked(rows, heads, x, h)[|rows| - 1] == Inserted(rows[|rows| - 1], heads[|rows| - 1], x)
    ensures forall l :: 0 <= l < |rows| ==> (x in RowsLinked(rows, heads, x, h)[l] <==> |rows| - 1 - l < h)
  {
    forall l | 0 <= l < |rows| ensures x in RowsLinked(rows, heads, x, h)[l] <==> |rows| - 1 - l < h {
      RowInBottom(rows, l);
      assert Inserted(rows[l], heads[l], x)[heads[l]] == x;
    }
  }

  /** The rows hold the same elements but for those of S. */
  ghost predicate SameBut<T>(a: seq<seq<T>>, b: seq<seq<T>>, S: set<T>) {
    && |a| == |b|
    && (forall l, t :: 0 <= l < |a| && t in a[l] && t !in S ==> t in b[l])
    && (forall l, t :: 0 <= l < |a| && t in b[l] && t !in S ==> t in a[l])
  }

  lemma SameButTwice<T>(a: seq<seq<T>>, b: seq<seq<T>>, c: seq<seq<T>>, S: set<T>, R: set<T>)
    requires SameBut(a, b, S) && SameBut(b, c, R)
    ensures SameBut(a, c, S + R) && (S == R ==> SameBut(a, c, S))
  {
  }

  lemma RowsWithoutSame<T>(rows: seq<seq<T>>, x: T)
    ensures SameBut(rows, RowsWithout(rows, x), {x})
  {
    forall l, t | 0 <= l < |rows| && t in rows[l] && t != x ensures t in RowsWithout(rows, x)[l] { WithoutMember(rows[l], x, t); }
    forall l, t | 0 <= l < |rows| && t in RowsWithout(rows, x)[l] ensures t in rows[l] { WithoutMember(rows[l], x, t); }
  }

  lemma RowsLinkedSame<T>(rows: seq<seq<T>>, heads: seq<nat>, x: T, h: nat)
    requires |heads| == |rows| && h <= |rows| && forall l :: 0 <= l < |rows| ==> heads[l] <= |rows[l]|
    ensures SameBut(rows, RowsLinked(rows, heads, x, h), {x})
  {
    forall l | 0 <= l < |rows| ensures rows[l] == rows[l][..heads[l]] + rows[l][heads[l]..] {}
  }
}
