/** Sequences without repetitions, and putting an element in or taking one out. */
module Sequences {

  ghost predicate Distinct<T>(s: seq<T>) { forall i, j :: 0 <= i < j < |s| ==> s[i] != s[j] }

  ghost function Elems<T>(s: seq<T>): set<T> { set x | x in s }

  function Inserted<T>(s: seq<T>, i: nat, x: T): seq<T>
    requires i <= |s|
  {
    s[..i] + [x] + s[i..]
  }

  function Dropped<T>(s: seq<T>, i: nat): seq<T>
    requires i < |s|
  {
    s[..i] + s[i + 1..]
  }

  lemma InsertedAt<T>(s: seq<T>, i: nat, x: T, k: nat)
    requires i <= |s| && k <= |s|
    ensures Inserted(s, i, x)[k] == if k < i then s[k] else if k == i then x else s[k - 1]
  {
  }

  lemma DroppedAt<T>(s: seq<T>, i: nat, k: nat)
    requires i < |s| && k < |s| - 1
    ensures Dropped(s, i)[k] == if k < i then s[k] else s[k + 1]
  {
  }

  lemma InsertedDistinct<T>(s: seq<T>, i: nat, x: T)
    requires Distinct(s) && i <= |s| && x !in s
    ensures Distinct(Inserted(s, i, x))
  {
    var r := Inserted(s, i, x);
    forall j, k | 0 <= j < k < |r| ensures r[j] != r[k] {
      InsertedAt(s, i, x, j);
      InsertedAt(s, i, x, k);
    }
  }

  lemma DroppedDistinct<T>(s: seq<T>, i: nat)
    requires Distinct(s) && i < |s|
    ensures Distinct(Dropped(s, i)) && s[i] !in Dropped(s, i)
  {
  }

  lemma Same<T>(s: seq<T>, i: nat, j: nat)
    requires Distinct(s) && i < |s| && j < |s|
    ensures s[i] == s[j] <==> i == j
  {
  }

  lemma InsertedSize<T>(s: seq<T>, i: nat, x: T)
    requires i <= |s|
    ensures |Inserted(s, i, x)| == |s| + 1
  {
  }

  lemma DroppedSize<T>(s: seq<T>, i: nat)
    requires i < |s|
    ensures |Dropped(s, i)| == |s| - 1
  {
  }

  /** Position of an element. */
  function IndexOf<T(==)>(s: seq<T>, x: T): (i: nat)
    requires x in s
    ensures i < |s| && s[i] == x
  {
    if s[0] == x then 0 else IndexOf(s[1..], x) + 1
  }

  lemma DroppedElems<T>(s: seq<T>, i: nat)
    requires Distinct(s) && i < |s|
    ensures Elems(Dropped(s, i)) == Elems(s) - {s[i]}
  {
    forall x | x in Elems(s) - {s[i]} ensures x in Elems(Dropped(s, i)) {
      var k :| 0 <= k < |s| && s[k] == x;
      DroppedAt(s, i, if k < i then k else k - 1);
    }
  }

  lemma DroppedMember<T>(s: seq<T>, i: nat, x: T)
    requires Distinct(s) && i < |s|
    ensures x in Dropped(s, i) <==> x in s && x != s[i]
  {
    DroppedElems(s, i);
    assert x in Dropped(s, i) <==> x in Elems(Dropped(s, i));
  }

  lemma Prepended<T>(s: seq<T>, x: T)
    ensures Elems([x] + s) == Elems(s) + {x} && (x in s ==> Elems(s) + {x} == Elems(s))
    ensures Distinct(s) && x !in s ==> Distinct([x] + s)
  {
  }

  /** What rt_list_remove leaves of a list. */
  function Without<T(==)>(s: seq<T>, x: T): seq<T> {
    if s == [] then [] else if s[0] == x then Without(s[1..], x) else [s[0]] + Without(s[1..], x)
  }

  lemma {:induction false} WithoutAbsent<T>(s: seq<T>, x: T)
    requires x !in s
    ensures Without(s, x) == s
  {
    if s != [] { WithoutAbsent(s[1..], x); }
  }

  lemma WithoutFirst<T>(s: seq<T>)
    requires s != [] && Distinct(s)
    ensures Without(s, s[0]) == s[1..]
  {
    assert s[0] !in s[1..];
    WithoutAbsent(s[1..], s[0]);
  }

  lemma AppendedDistinct<T>(s: seq<T>, x: T)
    requires Distinct(s) && x !in s
    ensures Distinct(s + [x])
  {
  }

  lemma {:induction false} WithoutMember<T>(s: seq<T>, x: T, y: T)
    ensures y in Without(s, x) <==> y in s && y != x
  {
    if s != [] {
      WithoutMember(s[1..], x, y);
      assert s == [s[0]] + s[1..];
    }
  }

  lemma {:induction false} WithoutDistinct<T>(s: seq<T>, x: T)
    requires Distinct(s)
    ensures Distinct(Without(s, x))
  {
    if s != [] {
      WithoutDistinct(s[1..], x);
      WithoutMember(s[1..], x, s[0]);
    }
  }

  lemma {:induction false} WithoutDropped<T>(s: seq<T>, i: nat)
    requires Distinct(s) && i < |s|
    ensures Without(s, s[i]) == Dropped(s, i)
  {
    if i == 0 {
      WithoutFirst(s);
      assert Dropped(s, 0) == s[1..];
    } else {
      WithoutDropped(s[1..], i - 1);
      assert Dropped(s, i) == [s[0]] + Dropped(s[1..], i - 1);
    }
  }

  lemma WithoutAll<T>(s: seq<T>, x: T)
    ensures forall y :: y in Without(s, x) ==> y in s && y != x
    ensures Distinct(s) ==> Distinct(Without(s, x))
  {
    forall y | y in Without(s, x) ensures y in s && y != x { WithoutMember(s, x, y); }
    if Distinct(s) { WithoutDistinct(s, x); }
  }
}
