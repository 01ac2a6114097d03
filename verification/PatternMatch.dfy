/** The wildcard matcher of f_findnext. */
module PatternMatch {

  const QUESTION := 0x3F // '?'
  const STAR := 0x2A // '*'

  /** A string of single-byte characters, without its terminating zero. */
  ghost predicate IsString(s: seq<nat>) { forall i :: 0 <= i < |s| ==> 0 < s[i] < 0x100 }

  /** A table of upper-case characters from 0x80 on; no character becomes the terminator. */
  ghost predicate IsTable(exCvt: seq<nat>) { |exCvt| == 0x80 && forall i :: 0 <= i < |exCvt| ==> exCvt[i] > 0 }

  /** get_achar on a character. */
  function Upper(exCvt: seq<nat>, c: nat): nat
    requires c < 0x100 && |exCvt| == 0x80
  {
    var u := if 0x61 <= c <= 0x7A then c - 0x20 else c;
    if u >= 0x80 then exCvt[u - 0x80] else u
  }

  predicate Wild(c: nat) { c == QUESTION || c == STAR }

  /** The rules: '?' stands for one character, '*' for any run of them, any other character for itself
      in either case. */
  ghost predicate Matches(ex: seq<nat>, pat: seq<nat>, nam: seq<nat>)
    requires IsTable(ex) && IsString(pat) && IsString(nam)
    decreases |pat|
  {
    if pat == [] then nam == []
    else if pat[0] == STAR then exists k :: 0 <= k <= |nam| && Matches(ex, pat[1..], nam[k..])
    else nam != [] && (pat[0] == QUESTION || Upper(ex, pat[0]) == Upper(ex, nam[0])) && Matches(ex, pat[1..], nam[1..])
  }

  // ---------- what the rules come to ----------

  /** Two characters below 0x80 that are the same or one letter in two cases. */
  predicate OneLetter(a: nat, b: nat) {
    a == b || (0x41 <= a <= 0x5A && b == a + 0x20) || (0x41 <= b <= 0x5A && a == b + 0x20)
  }

  /** A pattern of one character: a star matches every name, a question mark every name of one character, and any other
      character itself in either case; from 0x80 on the table decides. */
  lemma OneCharacter(ex: seq<nat>, a: nat, nam: seq<nat>)
    requires IsTable(ex) && IsString([a]) && 0 < a < 0x100 && IsString(nam)
    ensures a == 0x2A ==> Matches(ex, [a], nam)
    ensures a == 0x3F ==> (Matches(ex, [a], nam) <==> |nam| == 1)
    ensures a != 0x2A && a != 0x3F && a < 0x80 && (nam == [] || nam[0] < 0x80) ==>
              (Matches(ex, [a], nam) <==> |nam| == 1 && OneLetter(a, nam[0]))
    ensures a >= 0x80 && (nam == [] || nam[0] >= 0x80) ==>
              (Matches(ex, [a], nam) <==> |nam| == 1 && ex[a - 0x80] == ex[nam[0] - 0x80])
    ensures a != 0x2A && a != 0x3F && nam != [] && a < 0x80 <= nam[0] ==>
              (Matches(ex, [a], nam) <==> |nam| == 1 && ex[nam[0] - 0x80] == if 0x61 <= a <= 0x7A then a - 0x20 else a)
    ensures nam != [] && nam[0] < 0x80 <= a ==>
              (Matches(ex, [a], nam) <==> |nam| == 1 && ex[a - 0x80] == if 0x61 <= nam[0] <= 0x7A then nam[0] - 0x20 else nam[0])
  {
    assert [a][1..] == [];
    if a == STAR { assert nam[|nam|..] == [] && Matches(ex, [], nam[|nam|..]); }
    assert |nam| == 1 ==> nam[1..] == [];
  }

  /** A pattern in two parts matches a name if and only if the name is in two parts that they match; the empty pattern
      matches the empty name only. */
  lemma {:induction false} InTwoParts(ex: seq<nat>, p: seq<nat>, q: seq<nat>, nam: seq<nat>)
    requires IsTable(ex) && IsString(p) && IsString(q) && IsString(p + q) && IsString(nam)
    ensures Matches(ex, p + q, nam) <==> exists k :: 0 <= k <= |nam| && Matches(ex, p, nam[..k]) && Matches(ex, q, nam[k..])
    ensures Matches(ex, [], nam) <==> nam == []
    decreases |p|, 1
  {
    if p == [] {
      assert p + q == q && nam[..0] == [] && nam[0..] == nam;
    } else {
      var r := p[1..];
      assert (p + q)[1..] == r + q && (p + q)[0] == p[0];
      if p[0] == STAR {
        StarParts(ex, p, q, nam);
      } else if nam != [] {
        InTwoParts(ex, r, q, nam[1..]);
        LiteralParts(ex, p, q, nam);
      }
    }
  }

  lemma LiteralParts(ex: seq<nat>, p: seq<nat>, q: seq<nat>, nam: seq<nat>)
    requires IsTable(ex) && IsString(p) && IsString(q) && IsString(nam) && p != [] && p[0] != STAR && nam != []
    ensures (exists k :: 0 <= k <= |nam| && Matches(ex, p, nam[..k]) && Matches(ex, q, nam[k..])) <==>
            (p[0] == QUESTION || Upper(ex, p[0]) == Upper(ex, nam[0]))
            && exists k :: 0 <= k <= |nam[1..]| && Matches(ex, p[1..], nam[1..][..k]) && Matches(ex, q, nam[1..][k..])
  {
    forall k | 0 < k <= |nam| ensures nam[..k][1..] == nam[1..][..k - 1] && nam[k..] == nam[1..][k - 1..] {}
    if k :| 0 <= k <= |nam| && Matches(ex, p, nam[..k]) && Matches(ex, q, nam[k..]) {
      assert Matches(ex, p[1..], nam[1..][..k - 1]) && Matches(ex, q, nam[1..][k - 1..]);
    }
    if k :| 0 <= k <= |nam[1..]| && Matches(ex, p[1..], nam[1..][..k]) && Matches(ex, q, nam[1..][k..]) {
      assert nam[..k + 1][1..] == nam[1..][..k] && nam[k + 1..] == nam[1..][k..];
    }
  }

  lemma {:induction false} StarParts(ex: seq<nat>, p: seq<nat>, q: seq<nat>, nam: seq<nat>)
    requires IsTable(ex) && IsString(p) && IsString(q) && IsString(p + q) && IsString(nam) && p != [] && p[0] == STAR
    ensures Matches(ex, p + q, nam) <==> exists k :: 0 <= k <= |nam| && Matches(ex, p, nam[..k]) && Matches(ex, q, nam[k..])
    decreases |p|, 0
  {
    hide Matches;
    var r := p[1..];
    assert (p + q)[1..] == r + q && (p + q)[0] == STAR;
    Unfold(ex, p + q, nam);
    if Matches(ex, p + q, nam) {
      var j :| 0 <= j <= |nam| && Matches(ex, r + q, nam[j..]);
      InTwoParts(ex, r, q, nam[j..]);
      var k :| 0 <= k <= |nam[j..]| && Matches(ex, r, nam[j..][..k]) && Matches(ex, q, nam[j..][k..]);
      assert nam[j..][..k] == nam[..j + k][j..] && nam[j..][k..] == nam[j + k..];
      Unfold(ex, p, nam[..j + k]);
    }
    if k :| 0 <= k <= |nam| && Matches(ex, p, nam[..k]) && Matches(ex, q, nam[k..]) {
      Unfold(ex, p, nam[..k]);
      var j :| 0 <= j <= k && Matches(ex, r, nam[..k][j..]);
      InTwoParts(ex, r, q, nam[j..]);
      assert nam[j..][..k - j] == nam[..k][j..] && nam[j..][k - j..] == nam[k..];
    }
  }

  /** The case of letters does not matter, neither in the pattern nor in the name. */
  lemma {:induction false} CaseIgnored(ex: seq<nat>, p: seq<nat>, q: seq<nat>, a: seq<nat>, b: seq<nat>)
    requires IsTable(ex) && IsString(p) && IsString(q) && IsString(a) && IsString(b) && |p| == |q| && |a| == |b|
    requires forall i :: 0 <= i < |p| ==> OneLetter(p[i], q[i])
    requires forall i :: 0 <= i < |a| ==> OneLetter(a[i], b[i])
    ensures Matches(ex, p, a) <==> Matches(ex, q, b)
    decreases |p|
  {
    if p != [] {
      if p[0] == STAR {
        forall k | 0 <= k <= |a| ensures Matches(ex, p[1..], a[k..]) <==> Matches(ex, q[1..], b[k..]) {
          CaseIgnored(ex, p[1..], q[1..], a[k..], b[k..]);
        }
      } else if a != [] {
        CaseIgnored(ex, p[1..], q[1..], a[1..], b[1..]);
      }
    }
  }

  // ---------- the search ----------

  /** What a branch of the search stands for: `skip` characters, then any run if `inf`, then the pattern. */
  ghost predicate Branch(ex: seq<nat>, pat: seq<nat>, nam: seq<nat>, skip: nat, inf: bool)
    requires IsTable(ex) && IsString(pat) && IsString(nam)
  {
    skip <= |nam| &&
    if inf then exists k :: skip <= k <= |nam| && Matches(ex, pat, nam[k..]) else Matches(ex, pat, nam[skip..])
  }

  /** Number of '?'s. */
  function Questions(w: seq<nat>): nat {
    if w == [] then 0 else Questions(w[1..]) + if w[0] == QUESTION then 1 else 0
  }

  /** A block of wildcards comes to the number of its '?'s and whether it has a '*'. */
  lemma {:induction false} BlockMeans(ex: seq<nat>, w: seq<nat>, rest: seq<nat>, nam: seq<nat>)
    requires IsTable(ex) && IsString(w + rest) && IsString(w) && IsString(rest) && IsString(nam)
    requires forall i :: 0 <= i < |w| ==> Wild(w[i])
    ensures Matches(ex, w + rest, nam) <==> Branch(ex, rest, nam, Questions(w), STAR in w)
    decreases |w|
  {
    hide Matches, Branch;
    var q := Questions(w);
    if w == [] {
      assert w + rest == rest;
      Whole(ex, rest, nam);
    } else {
      var v := w[1..];
      assert (w + rest)[1..] == v + rest && (w + rest)[0] == w[0];
      assert w == [w[0]] + v;
      Unfold(ex, w + rest, nam);
      if w[0] == QUESTION {
        if nam != [] {
          BlockMeans(ex, v, rest, nam[1..]);
          BranchShift(ex, rest, nam, q, STAR in v);
        } else {
          TooShort(ex, rest, nam, q, STAR in v);
        }
      } else {
        forall k | 0 <= k <= |nam|
          ensures Matches(ex, v + rest, nam[k..]) <==> Branch(ex, rest, nam[k..], q, STAR in v)
        {
          BlockMeans(ex, v, rest, nam[k..]);
        }
        StarBranch(ex, rest, nam, q, STAR in v);
      }
    }
  }

  lemma Whole(ex: seq<nat>, rest: seq<nat>, nam: seq<nat>)
    requires IsTable(ex) && IsString(rest) && IsString(nam)
    ensures Branch(ex, rest, nam, 0, false) <==> Matches(ex, rest, nam)
  {
    assert nam[0..] == nam;
  }

  lemma TooShort(ex: seq<nat>, rest: seq<nat>, nam: seq<nat>, q: nat, inf: bool)
    requires IsTable(ex) && IsString(rest) && IsString(nam) && q > |nam|
    ensures !Branch(ex, rest, nam, q, inf)
  {
  }

  /** The rules for a pattern that starts with a wildcard. */
  lemma Unfold(ex: seq<nat>, pat: seq<nat>, nam: seq<nat>)
    requires IsTable(ex) && IsString(pat) && IsString(nam) && pat != [] && Wild(pat[0])
    ensures pat[0] == STAR ==> (Matches(ex, pat, nam) <==> exists k :: 0 <= k <= |nam| && Matches(ex, pat[1..], nam[k..]))
    ensures pat[0] == QUESTION ==> (Matches(ex, pat, nam) <==> nam != [] && Matches(ex, pat[1..], nam[1..]))
  {
  }

  /** One '?' more is one character less. */
  lemma BranchShift(ex: seq<nat>, rest: seq<nat>, nam: seq<nat>, q: nat, inf: bool)
    requires IsTable(ex) && IsString(rest) && IsString(nam) && nam != [] && q > 0
    ensures Branch(ex, rest, nam, q, inf) <==> Branch(ex, rest, nam[1..], q - 1, inf)
  {
    forall k | 0 < k <= |nam| ensures nam[k..] == nam[1..][k - 1..] {}
    if inf {
      if Branch(ex, rest, nam, q, inf) {
        var k :| q <= k <= |nam| && Matches(ex, rest, nam[k..]);
        assert Matches(ex, rest, nam[1..][k - 1..]);
      }
      if Branch(ex, rest, nam[1..], q - 1, inf) {
        var k :| q - 1 <= k <= |nam| - 1 && Matches(ex, rest, nam[1..][k..]);
        assert nam[1..][k..] == nam[k + 1..];
      }
    }
  }

  /** A '*' before a branch. */
  lemma StarBranch(ex: seq<nat>, rest: seq<nat>, nam: seq<nat>, q: nat, inf: bool)
    requires IsTable(ex) && IsString(rest) && IsString(nam)
    ensures (exists k :: 0 <= k <= |nam| && Branch(ex, rest, nam[k..], q, inf)) <==> Branch(ex, rest, nam, q, true)
  {
    if k :| 0 <= k <= |nam| && Branch(ex, rest, nam[k..], q, inf) {
      var j: nat;
      if inf {
        j :| q <= j <= |nam| - k && Matches(ex, rest, nam[k..][j..]);
      } else {
        j := q;
      }
      assert nam[k..][j..] == nam[k + j..];
      assert Branch(ex, rest, nam, q, true);
    }
    if Branch(ex, rest, nam, q, true) {
      var j :| q <= j <= |nam| && Matches(ex, rest, nam[j..]);
      assert nam[j - q..][q..] == nam[j..];
      assert Branch(ex, rest, nam[j - q..], q, inf);
    }
  }

  /** A pattern that starts with p literals needs p characters. */
  lemma {:induction false} LiteralsNeed(ex: seq<nat>, pat: seq<nat>, nam: seq<nat>, p: nat)
    requires IsTable(ex) && IsString(pat) && IsString(nam) && p <= |pat| && |nam| < p
    requires forall i :: 0 <= i < p ==> !Wild(pat[i])
    ensures !Matches(ex, pat, nam)
    decreases p
  {
    if nam != [] { LiteralsNeed(ex, pat[1..], nam[1..], p - 1); }
  }

  /** The character get_achar finds, 0 at the end of the string. */
  function Achar(ex: seq<nat>, s: seq<nat>, i: nat): nat
    requires IsTable(ex) && IsString(s)
  {
    if i < |s| then Upper(ex, s[i]) else 0
  }

  /** pattern_matching. */
  method PatternMatching(ex: seq<nat>, pat: seq<nat>, nam: seq<nat>, skip: nat, inf: bool) returns (matched: bool)
    requires IsTable(ex) && IsString(pat) && IsString(nam)
    requires inf && pat != [] ==> !Wild(pat[0])
    ensures matched <==> Branch(ex, pat, nam, skip, inf)
    decreases |pat|, 1
  {
    var at := 0;
    while at < skip
      invariant at <= skip && at <= |nam|
    {
      if Achar(ex, nam, at) == 0 { return false; }
      at := at + 1;
    }
    if pat == [] && inf {
      assert Matches(ex, pat, nam[|nam|..]);
      return true;
    }
    while true
      invariant skip <= at <= |nam|
      invariant if inf then forall k :: skip <= k < at ==> !Matches(ex, pat, nam[k..]) else at == skip
      decreases |nam| - at
    {
      var nc;
      matched, nc := TryAt(ex, pat, nam, at);
      if matched { return true; }
      at := at + 1;
      if !(inf && nc != 0) { break; }
    }
  }

  /** One step past a character that is no wildcard. */
  lemma LiteralStep(ex: seq<nat>, pat: seq<nat>, nam: seq<nat>, pp: nat, np: nat)
    requires IsTable(ex) && IsString(pat) && IsString(nam) && pp <= |pat| && np <= |nam| && (pp < |pat| ==> !Wild(pat[pp]))
    ensures var pc, nc := Achar(ex, pat, pp), Achar(ex, nam, np);
            && (pc == 0 <==> pp == |pat|) && (nc == 0 <==> np == |nam|)
            && (pc != nc ==> !Matches(ex, pat[pp..], nam[np..]))
            && (pc == nc == 0 ==> Matches(ex, pat[pp..], nam[np..]))
            && (pc == nc != 0 ==> (Matches(ex, pat[pp..], nam[np..]) <==> Matches(ex, pat[pp + 1..], nam[np + 1..])))
  {
    if pp < |pat| { assert pat[pp..][1..] == pat[pp + 1..]; }
    if np < |nam| { assert nam[np..][1..] == nam[np + 1..]; }
  }

  /** The inner loop: does the pattern match at this place? `nc` is the character the attempt ended on. */
  method TryAt(ex: seq<nat>, pat: seq<nat>, nam: seq<nat>, at: nat) returns (matched: bool, nc: nat)
    requires IsTable(ex) && IsString(pat) && IsString(nam) && at <= |nam|
    ensures matched <==> Matches(ex, pat, nam[at..])
    ensures !matched && nc != 0 ==> at < |nam|
    ensures !matched && nc == 0 && pat != [] && !Wild(pat[0]) ==>
              forall k :: at <= k <= |nam| ==> !Matches(ex, pat, nam[k..])
    decreases |pat|, 0
  {
    hide Matches, Branch, Upper;
    var pp, np := 0, at;
    assert pat[0..] == pat;
    while true
      invariant pp <= |pat| && np <= |nam| && np - at == pp
      invariant forall i :: 0 <= i < pp ==> !Wild(pat[i])
      invariant Matches(ex, pat, nam[at..]) <==> Matches(ex, pat[pp..], nam[np..])
      decreases |pat| - pp
    {
      if pp < |pat| && Wild(pat[pp]) {
        var nm, nx, next := Wildcards(pat, pp);
        ghost var w := pat[pp..next];
        assert pat[pp..] == w + pat[next..];
        BlockMeans(ex, w, pat[next..], nam[np..]);
        matched := PatternMatching(ex, pat[next..], nam[np..], nm, nx);
        nc := if np < |nam| then nam[np] else 0;
        if !matched && nc == 0 { NoLater(ex, pat, nam, at, pp); }
        return;
      }
      LiteralStep(ex, pat, nam, pp, np);
      var pc := Achar(ex, pat, pp);
      nc := Achar(ex, nam, np);
      if pc != nc {
        if nc == 0 { NoLater(ex, pat, nam, at, pp + 1); }
        return false, nc;
      }
      if pc == 0 { return true, nc; }
      pp, np := pp + 1, np + 1;
    }
  }

  /** The walk over a block of wildcards. */
  method Wildcards(pat: seq<nat>, pp: nat) returns (nm: nat, nx: bool, next: nat)
    requires pp < |pat| && Wild(pat[pp])
    ensures pp < next <= |pat| && (forall i :: pp <= i < next ==> Wild(pat[i])) && (next < |pat| ==> !Wild(pat[next]))
    ensures nm == Questions(pat[pp..next]) && (nx <==> STAR in pat[pp..next])
  {
    nm, nx, next := 0, false, pp;
    while next < |pat| && Wild(pat[next])
      invariant pp <= next <= |pat| && forall i :: pp <= i < next ==> Wild(pat[i])
      invariant nm == Questions(pat[pp..next]) && (nx <==> STAR in pat[pp..next])
    {
      QuestionsOn(pat[pp..next], pat[next]);
      assert pat[pp..next + 1] == pat[pp..next] + [pat[next]];
      if pat[next] == QUESTION { nm := nm + 1; } else { nx := true; }
      next := next + 1;
    }
  }

  lemma {:induction false} QuestionsOn(w: seq<nat>, c: nat)
    ensures Questions(w + [c]) == Questions(w) + if c == QUESTION then 1 else 0
  {
    if w == [] {
      assert w + [c] == [c];
    } else {
      assert (w + [c])[1..] == w[1..] + [c];
      QuestionsOn(w[1..], c);
    }
  }

  /** An attempt that met the end of the name while literals were left cannot succeed further on. */
  lemma NoLater(ex: seq<nat>, pat: seq<nat>, nam: seq<nat>, at: nat, p: nat)
    requires IsTable(ex) && IsString(pat) && IsString(nam) && at <= |nam| && p <= |pat|
    requires forall i :: 0 <= i < p ==> !Wild(pat[i])
    ensures forall k :: at <= k <= |nam| && |nam| - k < p ==> !Matches(ex, pat, nam[k..])
  {
    forall k | at <= k <= |nam| && |nam| - k < p ensures !Matches(ex, pat, nam[k..]) {
      LiteralsNeed(ex, pat, nam[k..], p);
    }
  }

  /** A file is found exactly when its name matches the pattern. */
  method Find(ex: seq<nat>, pat: seq<nat>, nam: seq<nat>) returns (found: bool)
    requires IsTable(ex) && IsString(pat) && IsString(nam)
    ensures found <==> Matches(ex, pat, nam)
  {
    assert nam[0..] == nam;
    found := PatternMatching(ex, pat, nam, 0, false);
  }
}
