/** Long file names in directory entries of thirteen characters each. */
module LongName {
  import opened FatVolume
  import opened FatEntry

  const MAX_LFN := 255
  const LLEF := 0x40 // last long entry flag in LDIR_Ord
  const DDEM := 0xE5 // mark of a deleted entry
  const AM_LFN := 0x0F

  /** LfnOfs: where the characters lie in an entry. */
  const OFFSETS: seq<nat> := [1, 3, 5, 7, 9, 14, 16, 18, 20, 22, 24, 28, 30]

  type word = x: int | 0 <= x < 0x1_0000

  /** A name of one to MAX_LFN characters. */
  ghost predicate IsName(name: seq<word>) {
    1 <= |name| <= MAX_LFN && forall i :: 0 <= i < |name| ==> name[i] != 0 && name[i] != 0xFFFF
  }

  /** A buffer that holds a name and its terminator. */
  ghost predicate Holds(buf: seq<word>, name: seq<word>) {
    |buf| == MAX_LFN + 1 && |name| <= MAX_LFN && buf[..|name|] == name && buf[|name|] == 0
  }

  /** Character j of a name as the entries hold it: the terminator behind the name, then filler. */
  function CharAt(name: seq<word>, j: nat): word {
    if j < |name| then name[j] else if j == |name| then 0 else 0xFFFF
  }

  /** Number of entries for a name of n characters. */
  function Entries(n: nat): nat { (n + 12) / 13 }

  lemma OffsetsApart()
    ensures |OFFSETS| == 13
    ensures forall s :: 0 <= s < 13 ==> 1 <= OFFSETS[s] <= 30 && OFFSETS[s] != 10 && OFFSETS[s] != 11 && OFFSETS[s] != 12 && OFFSETS[s] != 13
    ensures forall s :: 0 <= s < 13 ==> !(25 <= OFFSETS[s] <= 27)
    ensures forall s, t :: 0 <= s < t < 13 ==> OFFSETS[s] + 2 <= OFFSETS[t]
  {
  }

  /** The entry holds part `ord` of the name. */
  ghost predicate IsPart(dir: seq<byte>, name: seq<word>, ord: nat, sum: byte)
    requires ord >= 1
  {
    && |dir| == 32 && ord <= 20
    && dir[0] == ord + (if 13 * ord >= |name| then LLEF else 0)
    && dir[11] == AM_LFN && dir[12] == 0 && dir[13] == sum && dir[26] == 0 && dir[27] == 0
    && Characters(dir, name, 13 * (ord - 1), 13)
  }

  /** The first k characters of the entry are those of the name from `from` on. */
  ghost predicate Characters(dir: seq<byte>, name: seq<word>, from: nat, k: nat)
    requires |dir| == 32
  {
    k <= 13 && forall s :: 0 <= s < k ==> CharOf(dir, s) == CharAt(name, from + s)
  }

  /** Character s of an entry. */
  function CharOf(dir: seq<byte>, s: nat): word
    requires |dir| == 32 && s < 13
  {
    OffsetsApart();
    Word(dir[OFFSETS[s]], dir[OFFSETS[s] + 1])
  }

  /** A part in numbers: the order in byte 0, with 64 more in the last one, and the characters low byte first in bytes 1 to 10,
      14 to 25 and 28 to 31, with a zero behind the name and 65535 after that. */
  lemma PartInNumbers(dir: seq<byte>, name: seq<word>, ord: nat, sum: byte)
    requires ord >= 1 && IsPart(dir, name, ord, sum)
    ensures dir[0] == (if 13 * ord >= |name| then ord + 64 else ord) && dir[11] == 15 && dir[12] == 0 && dir[13] == sum
    ensures dir[26] == 0 && dir[27] == 0
    ensures forall s :: 0 <= s < 13 ==>
              var j := 13 * (ord - 1) + s;
              Word(dir[Place(s)], dir[Place(s) + 1]) == if j < |name| then name[j] else if j == |name| then 0 else 65535
  {
    forall s | 0 <= s < 13
      ensures Word(dir[Place(s)], dir[Place(s) + 1]) == CharAt(name, 13 * (ord - 1) + s)
    {
      assert OFFSETS[s] == Place(s);
      assert CharOf(dir, s) == CharAt(name, 13 * (ord - 1) + s);
    }
  }

  /** Byte of a directory entry in which character s of a part starts. */
  function Place(s: nat): nat { if s < 5 then 1 + 2 * s else if s < 11 then 4 + 2 * s else 6 + 2 * s }

  /** ST_WORD of character s of an entry. */
  method StoreChar(dir: array<byte>, s: nat, wc: word)
    requires dir.Length == 32 && s < 13
    modifies dir
    ensures CharOf(dir[..], s) == wc
    ensures forall t :: 0 <= t < 13 && t != s ==> CharOf(dir[..], t) == old(CharOf(dir[..], t))
    ensures forall i :: 0 <= i < 32 && (i == 0 || 11 <= i <= 13 || 26 <= i <= 27) ==> dir[i] == old(dir[i])
  {
    OffsetsApart();
    dir[OFFSETS[s]] := wc % 0x100;
    dir[OFFSETS[s] + 1] := wc / 0x100;
  }

  /** fit_lfn: entry `ord` of the name in the buffer. */
  method FitLfn(lfnbuf: seq<word>, dir: array<byte>, ord: nat, sum: byte, ghost name: seq<word>)
    requires dir.Length == 32 && IsName(name) && Holds(lfnbuf, name) && 1 <= ord <= Entries(|name|)
    modifies dir
    ensures IsPart(dir[..], name, ord, sum)
  {
    hide CharOf;
    dir[13] := sum;
    dir[11] := AM_LFN;
    dir[12] := 0;
    dir[26] := 0;
    dir[27] := 0;
    var i := (ord - 1) * 13;
    var s := 0;
    var wc: word := 0;
    while s < 13
      invariant 0 <= s <= 13
      invariant dir[13] == sum && dir[11] == AM_LFN && dir[12] == 0 && dir[26] == 0 && dir[27] == 0
      invariant Characters(dir[..], name, 13 * (ord - 1), s)
      invariant wc == 0xFFFF <==> 13 * (ord - 1) + s > |name|
      invariant wc != 0xFFFF ==> i == 13 * (ord - 1) + s
    {
      if wc != 0xFFFF {
        assert i <= |name| && lfnbuf[i] == CharAt(name, i) by { BufferAt(lfnbuf, name, i); }
        wc := lfnbuf[i];
        i := i + 1;
      }
      StoreChar(dir, s, wc);
      if wc == 0 { wc := 0xFFFF; }
      s := s + 1;
    }
    var o := ord;
    if wc != 0xFFFF { BufferAt(lfnbuf, name, i); }
    if wc == 0xFFFF || lfnbuf[i] == 0 { o := o + LLEF; }
    ghost var before := dir[..];
    dir[0] := o;
    SameCharacters(before, dir[..], name, 13 * (ord - 1));
  }

  lemma BufferAt(buf: seq<word>, name: seq<word>, i: nat)
    requires Holds(buf, name) && IsName(name) && i <= |name|
    ensures buf[i] == CharAt(name, i) && (buf[i] == 0 <==> i == |name|)
  {
    if i < |name| { assert buf[..|name|][i] == name[i]; }
  }

  lemma SameCharacters(a: seq<byte>, b: seq<byte>, name: seq<word>, from: nat)
    requires |a| == |b| == 32 && b == a[0 := b[0]] && Characters(a, name, from, 13)
    ensures Characters(b, name, from, 13)
  {
    OffsetsApart();
    forall s | 0 <= s < 13 ensures CharOf(b, s) == CharAt(name, from + s) {
      assert CharOf(a, s) == CharAt(name, from + s);
    }
  }

  /** pick_lfn. Of an entry that is a part of a name it fails exactly when a character or the terminator has no room;
      it always fails for an entry of order 0. */
  method PickLfn(lfnbuf: array<word>, dir: seq<byte>, ghost part: bool, ghost name: seq<word>, ghost ord: nat, ghost sum: byte)
      returns (ok: bool)
    requires lfnbuf.Length == MAX_LFN + 1 && |dir| == 32
    requires part ==> IsName(name) && 1 <= ord <= Entries(|name|) && IsPart(dir, name, ord, sum)
    modifies lfnbuf
    ensures Order(dir) % 0x40 == 0 ==> !ok
    ensures part ==> (ok <==> 13 * ord < |name| || |name| <= MAX_LFN - 2)
    ensures part && ok ==> forall j :: 13 * (ord - 1) <= j < 13 * ord && j <= |name| ==> lfnbuf[j] == CharAt(name, j)
    ensures part && ok && 13 * ord >= |name| ==> lfnbuf[|name|] == 0
    ensures part && 13 * ord < |name| ==> lfnbuf[|name|] == old(lfnbuf[|name|])
    ensures part ==> forall j :: 0 <= j < |name| && !(13 * (ord - 1) <= j < 13 * ord) ==> lfnbuf[j] == old(lfnbuf[j])
  {
    hide CharOf;
    if part { PartOrder(name, ord); }
    var low: int := dir[0] % 0x40;
    var i: nat := (low - 1) * 13 % 0x1_0000_0000;
    var s := 0;
    var wc: word := 1;
    while s < 13
      invariant 0 <= s <= 13
      invariant dir[0] % 0x40 == 0 ==> s == 0 && wc != 0 && i >= MAX_LFN
      invariant part ==> (wc != 0 <==> 13 * (ord - 1) + s <= |name|)
      invariant part ==> i == (if wc != 0 then 13 * (ord - 1) + s else |name| + 1) <= MAX_LFN
      invariant part ==> forall j :: 13 * (ord - 1) <= j < 13 * (ord - 1) + s && j <= |name| ==> lfnbuf[j] == CharAt(name, j)
      invariant part ==> forall j :: 0 <= j < |name| && !(13 * (ord - 1) <= j < 13 * ord) ==> lfnbuf[j] == old(lfnbuf[j])
      invariant part && 13 * ord < |name| ==> lfnbuf[|name|] == old(lfnbuf[|name|])
    {
      var uc := CharOf(dir, s);
      assert part ==> uc == CharAt(name, 13 * (ord - 1) + s);
      if wc != 0 {
        if i >= MAX_LFN { return false; }
        lfnbuf[i] := uc;
        i := i + 1;
        wc := uc;
      } else {
        if uc != 0xFFFF { return false; }
      }
      s := s + 1;
    }
    if Flagged(dir) {
      if i >= MAX_LFN { return false; }
      lfnbuf[i] := 0;
    }
    ok := true;
  }

  /** The last-entry flag of an entry. */
  predicate Flagged(dir: seq<byte>)
    requires |dir| == 32
  {
    dir[0] / LLEF % 2 == 1
  }

  /** The order of an entry, without the flag. */
  function Order(dir: seq<byte>): byte
    requires |dir| == 32
  {
    if Flagged(dir) then dir[0] - LLEF else dir[0]
  }

  lemma PartOrder(name: seq<word>, ord: nat)
    requires IsName(name) && 1 <= ord <= Entries(|name|)
    ensures ord <= 20 && 13 * (ord - 1) < |name|
    ensures |name| == MAX_LFN || |name| == MAX_LFN - 1 ==> 13 * ord != |name|
  {
  }

  /** The entries of a name as dir_register writes them: the last part first. */
  ghost predicate AreParts(entries: seq<seq<byte>>, name: seq<word>, sum: byte) {
    |entries| == Entries(|name|) && forall k :: 0 <= k < |entries| ==> IsPart(entries[k], name, |entries| - k, sum)
  }

  /** Only the last part carries the flag. */
  lemma OnlyLast(entries: seq<seq<byte>>, name: seq<word>, sum: byte, k: nat)
    requires IsName(name) && AreParts(entries, name, sum) && k < |entries|
    ensures entries[k] != [] && entries[k][0] == |entries| - k + (if k == 0 then LLEF else 0)
  {
    PartOrder(name, |entries| - k);
    assert IsPart(entries[k], name, |entries| - k, sum);
  }

  /** The loop of dir_register over the entries of a name. */
  method StoreName(lfnbuf: seq<word>, sum: byte, ghost name: seq<word>) returns (entries: seq<seq<byte>>)
    requires IsName(name) && Holds(lfnbuf, name)
    ensures AreParts(entries, name, sum)
  {
    var n := 0;
    while lfnbuf[n] != 0
      invariant 0 <= n <= |name|
      decreases |name| - n
    {
      BufferAt(lfnbuf, name, n);
      n := n + 1;
    }
    BufferAt(lfnbuf, name, n);
    var nent := (n + 25) / 13 - 1;
    entries := [];
    while nent > 0
      invariant 0 <= nent == Entries(|name|) - |entries|
      invariant forall k :: 0 <= k < |entries| ==> IsPart(entries[k], name, Entries(|name|) - k, sum)
    {
      var dir := new byte[32](_ => 0);
      FitLfn(lfnbuf, dir, nent, sum, name);
      entries := entries + [dir[..]];
      nent := nent - 1;
    }
  }

  /** A deleted entry or a dot entry, which breaks a sequence. */
  predicate Skipped(dir: seq<byte>)
    requires |dir| == 32
  {
    dir[0] == DDEM || dir[0] == '.' as int
  }

  lemma SkippedInNumbers(dir: seq<byte>)
    requires |dir| == 32
    ensures Skipped(dir) <==> dir[0] == 229 || dir[0] == 46
  {
  }

  /** Long-name entries from index j up to index k that follow one another: the first carries the flag, the orders go
      down by one to `ord`, and all have the check sum of the first. */
  ghost predicate InSequence(entries: seq<seq<byte>>, j: nat, k: nat, ord: nat, sum: byte)
    requires AreEntries(entries) && k <= |entries|
  {
    && j < k && Flagged(entries[j]) && Order(entries[j]) == ord + (k - j)
    && (forall i :: j < i < k ==> !Flagged(entries[i]) && Order(entries[i]) == Order(entries[j]) - (i - j))
    && forall i :: j <= i < k ==> entries[i][13] == sum && !Skipped(entries[i])
  }

  ghost predicate AreEntries(entries: seq<seq<byte>>) { forall i :: 0 <= i < |entries| ==> |entries[i]| == 32 }

  /** Parts of a name, in order, are a sequence. */
  lemma PartsFollow(entries: seq<seq<byte>>, name: seq<word>, sum: byte)
    requires IsName(name) && AreParts(entries, name, sum)
    ensures AreEntries(entries) && InSequence(entries, 0, |entries|, 0, sum)
  {
    forall k | 0 <= k < |entries|
      ensures |entries[k]| == 32 && entries[k][13] == sum && !Skipped(entries[k]) && Order(entries[k]) == |entries| - k && (Flagged(entries[k]) <==> k == 0)
    {
      PartOrder(name, |entries| - k);
      assert IsPart(entries[k], name, |entries| - k, sum);
    }
  }

  /** The loop of dir_read over the entries in front of a short one with check sum `sfn`: long-name entries, deleted and
      dot entries, and possibly the end of the table. A name is taken from
      them only if they end in a sequence down to order 1 with that check sum. For the parts of a name that is so when
      the check sum is theirs and the name is not of one of the two greatest lengths, and the name read is that name. */
  method LoadName(entries: seq<seq<byte>>, sfn: byte, lfnbuf: array<word>, ghost parts: bool, ghost name: seq<word>, ghost sum: byte)
      returns (ok: bool)
    requires AreEntries(entries) && lfnbuf.Length == MAX_LFN + 1
    requires parts ==> IsName(name) && AreParts(entries, name, sum)
    modifies lfnbuf
    ensures ok ==> exists j: nat :: InSequence(entries, j, |entries|, 0, sfn)
    ensures parts ==> (ok <==> |name| <= MAX_LFN - 2 && sfn == sum)
    ensures parts && ok ==> Holds(lfnbuf[..], name)
  {
    hide IsPart, Order, Flagged;
    var ord: byte, chksum: byte := 0xFF, 0xFF;
    ghost var j: nat := 0;
    var k := 0;
    while k < |entries|
      invariant 0 <= k <= |entries|
      invariant ord == 0xFF || InSequence(entries, j, k, ord, chksum)
      invariant parts && k > 0 ==> if |name| <= MAX_LFN - 2 then ord == |entries| - k && chksum == sum && lfnbuf[|name|] == 0 else ord == 0xFF
      invariant parts && |name| <= MAX_LFN - 2 ==> forall i :: 13 * (|entries| - k) <= i < |name| ==> lfnbuf[i] == name[i]
    {
      var dir := entries[k];
      if parts { PartsFollow(entries, name, sum); PartOrder(name, |entries| - k); PartAt(entries, name, sum, k); }
      OrderBound(dir);
      var c := Order(dir);
      if dir[0] == 0 { return false; }
      if Skipped(dir) {
        ord := 0xFF;
      } else {
        if Flagged(dir) { chksum, ord, j := dir[13], c, k; }
        var taken := false;
        if c == ord && chksum == dir[13] {
          taken := PickLfn(lfnbuf, dir, parts, name, |entries| - k, sum);
        }
        ord := if taken then ord - 1 else 0xFF;
      }
      k := k + 1;
    }
    ok := ord == 0 && chksum == sfn;
    if parts && ok { assert lfnbuf[..|name|] == name; }
  }

  lemma OrderBound(dir: seq<byte>)
    requires |dir| == 32
    ensures Order(dir) < 0xFF && (Order(dir) == 0 ==> Order(dir) % 0x40 == 0)
  {
  }

  lemma PartAt(entries: seq<seq<byte>>, name: seq<word>, sum: byte, k: nat)
    requires IsName(name) && AreParts(entries, name, sum) && k < |entries|
    ensures IsPart(entries[k], name, |entries| - k, sum)
  {
  }

  /** A name stored in entries and read back is the same name, for up to MAX_LFN - 2 characters. */
  method RoundTrip(lfnbuf: seq<word>, sum: byte, back: array<word>, ghost name: seq<word>) returns (ok: bool)
    requires IsName(name) && Holds(lfnbuf, name) && back.Length == MAX_LFN + 1
    modifies back
    ensures ok <==> |name| <= 253
    ensures ok ==> Holds(back[..], name)
  {
    var entries := StoreName(lfnbuf, sum, name);
    PartsFollow(entries, name, sum);
    ok := LoadName(entries, sum, back, true, name, sum);
  }
}
