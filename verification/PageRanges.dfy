/** xtAllocatePages and xtFreePages (xtkernel/memory.c): the sorted list of free physical ranges. */
module PageRanges {
  import opened Bits
  import opened Results

  /** XTMemoryMapEntry; attributes are never looked at by these operations. */
  datatype Range = Range(start: nat, length: nat) {
    function End(): nat { start + length }
    predicate Covers(a: nat) { start <= a < start + length }
  }

  // ----- The list as a set of free bytes -----

  ghost predicate IsFree(ds: seq<Range>, a: nat) {
    exists i :: 0 <= i < |ds| && ds[i].Covers(a)
  }

  /** Sorted, without empty ranges, and with a real gap between neighbours. */
  ghost predicate Canonical(ds: seq<Range>) {
    && (forall i :: 0 <= i < |ds| ==> ds[i].length > 0)
    && (forall i :: 0 <= i < |ds| - 1 ==> ds[i].End() < ds[i + 1].start)
  }

  /** No byte is listed twice; the order does not matter, and entries may be empty or adjacent. */
  ghost predicate ListedOnce(ds: seq<Range>) {
    forall i, j :: 0 <= i < j < |ds| ==> Disjoint(ds[i], ds[j])
  }

  predicate Disjoint(a: Range, b: Range) {
    a.length == 0 || b.length == 0 || a.End() <= b.start || b.End() <= a.start
  }

  lemma CanonicalListedOnce(ds: seq<Range>)
    requires Canonical(ds)
    ensures ListedOnce(ds)
  {
    forall i, j | 0 <= i < j < |ds| ensures Disjoint(ds[i], ds[j]) { Apart(ds, i, j); }
  }

  ghost function Total(ds: seq<Range>): nat {
    if ds == [] then 0 else ds[0].length + Total(ds[1..])
  }

  lemma {:induction false} Apart(ds: seq<Range>, i: nat, j: nat)
    requires Canonical(ds) && i < j < |ds|
    ensures ds[i].End() < ds[j].start
    decreases j
  {
    if i + 1 < j {
      Apart(ds, i, j - 1);
    }
    assert ds[j - 1].End() < ds[j].start;
  }

  /** A set of free bytes has only one canonical list. */
  lemma {:induction false} CanonicalUnique(a: seq<Range>, b: seq<Range>)
    requires Canonical(a) && Canonical(b) && forall x: nat :: IsFree(a, x) <==> IsFree(b, x)
    ensures a == b
    decreases |a|
  {
    if a == [] || b == [] {
      if a != [] { assert a[0].Covers(a[0].start); assert IsFree(a, a[0].start); }
      if b != [] { assert b[0].Covers(b[0].start); assert IsFree(b, b[0].start); }
    } else {
      SameHead(a, b);
      SameHead(b, a);
      var ta, tb := a[1..], b[1..];
      assert Canonical(ta) && Canonical(tb);
      forall x: nat ensures IsFree(ta, x) <==> IsFree(tb, x) {
        TailFree(a, x);
        TailFree(b, x);
        assert IsFree(a, x) <==> IsFree(b, x);
      }
      CanonicalUnique(ta, tb);
      assert a == [a[0]] + ta && b == [b[0]] + tb;
    }
  }

  /** The first range ends exactly where the free bytes after its start end. */
  lemma SameHead(a: seq<Range>, b: seq<Range>)
    requires Canonical(a) && Canonical(b) && a != [] && b != [] && forall x: nat :: IsFree(a, x) <==> IsFree(b, x)
    ensures a[0].start >= b[0].start
    ensures a[0].start == b[0].start ==> a[0].End() <= b[0].End()
  {
    assert a[0].Covers(a[0].start);
    assert IsFree(a, a[0].start) && IsFree(b, a[0].start);
    var i :| 0 <= i < |b| && b[i].Covers(a[0].start);
    if i > 0 { Apart(b, 0, i); }
    if a[0].start == b[0].start && a[0].End() > b[0].End() {
      var x := b[0].End();
      assert a[0].Covers(x);
      assert IsFree(a, x) && IsFree(b, x);
      var j :| 0 <= j < |b| && b[j].Covers(x);
      if j > 0 { Apart(b, 0, j); }
    }
  }

  lemma TailFree(a: seq<Range>, x: nat)
    requires Canonical(a) && a != []
    ensures IsFree(a[1..], x) <==> IsFree(a, x) && !a[0].Covers(x)
  {
    if IsFree(a[1..], x) {
      var i :| 0 <= i < |a[1..]| && a[1..][i].Covers(x);
      assert a[i + 1].Covers(x);
      Apart(a, 0, i + 1);
    }
    if IsFree(a, x) && !a[0].Covers(x) {
      var i :| 0 <= i < |a| && a[i].Covers(x);
      assert a[1..][i - 1].Covers(x);
    }
  }

  lemma {:induction false} TotalSplit(a: seq<Range>, b: seq<Range>)
    ensures Total(a + b) == Total(a) + Total(b)
    decreases |a|
  {
    if a == [] {
      assert a + b == b;
    } else {
      TotalSplit(a[1..], b);
      assert (a + b)[1..] == a[1..] + b;
    }
  }

  lemma TotalAt(ds: seq<Range>, i: nat)
    requires i < |ds|
    ensures Total(ds) == Total(ds[..i]) + ds[i].length + Total(ds[i + 1..])
  {
    assert ds == ds[..i] + ds[i..] && ds[i..][1..] == ds[i + 1..];
    TotalSplit(ds[..i], ds[i..]);
  }

  ghost function Bytes(r: Range): set<nat> {
    set a: nat | r.start <= a < r.End() && r.Covers(a)
  }

  lemma {:induction false} BytesCount(r: Range)
    ensures |Bytes(r)| == r.length
    decreases r.length
  {
    if r.length == 0 {
      assert Bytes(r) == {};
    } else {
      var less := Range(r.start, r.length - 1);
      BytesCount(less);
      var last: nat := less.End();
      forall a: nat ensures a in Bytes(r) <==> a in Bytes(less) || a == last {
        assert r.Covers(a) <==> less.Covers(a) || a == last;
      }
      assert Bytes(r) == Bytes(less) + {last};
    }
  }

  /** If no byte is listed twice, the total is the number of free bytes. */
  lemma {:induction false} TotalCounts(ds: seq<Range>, bytes: set<nat>)
    requires ListedOnce(ds) && forall a: nat :: a in bytes <==> IsFree(ds, a)
    ensures Total(ds) == |bytes|
    decreases |ds|
  {
    if ds == [] {
      assert bytes == {};
    } else {
      var head, rest := Bytes(ds[0]), bytes - Bytes(ds[0]);
      var tail := ds[1..];
      forall a: nat ensures a in rest <==> IsFree(tail, a) { HeadApart(ds, a); }
      forall a | a in head ensures a in bytes { assert ds[0].Covers(a); }
      TotalCounts(tail, rest);
      BytesCount(ds[0]);
      assert bytes == head + rest;
    }
  }

  lemma HeadApart(ds: seq<Range>, a: nat)
    requires ListedOnce(ds) && ds != []
    ensures IsFree(ds[1..], a) <==> IsFree(ds, a) && !ds[0].Covers(a)
  {
    if IsFree(ds[1..], a) {
      var i :| 0 <= i < |ds[1..]| && ds[1..][i].Covers(a);
      assert Disjoint(ds[0], ds[i + 1]) && ds[i + 1].Covers(a);
    }
    if IsFree(ds, a) && !ds[0].Covers(a) {
      var i :| 0 <= i < |ds| && ds[i].Covers(a);
      assert ds[1..][i - 1].Covers(a);
    }
  }

  // ----- Size rounding -----

  /** `size + (1 << 12) & ~(1 << 12)`: addition binds tighter than the mask. */
  function RoundSize(size: nat): nat {
    And((size + 0x1000) % TWO_64, TWO_64 - 1 - 0x1000)
  }

  lemma ClearBit12(x: nat)
    requires x < TWO_64
    ensures And(x, TWO_64 - 1 - 0x1000) == x - if x / 0x1000 % 2 == 1 then 0x1000 else 0
  {
    hide And;
    AndParts(x);
    KeepLow12(x % 0x1000);
    ClearBit0(x / 0x1000);
    WithoutBit12(x, x / 0x1000);
  }

  lemma AndParts(x: nat)
    ensures And(x, TWO_64 - 1 - 0x1000)
         == 0x1000 * And(x / 0x1000, 2 * 0x7_ffff_ffff_ffff) + And(x % 0x1000, 0xfff)
  {
    assert Pow2(12) == 0x1000 by { Powers(); }
    hide And, Shr, Low, Pow2;
    DivideBy(x, 12, 0x1000);
    Unique(2 * 0x7_ffff_ffff_ffff, 0xfff, 12);
    AndSplit(x, TWO_64 - 1 - 0x1000, 12);
  }

  lemma WithoutBit12(x: nat, h: nat)
    requires h == x / 0x1000
    ensures 0x1000 * (h / 2 * 2) + x % 0x1000 == x - if h % 2 == 1 then 0x1000 else 0
  {}

  lemma KeepLow12(l: nat)
    requires l < 0x1000
    ensures And(l, 0xfff) == l
  {
    assert Pow2(12) == 0x1000 by { Powers(); }
    hide And, Low, Pow2;
    AndLow(l, 12);
    Unique(0, l, 12);
  }

  lemma ClearBit0(h: nat)
    requires h < 0x10_0000_0000_0000
    ensures And(h, 2 * 0x7_ffff_ffff_ffff) == h / 2 * 2
  {
    assert Pow2(51) == 0x8_0000_0000_0000 && Pow2(1) == 2 by { Powers(); }
    hide And, Shr, Low, Pow2;
    AndHigh(h, 0x7_ffff_ffff_ffff, 1);
    DivideBy(h, 1, 2);
    AndLow(h / 2, 51);
    Unique(0, h / 2, 51);
  }

  /** Bit 12 of the size plus a page, in 64 bits, is cleared. */
  lemma RoundSizeWraps(size: nat)
    ensures var x := (size + 0x1000) % 0x1_0000_0000_0000_0000;
      RoundSize(size) == x - if x / 0x1000 % 2 == 1 then 0x1000 else 0
  {
    hide And;
    ClearBit12((size + 0x1000) % TWO_64);
  }

  /** The request is granted as it is exactly when bit 12 of the size is clear; otherwise it grows by a page. */
  lemma RoundSizeIs(size: nat)
    requires size < TWO_64 - 0x1000
    ensures RoundSize(size) == size + if size / 0x1000 % 2 == 1 then 0x1000 else 0
  {
    hide And;
    ClearBit12(size + 0x1000);
  }

  /** A request for one page is served with two. */
  lemma OnePageBecomesTwo()
    ensures RoundSize(0x1000) == 0x2000
  {
    RoundSizeIs(0x1000);
  }

  // ----- The two operations on the list -----

  /** Entry i gives up its first `size` bytes. An emptied entry is unlinked, except that xtSetNextList refuses
      a NULL successor: an emptied tail behind another entry stays linked. */
  function Taken(ds: seq<Range>, i: nat, size: nat): seq<Range>
    requires i < |ds| && size <= ds[i].length
  {
    if ds[i].length == size && !StaysLinked(ds, i) then ds[..i] + ds[i + 1..]
    else ds[i := Range(ds[i].start + size, ds[i].length - size)]
  }

  predicate StaysLinked(ds: seq<Range>, i: nat) {
    i > 0 && i + 1 == |ds|
  }

  /** The range leaves the free set exactly, if no byte is listed twice. */
  lemma TakenFree(ds: seq<Range>, i: nat, size: nat, a: nat)
    requires ListedOnce(ds) && i < |ds| && size <= ds[i].length
    ensures IsFree(Taken(ds, i, size), a) <==> IsFree(ds, a) && !(ds[i].start <= a < ds[i].start + size)
  {
    hide Taken, ListedOnce;
    if IsFree(Taken(ds, i, size), a) {
      var j :| 0 <= j < |Taken(ds, i, size)| && Taken(ds, i, size)[j].Covers(a);
      LeftCovers(ds, i, size, a, j);
    }
    if IsFree(ds, a) && !(ds[i].start <= a < ds[i].start + size) {
      var j :| 0 <= j < |ds| && ds[j].Covers(a);
      KeptCovers(ds, i, size, a, j);
    }
  }

  lemma LeftCovers(ds: seq<Range>, i: nat, size: nat, a: nat, j: nat)
    requires ListedOnce(ds) && i < |ds| && size <= ds[i].length
    requires j < |Taken(ds, i, size)| && Taken(ds, i, size)[j].Covers(a)
    ensures IsFree(ds, a) && !(ds[i].start <= a < ds[i].start + size)
  {
    var k := if |Taken(ds, i, size)| < |ds| && j >= i then j + 1 else j;
    assert ds[k].Covers(a);
    hide Taken;
    if k < i { assert Disjoint(ds[k], ds[i]); }
    if i < k { assert Disjoint(ds[i], ds[k]); }
  }

  lemma KeptCovers(ds: seq<Range>, i: nat, size: nat, a: nat, j: nat)
    requires i < |ds| && size <= ds[i].length && j < |ds| && ds[j].Covers(a)
    requires !(ds[i].start <= a < ds[i].start + size)
    ensures IsFree(Taken(ds, i, size), a)
  {
    assert Taken(ds, i, size)[if |Taken(ds, i, size)| < |ds| && j >= i then j - 1 else j].Covers(a);
  }

  lemma TakenFreeAll(ds: seq<Range>, i: nat, size: nat)
    requires ListedOnce(ds) && i < |ds| && size <= ds[i].length
    ensures forall a: nat :: IsFree(Taken(ds, i, size), a) <==> IsFree(ds, a) && !(ds[i].start <= a < ds[i].start + size)
    ensures ListedOnce(Taken(ds, i, size))
  {
    forall a: nat { TakenFree(ds, i, size, a); }
    TakenListedOnce(ds, i, size);
  }

  lemma TakenListedOnce(ds: seq<Range>, i: nat, size: nat)
    requires ListedOnce(ds) && i < |ds| && size <= ds[i].length
    ensures ListedOnce(Taken(ds, i, size))
  {
    var after := Taken(ds, i, size);
    forall j, k | 0 <= j < k < |after| ensures Disjoint(after[j], after[k]) {
      var gone := |after| < |ds|;
      assert Disjoint(ds[if gone && j >= i then j + 1 else j], ds[if gone && k >= i then k + 1 else k]);
    }
  }

  /** The list stays canonical unless an emptied tail stays behind. */
  lemma TakenCanonical(ds: seq<Range>, i: nat, size: nat)
    requires Canonical(ds) && i < |ds| && size <= ds[i].length
    ensures Canonical(Taken(ds, i, size)) <==> !(ds[i].length == size && StaysLinked(ds, i))
  {
    var after := Taken(ds, i, size);
    if ds[i].length == size && !StaysLinked(ds, i) {
      forall j | 0 <= j < |after| - 1 ensures after[j].End() < after[j + 1].start {
        Apart(ds, if j < i then j else j + 1, if j + 1 < i then j + 1 else j + 2);
      }
    } else {
      assert after[i].length == ds[i].length - size;
      forall j | 0 <= j < |after| - 1 ensures after[j].End() < after[j + 1].start {
        Apart(ds, j, j + 1);
      }
    }
  }

  /** For instance: the second of two entries stays, without a byte. */
  lemma EmptiedTailStays()
    ensures var ds := [Range(0x1000, 0x1000), Range(0x4000, 0x1000)];
      Canonical(ds) && Taken(ds, 1, 0x1000) == [Range(0x1000, 0x1000), Range(0x5000, 0)] && !Canonical(Taken(ds, 1, 0x1000))
  {
    TakenCanonical([Range(0x1000, 0x1000), Range(0x4000, 0x1000)], 1, 0x1000);
  }

  lemma TakenTotal(ds: seq<Range>, i: nat, size: nat)
    requires i < |ds| && size <= ds[i].length
    ensures Total(Taken(ds, i, size)) + size == Total(ds)
  {
    TotalAt(ds, i);
    var after := Taken(ds, i, size);
    if ds[i].length == size && !StaysLinked(ds, i) {
      TotalSplit(ds[..i], ds[i + 1..]);
    } else {
      TotalAt(after, i);
      assert after[..i] == ds[..i] && after[i + 1..] == ds[i + 1..];
    }
  }

  /** The place of a freed range: all entries before it start at or below `addr`, the next one above. */
  ghost predicate IsPlace(ds: seq<Range>, pos: nat, addr: nat) {
    && pos <= |ds| && (forall j :: 0 <= j < pos ==> ds[j].start <= addr) && (pos < |ds| ==> ds[pos].start > addr)
  }

  predicate JoinsLeft(ds: seq<Range>, pos: nat, addr: nat) {
    0 < pos <= |ds| && ds[pos - 1].End() == addr
  }

  predicate JoinsRight(ds: seq<Range>, pos: nat, addr: nat, size: nat) {
    pos < |ds| && addr + size == ds[pos].start
  }

  /** A range that closes the gap before the tail: the tail is absorbed, but xtSetNextList keeps it linked. */
  predicate AbsorbsTail(ds: seq<Range>, pos: nat, addr: nat, size: nat) {
    JoinsLeft(ds, pos, addr) && JoinsRight(ds, pos, addr, size) && pos + 1 == |ds|
  }

  /** How many bytes of an absorbed tail stay listed beside the entry that has absorbed them. */
  function Absorbed(ds: seq<Range>, pos: nat, addr: nat, size: nat): nat {
    if AbsorbsTail(ds, pos, addr, size) then ds[pos].length else 0
  }

  function Given(ds: seq<Range>, pos: nat, addr: nat, size: nat): seq<Range>
    requires pos <= |ds|
  {
    if JoinsLeft(ds, pos, addr) then
      var prev := ds[pos - 1];
      if JoinsRight(ds, pos, addr, size) then
        var joined := Range(prev.start, prev.length + size + ds[pos].length);
        if pos + 1 == |ds| then ds[pos - 1 := joined] else ds[..pos - 1] + [joined] + ds[pos + 1..]
      else ds[pos - 1 := Range(prev.start, prev.length + size)]
    else if JoinsRight(ds, pos, addr, size) then ds[pos := Range(addr, ds[pos].length + size)]
    else ds[..pos] + [Range(addr, size)] + ds[pos..]
  }

  /** No byte of the range is free already. */
  ghost predicate InUse(ds: seq<Range>, addr: nat, size: nat) {
    forall a: nat :: addr <= a < addr + size ==> !IsFree(ds, a)
  }

  /** A range in use lies between the entry before its place and the one after it. */
  lemma Between(ds: seq<Range>, pos: nat, addr: nat, size: nat)
    requires Canonical(ds) && IsPlace(ds, pos, addr) && size > 0 && InUse(ds, addr, size)
    ensures pos > 0 ==> ds[pos - 1].End() <= addr
    ensures pos < |ds| ==> addr + size <= ds[pos].start
  {
    if pos > 0 {
      assert ds[pos - 1].Covers(addr) ==> IsFree(ds, addr);
    }
    if pos < |ds| {
      assert ds[pos].Covers(ds[pos].start);
      assert IsFree(ds, ds[pos].start);
    }
  }

  /** Freeing adds the range to the free set exactly, whatever the list is. */
  lemma GivenFree(ds: seq<Range>, pos: nat, addr: nat, size: nat, a: nat)
    requires pos <= |ds|
    ensures IsFree(Given(ds, pos, addr, size), a) <==> IsFree(ds, a) || addr <= a < addr + size
  {
    hide Given, JoinsLeft, JoinsRight;
    var after := Given(ds, pos, addr, size);
    if IsFree(after, a) && !(addr <= a < addr + size) {
      var j :| 0 <= j < |after| && after[j].Covers(a);
      OldCovers(ds, pos, addr, size, a, j);
    }
    if IsFree(ds, a) {
      var j :| 0 <= j < |ds| && ds[j].Covers(a);
      StillCovers(ds, pos, addr, size, a, j);
    }
    if addr <= a < addr + size { NewCovers(ds, pos, addr, size, a); }
  }

  lemma StillCovers(ds: seq<Range>, pos: nat, addr: nat, size: nat, a: nat, j: nat)
    requires pos <= |ds| && j < |ds| && ds[j].Covers(a)
    ensures IsFree(Given(ds, pos, addr, size), a)
  {
    var after := Given(ds, pos, addr, size);
    var k := if |after| > |ds| && j >= pos then j + 1
             else if JoinsLeft(ds, pos, addr) && JoinsRight(ds, pos, addr, size) && j >= pos then j - 1 else j;
    assert after[k].Covers(a);
  }

  lemma NewCovers(ds: seq<Range>, pos: nat, addr: nat, size: nat, a: nat)
    requires pos <= |ds| && addr <= a < addr + size
    ensures IsFree(Given(ds, pos, addr, size), a)
  {
    var after := Given(ds, pos, addr, size);
    assert after[if JoinsLeft(ds, pos, addr) then pos - 1 else pos].Covers(a);
  }

  lemma OldCovers(ds: seq<Range>, pos: nat, addr: nat, size: nat, a: nat, j: nat)
    requires pos <= |ds| && j < |Given(ds, pos, addr, size)|
    requires Given(ds, pos, addr, size)[j].Covers(a) && !(addr <= a < addr + size)
    ensures IsFree(ds, a)
  {
    var left, right := JoinsLeft(ds, pos, addr), JoinsRight(ds, pos, addr, size);
    if left && j == pos - 1 {
      assert ds[pos - 1].Covers(a) || (right && ds[pos].Covers(a));
    } else if left && right && j >= pos && pos + 1 < |ds| {
      assert ds[j + 1].Covers(a);
    } else if !left && !right && j > pos {
      assert ds[j - 1].Covers(a);
    } else {
      assert ds[j].Covers(a);
    }
  }

  /** A byte of the absorbed tail is listed twice; nothing else is. */
  lemma GivenListedOnce(ds: seq<Range>, pos: nat, addr: nat, size: nat)
    requires ListedOnce(ds) && pos <= |ds| && InUse(ds, addr, size)
    ensures ListedOnce(Given(ds, pos, addr, size)) <==> Absorbed(ds, pos, addr, size) == 0
  {
    hide InUse;
    NewApart(ds, addr, size);
    var after := Given(ds, pos, addr, size);
    if Absorbed(ds, pos, addr, size) > 0 {
      assert !Disjoint(after[pos - 1], after[pos]);
    } else {
      forall j, k | 0 <= j < k < |after| ensures Disjoint(after[j], after[k]) {
        GivenApart(ds, pos, addr, size, j, k);
      }
    }
  }

  lemma NewApart(ds: seq<Range>, addr: nat, size: nat)
    requires InUse(ds, addr, size)
    ensures forall j :: 0 <= j < |ds| ==> Disjoint(ds[j], Range(addr, size))
  {
    forall j | 0 <= j < |ds| ensures Disjoint(ds[j], Range(addr, size)) {
      if !Disjoint(ds[j], Range(addr, size)) {
        var a := if ds[j].start < addr then addr else ds[j].start;
        assert ds[j].Covers(a);
        assert IsFree(ds, a);
      }
    }
  }

  /** The entry that holds the given range, and its place. */
  function Holder(ds: seq<Range>, pos: nat, addr: nat, size: nat): Range {
    var left := if JoinsLeft(ds, pos, addr) then ds[pos - 1].length else 0;
    var right := if JoinsRight(ds, pos, addr, size) then ds[pos].length else 0;
    Range(if JoinsLeft(ds, pos, addr) then ds[pos - 1].start else addr, left + size + right)
  }

  function HolderAt(ds: seq<Range>, pos: nat, addr: nat): nat {
    if JoinsLeft(ds, pos, addr) then pos - 1 else pos
  }

  /** Where any other entry j of the new list comes from. */
  function Origin(ds: seq<Range>, pos: nat, addr: nat, size: nat, j: nat): nat {
    if JoinsLeft(ds, pos, addr) then if JoinsRight(ds, pos, addr, size) && j >= pos && pos + 1 < |ds| then j + 1 else j
    else if !JoinsRight(ds, pos, addr, size) && j > pos then j - 1 else j
  }

  lemma GivenEntry(ds: seq<Range>, pos: nat, addr: nat, size: nat, j: nat)
    requires pos <= |ds| && j < |Given(ds, pos, addr, size)|
    ensures j == HolderAt(ds, pos, addr) ==> Given(ds, pos, addr, size)[j] == Holder(ds, pos, addr, size)
    ensures j != HolderAt(ds, pos, addr) ==> Origin(ds, pos, addr, size, j) < |ds|
    ensures j != HolderAt(ds, pos, addr) ==> Given(ds, pos, addr, size)[j] == ds[Origin(ds, pos, addr, size, j)]
  {}

  lemma HolderApart(ds: seq<Range>, pos: nat, addr: nat, size: nat, j: nat)
    requires ListedOnce(ds) && pos <= |ds| && forall i :: 0 <= i < |ds| ==> Disjoint(ds[i], Range(addr, size))
    requires Absorbed(ds, pos, addr, size) == 0 && j < |Given(ds, pos, addr, size)| && j != HolderAt(ds, pos, addr)
    requires Origin(ds, pos, addr, size, j) < |ds|
    ensures Disjoint(ds[Origin(ds, pos, addr, size, j)], Holder(ds, pos, addr, size))
  {
    var p := Origin(ds, pos, addr, size, j);
    ApartFrom(ds, p, pos);
    if pos > 0 { ApartFrom(ds, p, pos - 1); }
  }

  lemma ApartFrom(ds: seq<Range>, i: nat, j: nat)
    requires ListedOnce(ds) && i < |ds|
    ensures i != j < |ds| ==> Disjoint(ds[i], ds[j])
  {
    if i < j < |ds| { assert Disjoint(ds[i], ds[j]); }
    if j < i { assert Disjoint(ds[j], ds[i]); }
  }

  lemma GivenApart(ds: seq<Range>, pos: nat, addr: nat, size: nat, j: nat, k: nat)
    requires ListedOnce(ds) && pos <= |ds| && forall i :: 0 <= i < |ds| ==> Disjoint(ds[i], Range(addr, size))
    requires Absorbed(ds, pos, addr, size) == 0 && j < k < |Given(ds, pos, addr, size)|
    ensures Disjoint(Given(ds, pos, addr, size)[j], Given(ds, pos, addr, size)[k])
  {
    hide Given, Holder, ListedOnce;
    GivenEntry(ds, pos, addr, size, j);
    GivenEntry(ds, pos, addr, size, k);
    if j == HolderAt(ds, pos, addr) {
      HolderApart(ds, pos, addr, size, k);
    } else if k == HolderAt(ds, pos, addr) {
      HolderApart(ds, pos, addr, size, j);
    } else {
      ApartFrom(ds, Origin(ds, pos, addr, size, j), Origin(ds, pos, addr, size, k));
    }
  }

  /** The list stays canonical unless the absorbed tail stays behind. */
  lemma GivenCanonical(ds: seq<Range>, pos: nat, addr: nat, size: nat)
    requires Canonical(ds) && IsPlace(ds, pos, addr) && size > 0 && InUse(ds, addr, size)
    ensures Canonical(Given(ds, pos, addr, size)) <==> !AbsorbsTail(ds, pos, addr, size)
  {
    Between(ds, pos, addr, size);
    var after := Given(ds, pos, addr, size);
    if AbsorbsTail(ds, pos, addr, size) {
      assert after[pos - 1].End() == ds[pos].End() && after[pos] == ds[pos];
    } else {
      forall j | 0 <= j < |after| - 1 ensures after[j].End() < after[j + 1].start {
        GivenGap(ds, pos, addr, size, j);
      }
    }
  }

  /** For instance: the page between two single pages. Afterwards the last page is listed twice. */
  lemma AbsorbedTailStays()
    ensures var ds := [Range(0x1000, 0x1000), Range(0x3000, 0x1000)];
      && Canonical(ds) && Given(ds, 1, 0x2000, 0x1000) == [Range(0x1000, 0x3000), Range(0x3000, 0x1000)]
      && !Canonical(Given(ds, 1, 0x2000, 0x1000))
  {
    var ds := [Range(0x1000, 0x1000), Range(0x3000, 0x1000)];
    assert Given(ds, 1, 0x2000, 0x1000)[0].End() > Given(ds, 1, 0x2000, 0x1000)[1].start;
  }

  lemma GivenGap(ds: seq<Range>, pos: nat, addr: nat, size: nat, j: nat)
    requires Canonical(ds) && IsPlace(ds, pos, addr) && size > 0 && InUse(ds, addr, size)
    requires !AbsorbsTail(ds, pos, addr, size) && j + 1 < |Given(ds, pos, addr, size)|
    ensures Given(ds, pos, addr, size)[j].End() < Given(ds, pos, addr, size)[j + 1].start
  {
    Between(ds, pos, addr, size);
    hide Canonical, InUse, IsPlace;
    if JoinsLeft(ds, pos, addr) && JoinsRight(ds, pos, addr, size) {
      GapJoined(ds, pos, addr, size, j);
    } else if !JoinsLeft(ds, pos, addr) && !JoinsRight(ds, pos, addr, size) {
      GapNew(ds, pos, Range(addr, size), j);
    } else {
      Apart(ds, j, j + 1);
    }
  }

  lemma GapJoined(ds: seq<Range>, pos: nat, addr: nat, size: nat, j: nat)
    requires Canonical(ds) && JoinsLeft(ds, pos, addr) && JoinsRight(ds, pos, addr, size) && pos + 1 < |ds|
    requires j + 1 < |Given(ds, pos, addr, size)|
    ensures Given(ds, pos, addr, size)[j].End() < Given(ds, pos, addr, size)[j + 1].start
  {
    if j >= pos - 1 { Apart(ds, j + 1, j + 2); } else { Apart(ds, j, j + 1); }
  }

  lemma GapNew(ds: seq<Range>, pos: nat, r: Range, j: nat)
    requires Canonical(ds) && pos <= |ds| && j + 1 < |ds[..pos] + [r] + ds[pos..]|
    requires (pos > 0 ==> ds[pos - 1].End() < r.start) && (pos < |ds| ==> r.End() < ds[pos].start)
    ensures (ds[..pos] + [r] + ds[pos..])[j].End() < (ds[..pos] + [r] + ds[pos..])[j + 1].start
  {
    if j > pos { Apart(ds, j - 1, j); } else if j + 1 < pos { Apart(ds, j, j + 1); }
  }

  /** Freeing adds the size to the free bytes; an absorbed tail that stays linked is counted twice. */
  lemma GivenTotal(ds: seq<Range>, pos: nat, addr: nat, size: nat)
    requires pos <= |ds|
    ensures Total(Given(ds, pos, addr, size))
         == Total(ds) + size + Absorbed(ds, pos, addr, size)
  {
    hide Total;
    if JoinsLeft(ds, pos, addr) && JoinsRight(ds, pos, addr, size) {
      TotalBothSides(ds, pos, addr, size);
    } else if JoinsLeft(ds, pos, addr) {
      TotalReplaced(ds, pos - 1, Range(ds[pos - 1].start, ds[pos - 1].length + size));
    } else if JoinsRight(ds, pos, addr, size) {
      TotalReplaced(ds, pos, Range(addr, ds[pos].length + size));
    } else {
      TotalInserted(ds, pos, Range(addr, size));
    }
  }

  lemma TotalInserted(ds: seq<Range>, pos: nat, r: Range)
    requires pos <= |ds|
    ensures Total(ds[..pos] + [r] + ds[pos..]) == Total(ds) + r.length
  {
    TotalOne(r);
    hide Total;
    TotalSplit(ds[..pos] + [r], ds[pos..]);
    TotalSplit(ds[..pos], [r]);
    TotalSplit(ds[..pos], ds[pos..]);
    assert ds == ds[..pos] + ds[pos..];
  }

  lemma TotalOne(r: Range)
    ensures Total([r]) == r.length
  {
    assert [r][1..] == [];
  }

  lemma TotalReplaced(ds: seq<Range>, i: nat, r: Range)
    requires i < |ds|
    ensures Total(ds[i := r]) == Total(ds) - ds[i].length + r.length
  {
    TotalAt(ds, i);
    TotalAt(ds[i := r], i);
    assert ds[i := r][..i] == ds[..i] && ds[i := r][i + 1..] == ds[i + 1..];
  }

  lemma TotalBothSides(ds: seq<Range>, pos: nat, addr: nat, size: nat)
    requires JoinsLeft(ds, pos, addr) && JoinsRight(ds, pos, addr, size)
    ensures Total(Given(ds, pos, addr, size))
         == Total(ds) + size + Absorbed(ds, pos, addr, size)
  {
    var joined := Range(ds[pos - 1].start, ds[pos - 1].length + size + ds[pos].length);
    var wide := ds[pos - 1 := joined];
    TotalReplaced(ds, pos - 1, joined);
    if pos + 1 < |ds| {
      TotalAt(wide, pos);
      assert wide[..pos] == ds[..pos - 1] + [joined] && wide[pos + 1..] == ds[pos + 1..];
      TotalSplit(ds[..pos - 1] + [joined], ds[pos + 1..]);
    }
  }

  /** Giving back what was just taken restores the identical list, whichever entry served the request. */
  lemma TakeThenGive(ds: seq<Range>, i: nat, size: nat, pos: nat)
    requires Canonical(ds) && i < |ds| && 0 < size <= ds[i].length
    requires IsPlace(Taken(ds, i, size), pos, ds[i].start)
    ensures Given(Taken(ds, i, size), pos, ds[i].start, size) == ds
  {
    if i > 0 { Apart(ds, i - 1, i); }
    if i + 1 < |ds| { Apart(ds, i, i + 1); }
    PlaceOfTaken(ds, i, size, pos);
    hide Canonical, IsPlace;
    var after := Taken(ds, i, size);
    if |after| < |ds| { PutBack(ds, i); } else { assert Given(after, i, ds[i].start, size) == after[i := ds[i]]; }
  }

  /** An entry that was unlinked is linked again. */
  lemma PutBack(ds: seq<Range>, i: nat)
    requires i < |ds| && (i > 0 ==> ds[i - 1].End() < ds[i].start) && (i + 1 < |ds| ==> ds[i].End() < ds[i + 1].start)
    ensures Given(ds[..i] + ds[i + 1..], i, ds[i].start, ds[i].length) == ds
  {
    var after := ds[..i] + ds[i + 1..];
    assert after[..i] == ds[..i] && after[i..] == ds[i + 1..];
  }

  lemma PlaceOfTaken(ds: seq<Range>, i: nat, size: nat, pos: nat)
    requires Canonical(ds) && i < |ds| && 0 < size <= ds[i].length
    requires IsPlace(Taken(ds, i, size), pos, ds[i].start)
    ensures pos == i
  {
    var after := Taken(ds, i, size);
    forall j | 0 <= j < i ensures after[j].start <= ds[i].start { Apart(ds, j, i); }
    if i + 1 < |ds| { Apart(ds, i, i + 1); }
    assert IsPlace(after, i, ds[i].start);
  }

  /** xtAllocatePages and xtFreePages as steps of the list. */
  datatype Step = Take(i: nat, size: nat) | Give(pos: nat, addr: nat, size: nat)

  /** Any entry may serve a request, and any range in use may be freed. */
  ghost predicate StepOk(ds: seq<Range>, s: Step) {
    match s
    case Take(i, size) => i < |ds| && size <= ds[i].length
    case Give(pos, addr, size) => IsPlace(ds, pos, addr) && InUse(ds, addr, size)
  }

  ghost function After(ds: seq<Range>, s: Step): seq<Range>
    requires StepOk(ds, s)
  {
    match s
    case Take(i, size) => Taken(ds, i, size)
    case Give(pos, addr, size) => Given(ds, pos, addr, size)
  }

  ghost predicate Run(ds: seq<Range>, steps: seq<Step>)
    decreases |steps|
  {
    steps == [] || (StepOk(ds, steps[0]) && Run(After(ds, steps[0]), steps[1..]))
  }

  ghost function AfterRun(ds: seq<Range>, steps: seq<Step>): seq<Range>
    requires Run(ds, steps)
    decreases |steps|
  {
    if steps == [] then ds else AfterRun(After(ds, steps[0]), steps[1..])
  }

  ghost function HandedOut(steps: seq<Step>): int {
    if steps == [] then 0
    else HandedOut(steps[1..]) + match steps[0] case Take(_, size) => size as int case Give(_, _, size) => -(size as int)
  }

  function AbsorbedBy(ds: seq<Range>, s: Step): nat {
    match s
    case Take(_, _) => 0
    case Give(pos, addr, size) => Absorbed(ds, pos, addr, size)
  }

  /** The bytes of all tails absorbed in a run. */
  ghost function Duplicated(ds: seq<Range>, steps: seq<Step>): nat
    requires Run(ds, steps)
    decreases |steps|
  {
    if steps == [] then 0 else AbsorbedBy(ds, steps[0]) + Duplicated(After(ds, steps[0]), steps[1..])
  }

  /** Over every run, listed bytes plus bytes handed out grow by the absorbed tails, and by nothing else. If none has
      any bytes, no byte comes to be listed twice. */
  lemma {:induction false} RunConserves(ds: seq<Range>, steps: seq<Step>)
    requires Run(ds, steps)
    ensures Total(AfterRun(ds, steps)) + HandedOut(steps) == Total(ds) + Duplicated(ds, steps)
    ensures ListedOnce(ds) && Duplicated(ds, steps) == 0 ==> ListedOnce(AfterRun(ds, steps))
    decreases |steps|
  {
    hide Taken, Given, ListedOnce, InUse, IsPlace, Absorbed;
    if steps != [] {
      match steps[0] {
        case Take(i, size) =>
          TakenTotal(ds, i, size);
          if ListedOnce(ds) { TakenListedOnce(ds, i, size); }
        case Give(pos, addr, size) =>
          PlaceInside(ds, pos, addr);
          GivenTotal(ds, pos, addr, size);
          if ListedOnce(ds) { GivenListedOnce(ds, pos, addr, size); }
      }
      RunConserves(After(ds, steps[0]), steps[1..]);
    }
  }

  lemma PlaceInside(ds: seq<Range>, pos: nat, addr: nat)
    requires IsPlace(ds, pos, addr)
    ensures pos <= |ds|
  {}

  /** The number of free bytes and the bytes handed out stay the same over every run that absorbs no tail with bytes. */
  lemma FreeBytesConserved(ds: seq<Range>, steps: seq<Step>, before: set<nat>, after: set<nat>)
    requires Run(ds, steps) && ListedOnce(ds) && Duplicated(ds, steps) == 0
    requires forall a: nat :: a in before <==> IsFree(ds, a)
    requires forall a: nat :: a in after <==> IsFree(AfterRun(ds, steps), a)
    ensures |after| + HandedOut(steps) == |before|
  {
    RunConserves(ds, steps);
    TotalCounts(ds, before);
    TotalCounts(AfterRun(ds, steps), after);
  }

  /** Neither empties nor absorbs a tail that stays linked. */
  predicate KeepsTail(ds: seq<Range>, s: Step) {
    match s
    case Take(i, size) => i < |ds| && 0 < size && !(ds[i].length == size && StaysLinked(ds, i))
    case Give(pos, addr, size) => size > 0 && !AbsorbsTail(ds, pos, addr, size)
  }

  ghost predicate TailKept(ds: seq<Range>, steps: seq<Step>)
    requires Run(ds, steps)
    decreases |steps|
  {
    steps == [] || (KeepsTail(ds, steps[0]) && TailKept(After(ds, steps[0]), steps[1..]))
  }

  /** Over every run that never leaves a tail linked it should unlink, the list stays canonical. */
  lemma {:induction false} RunCanonical(ds: seq<Range>, steps: seq<Step>)
    requires Canonical(ds) && Run(ds, steps) && TailKept(ds, steps)
    ensures Canonical(AfterRun(ds, steps)) && Duplicated(ds, steps) == 0
    decreases |steps|
  {
    if steps != [] {
      match steps[0] {
        case Take(i, size) => TakenCanonical(ds, i, size);
        case Give(pos, addr, size) => GivenCanonical(ds, pos, addr, size);
      }
      RunCanonical(After(ds, steps[0]), steps[1..]);
    }
  }

  /** The two operations of the kernel on the list. */
  class FreeList {
    var descs: seq<Range>

    constructor (descs: seq<Range>)
      ensures this.descs == descs
    {
      this.descs := descs;
    }

    /** Entry i serves a request: lines 267 to 281 and 290 to 304. */
    method Serve(i: nat, size: nat) returns (out: nat)
      requires i < |descs| && size <= descs[i].length
      modifies this
      ensures out == old(descs)[i].start && descs == Taken(old(descs), i, size)
    {
      out := descs[i].start;
      descs := descs[i := Range(descs[i].start + size, descs[i].length - size)];
      if descs[i].length == 0 {
        if i > 0 {
          // xtSetNextList(prev, next) does nothing when next is NULL
          if i + 1 < |descs| { descs := descs[..i] + descs[i + 1..]; }
        } else {
          descs := descs[1..];
        }
      }
    }

    /** xtAllocatePages: the entry that starts at ptr if it is long enough, else the first one that is. */
    method AllocatePages(ptr: nat, requested: nat) returns (r: XTResult, out: nat, ghost i: nat)
      requires requested < TWO_64
      modifies this
      ensures r == XT_SUCCESS || r == XT_OUT_OF_MEMORY
      ensures r == XT_OUT_OF_MEMORY ==>
        descs == old(descs) && forall j :: 0 <= j < |descs| ==> descs[j].length < RoundSize(requested)
      ensures r == XT_SUCCESS ==> i < |old(descs)| && old(descs)[i].length >= RoundSize(requested)
      ensures r == XT_SUCCESS && old(descs)[i].start == ptr ==>
        forall j :: 0 <= j < i ==> old(descs)[j].start != ptr || old(descs)[j].length < RoundSize(requested)
      ensures r == XT_SUCCESS && old(descs)[i].start != ptr ==>
        && (forall j :: 0 <= j < |old(descs)| ==> old(descs)[j].start != ptr || old(descs)[j].length < RoundSize(requested))
        && (forall j :: 0 <= j < i ==> old(descs)[j].length < RoundSize(requested))
      ensures r == XT_SUCCESS ==> out == old(descs)[i].start && descs == Taken(old(descs), i, RoundSize(requested))
      ensures r == XT_SUCCESS && old(ListedOnce(descs)) ==>
        ListedOnce(descs) && forall a: nat :: IsFree(descs, a) <==>
          IsFree(old(descs), a) && !(out <= a < out + RoundSize(requested))
    {
      hide ListedOnce, Taken, RoundSize, IsFree;
      var size := RoundSize(requested);
      var k := 0;
      while k < |descs|
        invariant k <= |descs| && NoneServes(descs, ptr, size, k)
      {
        if descs[k].start == ptr && descs[k].length >= size {
          if ListedOnce(descs) { TakenFreeAll(descs, k, size); }
          out := Serve(k, size);
          return XT_SUCCESS, out, k;
        }
        k := k + 1;
      }
      k := 0;
      while k < |descs|
        invariant k <= |descs| && forall j :: 0 <= j < k ==> descs[j].length < size
      {
        if descs[k].length >= size {
          if ListedOnce(descs) { TakenFreeAll(descs, k, size); }
          out := Serve(k, size);
          return XT_SUCCESS, out, k;
        }
        k := k + 1;
      }
      return XT_OUT_OF_MEMORY, 0, k;
    }

    /** Lines 317 to 324: the first entry above the freed address. */
    method FindPlace(addr: nat) returns (curr: nat)
      ensures IsPlace(descs, curr, addr)
    {
      curr := 0;
      while curr < |descs|
        invariant curr <= |descs| && forall j :: 0 <= j < curr ==> descs[j].start <= addr
      {
        if descs[curr].start > addr { break; }
        curr := curr + 1;
      }
    }

    /** xtFreePages. The node for a new entry is taken to be available. */
    method FreePages(addr: nat, size: nat) returns (r: XTResult, ghost pos: nat)
      requires addr + size <= TWO_64
      modifies this
      ensures r == XT_SUCCESS && IsPlace(old(descs), pos, addr) && descs == Given(old(descs), pos, addr, size)
      ensures forall a: nat :: IsFree(descs, a) <==> IsFree(old(descs), a) || addr <= a < addr + size
    {
      hide IsFree;
      r := XT_SUCCESS;
      var curr := FindPlace(addr);
      pos := curr;
      forall a: nat { GivenFree(descs, pos, addr, size, a); }
      if curr > 0 && descs[curr - 1].start + descs[curr - 1].length == addr {
        descs := descs[curr - 1 := Range(descs[curr - 1].start, descs[curr - 1].length + size)];
        if curr < |descs| && descs[curr - 1].End() == descs[curr].start {
          descs := descs[curr - 1 := Range(descs[curr - 1].start, descs[curr - 1].length + descs[curr].length)];
          // xtSetNextList(prev, nextAfterCurr) does nothing when nextAfterCurr is NULL
          if curr + 1 < |descs| { descs := descs[..curr] + descs[curr + 1..]; }
        }
        return;
      }
      if curr < |descs| && addr + size == descs[curr].start {
        descs := descs[curr := Range(addr, descs[curr].length + size)];
        return;
      }
      descs := descs[..curr] + [Range(addr, size)] + descs[curr..];
    }

    /** Allocating and freeing the same number of bytes restores the list exactly if there are any and the size was
        not rounded up; if it was, one page is missing from the free set. */
    method AllocateThenFree(ptr: nat, size: nat) returns (r: XTResult, out: nat)
      requires Canonical(descs) && size < TWO_64 - 0x1000
      requires forall j :: 0 <= j < |descs| ==> descs[j].End() <= TWO_64
      modifies this
      ensures r == XT_SUCCESS || r == XT_OUT_OF_MEMORY
      ensures r == XT_OUT_OF_MEMORY ==> descs == old(descs)
      ensures r == XT_SUCCESS ==> (descs == old(descs) <==> size > 0 && size / 0x1000 % 2 == 0)
      ensures r == XT_SUCCESS && size / 0x1000 % 2 == 1 ==> forall a: nat ::
        IsFree(descs, a) <==> IsFree(old(descs), a) && !(out + size <= a < out + size + 0x1000)
      ensures r == XT_SUCCESS && size / 0x1000 % 2 == 1 ==> Total(descs) == Total(old(descs)) - 0x1000
    {
      hide Canonical, Taken, Given, IsFree, RoundSize, Total, IsPlace;
      RoundSizeIs(size);
      ghost var i, pos;
      r, out, i := AllocatePages(ptr, size);
      if r == XT_SUCCESS {
        FitsBelow(old(descs), i, size);
        r, pos := FreePages(out, size);
        if size == 0 {
          TakeThenGiveNothing(old(descs), i, pos);
        } else if size / 0x1000 % 2 == 0 {
          TakeThenGive(old(descs), i, size, pos);
        } else {
          TakeMoreThanGive(old(descs), i, size, size + 0x1000, pos);
        }
      }
    }
  }

  lemma FitsBelow(ds: seq<Range>, i: nat, size: nat)
    requires i < |ds| && RoundSize(size) <= ds[i].length && size <= RoundSize(size)
    ensures ds[i].start + size <= ds[i].End()
  {}

  /** Giving back nothing adds an empty entry. */
  lemma TakeThenGiveNothing(ds: seq<Range>, i: nat, pos: nat)
    requires Canonical(ds) && i < |ds| && IsPlace(Taken(ds, i, 0), pos, ds[i].start)
    ensures Given(Taken(ds, i, 0), pos, ds[i].start, 0) != ds
  {
    var after := Taken(ds, i, 0);
    assert after == ds;
    forall j | 0 <= j < i ensures ds[j].End() < ds[i].start { Apart(ds, j, i); }
    forall j | i < j < |ds| ensures ds[i].End() < ds[j].start { Apart(ds, i, j); }
    assert IsPlace(ds, pos, ds[i].start);
    assert i + 1 < |ds| ==> ds[i + 1].start > ds[i].start;
    assert pos == i + 1;
    assert |Given(after, pos, ds[i].start, 0)| == |ds| + 1;
  }

  /** Giving back less than was taken leaves the rest missing. */
  lemma TakeMoreThanGive(ds: seq<Range>, i: nat, size: nat, taken: nat, pos: nat)
    requires Canonical(ds) && i < |ds| && 0 < size < taken <= ds[i].length
    requires IsPlace(Taken(ds, i, taken), pos, ds[i].start)
    ensures var given := Given(Taken(ds, i, taken), pos, ds[i].start, size);
      && given != ds && Total(given) == Total(ds) - (taken - size)
      && forall a: nat :: IsFree(given, a) <==> IsFree(ds, a) && !(ds[i].start + size <= a < ds[i].start + taken)
  {
    var after, start := Taken(ds, i, taken), ds[i].start;
    PlaceOfTaken(ds, i, taken, pos);
    NoNeighbour(ds, i, size, taken);
    CanonicalListedOnce(ds);
    hide Canonical, ListedOnce, IsPlace, Taken;
    TakenTotal(ds, i, taken);
    GivenTotal(after, pos, start, size);
    forall a: nat
      ensures IsFree(Given(after, pos, start, size), a) <==> IsFree(ds, a) && !(start + size <= a < start + taken)
    {
      TakenFree(ds, i, taken, a);
      InsertedFree(after, pos, Range(start, size), a);
      WasFree(ds, i, taken, a);
    }
  }

  lemma NoNeighbour(ds: seq<Range>, i: nat, size: nat, taken: nat)
    requires Canonical(ds) && i < |ds| && 0 < size < taken <= ds[i].length
    ensures i <= |Taken(ds, i, taken)|
    ensures !JoinsLeft(Taken(ds, i, taken), i, ds[i].start) && !JoinsRight(Taken(ds, i, taken), i, ds[i].start, size)
  {
    if i > 0 { Apart(ds, i - 1, i); }
    if i + 1 < |ds| { Apart(ds, i, i + 1); }
  }

  lemma InsertedFree(ds: seq<Range>, pos: nat, r: Range, a: nat)
    requires pos <= |ds|
    ensures IsFree(ds[..pos] + [r] + ds[pos..], a) <==> IsFree(ds, a) || r.Covers(a)
  {
    var after := ds[..pos] + [r] + ds[pos..];
    if IsFree(after, a) && !r.Covers(a) {
      var j :| 0 <= j < |after| && after[j].Covers(a);
      assert ds[if j < pos then j else j - 1].Covers(a);
    }
    if IsFree(ds, a) {
      var j :| 0 <= j < |ds| && ds[j].Covers(a);
      assert after[if j < pos then j else j + 1].Covers(a);
    }
    if r.Covers(a) { assert after[pos].Covers(a); }
  }

  lemma WasFree(ds: seq<Range>, i: nat, taken: nat, a: nat)
    requires i < |ds| && taken <= ds[i].length
    ensures ds[i].start <= a < ds[i].start + taken ==> IsFree(ds, a)
  {
    if ds[i].start <= a < ds[i].start + taken { assert ds[i].Covers(a); }
  }

  ghost predicate NoneServes(ds: seq<Range>, ptr: nat, size: nat, n: nat)
    requires n <= |ds|
  {
    forall j :: 0 <= j < n ==> ds[j].start != ptr || ds[j].length < size
  }
}
