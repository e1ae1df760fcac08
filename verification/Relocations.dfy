/** Base relocation of a PE image in memory: ApplyRelocations of xtkernel/linker.c. */
module Relocations {
  import opened Bits
  import opened Bytes
  import opened Results

  function Word16(s: seq<Byte>, at: nat): nat
    requires at + 2 <= |s|
  {
    s[at] as int + 256 * (s[at + 1] as int)
  }

  // ----- The relocation table -----

  /** From p on, blocks with room for their header and entries follow each other up to a zero address. */
  ghost predicate TableOk(s: seq<Byte>, p: nat)
    decreases |s| - p
  {
    p + 4 <= |s| &&
    (Word32(s, p) == 0 ||
     (p + 8 <= |s| && 8 <= Word32(s, p + 4) <= |s| - p && TableOk(s, p + Word32(s, p + 4))))
  }

  ghost function TableEnd(s: seq<Byte>, p: nat): (end: nat)
    requires TableOk(s, p)
    ensures p + 4 <= end <= |s|
    decreases |s| - p
  {
    if Word32(s, p) == 0 then p + 4 else TableEnd(s, p + Word32(s, p + 4))
  }

  /** The slots of one block, from its i-th entry on: only entries of type 10 name one. */
  ghost function BlockSlots(s: seq<Byte>, p: nat, i: nat, count: nat): seq<nat>
    requires i <= count && p + 8 + 2 * count <= |s|
    decreases count - i
  {
    if i == count then []
    else
      var entry := Word16(s, p + 8 + 2 * i);
      (if entry / 4096 == 10 then [Word32(s, p) + entry % 4096] else []) + BlockSlots(s, p, i + 1, count)
  }

  ghost function Slots(s: seq<Byte>, p: nat): seq<nat>
    requires TableOk(s, p)
    decreases |s| - p
  {
    if Word32(s, p) == 0 then []
    else BlockSlots(s, p, 0, (Word32(s, p + 4) - 8) / 2) + Slots(s, p + Word32(s, p + 4))
  }

  // ----- Patching slots -----

  function AddAt(s: seq<Byte>, a: nat, delta: nat): (t: seq<Byte>)
    requires a + 8 <= |s|
    ensures |t| == |s|
  {
    Splice(s, a, Le64((Word64(s, a) + delta) % TWO_64))
  }

  predicate Inside(slots: seq<nat>, n: nat) {
    forall k :: 0 <= k < |slots| ==> slots[k] + 8 <= n
  }

  ghost function ApplySlots(s: seq<Byte>, slots: seq<nat>, delta: nat): (t: seq<Byte>)
    requires Inside(slots, |s|)
    ensures |t| == |s|
    decreases |slots|
  {
    if slots == [] then s else ApplySlots(AddAt(s, slots[0], delta), slots[1..], delta)
  }

  predicate Covers(a: nat, j: nat) { a <= j < a + 8 }

  predicate Covered(slots: seq<nat>, j: nat) {
    exists k :: 0 <= k < |slots| && Covers(slots[k], j)
  }

  predicate Disjoint(slots: seq<nat>) {
    forall j, k :: 0 <= j < k < |slots| ==> slots[j] + 8 <= slots[k] || slots[k] + 8 <= slots[j]
  }

  /** t is s with delta added modulo 2^64 to every listed slot, and with nothing else changed. */
  ghost predicate Shifted(s: seq<Byte>, t: seq<Byte>, slots: seq<nat>, delta: nat) {
    && |t| == |s| && Inside(slots, |s|)
    && (forall k :: 0 <= k < |slots| ==> Word64(t, slots[k]) == (Word64(s, slots[k]) + delta) % TWO_64)
    && (forall j :: 0 <= j < |s| && !Covered(slots, j) ==> t[j] == s[j])
  }

  lemma AddAtIs(s: seq<Byte>, a: nat, delta: nat)
    requires a + 8 <= |s|
    ensures Word64(AddAt(s, a, delta), a) == (Word64(s, a) + delta) % TWO_64
    ensures forall j :: 0 <= j < |s| && !Covers(a, j) ==> AddAt(s, a, delta)[j] == s[j]
    ensures forall b: nat {:trigger Word64(AddAt(s, a, delta), b)} :: b + 8 <= |s| && (b + 8 <= a || a + 8 <= b) ==>
              Word64(AddAt(s, a, delta), b) == Word64(s, b)
  {
    hide Word64, Le64, Splice;
    var w := (Word64(s, a) + delta) % TWO_64;
    Word64RoundTrip(s, a, w);
    forall b: nat | b + 8 <= |s| && (b + 8 <= a || a + 8 <= b) ensures Word64(AddAt(s, a, delta), b) == Word64(s, b) {
      Word64Elsewhere(s, a, Le64(w), b);
    }
  }

  /** Patching disjoint slots one after the other shifts exactly these slots. */
  lemma {:induction false} ApplyShifts(s: seq<Byte>, slots: seq<nat>, delta: nat)
    requires Inside(slots, |s|) && Disjoint(slots)
    ensures Shifted(s, ApplySlots(s, slots, delta), slots, delta)
    decreases |slots|
  {
    hide Word64, AddAt;
    if slots != [] {
      var a, rest := slots[0], slots[1..];
      var s' := AddAt(s, a, delta);
      AddAtIs(s, a, delta);
      ApplyShifts(s', rest, delta);
      var t := ApplySlots(s', rest, delta);
      assert forall j :: 0 <= j < |s| && Covered(rest, j) ==> Covered(slots, j) by { CoveredRest(slots); }
      assert Word64(t, a) == Word64(s', a) by {
        assert forall j :: a <= j < a + 8 ==> !Covered(rest, j) by {
          assert forall k :: 0 <= k < |rest| ==> rest[k] == slots[k + 1];
        }
        assert t[a..a + 8] == s'[a..a + 8];
        Word64Bytes(t, s', a);
      }
      forall k | 0 <= k < |slots| ensures Word64(t, slots[k]) == (Word64(s, slots[k]) + delta) % TWO_64 {
        if k > 0 { assert slots[k] == rest[k - 1]; }
      }
      assert forall j :: Covers(a, j) ==> Covered(slots, j);
    }
  }

  lemma CoveredRest(slots: seq<nat>)
    requires slots != []
    ensures forall j :: Covered(slots[1..], j) ==> Covered(slots, j)
  {
    forall j | Covered(slots[1..], j) ensures Covered(slots, j) {
      var k :| 0 <= k < |slots[1..]| && Covers(slots[1..][k], j);
      assert slots[k + 1] == slots[1..][k];
    }
  }

  ghost predicate SameSlots(x: seq<nat>, y: seq<nat>) {
    forall a: nat :: a in x <==> a in y
  }

  lemma CoveredAlike(x: seq<nat>, y: seq<nat>, j: nat)
    requires SameSlots(x, y) && Covered(y, j)
    ensures Covered(x, j)
  {
    var k :| 0 <= k < |y| && Covers(y[k], j);
    assert y[k] in x;
    var i :| 0 <= i < |x| && x[i] == y[k];
    assert Covers(x[i], j);
  }

  /** The shifted image is determined by the set of slots. */
  lemma ShiftedUnique(s: seq<Byte>, t: seq<Byte>, u: seq<Byte>, x: seq<nat>, y: seq<nat>, delta: nat)
    requires Shifted(s, t, x, delta) && Shifted(s, u, y, delta) && SameSlots(x, y)
    ensures t == u
  {
    hide Word64;
    forall j | 0 <= j < |s| ensures t[j] == u[j] {
      if Covered(x, j) {
        var k :| 0 <= k < |x| && Covers(x[k], j);
        var a := x[k];
        assert a in y;
        Word64Bytes(t, u, a);
        assert t[a..a + 8][j - a] == u[a..a + 8][j - a];
      } else if Covered(y, j) {
        CoveredAlike(x, y, j);
      }
    }
  }

  /** The order of the entries is immaterial. */
  lemma OrderIsImmaterial(s: seq<Byte>, x: seq<nat>, y: seq<nat>, delta: nat)
    requires Inside(x, |s|) && Disjoint(x) && Inside(y, |s|) && Disjoint(y) && SameSlots(x, y)
    ensures ApplySlots(s, x, delta) == ApplySlots(s, y, delta)
  {
    hide *;
    ApplyShifts(s, x, delta);
    ApplyShifts(s, y, delta);
    ShiftedUnique(s, ApplySlots(s, x, delta), ApplySlots(s, y, delta), x, y, delta);
  }

  /** Disjointness matters: a slot that is listed twice is shifted twice. */
  lemma ListedTwice(s: seq<Byte>, a: nat, delta: nat)
    requires a + 8 <= |s|
    ensures Word64(ApplySlots(s, [a, a], delta), a) == (Word64(s, a) + 2 * delta) % TWO_64
  {
    hide Word64, AddAt, ApplySlots;
    var t := AddAt(s, a, delta);
    AddAtIs(s, a, delta);
    AddAtIs(t, a, delta);
    assert [a, a] == [a] + [a] && [a] == [a] + [];
    ApplyFirst(s, a, [a], delta);
    ApplyFirst(t, a, [], delta);
    ApplyNone(AddAt(t, a, delta), delta);
    AddedTwice(Word64(s, a), delta);
  }

  lemma ApplyNone(s: seq<Byte>, delta: nat)
    ensures ApplySlots(s, [], delta) == s
  {}

  lemma AddedTwice(w: nat, delta: nat)
    ensures ((w + delta) % TWO_64 + delta) % TWO_64 == (w + 2 * delta) % TWO_64
  {}

  lemma ApplyFirst(s: seq<Byte>, a: nat, rest: seq<nat>, delta: nat)
    requires a + 8 <= |s| && Inside(rest, |s|)
    ensures Inside([a] + rest, |s|)
    ensures ApplySlots(s, [a] + rest, delta) == ApplySlots(AddAt(s, a, delta), rest, delta)
  {
    hide AddAt;
    assert ([a] + rest)[1..] == rest;
  }

  lemma ShiftedTwice(s: seq<Byte>, t: seq<Byte>, u: seq<Byte>, slots: seq<nat>, d1: nat, d2: nat)
    requires Shifted(s, t, slots, d1) && Shifted(t, u, slots, d2)
    ensures Shifted(s, u, slots, (d1 + d2) % TWO_64)
  {
    hide Word64;
    forall k | 0 <= k < |slots| ensures Word64(u, slots[k]) == (Word64(s, slots[k]) + (d1 + d2) % TWO_64) % TWO_64 {
      ModSum(Word64(s, slots[k]), d1, d2);
    }
  }

  lemma ModSum(w: nat, d1: nat, d2: nat)
    ensures ((w + d1) % TWO_64 + d2) % TWO_64 == (w + (d1 + d2) % TWO_64) % TWO_64
  {}

  // ----- Whole images -----

  /** Where the header says the table starts: data directory 5 of the optional header that e_lfanew leads to. */
  function DirectoryAt(s: seq<Byte>): nat
    requires 64 <= |s|
  {
    Word32(s, 60) + 176
  }

  /** The bytes of IMAGE_DOS_HEADER before e_lfanew, field by field. */
  const DOS_FIELDS: nat := 14 * 2 + 4 * 2 + 2 * 2 + 10 * 2

  /** The bytes of IMAGE_NT_HEADERS64 before data directory 5: the signature, the file header, the optional header up to
      the directories, and five of them. */
  const NT_FIELDS: nat := 4 + (2 + 2 + 4 + 4 + 4 + 2 + 2)
    + (2 + 1 + 1 + 5 * 4 + 8 + 2 * 4 + 6 * 2 + 4 * 4 + 2 * 2 + 4 * 8 + 2 * 4) + 5 * 8

  lemma DirectoryOffset(s: seq<Byte>)
    requires 64 <= |s|
    ensures DOS_FIELDS == 60 && DirectoryAt(s) == Word32(s, DOS_FIELDS) + NT_FIELDS
  {
    hide Word32;
  }

  predicate HeaderOk(s: seq<Byte>) {
    64 <= |s| && Word32(s, 60) < 0x8000_0000 && DirectoryAt(s) + 4 <= |s|
  }

  function RelocAddr(s: seq<Byte>): nat
    requires HeaderOk(s)
  {
    Word32(s, DirectoryAt(s))
  }

  predicate Avoids(slots: seq<nat>, from: nat, to: nat) {
    forall k :: 0 <= k < |slots| ==> slots[k] + 8 <= from || to <= slots[k]
  }

  /** What the code takes for granted: the table lies in the image, and so do the slots, outside the table. */
  ghost predicate Loadable(s: seq<Byte>) {
    HeaderOk(s) &&
    (RelocAddr(s) == 0 ||
     (TableOk(s, RelocAddr(s)) && Inside(Slots(s, RelocAddr(s)), |s|) &&
      Avoids(Slots(s, RelocAddr(s)), RelocAddr(s), TableEnd(s, RelocAddr(s)))))
  }

  ghost function SlotsOf(s: seq<Byte>): (slots: seq<nat>)
    requires Loadable(s)
    ensures Inside(slots, |s|)
  {
    if RelocAddr(s) == 0 then [] else Slots(s, RelocAddr(s))
  }

  /** The relocated image. */
  ghost function Relocated(s: seq<Byte>, delta: nat): (t: seq<Byte>)
    requires Loadable(s)
    ensures |t| == |s|
  {
    ApplySlots(s, SlotsOf(s), delta)
  }

  /** An image as a linker makes it: slots do not overlap and are no part of the header fields read here. */
  ghost predicate WellFormed(s: seq<Byte>) {
    && Loadable(s) && Disjoint(SlotsOf(s))
    && Avoids(SlotsOf(s), 60, 64) && Avoids(SlotsOf(s), DirectoryAt(s), DirectoryAt(s) + 4)
  }

  function Delta(to: nat, from: nat): nat { (to - from) % TWO_64 }

  ghost predicate SameBytes(s: seq<Byte>, t: seq<Byte>, from: nat, to: nat) {
    |s| == |t| && to <= |s| && forall j :: from <= j < to ==> s[j] == t[j]
  }

  lemma SameWord(s: seq<Byte>, t: seq<Byte>, from: nat, to: nat, at: nat)
    requires SameBytes(s, t, from, to) && from <= at && at + 4 <= to
    ensures Word32(s, at) == Word32(t, at)
  {}

  lemma {:induction false} SameBlock(s: seq<Byte>, t: seq<Byte>, p: nat, i: nat, count: nat)
    requires i <= count && p + 8 + 2 * count <= |s| && SameBytes(s, t, p, p + 8 + 2 * count)
    ensures BlockSlots(s, p, i, count) == BlockSlots(t, p, i, count)
    decreases count - i
  {
    if i < count {
      SameBlock(s, t, p, i + 1, count);
      assert s[p + 8 + 2 * i] == t[p + 8 + 2 * i] && s[p + 8 + 2 * i + 1] == t[p + 8 + 2 * i + 1];
      assert Word16(s, p + 8 + 2 * i) == Word16(t, p + 8 + 2 * i);
      assert Word32(s, p) == Word32(t, p) by { SameWord(s, t, p, p + 8 + 2 * count, p); }
      hide Word16, Word32, SameBytes;
    }
  }

  lemma {:induction false} SameTable(s: seq<Byte>, t: seq<Byte>, p: nat)
    requires TableOk(s, p) && SameBytes(s, t, p, TableEnd(s, p))
    ensures TableOk(t, p) && TableEnd(t, p) == TableEnd(s, p) && Slots(t, p) == Slots(s, p)
    decreases |s| - p
  {
    hide BlockSlots;
    if Word32(s, p) != 0 {
      SameTable(s, t, p + Word32(s, p + 4));
      SameBlock(s, t, p, 0, (Word32(s, p + 4) - 8) / 2);
    }
  }

  lemma AvoidedKept(s: seq<Byte>, t: seq<Byte>, slots: seq<nat>, delta: nat, from: nat, to: nat)
    requires Shifted(s, t, slots, delta) && Avoids(slots, from, to) && to <= |s|
    ensures SameBytes(s, t, from, to)
  {
    hide Word64;
    forall j | from <= j < to ensures !Covered(slots, j) {}
  }

  /** Relocating a well-formed image shifts its slots, changes nothing else, and keeps the table in force. */
  lemma RelocatedImage(s: seq<Byte>, delta: nat)
    requires WellFormed(s)
    ensures Shifted(s, Relocated(s, delta), SlotsOf(s), delta)
    ensures WellFormed(Relocated(s, delta)) && SlotsOf(Relocated(s, delta)) == SlotsOf(s)
  {
    hide Word64, Word32, Slots, TableOk, TableEnd, ApplySlots;
    var t, slots := Relocated(s, delta), SlotsOf(s);
    ApplyShifts(s, slots, delta);
    AvoidedKept(s, t, slots, delta, 60, 64);
    AvoidedKept(s, t, slots, delta, DirectoryAt(s), DirectoryAt(s) + 4);
    assert s[60..64] == t[60..64];
    Word32Bytes(s, t, 60);
    assert s[DirectoryAt(s)..DirectoryAt(s) + 4] == t[DirectoryAt(s)..DirectoryAt(s) + 4];
    Word32Bytes(s, t, DirectoryAt(s));
    if RelocAddr(s) != 0 {
      AvoidedKept(s, t, slots, delta, RelocAddr(s), TableEnd(s, RelocAddr(s)));
      SameTable(s, t, RelocAddr(s));
    }
  }

  /** Moving an image from base P to A and then from A to B is moving it from P to B. */
  lemma MoveComposes(s: seq<Byte>, p: nat, a: nat, b: nat)
    requires WellFormed(s)
    ensures Loadable(Relocated(s, Delta(a, p)))
    ensures Relocated(Relocated(s, Delta(a, p)), Delta(b, a)) == Relocated(s, Delta(b, p))
  {
    hide *;
    WellFormedLoads(s);
    var t := Relocated(s, Delta(a, p));
    RelocatedImage(s, Delta(a, p));
    WellFormedLoads(t);
    RelocatedImage(t, Delta(b, a));
    RelocatedImage(s, Delta(b, p));
    DeltaSum(p, a, b);
    ShiftedTwice(s, t, Relocated(t, Delta(b, a)), SlotsOf(s), Delta(a, p), Delta(b, a));
    SameSlotsRefl(SlotsOf(s));
    ShiftedUnique(s, Relocated(t, Delta(b, a)), Relocated(s, Delta(b, p)), SlotsOf(s), SlotsOf(s), Delta(b, p));
  }

  lemma WellFormedLoads(s: seq<Byte>)
    requires WellFormed(s)
    ensures Loadable(s)
  {}

  lemma DeltaSum(p: nat, a: nat, b: nat)
    ensures (Delta(a, p) + Delta(b, a)) % TWO_64 == Delta(b, p) && Delta(p, p) == 0
  {}

  lemma SameSlotsRefl(x: seq<nat>)
    ensures SameSlots(x, x)
  {}

  /** Moving back restores the image byte for byte. */
  lemma MoveBack(s: seq<Byte>, p: nat, a: nat)
    requires WellFormed(s)
    ensures Loadable(Relocated(s, Delta(a, p))) && Relocated(Relocated(s, Delta(a, p)), Delta(p, a)) == s
  {
    MoveComposes(s, p, a, p);
    RelocatedImage(s, 0);
    DeltaSum(p, p, p);
    hide *;
    SameSlotsRefl(SlotsOf(s));
    NotShifted(s, SlotsOf(s));
    ShiftedUnique(s, s, Relocated(s, 0), SlotsOf(s), SlotsOf(s), 0);
  }

  lemma NotShifted(s: seq<Byte>, slots: seq<nat>)
    requires Inside(slots, |s|)
    ensures Shifted(s, s, slots, 0)
  {
    hide Word64;
    forall k | 0 <= k < |slots| ensures Word64(s, slots[k]) < TWO_64 { Word64Bytes(s, s, slots[k]); }
  }

  // ----- The code -----

  /** `*patch += delta` */
  method Patch(image: array<Byte>, a: nat, delta: nat)
    requires a + 8 <= image.Length
    modifies image
    ensures image[..] == AddAt(old(image[..]), a, delta)
  {
    hide Word64, Le64, Splice;
    Write(image, a, Le64((Word64(image[..], a) + delta) % TWO_64));
  }

  lemma {:induction false} ApplyConcat(s: seq<Byte>, x: seq<nat>, y: seq<nat>, delta: nat)
    requires Inside(x + y, |s|)
    ensures Inside(x, |s|) && Inside(y, |s|)
    ensures ApplySlots(s, x + y, delta) == ApplySlots(ApplySlots(s, x, delta), y, delta)
    decreases |x|
  {
    hide AddAt;
    assert forall k :: 0 <= k < |x| ==> x[k] == (x + y)[k];
    assert forall k :: 0 <= k < |y| ==> y[k] == (x + y)[|x| + k];
    if x == [] {
      assert x + y == y;
    } else {
      assert (x + y)[1..] == x[1..] + y;
      ApplyConcat(AddAt(s, x[0], delta), x[1..], y, delta);
    }
  }

  /** Slots that the image has room for, clear of a stretch of the table. */
  ghost predicate Clear(slots: seq<nat>, n: nat, from: nat, to: nat) {
    Inside(slots, n) && Avoids(slots, from, to)
  }

  /** One entry of a block: its slot, if it names one, comes before those of the entries that follow. */
  lemma NextEntry(s: seq<Byte>, p: nat, i: nat, count: nat, n: nat, to: nat)
    requires i < count && p + 8 + 2 * count <= |s| && Clear(BlockSlots(s, p, i, count), n, p, to)
    ensures Clear(BlockSlots(s, p, i + 1, count), n, p, to)
    ensures var entry, slots, rest := Word16(s, p + 8 + 2 * i), BlockSlots(s, p, i, count), BlockSlots(s, p, i + 1, count);
      if entry / 4096 == 10 then slots == [Word32(s, p) + entry % 4096] + rest else slots == rest
  {
    hide Word16, Word32;
    var slots, rest := BlockSlots(s, p, i, count), BlockSlots(s, p, i + 1, count);
    if Word16(s, p + 8 + 2 * i) / 4096 == 10 {
      assert forall k :: 0 <= k < |rest| ==> rest[k] == slots[k + 1];
    } else {
      assert slots == [] + rest == rest;
    }
  }

  lemma NoMoreSlots(s: seq<Byte>, t: seq<Byte>, p: nat, count: nat, delta: nat)
    requires p + 8 + 2 * count <= |s|
    ensures BlockSlots(s, p, count, count) == [] && ApplySlots(t, [], delta) == t
  {}

  lemma PatchFirst(s: seq<Byte>, t: seq<Byte>, a: nat, rest: seq<nat>, delta: nat, from: nat, to: nat)
    requires Clear([a] + rest, |s|, from, to) && SameBytes(s, t, from, to)
    ensures a + 8 <= |s| && Inside(rest, |s|)
    ensures SameBytes(s, AddAt(t, a, delta), from, to)
    ensures ApplySlots(AddAt(t, a, delta), rest, delta) == ApplySlots(t, [a] + rest, delta)
  {
    hide AddAt;
    var slots := [a] + rest;
    assert slots[0] == a && slots[1..] == rest;
    assert forall k :: 0 <= k < |rest| ==> rest[k] == slots[k + 1];
    AddAtIs(t, a, delta);
  }

  lemma SameEntry(s: seq<Byte>, t: seq<Byte>, from: nat, to: nat, at: nat)
    requires SameBytes(s, t, from, to) && from <= at && at + 2 <= to
    ensures Word16(s, at) == Word16(t, at)
  {}

  lemma EntryFields(entry: nat)
    ensures Shr(entry, 12) == entry / 4096 && And(entry, 0xfff) == entry % 4096
  {
    assert Pow2(12) == 4096 by { Powers(); }
    hide *;
    DivideBy(entry, 12, 4096);
    AndLow(entry, 12);
  }

  /** The entries of one block. */
  method ApplyBlock(image: array<Byte>, reloc: nat, delta: nat, ghost s: seq<Byte>, ghost end: nat)
    requires reloc + 8 <= end <= |s| == image.Length && SameBytes(s, image[..], reloc, end)
    requires 8 <= Word32(s, reloc + 4) <= end - reloc
    requires Clear(BlockSlots(s, reloc, 0, (Word32(s, reloc + 4) - 8) / 2), image.Length, reloc, end)
    modifies image
    ensures SameBytes(s, image[..], reloc, end)
    ensures image[..] == ApplySlots(old(image[..]), BlockSlots(s, reloc, 0, (Word32(s, reloc + 4) - 8) / 2), delta)
  {
    hide Word32, Word16, AddAt, SameBytes, Shr, And, BlockSlots, ApplySlots, Inside, Avoids;
    SameWord(s, image[..], reloc, end, reloc);
    SameWord(s, image[..], reloc, end, reloc + 4);
    var virtualAddress := Word32(image[..], reloc);
    var count := (Word32(image[..], reloc + 4) - 8) / 2;
    var i := 0;
    while i < count
      invariant 0 <= i <= count && SameBytes(s, image[..], reloc, end)
      invariant Clear(BlockSlots(s, reloc, i, count), image.Length, reloc, end)
      invariant ApplySlots(image[..], BlockSlots(s, reloc, i, count), delta)
             == ApplySlots(old(image[..]), BlockSlots(s, reloc, 0, count), delta)
    {
      NextEntry(s, reloc, i, count, image.Length, end);
      SameEntry(s, image[..], reloc, end, reloc + 8 + 2 * i);
      var entry := Word16(image[..], reloc + 8 + 2 * i);
      EntryFields(entry);
      var kind := Shr(entry, 12);
      var offset := And(entry, 0xfff);
      if kind == 10 {
        PatchFirst(s, image[..], virtualAddress + offset, BlockSlots(s, reloc, i + 1, count), delta, reloc, end);
        Patch(image, virtualAddress + offset, delta);
      }
      i := i + 1;
    }
    NoMoreSlots(s, image[..], reloc, count, delta);
  }

  lemma ClearConcat(x: seq<nat>, y: seq<nat>, n: nat, from: nat, next: nat, to: nat)
    requires Clear(x + y, n, from, to) && from <= next
    ensures Clear(x, n, from, to) && Clear(y, n, next, to)
  {
    assert forall k :: 0 <= k < |x| ==> x[k] == (x + y)[k];
    assert forall k :: 0 <= k < |y| ==> y[k] == (x + y)[|x| + k];
  }

  /** One block: its slots come before those of the blocks that follow. */
  lemma NextBlock(s: seq<Byte>, t: seq<Byte>, p: nat, n: nat, delta: nat)
    requires TableOk(s, p) && Word32(s, p) != 0 && Clear(Slots(s, p), n, p, TableEnd(s, p)) && |t| == n
    ensures p + 8 <= |s| && 8 <= Word32(s, p + 4) <= TableEnd(s, p) - p
    ensures var next, slots := p + Word32(s, p + 4), BlockSlots(s, p, 0, (Word32(s, p + 4) - 8) / 2);
      && TableOk(s, next) && TableEnd(s, next) == TableEnd(s, p) && Slots(s, p) == slots + Slots(s, next)
      && Clear(slots, n, p, TableEnd(s, p)) && Clear(Slots(s, next), n, next, TableEnd(s, p))
      && ApplySlots(t, Slots(s, p), delta) == ApplySlots(ApplySlots(t, slots, delta), Slots(s, next), delta)
  {
    hide Word32, BlockSlots, Avoids, Inside, ApplySlots;
    var next, slots := p + Word32(s, p + 4), BlockSlots(s, p, 0, (Word32(s, p + 4) - 8) / 2);
    ClearConcat(slots, Slots(s, next), n, p, next, TableEnd(s, p));
    ApplyConcat(t, slots, Slots(s, next), delta);
  }

  lemma NoMoreBlocks(s: seq<Byte>, t: seq<Byte>, p: nat, delta: nat)
    requires TableOk(s, p) && Word32(s, p) == 0
    ensures Slots(s, p) == [] && ApplySlots(t, [], delta) == t
  {}

  lemma TableFits(s: seq<Byte>, p: nat)
    requires TableOk(s, p)
    ensures p + 4 <= TableEnd(s, p) <= |s|
  {}

  /** ApplyRelocations: the image becomes the relocated image. */
  method ApplyRelocations(image: array<Byte>, virtualImage: nat, preferredBase: nat) returns (r: XTResult)
    requires Loadable(image[..])
    modifies image
    ensures r == XT_SUCCESS && image[..] == Relocated(old(image[..]), Delta(virtualImage, preferredBase))
    ensures Disjoint(SlotsOf(old(image[..]))) ==> Moved(old(image[..]), image[..], virtualImage - preferredBase)
  {
    hide Word32, TableOk, TableEnd, Slots, BlockSlots, ApplySlots, Inside, Avoids, Delta, SameBytes, Moved;
    ghost var s := image[..];
    if Disjoint(SlotsOf(s)) { RelocatedMoves(s, virtualImage, preferredBase); }
    var relocAddr := RelocAddr(image[..]);
    if relocAddr == 0 {
      NothingListed(s, Delta(virtualImage, preferredBase));
      return XT_SUCCESS;
    }
    var reloc := relocAddr;
    var delta := Delta(virtualImage, preferredBase);
    ghost var end := TableEnd(s, reloc);
    SameBytesRefl(s, reloc, end);
    TableFits(s, reloc);
    while Word32(image[..], reloc) != 0
      invariant TableOk(s, reloc) && TableEnd(s, reloc) == end && reloc + 4 <= end && SameBytes(s, image[..], reloc, end)
      invariant Clear(Slots(s, reloc), |s|, reloc, end)
      invariant ApplySlots(image[..], Slots(s, reloc), delta) == Relocated(s, delta)
      decreases |s| - reloc
    {
      SameWord(s, image[..], reloc, end, reloc);
      NextBlock(s, image[..], reloc, |s|, delta);
      ApplyBlock(image, reloc, delta, s, end);
      SameWord(s, image[..], reloc, end, reloc + 4);
      SameLater(s, image[..], reloc, reloc + Word32(s, reloc + 4), end);
      reloc := reloc + Word32(image[..], reloc + 4);
      TableFits(s, reloc);
    }
    SameWord(s, image[..], reloc, end, reloc);
    NoMoreBlocks(s, image[..], reloc, delta);
    return XT_SUCCESS;
  }

  /** Every listed slot holds its old word plus the distance, modulo 2^64, and every other byte is the same. */
  ghost predicate Moved(s: seq<Byte>, t: seq<Byte>, distance: int)
    requires Loadable(s)
  {
    && |t| == |s|
    && (forall a :: a in SlotsOf(s) ==> a + 8 <= |s| && Word64(t, a) == (Word64(s, a) + distance) % 0x1_0000_0000_0000_0000)
    && (forall j :: 0 <= j < |s| && (forall a :: a in SlotsOf(s) ==> !Covers(a, j)) ==> t[j] == s[j])
  }

  lemma RelocatedMoves(s: seq<Byte>, to: nat, from: nat)
    requires Loadable(s) && Disjoint(SlotsOf(s))
    ensures Moved(s, Relocated(s, Delta(to, from)), to - from)
  {
    hide Word64, ApplySlots, Loadable, Disjoint;
    var slots, t := SlotsOf(s), Relocated(s, Delta(to, from));
    ApplyShifts(s, slots, Delta(to, from));
    forall a | a in slots ensures a + 8 <= |s| && Word64(t, a) == (Word64(s, a) + (to - from)) % TWO_64 {
      var k :| 0 <= k < |slots| && slots[k] == a;
      AddDistance(Word64(s, a), to - from);
    }
    forall j | 0 <= j < |s| && (forall a :: a in slots ==> !Covers(a, j)) ensures t[j] == s[j] {
      assert forall k :: 0 <= k < |slots| ==> slots[k] in slots;
    }
  }

  lemma AddDistance(w: nat, d: int)
    ensures (w + d % TWO_64) % TWO_64 == (w + d) % TWO_64
  {}

  // ----- A small image -----

  /** Two blocks at 248 and 260, whose entries 0xA008 and 0xA010 name the slots at 296 and 304. The word at 296 is
      0x1_4000_1000, an address in an image made for 0x1_4000_0000. */
  function Sample(): (s: seq<Byte>)
    ensures |s| == 312 && forall i :: 0 <= i < 312 ==> s[i] == SampleByte(i)
  {
    seq(312, i requires 0 <= i < 312 => SampleByte(i))
  }

  function SampleByte(i: nat): Byte {
    match i
    case 60 => 64
    case 240 => 248
    case 248 => 0x20 case 249 => 1 case 252 => 12 case 256 => 0x08 case 257 => 0xA0
    case 260 => 0x20 case 261 => 1 case 264 => 12 case 269 => 0x30 case 270 => 0x10 case 271 => 0xA0
    case 297 => 0x10 case 299 => 0x40 case 300 => 1
    case _ => 0
  }

  lemma SampleHeader()
    ensures HeaderOk(Sample()) && RelocAddr(Sample()) == 248
  {
    hide Sample;
  }

  lemma SampleBlock1()
    ensures var s := Sample(); Word32(s, 248) == 288 && Word32(s, 252) == 12
    ensures var s := Sample(); Word16(s, 256) == 0xA008 && Word16(s, 258) == 0
  {
    hide Sample;
  }

  lemma SampleBlock2()
    ensures var s := Sample(); Word32(s, 260) == 288 && Word32(s, 264) == 12 && Word32(s, 272) == 0
    ensures var s := Sample(); Word16(s, 268) == 0x3000 && Word16(s, 270) == 0xA010
  {
    hide Sample;
  }

  lemma SampleTable()
    ensures TableOk(Sample(), 248) && Slots(Sample(), 248) == [296, 304] && TableEnd(Sample(), 248) == 276
  {
    var s := Sample();
    SampleBlock1();
    SampleBlock2();
    hide Sample, Word32, Word16;
    assert TableOk(s, 272) && Slots(s, 272) == [] && TableEnd(s, 272) == 276;
    assert BlockSlots(s, 260, 2, 2) == [] && BlockSlots(s, 248, 2, 2) == [];
    assert BlockSlots(s, 260, 1, 2) == [304] && BlockSlots(s, 248, 1, 2) == [];
    assert BlockSlots(s, 260, 0, 2) == [304] && BlockSlots(s, 248, 0, 2) == [296];
    hide BlockSlots;
    assert TableOk(s, 260) && Slots(s, 260) == [304] && TableEnd(s, 260) == 276;
  }

  lemma SampleLoads()
    ensures Loadable(Sample()) && SlotsOf(Sample()) == [296, 304]
  {
    SampleHeader();
    SampleTable();
    hide Sample, HeaderOk, RelocAddr, TableOk, Slots, TableEnd;
  }

  lemma SampleAddress()
    ensures Word64(Sample(), 296) == 0x1_4000_1000
  {
    hide Sample;
  }

  /** Loaded at 0x7ff0_0000_0000, the address points into the image there. */
  lemma SampleMoved()
    ensures Loadable(Sample()) && SlotsOf(Sample()) == [296, 304]
    ensures Word64(Relocated(Sample(), Delta(0x7ff0_0000_0000, 0x1_4000_0000)), 296) == 0x7ff0_0000_1000
  {
    SampleLoads();
    SampleAddress();
    hide Sample, Word64, SlotsOf, Loadable, Relocated, Delta;
    assert 296 in SlotsOf(Sample());
    RelocatedMoves(Sample(), 0x7ff0_0000_0000, 0x1_4000_0000);
  }

  lemma NothingListed(s: seq<Byte>, delta: nat)
    requires Loadable(s) && RelocAddr(s) == 0
    ensures Relocated(s, delta) == s
  {}

  lemma SameBytesRefl(s: seq<Byte>, from: nat, to: nat)
    requires to <= |s|
    ensures SameBytes(s, s, from, to)
  {}

  lemma SameLater(s: seq<Byte>, t: seq<Byte>, from: nat, next: nat, to: nat)
    requires SameBytes(s, t, from, to) && from <= next
    ensures SameBytes(s, t, next, to)
  {}
}
