/** The four-level handle table of xtkernel/process.c. */
module Handles {
  import opened Bits
  import opened Results

  const NULL: nat := 0
  const TWO_36: nat := 0x10_0000_0000
  const NO_HANDLE: nat := TWO_64 - 1

  type Table = t: seq<nat> | |t| == 512 witness seq(512, _ => 0)
  type Memory = map<nat, Table>

  // ----- Handles -----

  /** Handles below one entry of a table of the given level. */
  function Span(level: nat): (s: nat)
    ensures s > 0
  {
    if level == 0 then 1 else if level == 1 then 0x200 else if level == 2 then 0x4_0000
    else if level == 3 then 0x800_0000 else TWO_36
  }

  /** The leading index fields of a handle, down to the given level; bits from 36 up are not looked at. */
  function Slot(h: nat, level: nat): nat {
    h % TWO_36 / Span(level)
  }

  lemma SlotStep(h: nat, level: nat)
    requires level < 4
    ensures Slot(h, level) / 512 == Slot(h, level + 1)
    ensures Slot(h, level) == Slot(h, level + 1) * 512 + Slot(h, level) % 512
    ensures Slot(h, 4) == 0
  {}

  /** `(handle >> (i * HANDLE_LEVEL_BITS)) & HANDLE_LEVEL_MASK` */
  function Index(h: nat, level: nat): nat {
    And(Shr(h, 9 * level), 0x1ff)
  }

  lemma IndexIs(h: nat, level: nat)
    requires level < 4
    ensures Index(h, level) == Slot(h, level) % 512
  {
    assert Pow2(9 * level) == Span(level) && Pow2(9) == 512 by { Powers(); Pow2Add(9, 9); Pow2Add(18, 9); }
    hide And, Shr, Low, Pow2, Slot, Span;
    var q := h / Span(level);
    DivideBy(h, 9 * level, Span(level));
    AndLow(q, 9);
    DivideBy(q, 9, 512);
    LowSlot(h, level);
  }

  lemma LowSlot(h: nat, level: nat)
    requires level < 4
    ensures h / Span(level) % 512 == Slot(h, level) % 512
  {
    var m := if level == 3 then 1 else if level == 2 then 512 else if level == 1 then 0x4_0000 else 0x800_0000;
    assert Span(level) * (512 * m) == TWO_36;
    WrapIndex(h, Span(level), m);
  }

  /** sign_ext: `(value ^ m) - m` with m the sign bit, in 64 bits. */
  function SignExt(value: nat, bits: nat): nat
    requires value < TWO_64 && 0 < bits <= 64
  {
    (Xor(value, Pow2(bits - 1)) + TWO_64 - Pow2(bits - 1) % TWO_64) % TWO_64
  }

  /** The test in front of every handle operation. */
  predicate Accepted(h: nat)
    requires h < TWO_64
  {
    h == SignExt(h, 35)
  }

  lemma XorBit(x: nat, k: nat)
    ensures Xor(x, Pow2(k)) == if Shr(x, k) % 2 == 0 then x + Pow2(k) else x - Pow2(k)
  {
    hide Xor, Shr, Low, Pow2;
    Unique(1, 0, k);
    XorSplit(x, Pow2(k), k);
    Divide(x, k);
    XorOne(Shr(x, k));
    AndZero(Low(x, k));
    var s := Shr(x, k);
    if s % 2 == 0 {
      Distribute(Pow2(k), s, 1);
    } else {
      Distribute(Pow2(k), s, -1);
    }
  }

  lemma Distribute(p: int, a: int, b: int)
    ensures p * (a + b) == p * a + p * b
  {}

  lemma XorOne(x: nat)
    ensures Xor(x, 1) == if x % 2 == 0 then x + 1 else x - 1
  {
    AndZero(x / 2);
  }

  /** The test looks at bit 34 only: it accepts exactly the handles with that bit clear. */
  lemma AcceptedIs(h: nat)
    requires h < TWO_64
    ensures Accepted(h) <==> h / 0x4_0000_0000 % 2 == 0
  {
    assert Pow2(34) == 0x4_0000_0000 by { Powers(); Pow2Add(30, 4); }
    hide Xor, Shr, Low, Pow2;
    XorBit(h, 34);
    DivideBy(h, 34, 0x4_0000_0000);
  }

  /** So all handles below 2^34 are accepted, and 2^36 is too, although it names the same entry as 0. */
  lemma AliasedHandle()
    ensures Accepted(0) && Accepted(TWO_36) && forall level :: level < 4 ==> Slot(TWO_36, level) == Slot(0, level)
  {
    hide Accepted;
    AcceptedIs(0);
    AcceptedIs(TWO_36);
  }

  // ----- The table as a tree -----

  /** A table's place: its level (3 is the root, 0 holds descriptors) and the leading index fields it stands for. */
  datatype Place = Place(level: nat, slot: nat) {
    function Child(i: nat): Place
      requires level > 0
    {
      Place(level - 1, slot * 512 + i)
    }

    function Parent(): Place { Place(level + 1, slot / 512) }
  }

  type Directory = map<Place, nat>

  /** Following a handle down from a table. */
  function Find(mem: Memory, table: nat, level: nat, h: nat): nat
    decreases level
  {
    if table !in mem then NULL
    else
      var e := mem[table][Slot(h, level) % 512];
      if level == 0 then e else Find(mem, e, level - 1, h)
  }

  ghost predicate EntryOk(e: nat, place: Place, i: nat, dir: Directory) {
    place.level > 0 ==> if e == NULL then place.Child(i) !in dir else place.Child(i) in dir && dir[place.Child(i)] == e
  }

  ghost predicate Places(root: nat, dir: Directory) {
    && (if root == NULL then dir == map[] else Place(3, 0) in dir && dir[Place(3, 0)] == root)
    && (forall p :: p in dir ==> p.level <= 3 && (p.level == 3 ==> p.slot == 0) && dir[p] != NULL)
    && (forall p :: p in dir && p.level < 3 ==> p.Parent() in dir)
    && (forall p, q :: p in dir && q in dir && dir[p] == dir[q] ==> p == q)
  }

  /** Every table has one place and every place one table; NULL is no table. */
  ghost predicate Tree(root: nat, mem: Memory, dir: Directory) {
    && Places(root, dir) && NULL !in mem
    && (forall p :: p in dir ==> dir[p] in mem)
    && (forall p, i :: p in dir && 0 <= i < 512 ==> EntryOk(mem[dir[p]][i], p, i, dir))
  }

  lemma {:induction false} Reach(root: nat, mem: Memory, dir: Directory, h: nat, level: nat)
    requires Tree(root, mem, dir) && level <= 3 && Place(level, Slot(h, level + 1)) in dir
    ensures Find(mem, root, 3, h) == Find(mem, dir[Place(level, Slot(h, level + 1))], level, h)
    decreases 3 - level
  {
    SlotStep(h, 3);
    if level < 3 {
      var here := Place(level, Slot(h, level + 1));
      SlotStep(h, level + 1);
      Reach(root, mem, dir, h, level + 1);
      assert here.Parent().Child(Slot(h, level + 1) % 512) == here;
      assert EntryOk(mem[dir[here.Parent()]][Slot(h, level + 1) % 512], here.Parent(), Slot(h, level + 1) % 512, dir);
    }
  }

  function SetEntry(mem: Memory, table: nat, i: nat, e: nat): Memory
    requires table in mem && i < 512
  {
    mem[table := mem[table][i := e]]
  }

  /** A handle whose path avoids the changed entry finds what it found before. */
  lemma {:induction false} Frame(root: nat, mem: Memory, dir: Directory, place: Place, i: nat, e: nat, h: nat, level: nat)
    requires Tree(root, mem, dir) && place in dir && i < 512
    requires level <= 3 && Place(level, Slot(h, level + 1)) in dir && Slot(h, place.level) != place.slot * 512 + i
    ensures Find(SetEntry(mem, dir[place], i, e), dir[Place(level, Slot(h, level + 1))], level, h)
         == Find(mem, dir[Place(level, Slot(h, level + 1))], level, h)
    decreases level
  {
    hide Slot;
    var here := Place(level, Slot(h, level + 1));
    var j := Slot(h, level) % 512;
    SlotStep(h, level);
    assert EntryOk(mem[dir[here]][j], here, j, dir);
    assert !(here == place && j == i);
    if level > 0 {
      assert here.Child(j) == Place(level - 1, Slot(h, level));
      if mem[dir[here]][j] != NULL { Frame(root, mem, dir, place, i, e, h, level - 1); }
    }
  }

  lemma FrameRoot(root: nat, mem: Memory, dir: Directory, place: Place, i: nat, e: nat)
    requires Tree(root, mem, dir) && place in dir && i < 512 && root != NULL
    ensures forall h: nat :: Slot(h, place.level) != place.slot * 512 + i ==>
      Find(SetEntry(mem, dir[place], i, e), root, 3, h) == Find(mem, root, 3, h)
  {
    forall h: nat | Slot(h, place.level) != place.slot * 512 + i
      ensures Find(SetEntry(mem, dir[place], i, e), root, 3, h) == Find(mem, root, 3, h)
    {
      SlotStep(h, 3);
      Frame(root, mem, dir, place, i, e, h, 3);
    }
  }

  /** Storing a descriptor in a leaf binds exactly the handles with these 36 bits. */
  lemma StoreLeaf(root: nat, mem: Memory, dir: Directory, place: Place, i: nat, e: nat)
    requires Tree(root, mem, dir) && place in dir && place.level == 0 && i < 512
    ensures Tree(root, SetEntry(mem, dir[place], i, e), dir)
    ensures forall h: nat :: Find(SetEntry(mem, dir[place], i, e), root, 3, h) ==
              (if h % TWO_36 == place.slot * 512 + i then e else Find(mem, root, 3, h))
  {
    var mem' := SetEntry(mem, dir[place], i, e);
    assert Tree(root, mem', dir) by { StoreLeafTree(root, mem, dir, place, i, e); }
    FrameRoot(root, mem, dir, place, i, e);
    hide Slot, Tree;
    forall h: nat ensures Find(mem', root, 3, h) == if h % TWO_36 == place.slot * 512 + i then e else Find(mem, root, 3, h) {
      SlotZero(h);
      SlotStep(h, 0);
      if h % TWO_36 == place.slot * 512 + i { Reach(root, mem', dir, h, 0); }
    }
  }

  lemma StoreLeafTree(root: nat, mem: Memory, dir: Directory, place: Place, i: nat, e: nat)
    requires Tree(root, mem, dir) && place in dir && place.level == 0 && i < 512
    ensures Tree(root, SetEntry(mem, dir[place], i, e), dir)
  {
    forall p, j | p in dir && 0 <= j < 512 ensures EntryOk(SetEntry(mem, dir[place], i, e)[dir[p]][j], p, j, dir) {
      assert EntryOk(mem[dir[p]][j], p, j, dir);
    }
  }

  lemma SlotZero(h: nat)
    ensures Slot(h, 0) == h % TWO_36
  {}

  predicate Zeroed(t: Table) {
    forall i :: 0 <= i < 512 ==> t[i] == NULL
  }

  ghost predicate CanLink(root: nat, mem: Memory, dir: Directory, place: Place, i: nat, f: nat) {
    && Tree(root, mem, dir) && place in dir && place.level > 0 && i < 512 && mem[dir[place]][i] == NULL
    && f in mem && Zeroed(mem[f]) && f !in dir.Values
  }

  lemma LinkPlaces(root: nat, mem: Memory, dir: Directory, place: Place, i: nat, f: nat)
    requires CanLink(root, mem, dir, place, i, f)
    ensures place.Child(i) !in dir && Places(root, dir[place.Child(i) := f])
  {
    assert EntryOk(mem[dir[place]][i], place, i, dir);
    assert place.Child(i).Parent() == place;
    assert forall p :: p in dir ==> dir[p] in dir.Values;
  }

  lemma LinkEntry(root: nat, mem: Memory, dir: Directory, place: Place, i: nat, f: nat, p: Place, j: nat)
    requires CanLink(root, mem, dir, place, i, f) && p in dir[place.Child(i) := f] && j < 512
    ensures EntryOk(SetEntry(mem, dir[place], i, f)[dir[place.Child(i) := f][p]][j], p, j, dir[place.Child(i) := f])
  {
    var c := place.Child(i);
    LinkPlaces(root, mem, dir, place, i, f);
    assert c.Parent() == place && dir[place] in dir.Values;
    if p.level > 0 { assert p.Child(j).Parent() == p; }
    if p != c { assert EntryOk(mem[dir[p]][j], p, j, dir); }
  }

  lemma LinkTree(root: nat, mem: Memory, dir: Directory, place: Place, i: nat, f: nat)
    requires CanLink(root, mem, dir, place, i, f)
    ensures Tree(root, SetEntry(mem, dir[place], i, f), dir[place.Child(i) := f])
  {
    var mem', dir' := SetEntry(mem, dir[place], i, f), dir[place.Child(i) := f];
    LinkPlaces(root, mem, dir, place, i, f);
    hide Places, EntryOk;
    forall p, j | p in dir' && 0 <= j < 512 ensures EntryOk(mem'[dir'[p]][j], p, j, dir') {
      LinkEntry(root, mem, dir, place, i, f, p, j);
    }
  }

  /** Linking an empty table binds nothing. */
  lemma LinkTable(root: nat, mem: Memory, dir: Directory, place: Place, i: nat, f: nat)
    requires CanLink(root, mem, dir, place, i, f)
    ensures Tree(root, SetEntry(mem, dir[place], i, f), dir[place.Child(i) := f])
    ensures forall h: nat :: Find(SetEntry(mem, dir[place], i, f), root, 3, h) == Find(mem, root, 3, h)
  {
    LinkTree(root, mem, dir, place, i, f);
    FrameRoot(root, mem, dir, place, i, f);
    var mem', dir' := SetEntry(mem, dir[place], i, f), dir[place.Child(i) := f];
    forall h: nat ensures Find(mem', root, 3, h) == Find(mem, root, 3, h) {
      if Slot(h, place.level) == place.slot * 512 + i { LinkFind(root, mem, dir, place, i, f, h); }
    }
  }

  lemma LinkFind(root: nat, mem: Memory, dir: Directory, place: Place, i: nat, f: nat, h: nat)
    requires CanLink(root, mem, dir, place, i, f) && Slot(h, place.level) == place.slot * 512 + i
    requires Tree(root, SetEntry(mem, dir[place], i, f), dir[place.Child(i) := f])
    ensures Find(SetEntry(mem, dir[place], i, f), root, 3, h) == Find(mem, root, 3, h)
  {
    hide Slot, EntryOk;
    SlotStep(h, place.level);
    hide Places;
    var mem' := SetEntry(mem, dir[place], i, f);
    assert Find(mem, root, 3, h) == NULL by { Reach(root, mem, dir, h, place.level); }
    assert mem'[f] == mem[f] by { assert dir[place] in dir.Values; }
    assert Find(mem', f, place.level - 1, h) == NULL by { EmptyFinds(mem', f, place.level - 1, h); }
    hide Find;
    Reach(root, mem', dir[place.Child(i) := f], h, place.level - 1);
  }

  lemma EmptyFinds(mem: Memory, table: nat, level: nat, h: nat)
    requires NULL !in mem && (table in mem ==> Zeroed(mem[table]))
    ensures Find(mem, table, level, h) == NULL
  {
    if table in mem {
      assert mem[table][Slot(h, level) % 512] == NULL;
    }
  }

  lemma FirstTable(mem: Memory, f: nat)
    requires NULL !in mem && f != NULL && f in mem && Zeroed(mem[f])
    ensures Tree(f, mem, map[Place(3, 0) := f])
    ensures forall h: nat :: Find(mem, f, 3, h) == NULL == Find(mem, NULL, 3, h)
  {
    forall h: nat ensures Find(mem, f, 3, h) == NULL { EmptyFinds(mem, f, 3, h); }
  }

  // ----- Searching for a free handle -----

  /** find_free_recursive; `depth` counts from the root, `prefix << n` is a product, and an address with no
      table is treated as NULL, which in a tree is the only one. */
  function FreeIn(mem: Memory, table: nat, depth: nat, prefix: nat): nat
    requires depth < 4
    decreases 4 - depth, 513
  {
    if table !in mem then prefix * Span(4 - depth)
    else if depth == 3 then
      var i := FirstNull(mem[table], 0);
      if i < 512 then prefix * 512 + i else NO_HANDLE
    else FreeFrom(mem, table, depth, prefix, 0)
  }

  /** Its loop over the entries of an inner table, from entry i on. */
  function FreeFrom(mem: Memory, table: nat, depth: nat, prefix: nat, i: nat): nat
    requires depth < 3 && table in mem && i <= 512
    decreases 4 - depth, 512 - i
  {
    if i == 512 then NO_HANDLE
    else if mem[table][i] == NULL then (prefix * 512 + i) * Span(3 - depth)
    else
      var r := FreeIn(mem, mem[table][i], depth + 1, prefix * 512 + i);
      if r != 0 then r else FreeFrom(mem, table, depth, prefix, i + 1)
  }

  function FirstNull(t: Table, i: nat): (j: nat)
    requires i <= 512
    ensures i <= j <= 512 && (j < 512 ==> t[j] == NULL) && forall k :: i <= k < j ==> t[k] != NULL
    decreases 512 - i
  {
    if i == 512 || t[i] == NULL then i else FirstNull(t, i + 1)
  }

  /** r lies in the range of handles that start with this prefix. */
  predicate HasPrefix(r: nat, depth: nat, prefix: nat)
    requires depth <= 4
  {
    r < TWO_36 && r / Span(4 - depth) == prefix
  }

  lemma PrefixStart(depth: nat, prefix: nat)
    requires depth <= 4 && prefix < TWO_36 / Span(4 - depth)
    ensures HasPrefix(prefix * Span(4 - depth), depth, prefix)
  {
    var span := Span(4 - depth);
    DivModUnique(span * prefix, span, prefix, 0);
    if depth == 0 {
    } else if depth == 1 {
      assert prefix < 512;
    } else if depth == 2 {
      assert prefix < 0x4_0000;
    } else if depth == 3 {
      assert prefix < 0x800_0000;
    }
  }

  lemma PrefixStep(r: nat, depth: nat, prefix: nat, i: nat)
    requires depth < 4 && i < 512 && HasPrefix(r, depth + 1, prefix * 512 + i)
    ensures HasPrefix(r, depth, prefix) && Slot(r, 3 - depth) % 512 == i
  {
    SlotStep(r, 3 - depth);
    assert r % TWO_36 == r;
  }

  lemma PrefixRoom(depth: nat, prefix: nat, i: nat)
    requires depth < 4 && i < 512 && prefix < TWO_36 / Span(4 - depth)
    ensures prefix * 512 + i < TWO_36 / Span(3 - depth)
  {}

  /** Any handle the search returns lies under its prefix and is unbound. */
  lemma {:induction false} FreeIsUnbound(mem: Memory, table: nat, depth: nat, prefix: nat)
    requires depth < 4 && NULL !in mem && prefix < TWO_36 / Span(4 - depth)
    requires FreeIn(mem, table, depth, prefix) != NO_HANDLE
    ensures var r := FreeIn(mem, table, depth, prefix);
      HasPrefix(r, depth, prefix) && Find(mem, table, 3 - depth, r) == NULL
    decreases 4 - depth, 513
  {
    hide Slot, Span, HasPrefix;
    if table !in mem {
      PrefixStart(depth, prefix);
    } else if depth == 3 {
      var i := FirstNull(mem[table], 0);
      LeafHandle(prefix, i);
    } else {
      FreeFromIsUnbound(mem, table, depth, prefix, 0);
    }
  }

  lemma LeafHandle(prefix: nat, i: nat)
    requires prefix < TWO_36 / Span(1) && i < 512
    ensures HasPrefix(prefix * 512 + i, 3, prefix) && Slot(prefix * 512 + i, 0) % 512 == i
  {}

  lemma {:induction false} FreeFromIsUnbound(mem: Memory, table: nat, depth: nat, prefix: nat, i: nat)
    requires depth < 3 && table in mem && i <= 512 && NULL !in mem && prefix < TWO_36 / Span(4 - depth)
    requires FreeFrom(mem, table, depth, prefix, i) != NO_HANDLE
    ensures var r := FreeFrom(mem, table, depth, prefix, i);
      HasPrefix(r, depth, prefix) && Find(mem, table, 3 - depth, r) == NULL
    decreases 4 - depth, 512 - i
  {
    hide Slot, Span, HasPrefix;
    if i < 512 {
      var e, r := mem[table][i], FreeFrom(mem, table, depth, prefix, i);
      PrefixRoom(depth, prefix, i);
      if e == NULL {
        PrefixStart(depth + 1, prefix * 512 + i);
        PrefixStep(r, depth, prefix, i);
      } else if FreeIn(mem, e, depth + 1, prefix * 512 + i) != 0 {
        FreeIsUnbound(mem, e, depth + 1, prefix * 512 + i);
        PrefixStep(r, depth, prefix, i);
      } else {
        FreeFromIsUnbound(mem, table, depth, prefix, i + 1);
      }
    }
  }

  /** The entry 0 of each table leads on, down to a leaf without a NULL. */
  predicate FullDown(mem: Memory, table: nat, depth: nat)
    requires depth < 4
    decreases 4 - depth
  {
    table in mem &&
    if depth == 3 then FirstNull(mem[table], 0) == 512
    else mem[table][0] != NULL && FullDown(mem, mem[table][0], depth + 1)
  }

  /** The search answers 0 here, which the table above takes for no answer. */
  predicate AnswersZero(mem: Memory, table: nat) {
    table !in mem || mem[table][0] == NULL
  }

  /** When the search fails: entry 0 leads down to a full leaf or, where handle 0 itself is free, entry 1 does. */
  predicate GivesUp(mem: Memory, table: nat, depth: nat)
    requires depth < 4
    decreases 4 - depth
  {
    table in mem &&
    if depth == 3 then FirstNull(mem[table], 0) == 512
    else
      mem[table][0] != NULL &&
      if AnswersZero(mem, mem[table][0]) then mem[table][1] != NULL && FullDown(mem, mem[table][1], depth + 1)
      else GivesUp(mem, mem[table][0], depth + 1)
  }

  lemma SpanBound(depth: nat, prefix: nat)
    requires depth <= 4 && prefix < TWO_36 / Span(4 - depth)
    ensures prefix * Span(4 - depth) < TWO_36 && (prefix > 0 ==> prefix * Span(4 - depth) > 0)
  {
    PrefixStart(depth, prefix);
  }

  lemma RoomForNone(depth: nat)
    requires depth <= 4
    ensures 0 < TWO_36 / Span(4 - depth)
  {}

  /** Under a prefix other than 0 no answer is 0, so entry 0 decides. */
  lemma {:induction false} FailsUnder(mem: Memory, table: nat, depth: nat, prefix: nat)
    requires depth < 4 && 0 < prefix < TWO_36 / Span(4 - depth)
    ensures FreeIn(mem, table, depth, prefix) != 0
    ensures FreeIn(mem, table, depth, prefix) == NO_HANDLE <==> FullDown(mem, table, depth)
    decreases 4 - depth
  {
    hide Span;
    SpanBound(depth, prefix);
    if table in mem && depth < 3 {
      PrefixRoom(depth, prefix, 0);
      SpanBound(depth + 1, prefix * 512);
      if mem[table][0] != NULL { FailsUnder(mem, mem[table][0], depth + 1, prefix * 512); }
      assert FreeIn(mem, table, depth, prefix) == FreeFrom(mem, table, depth, prefix, 0);
    }
  }

  /** The search from the root fails exactly then. */
  lemma {:induction false} FailsIff(mem: Memory, table: nat, depth: nat)
    requires depth < 4
    ensures FreeIn(mem, table, depth, 0) == NO_HANDLE <==> GivesUp(mem, table, depth)
    ensures FreeIn(mem, table, depth, 0) == 0 <==> AnswersZero(mem, table)
    decreases 4 - depth
  {
    hide Span;
    if table in mem && depth < 3 {
      RoomForNone(depth);
      PrefixRoom(depth, 0, 1);
      SpanBound(depth + 1, 1);
      assert FreeIn(mem, table, depth, 0) == FreeFrom(mem, table, depth, 0, 0);
      var e0, e1 := mem[table][0], mem[table][1];
      if e0 != NULL {
        FailsIff(mem, e0, depth + 1);
        if AnswersZero(mem, e0) {
          assert FreeFrom(mem, table, depth, 0, 0) == FreeFrom(mem, table, depth, 0, 1);
          if e1 != NULL { FailsUnder(mem, e1, depth + 1, 1); }
        }
      }
    }
  }

  /** An offered handle lies in the first two of the root's 512 ranges, so the handle test accepts it. */
  lemma OfferedIsAccepted(mem: Memory, root: nat)
    requires NULL !in mem && FreeIn(mem, root, 0, 0) != NO_HANDLE
    ensures FreeIn(mem, root, 0, 0) < 0x1000_0000 && Accepted(FreeIn(mem, root, 0, 0))
  {
    hide Accepted;
    var r := FreeIn(mem, root, 0, 0);
    if root in mem {
      var e0, e1 := mem[root][0], mem[root][1];
      assert r == FreeFrom(mem, root, 0, 0, 0);
      if e0 != NULL {
        if FreeIn(mem, e0, 1, 0) != 0 {
          FreeIsUnbound(mem, e0, 1, 0);
        } else {
          assert r == FreeFrom(mem, root, 0, 0, 1);
          if e1 != NULL { FreeIsUnbound(mem, e1, 1, 1); }
        }
      }
    }
    AcceptedIs(r);
  }

  // ----- Which handle is offered -----

  lemma PrefixBetween(g: nat, r: nat, depth: nat, prefix: nat)
    requires depth <= 4 && HasPrefix(r, depth, prefix) && prefix * Span(4 - depth) <= g <= r
    ensures HasPrefix(g, depth, prefix)
  {
    var span := Span(4 - depth);
    assert r == span * prefix + r % span;
    DivModUnique(g, span, prefix, g - span * prefix);
  }

  lemma FindBelow(mem: Memory, table: nat, depth: nat, prefix: nat, i: nat, g: nat)
    requires depth < 3 && table in mem && i < 512 && HasPrefix(g, depth + 1, prefix * 512 + i)
    ensures Find(mem, table, 3 - depth, g) == Find(mem, mem[table][i], 2 - depth, g)
  {
    hide Slot;
    PrefixStep(g, depth, prefix, i);
  }

  lemma SpanStep(depth: nat, prefix: nat)
    requires depth < 4
    ensures prefix * 512 * Span(3 - depth) == prefix * Span(4 - depth)
  {}

  /** Under a prefix other than 0, the search offers the lowest unbound handle of it, if it offers any. */
  lemma {:induction false} LowestUnder(mem: Memory, table: nat, depth: nat, prefix: nat, g: nat)
    requires depth < 4 && NULL !in mem && 0 < prefix < TWO_36 / Span(4 - depth)
    requires FreeIn(mem, table, depth, prefix) != NO_HANDLE
    requires prefix * Span(4 - depth) <= g < FreeIn(mem, table, depth, prefix)
    ensures Find(mem, table, 3 - depth, g) != NULL
    decreases 4 - depth
  {
    hide Span, HasPrefix, Slot;
    var r := FreeIn(mem, table, depth, prefix);
    FreeIsUnbound(mem, table, depth, prefix);
    PrefixBetween(g, r, depth, prefix);
    if table !in mem {
    } else if depth == 3 {
      LeafSpan(prefix);
      LeafHandle(prefix, g - prefix * 512);
    } else {
      SpanStep(depth, prefix);
      PrefixRoom(depth, prefix, 0);
      var e := mem[table][0];
      assert r == FreeFrom(mem, table, depth, prefix, 0);
      if e != NULL {
        FailsUnder(mem, e, depth + 1, prefix * 512);
        FreeIsUnbound(mem, e, depth + 1, prefix * 512);
        PrefixBetween(g, r, depth + 1, prefix * 512);
        FindBelow(mem, table, depth, prefix, 0, g);
        LowestUnder(mem, e, depth + 1, prefix * 512, g);
      }
    }
  }

  lemma LeafSpan(prefix: nat)
    ensures prefix * Span(1) == prefix * 512
  {}

  /** Where the search starts to look: at 0, or, if handle 0 is free in a table below the root, behind the range of the
      entry that leads there. */
  function StartOf(mem: Memory, table: nat, depth: nat): nat
    requires depth < 4
    decreases 4 - depth
  {
    if AnswersZero(mem, table) || depth == 3 then 0
    else if AnswersZero(mem, mem[table][0]) then Span(3 - depth)
    else StartOf(mem, mem[table][0], depth + 1)
  }

  /** The handle offered is the lowest unbound one from there on. */
  lemma {:induction false} LowestOffered(mem: Memory, table: nat, depth: nat, g: nat)
    requires depth < 4 && NULL !in mem && FreeIn(mem, table, depth, 0) != NO_HANDLE
    requires StartOf(mem, table, depth) <= g < FreeIn(mem, table, depth, 0)
    ensures Find(mem, table, 3 - depth, g) != NULL
    decreases 4 - depth
  {
    hide Span, HasPrefix, Slot;
    var r := FreeIn(mem, table, depth, 0);
    FailsIff(mem, table, depth);
    if depth == 3 {
      LowSlots(g, 0);
    } else {
      RoomForNone(depth);
      PrefixRoom(depth, 0, 0);
      PrefixRoom(depth, 0, 1);
      assert r == FreeFrom(mem, table, depth, 0, 0);
      var e0, e1 := mem[table][0], mem[table][1];
      FailsIff(mem, e0, depth + 1);
      if AnswersZero(mem, e0) {
        assert r == FreeFrom(mem, table, depth, 0, 1);
        if e1 != NULL {
          FailsUnder(mem, e1, depth + 1, 1);
          FreeIsUnbound(mem, e1, depth + 1, 1);
          PrefixBetween(g, r, depth + 1, 1);
          FindBelow(mem, table, depth, 0, 1, g);
          LowestUnder(mem, e1, depth + 1, 1, g);
        }
      } else {
        FreeIsUnbound(mem, e0, depth + 1, 0);
        PrefixBetween(g, r, depth + 1, 0);
        FindBelow(mem, table, depth, 0, 0, g);
        LowestOffered(mem, e0, depth + 1, g);
      }
    }
  }

  lemma {:induction false} StartedAt(mem: Memory, table: nat, depth: nat)
    requires depth < 4 && NULL !in mem && FreeIn(mem, table, depth, 0) != NO_HANDLE
    ensures StartOf(mem, table, depth) <= FreeIn(mem, table, depth, 0)
    decreases 4 - depth
  {
    hide Span, HasPrefix, Slot;
    var r := FreeIn(mem, table, depth, 0);
    FailsIff(mem, table, depth);
    if table in mem && depth < 3 {
      PrefixRoom(depth, 0, 1) by { RoomForNone(depth); }
      assert r == FreeFrom(mem, table, depth, 0, 0);
      var e0, e1 := mem[table][0], mem[table][1];
      FailsIff(mem, e0, depth + 1);
      if e0 != NULL && !AnswersZero(mem, e0) {
        StartedAt(mem, e0, depth + 1);
      } else if e0 != NULL {
        assert r == FreeFrom(mem, table, depth, 0, 1);
        if e1 != NULL {
          FailsUnder(mem, e1, depth + 1, 1);
          FreeIsUnbound(mem, e1, depth + 1, 1);
          PrefixAtLeast(r, depth + 1);
        }
      }
    }
  }

  lemma PrefixAtLeast(r: nat, depth: nat)
    requires depth <= 4 && HasPrefix(r, depth, 1)
    ensures r >= Span(4 - depth)
  {}

  lemma {:induction false} StartIsZero(mem: Memory, table: nat, depth: nat)
    requires depth < 4 && NULL !in mem && Find(mem, table, 3 - depth, 0) != NULL
    ensures StartOf(mem, table, depth) == 0 && !AnswersZero(mem, table)
    decreases 4 - depth
  {
    if depth < 3 { StartIsZero(mem, mem[table][0], depth + 1); }
  }

  ghost predicate FirstLeafFull(mem: Memory, table: nat, level: nat) {
    forall h: nat :: h < 512 ==> Find(mem, table, level, h) != NULL
  }

  lemma LowSlots(h: nat, level: nat)
    requires h < 512 && level < 4
    ensures Slot(h, level) == if level == 0 then h else 0
  {}

  lemma LeafIsFull(mem: Memory, table: nat)
    requires table in mem
    ensures FirstLeafFull(mem, table, 0) <==> FirstNull(mem[table], 0) == 512
  {
    hide Slot;
    var n := FirstNull(mem[table], 0);
    if n < 512 {
      LowSlots(n, 0);
      assert Find(mem, table, 0, n) == NULL;
    }
    forall h: nat | h < 512 ensures Find(mem, table, 0, h) == mem[table][h] { LowSlots(h, 0); }
  }

  lemma SameBelow(mem: Memory, table: nat, level: nat)
    requires 1 <= level <= 3 && table in mem
    ensures FirstLeafFull(mem, table, level) <==> FirstLeafFull(mem, mem[table][0], level - 1)
    ensures Find(mem, table, level, 0) == Find(mem, mem[table][0], level - 1, 0)
  {
    hide Slot;
    var e0 := mem[table][0];
    forall h: nat | h < 512 ensures Find(mem, table, level, h) == Find(mem, e0, level - 1, h) { LowSlots(h, level); }
    hide Find;
    if FirstLeafFull(mem, table, level) {
      var below := level - 1;
      forall h: nat | h < 512 ensures Find(mem, e0, below, h) != NULL { assert Find(mem, table, level, h) != NULL; }
    }
  }

  /** With handle 0 bound, the search fails exactly when the first 512 handles are all bound. */
  lemma {:induction false} FailsWhenFirstLeafFull(mem: Memory, table: nat, depth: nat)
    requires depth < 4 && NULL !in mem && Find(mem, table, 3 - depth, 0) != NULL
    ensures FreeIn(mem, table, depth, 0) == NO_HANDLE <==> FirstLeafFull(mem, table, 3 - depth)
    ensures GivesUp(mem, table, depth) <==> FirstLeafFull(mem, table, 3 - depth)
    ensures !AnswersZero(mem, table)
    decreases 4 - depth
  {
    hide FirstLeafFull, FreeIn;
    FailsIff(mem, table, depth);
    if depth < 3 {
      SameBelow(mem, table, 3 - depth);
      FailsWhenFirstLeafFull(mem, mem[table][0], depth + 1);
    } else {
      LeafIsFull(mem, table);
      LowSlots(0, 0);
    }
  }

  /** A table whose first two entries are these and whose others are empty. */
  function Entries(e0: nat, e1: nat): (t: Table)
    ensures t[0] == e0 && t[1] == e1 && forall i :: 2 <= i < 512 ==> t[i] == NULL
  {
    seq(512, i requires 0 <= i < 512 => if i == 0 then e0 else if i == 1 then e1 else NULL)
  }

  /** The tables of two leaves: the root, the two levels below it, and the leaves. */
  function TwoLeaves(first: Table, second: Table): Memory {
    map[1 := Entries(2, NULL), 2 := Entries(3, NULL), 3 := Entries(4, 5), 4 := first, 5 := second]
  }

  function TwoLeafPlaces(): Directory {
    map[Place(3, 0) := 1, Place(2, 0) := 2, Place(1, 0) := 3, Place(0, 0) := 4, Place(0, 1) := 5]
  }

  lemma TwoLeafShape(first: Table, second: Table)
    ensures var m := TwoLeaves(first, second);
      && m.Keys == {1, 2, 3, 4, 5} && m[1] == Entries(2, NULL) && m[2] == Entries(3, NULL) && m[3] == Entries(4, 5)
      && m[4] == first && m[5] == second
  {}

  lemma InnerEntry(e0: nat, e1: nat, p: Place, below: nat, dir: Directory, i: nat)
    requires p == Place(below + 1, 0) && i < 512
    requires forall s :: Place(below, s) in dir <==> (s == 0 && e0 != NULL) || (s == 1 && e1 != NULL)
    requires e0 != NULL ==> Place(below, 0) in dir && dir[Place(below, 0)] == e0
    requires e1 != NULL ==> Place(below, 1) in dir && dir[Place(below, 1)] == e1
    ensures EntryOk(Entries(e0, e1)[i], p, i, dir)
  {
    hide Entries;
    assert p.Child(i) == Place(below, i);
  }

  lemma TwoLeafEntries(first: Table, second: Table, p: Place, i: nat)
    requires p in TwoLeafPlaces() && i < 512
    ensures TwoLeafPlaces()[p] in TwoLeaves(first, second)
    ensures EntryOk(TwoLeaves(first, second)[TwoLeafPlaces()[p]][i], p, i, TwoLeafPlaces())
  {
    TwoLeafShape(first, second);
    var dir := TwoLeafPlaces();
    hide Entries, TwoLeaves, EntryOk;
    if p.level == 3 {
      InnerEntry(2, NULL, p, 2, dir, i);
    } else if p.level == 2 {
      InnerEntry(3, NULL, p, 1, dir, i);
    } else if p.level == 1 {
      InnerEntry(4, 5, p, 0, dir, i);
    } else {
      LeafEntryOk(p, i, dir, TwoLeaves(first, second)[dir[p]][i]);
    }
  }

  lemma LeafEntryOk(p: Place, i: nat, dir: Directory, e: nat)
    requires p.level == 0
    ensures EntryOk(e, p, i, dir)
  {}

  lemma TwoLeafPlacesOk()
    ensures Places(1, TwoLeafPlaces())
  {
    var dir := TwoLeafPlaces();
    TwoLeafPlace(Place(3, 0));
    hide TwoLeafPlaces;
    forall p ensures p in dir ==> p.level <= 3 && (p.level == 3 ==> p.slot == 0) && dir[p] != NULL { TwoLeafPlace(p); }
    forall p | p in dir && p.level < 3 ensures p.Parent() in dir {
      TwoLeafPlace(p);
      TwoLeafPlace(p.Parent());
    }
    forall p, q | p in dir && q in dir && dir[p] == dir[q] ensures p == q {
      TwoLeafPlace(p);
      TwoLeafPlace(q);
    }
  }

  lemma TwoLeafPlace(p: Place)
    ensures p in TwoLeafPlaces() <==> p.level <= 3 && (p.slot == 0 || (p.level == 0 && p.slot == 1))
    ensures p in TwoLeafPlaces() ==> TwoLeafPlaces()[p] == 4 - p.level + p.slot
  {}

  /** These tables are a handle table as the kernel builds it. */
  lemma TwoLeafTree(first: Table, second: Table)
    ensures Tree(1, TwoLeaves(first, second), TwoLeafPlaces())
  {
    TwoLeafPlacesOk();
    TwoLeafShape(first, second);
    hide Entries, TwoLeaves, TwoLeafPlaces, Places, EntryOk;
    var mem, dir := TwoLeaves(first, second), TwoLeafPlaces();
    forall p | p in dir ensures dir[p] in mem { TwoLeafEntries(first, second, p, 0); }
    forall p, i | p in dir && 0 <= i < 512 ensures EntryOk(mem[dir[p]][i], p, i, dir) {
      TwoLeafEntries(first, second, p, i);
    }
  }

  /** A handle below 1024 is looked up in one of the two leaves. */
  lemma TwoLeafFind(first: Table, second: Table, h: nat)
    requires h < 1024
    ensures Find(TwoLeaves(first, second), 1, 3, h) == if h < 512 then first[h] else second[h - 512]
  {
    var mem := TwoLeaves(first, second);
    TwoLeafShape(first, second);
    SlotsBelow1024(h);
    hide Slot, Find, TwoLeaves;
    FindStep(mem, 1, 3, h);
    FindStep(mem, 2, 2, h);
    FindStep(mem, 3, 1, h);
    FindStep(mem, if h < 512 then 4 else 5, 0, h);
  }

  lemma SlotsBelow1024(h: nat)
    requires h < 1024
    ensures Slot(h, 3) == 0 && Slot(h, 2) == 0 && Slot(h, 1) == (if h < 512 then 0 else 1)
    ensures Slot(h, 0) % 512 == if h < 512 then h else h - 512
  {}

  lemma FindStep(mem: Memory, table: nat, level: nat, h: nat)
    requires table in mem
    ensures var e := mem[table][Slot(h, level) % 512];
      Find(mem, table, level, h) == if level == 0 then e else Find(mem, e, level - 1, h)
  {}

  lemma TwoLeafFull(first: Table, second: Table)
    requires forall i :: 0 <= i < 512 ==> first[i] != NULL
    ensures FirstLeafFull(TwoLeaves(first, second), 1, 3) && Find(TwoLeaves(first, second), 1, 3, 0) != NULL
  {
    hide TwoLeaves, Find, Entries;
    TwoLeafFind(first, second, 0);
    forall g: nat | g < 512 ensures Find(TwoLeaves(first, second), 1, 3, g) != NULL { TwoLeafFind(first, second, g); }
  }

  /** A full first leaf: the search fails, although handle h of the second leaf is free and accepted. */
  lemma FreeBehindFullLeaf(first: Table, second: Table, h: nat)
    requires (forall i :: 0 <= i < 512 ==> first[i] != NULL) && 512 <= h < 1024 && second[h - 512] == NULL
    ensures Tree(1, TwoLeaves(first, second), TwoLeafPlaces()) && FreeIn(TwoLeaves(first, second), 1, 0, 0) == NO_HANDLE
    ensures Accepted(h) && Find(TwoLeaves(first, second), 1, 3, h) == NULL
  {
    hide *;
    TwoLeafTree(first, second);
    NullIsNoTable(first, second);
    SmallIsAccepted(h);
    TwoLeafFind(first, second, h);
    TwoLeafFull(first, second);
    FailsWhenFirstLeafFull(TwoLeaves(first, second), 1, 0);
  }

  lemma NullIsNoTable(first: Table, second: Table)
    ensures NULL !in TwoLeaves(first, second)
  {
    TwoLeafShape(first, second);
    hide TwoLeaves;
  }

  lemma SmallIsAccepted(h: nat)
    requires h < 0x4_0000_0000
    ensures Accepted(h)
  {
    hide Accepted;
    AcceptedIs(h);
  }

  /** A full second leaf: the search fails, although handle 0 is free and accepted. */
  lemma ZeroNotOffered(first: Table, second: Table)
    requires first[0] == NULL && forall i :: 0 <= i < 512 ==> second[i] != NULL
    ensures Tree(1, TwoLeaves(first, second), TwoLeafPlaces()) && FreeIn(TwoLeaves(first, second), 1, 0, 0) == NO_HANDLE
    ensures Accepted(0) && Find(TwoLeaves(first, second), 1, 3, 0) == NULL
  {
    var mem := TwoLeaves(first, second);
    TwoLeafShape(first, second);
    TwoLeafTree(first, second);
    SmallIsAccepted(0);
    hide TwoLeaves, Tree, Find, FreeIn, Accepted, Entries;
    TwoLeafFind(first, second, 0);
    FailsIff(mem, 1, 0);
    assert FullDown(mem, 5, 3);
    assert GivesUp(mem, 3, 2);
    assert GivesUp(mem, 2, 1);
  }

  // ----- The operations -----

  /** The table at p lies on the way to handle h. */
  predicate OnWay(p: Place, h: nat) {
    p.level <= 3 && p.slot == Slot(h, p.level + 1)
  }

  datatype Descriptor = Descriptor(access: nat, kind: nat, desc: nat)

  class HandleTable {
    var descriptorRoot: nat
    var mem: Memory
    var descs: map<nat, Descriptor>
    var heap: set<nat>
    ghost var dir: Directory

    ghost predicate Valid()
      reads this
    {
      && Tree(descriptorRoot, mem, dir) && NULL !in heap && NULL !in descs
      && heap !! mem.Keys && heap !! descs.Keys
      && forall h: nat :: Lookup(h) == NULL || Lookup(h) in descs
    }

    /** The descriptor a handle leads to, or NULL. */
    ghost function Lookup(h: nat): nat
      reads this
    {
      Find(mem, descriptorRoot, 3, h)
    }

    ghost predicate OnPath(h: nat, level: nat, table: nat)
      reads this
    {
      Place(level, Slot(h, level + 1)) in dir && dir[Place(level, Slot(h, level + 1))] == table && table in mem
    }

    /** Every table takes one block of the heap. */
    ghost function Balance(): nat
      reads this
    {
      |heap| + |dir|
    }

    constructor (heap: set<nat>)
      requires NULL !in heap
      ensures Valid() && this.heap == heap && forall h: nat :: Lookup(h) == NULL
    {
      descriptorRoot, mem, descs, this.heap, dir := NULL, map[], map[], heap, map[];
    }

    /** xtHeapAlloc: some available block, or failure when there is none. */
    method HeapAlloc() returns (ok: bool, p: nat)
      requires NULL !in heap
      modifies this`heap
      ensures ok <==> old(heap) != {}
      ensures if ok then p in old(heap) && heap == old(heap) - {p} && p != NULL else heap == old(heap)
    {
      if heap == {} { return false, NULL; }
      p :| p in heap;
      heap := heap - {p};
      ok := true;
    }

    /** A missing root table: lines 37 to 44 on the first turn. */
    method MakeRoot() returns (ok: bool)
      requires Valid() && descriptorRoot == NULL
      modifies this
      ensures Valid() && descs == old(descs) && heap <= old(heap) && forall h: nat :: Lookup(h) == old(Lookup(h))
      ensures ok ==> descriptorRoot != NULL && dir.Keys == {Place(3, 0)}
      ensures !ok ==> heap == {} && descriptorRoot == NULL && dir == old(dir)
      ensures Balance() == old(Balance())
    {
      hide Find, Tree;
      var newTable;
      ok, newTable := HeapAlloc();
      if ok {
        NullFinds(mem, dir);
        NoTables(mem, dir);
        AddPlace(dir, Place(3, 0), newTable);
        var zero: Table := seq(512, _ => NULL);
        mem := mem[newTable := zero];
        FirstTable(mem, newTable);
        dir := map[Place(3, 0) := newTable];
        descriptorRoot := newTable;
        forall h: nat ensures Lookup(h) == NULL == old(Lookup(h)) {}
      }
    }

    /** A missing table below an entry of the path. */
    method MakeTable(table: nat, h: nat, level: nat) returns (ok: bool, newTable: nat)
      requires Valid() && 1 <= level <= 3 && OnPath(h, level, table) && mem[table][Slot(h, level) % 512] == NULL
      modifies this
      ensures Valid() && descs == old(descs) && heap <= old(heap) && forall g: nat :: Lookup(g) == old(Lookup(g))
      ensures ok ==> OnPath(h, level - 1, newTable) && descriptorRoot == old(descriptorRoot)
      ensures ok ==> dir.Keys == old(dir).Keys + {Place(level - 1, Slot(h, level))}
      ensures !ok ==> heap == {} && dir == old(dir)
      ensures Balance() == old(Balance())
    {
      hide Find, Slot, Index, Tree, Places, EntryOk;
      ok, newTable := HeapAlloc();
      if ok {
        SlotStep(h, level);
        IndexIs(h, level);
        ghost var place, i := Place(level, Slot(h, level + 1)), Slot(h, level) % 512;
        assert place.Child(i) == Place(level - 1, Slot(h, level));
        var zero: Table := seq(512, _ => NULL);
        GrowTable(descriptorRoot, mem, dir, place, i, newTable, zero);
        NoChild(descriptorRoot, mem, dir, place, i);
        AddPlace(dir, place.Child(i), newTable);
        mem := mem[newTable := zero];
        mem := SetEntry(mem, table, Index(h, level), newTable);
        dir := dir[place.Child(i) := newTable];
        assert forall g: nat :: Lookup(g) == old(Lookup(g));
      }
    }

    /** xtResolveHandle: the leaf table on the handle's path, built on the way when `create` is set. */
    method ResolveHandle(h: nat, create: bool) returns (ok: bool, table: nat)
      requires Valid()
      modifies this
      ensures Valid() && descs == old(descs) && heap <= old(heap) && forall g: nat :: Lookup(g) == old(Lookup(g))
      ensures !create ==> mem == old(mem) && dir == old(dir) && heap == old(heap) && descriptorRoot == old(descriptorRoot)
      ensures ok ==> OnPath(h, 0, table)
      ensures !ok ==> if create then heap == {} else Lookup(h) == NULL
      ensures old(dir).Keys <= dir.Keys && Balance() == old(Balance())
      ensures forall p :: p in dir ==> p in old(dir) || OnWay(p, h)
    {
      hide Find, Tree, Slot, Index;
      table := NULL;
      if descriptorRoot == NULL {
        if !create {
          NullFinds(mem, dir);
          return false, table;
        }
        NoTables(mem, dir);
        ok := MakeRoot();
        if !ok { return; }
      }
      RootOnPath(descriptorRoot, mem, dir, h);
      SlotStep(h, 3);
      assert OnWay(Place(3, 0), h);
      assert forall p :: p in dir ==> p in old(dir) || p == Place(3, 0);
      table := descriptorRoot;
      var level := 3;
      while level > 0
        invariant 0 <= level <= 3 && Valid() && OnPath(h, level, table)
        invariant descs == old(descs) && heap <= old(heap) && forall g: nat :: Lookup(g) == old(Lookup(g))
        invariant !create ==> mem == old(mem) && dir == old(dir) && heap == old(heap)
        invariant !create ==> descriptorRoot == old(descriptorRoot)
        invariant old(dir).Keys <= dir.Keys && Balance() == old(Balance())
        invariant forall p :: p in dir ==> p in old(dir) || OnWay(p, h)
      {
        PathStep(descriptorRoot, mem, dir, h, level);
        IndexIs(h, level);
        var entry := mem[table][Index(h, level)];
        if entry == NULL {
          if !create { return false, table; }
          ok, entry := MakeTable(table, h, level);
          if !ok { return; }
        }
        table := entry;
        level := level - 1;
      }
      ok := true;
    }

    /** xtGetHandle */
    method GetHandle(h: nat) returns (r: XTResult, out: nat)
      requires Valid() && h < TWO_64
      modifies this
      ensures Valid() && mem == old(mem) && descs == old(descs) && forall g: nat :: Lookup(g) == old(Lookup(g))
      ensures r == XT_INVALID_PARAMETER <==> !Accepted(h)
      ensures r == XT_SUCCESS <==> Accepted(h) && Lookup(h) != NULL
      ensures r == XT_SUCCESS ==> out == Lookup(h) && out in descs
      ensures r == XT_SUCCESS || r == XT_INVALID_PARAMETER || r == XT_NOT_FOUND
    {
      hide Find, Tree, Slot, Index, SignExt;
      out := NULL;
      if h != SignExt(h, 35) { return XT_INVALID_PARAMETER, out; }
      var ok, table := ResolveHandle(h, false);
      if !ok { return XT_NOT_FOUND, out; }
      LeafEntry(descriptorRoot, mem, dir, h);
      IndexIs(h, 0);
      out := mem[table][Index(h, 0)];
      r := if out != NULL then XT_SUCCESS else XT_NOT_FOUND;
    }

    /** xtDuplicateHandle: a map update on the low 36 bits. */
    method DuplicateHandle(h: nat, access: nat, kind: nat, desc: nat) returns (r: XTResult, ghost newDesc: nat)
      requires Valid() && h < TWO_64
      modifies this
      ensures Valid()
      ensures r == XT_INVALID_PARAMETER <==> !Accepted(h)
      ensures r == XT_SUCCESS ==> newDesc !in old(descs) && descs == old(descs)[newDesc := Descriptor(access, kind, desc)]
      ensures r == XT_SUCCESS ==> forall g: nat ::
        Lookup(g) == if g % TWO_36 == h % TWO_36 then newDesc else old(Lookup(g))
      ensures r != XT_SUCCESS ==> descs == old(descs) && forall g: nat :: Lookup(g) == old(Lookup(g))
      ensures r == XT_SUCCESS || r == XT_INVALID_PARAMETER || (r == XT_OUT_OF_MEMORY && heap == {})
      ensures Balance() == old(Balance()) - if r == XT_SUCCESS then 1 else 0
      ensures forall p :: p in dir ==> p in old(dir) || OnWay(p, h)
    {
      hide Find, Tree, Slot, Index, SignExt;
      newDesc := NULL;
      if h != SignExt(h, 35) { return XT_INVALID_PARAMETER, newDesc; }
      var ok, table := ResolveHandle(h, true);
      if !ok { return XT_OUT_OF_MEMORY, newDesc; }
      var p;
      ok, p := HeapAlloc();
      if !ok { return XT_OUT_OF_MEMORY, newDesc; }
      descs := descs[p := Descriptor(access, kind, desc)];
      LeafStore(descriptorRoot, mem, dir, h, p);
      IndexIs(h, 0);
      mem := SetEntry(mem, table, Index(h, 0), p);
      assert forall g: nat :: Lookup(g) == if g % TWO_36 == h % TWO_36 then p else old(Lookup(g));
      assert forall g: nat :: Lookup(g) == NULL || Lookup(g) in descs;
      return XT_SUCCESS, p;
    }

    /** find_free_recursive */
    method FindFreeRecursive(table: nat, depth: nat, prefix: nat) returns (r: nat)
      requires depth < 4 && NULL !in mem
      ensures r == FreeIn(mem, table, depth, prefix)
      decreases 4 - depth
    {
      if table !in mem { return prefix * Span(4 - depth); }
      if depth == 3 {
        var i := 0;
        while i < 512
          invariant 0 <= i <= 512 && FirstNull(mem[table], 0) == FirstNull(mem[table], i)
        {
          if mem[table][i] == NULL { return prefix * 512 + i; }
          i := i + 1;
        }
        return NO_HANDLE;
      }
      var i := 0;
      while i < 512
        invariant 0 <= i <= 512 && FreeFrom(mem, table, depth, prefix, 0) == FreeFrom(mem, table, depth, prefix, i)
      {
        if mem[table][i] == NULL {
          return (prefix * 512 + i) * Span(3 - depth);
        } else {
          r := FindFreeRecursive(mem[table][i], depth + 1, prefix * 512 + i);
          if r != 0 { return; }
        }
        i := i + 1;
      }
      return NO_HANDLE;
    }

    lemma FirstHandles()
      ensures (forall h: nat :: h < 512 ==> Lookup(h) != NULL) <==> FirstLeafFull(mem, descriptorRoot, 3)
    {
      hide Find;
      if FirstLeafFull(mem, descriptorRoot, 3) {
        forall h: nat | h < 512 ensures Lookup(h) != NULL {
          assert Find(mem, descriptorRoot, 3, h) != NULL;
        }
      }
      if forall h: nat :: h < 512 ==> Lookup(h) != NULL {
        forall h: nat | h < 512 ensures Find(mem, descriptorRoot, 3, h) != NULL {
          assert Lookup(h) != NULL;
        }
      }
    }

    /** xtFindFreeHandle offers a handle that is unbound and that xtDuplicateHandle accepts; it offers none exactly
        when entry 0 leads down to a full leaf, or entry 1 does where handle 0 itself is free. */
    method FindFreeHandle() returns (r: XTResult, freeHandle: nat)
      requires Valid()
      ensures r == XT_SUCCESS || r == XT_NOT_FOUND
      ensures r == XT_NOT_FOUND <==> GivesUp(mem, descriptorRoot, 0)
      ensures Lookup(0) != NULL ==> (r == XT_NOT_FOUND <==> forall h: nat :: h < 512 ==> Lookup(h) != NULL)
      ensures r == XT_SUCCESS ==> freeHandle < 0x1000_0000 && Accepted(freeHandle) && Lookup(freeHandle) == NULL
      ensures r == XT_SUCCESS ==> StartOf(mem, descriptorRoot, 0) <= freeHandle
      ensures r == XT_SUCCESS ==> forall g: nat :: StartOf(mem, descriptorRoot, 0) <= g < freeHandle ==> Lookup(g) != NULL
      ensures r == XT_SUCCESS && Lookup(0) != NULL ==> forall g: nat :: g < freeHandle ==> Lookup(g) != NULL
    {
      hide FreeIn, GivesUp, Accepted, Places, EntryOk, StartOf, Find;
      freeHandle := FindFreeRecursive(descriptorRoot, 0, 0);
      FailsIff(mem, descriptorRoot, 0);
      if Lookup(0) != NULL { FailsWhenFirstLeafFull(mem, descriptorRoot, 0); }
      FirstHandles();
      if freeHandle == NO_HANDLE { return XT_NOT_FOUND, freeHandle; }
      FreeIsUnbound(mem, descriptorRoot, 0, 0);
      OfferedIsAccepted(mem, descriptorRoot);
      StartedAt(mem, descriptorRoot, 0);
      if Lookup(0) != NULL { StartIsZero(mem, descriptorRoot, 0); }
      forall g: nat | StartOf(mem, descriptorRoot, 0) <= g < freeHandle ensures Lookup(g) != NULL {
        LowestOffered(mem, descriptorRoot, 0, g);
      }
      return XT_SUCCESS, freeHandle;
    }
  }

  lemma NoTables(mem: Memory, dir: Directory)
    requires Tree(NULL, mem, dir)
    ensures dir == map[]
  {}

  lemma NoChild(root: nat, mem: Memory, dir: Directory, place: Place, i: nat)
    requires Tree(root, mem, dir) && place in dir && place.level > 0 && i < 512 && mem[dir[place]][i] == NULL
    ensures place.Child(i) !in dir
  {
    assert EntryOk(mem[dir[place]][i], place, i, dir);
  }

  lemma AddPlace(dir: Directory, p: Place, table: nat)
    requires p !in dir
    ensures dir[p := table].Keys == dir.Keys + {p} && |dir[p := table]| == |dir| + 1
  {
    assert dir[p := table].Keys == dir.Keys + {p};
    assert |dir[p := table]| == |dir[p := table].Keys| && |dir| == |dir.Keys|;
  }

  lemma NullFinds(mem: Memory, dir: Directory)
    requires Tree(NULL, mem, dir)
    ensures forall h: nat :: Find(mem, NULL, 3, h) == NULL
    ensures NULL !in mem
  {}

  lemma RootOnPath(root: nat, mem: Memory, dir: Directory, h: nat)
    requires Tree(root, mem, dir) && root != NULL
    ensures Place(3, Slot(h, 4)) in dir && dir[Place(3, Slot(h, 4))] == root && root in mem
  {
    SlotStep(h, 3);
  }

  /** Memory outside the tree does not matter. */
  lemma GrowMemory(root: nat, mem: Memory, dir: Directory, f: nat, t: Table)
    requires Tree(root, mem, dir) && f !in mem && f != NULL && root != NULL && root in mem
    ensures Tree(root, mem[f := t], dir) && f !in dir.Values
    ensures forall h: nat :: Find(mem[f := t], root, 3, h) == Find(mem, root, 3, h)
  {
    assert forall p :: p in dir ==> dir[p] in mem;
    forall h: nat ensures Find(mem[f := t], root, 3, h) == Find(mem, root, 3, h) {
      SlotStep(h, 3);
      GrownFinds(root, mem, dir, f, t, h, 3);
    }
  }

  ghost predicate Grown(root: nat, mem: Memory, dir: Directory, mem': Memory, dir': Directory, f: nat) {
    && Tree(root, mem', dir') && mem'.Keys == mem.Keys + {f} && NULL !in mem'
    && forall h: nat :: Find(mem', root, 3, h) == Find(mem, root, 3, h)
  }

  /** A zeroed table, allocated and linked: no handle sees it. */
  lemma GrowTable(root: nat, mem: Memory, dir: Directory, place: Place, i: nat, f: nat, t: Table)
    requires Tree(root, mem, dir) && f !in mem && f != NULL && Zeroed(t)
    requires place in dir && place.level > 0 && i < 512 && mem[dir[place]][i] == NULL
    ensures Grown(root, mem, dir, SetEntry(mem[f := t], dir[place], i, f), dir[place.Child(i) := f], f)
  {
    hide Find, EntryOk;
    GrowMemory(root, mem, dir, f, t);
    LinkTable(root, mem[f := t], dir, place, i, f);
  }

  lemma {:induction false} GrownFinds(root: nat, mem: Memory, dir: Directory, f: nat, t: Table, h: nat, level: nat)
    requires Tree(root, mem, dir) && f !in mem && f != NULL
    requires level <= 3 && Place(level, Slot(h, level + 1)) in dir
    ensures Find(mem[f := t], dir[Place(level, Slot(h, level + 1))], level, h)
         == Find(mem, dir[Place(level, Slot(h, level + 1))], level, h)
    decreases level
  {
    hide Slot;
    var here, j := Place(level, Slot(h, level + 1)), Slot(h, level) % 512;
    SlotStep(h, level);
    assert EntryOk(mem[dir[here]][j], here, j, dir);
    if level > 0 {
      assert here.Child(j) == Place(level - 1, Slot(h, level));
      if mem[dir[here]][j] != NULL { GrownFinds(root, mem, dir, f, t, h, level - 1); }
    }
  }

  /** The entry at one level of the path: NULL ends the search, anything else is the next table. */
  lemma PathStep(root: nat, mem: Memory, dir: Directory, h: nat, level: nat)
    requires Tree(root, mem, dir) && 1 <= level <= 3 && Place(level, Slot(h, level + 1)) in dir
    ensures dir[Place(level, Slot(h, level + 1))] in mem
    ensures var e := mem[dir[Place(level, Slot(h, level + 1))]][Slot(h, level) % 512];
      if e == NULL then Find(mem, root, 3, h) == NULL
      else Place(level - 1, Slot(h, level)) in dir && dir[Place(level - 1, Slot(h, level))] == e && e in mem
  {
    hide Slot;
    var here, j := Place(level, Slot(h, level + 1)), Slot(h, level) % 512;
    SlotStep(h, level);
    Reach(root, mem, dir, h, level);
    assert here.Child(j) == Place(level - 1, Slot(h, level));
    assert EntryOk(mem[dir[here]][j], here, j, dir);
  }

  lemma LeafEntry(root: nat, mem: Memory, dir: Directory, h: nat)
    requires Tree(root, mem, dir) && Place(0, Slot(h, 1)) in dir
    ensures dir[Place(0, Slot(h, 1))] in mem
    ensures Find(mem, root, 3, h) == mem[dir[Place(0, Slot(h, 1))]][Slot(h, 0) % 512]
  {
    Reach(root, mem, dir, h, 0);
  }

  lemma LeafStore(root: nat, mem: Memory, dir: Directory, h: nat, e: nat)
    requires Tree(root, mem, dir) && Place(0, Slot(h, 1)) in dir
    ensures dir[Place(0, Slot(h, 1))] in mem
    ensures Tree(root, SetEntry(mem, dir[Place(0, Slot(h, 1))], Slot(h, 0) % 512, e), dir)
    ensures forall g: nat :: Find(SetEntry(mem, dir[Place(0, Slot(h, 1))], Slot(h, 0) % 512, e), root, 3, g) ==
              (if g % TWO_36 == h % TWO_36 then e else Find(mem, root, 3, g))
  {
    hide Find;
    SlotZero(h);
    SlotStep(h, 0);
    StoreLeaf(root, mem, dir, Place(0, Slot(h, 1)), Slot(h, 0) % 512, e);
  }
}
