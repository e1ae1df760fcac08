/** The four-level table as a tree of frames: walks, the tree invariant and the four ways an entry changes. */
module PageTree {
  import opened Bits
  import opened PageEntries

  type Table = t: seq<Word> | |t| == 512 witness seq(512, _ => 0)

  /** Physical memory, as far as it holds tables: frame address to contents. */
  type Memory = map<nat, Table>

  /** A table's place: its level (4 is the root) and the number of the region it maps, in units of that region. */
  datatype Place = Place(level: nat, slot: nat) {
    function Child(i: nat): Place
      requires level > 0
    {
      Place(level - 1, slot * 512 + i)
    }

    function Parent(): Place { Place(level + 1, slot / 512) }
  }

  /** Which frame holds the table of each place. */
  type Directory = map<Place, nat>

  /** How a walk ends. */
  datatype Leaf = Hole | Page(level: nat, entry: Word)

  /** Bytes mapped by one entry of a table of the given level; level 5 stands for the whole space. */
  function Span(level: nat): (s: nat)
    ensures s > 0
  {
    if level <= 1 then 0x1000
    else if level == 2 then 0x20_0000
    else if level == 3 then 0x4000_0000
    else if level == 4 then 0x80_0000_0000
    else TWO_48
  }

  /** The number of the level-sized region an address lies in; the upper 16 address bits are not translated. */
  function Slot(v: nat, level: nat): nat {
    v % TWO_48 / Span(level)
  }

  lemma SlotStep(v: nat, level: nat)
    requires 1 <= level <= 4
    ensures Slot(v, level) / 512 == Slot(v, level + 1)
    ensures Slot(v, level) == Slot(v, level + 1) * 512 + Slot(v, level) % 512
    ensures Slot(v, 5) == 0
  {}

  /** The index fields `(va >> 39) & 0x1ff`, `(va >> 30) & 0x1ff`, `(va >> 21) & 0x1ff` and `(va >> 12) & 0x1ff`. */
  lemma IndexFields(v: nat)
    requires v < TWO_64
    ensures And(Shr(v, 39), 0x1ff) == Slot(v, 4) % 512
    ensures And(Shr(v, 30), 0x1ff) == Slot(v, 3) % 512
    ensures And(Shr(v, 21), 0x1ff) == Slot(v, 2) % 512
    ensures And(Shr(v, 12), 0x1ff) == Slot(v, 1) % 512
  {
    hide And, Shr, Low, Slot;
    Powers39();
    hide Pow2;
    IndexField(v, 39, 4);
    IndexField(v, 30, 3);
    IndexField(v, 21, 2);
    IndexField(v, 12, 1);
  }

  lemma Powers39()
    ensures Pow2(39) == Span(4) && Pow2(30) == Span(3) && Pow2(21) == Span(2) && Pow2(12) == Span(1)
  {
    Powers();
    Pow2Add(30, 9);
  }

  lemma SlotIndex(v: nat, level: nat)
    requires 1 <= level <= 4
    ensures Slot(v, level) % 512 == v / Span(level) % 512
  {
    var m := if level == 4 then 1 else if level == 3 then 512 else if level == 2 then 0x4_0000 else 0x800_0000;
    assert Span(level) * (512 * m) == TWO_48;
    WrapIndex(v, Span(level), m);
  }

  lemma IndexField(v: nat, k: nat, level: nat)
    requires 1 <= level <= 4 && Pow2(k) == Span(level)
    ensures And(Shr(v, k), 0x1ff) == Slot(v, level) % 512
  {
    hide And, Shr, Low, Slot;
    var p := Span(level);
    DivideBy(v, k, p);
    assert Pow2(9) == 512 by { Powers(); }
    hide Pow2, Span;
    AndLow(v / p, 9);
    DivideBy(v / p, 9, 512);
    SlotIndex(v, level);
  }

  /** The hardware walk from a table of the given level (xtGetPhysicalAddress from the root). */
  function Walk(mem: Memory, table: nat, level: nat, v: nat): Leaf
    requires 1 <= level <= 4
    decreases level
  {
    if table !in mem then Hole
    else
      var e := mem[table][Slot(v, level) % 512];
      if !Present(e) then Hole
      else if IsLeaf(level, e) then Page(level, e)
      else Walk(mem, Addr(e), level - 1, v)
  }

  predicate IsLeaf(level: nat, e: Word) {
    level == 1 || (level < 4 && Large(e))
  }

  /** The physical address a leaf gives: `(entry & ADDR_MASK) | (va & (page size - 1))`. */
  function Physical(leaf: Leaf, v: nat): nat
    requires leaf.Page?
  {
    Or(Addr(leaf.entry), And(v, Span(leaf.level) - 1))
  }

  // ----- The tree invariant -----

  ghost predicate EntryOk(e: Word, place: Place, i: nat, dir: Directory)
    requires place.level > 0
  {
    var child := place.Child(i);
    if !Present(e) then e == 0 && child !in dir
    else if IsLeaf(place.level, e) then child !in dir
    else child in dir && !Large(e) && dir[child] == Addr(e) && e == Addr(e) + 7
  }

  ghost predicate Places(root: nat, dir: Directory) {
    && Place(4, 0) in dir && dir[Place(4, 0)] == root
    && (forall p :: p in dir ==> 1 <= p.level <= 4 && (p.level == 4 ==> p.slot == 0))
    && (forall p :: p in dir && p.level < 4 ==> p.Parent() in dir)
    && (forall p, q :: p in dir && q in dir && dir[p] == dir[q] ==> p == q)
  }

  /** Every table has one place, every place one table; entries are 0, leaves, or point to the child's table, with the
      bits for present, writable and user set and no other. */
  ghost predicate Tree(root: nat, mem: Memory, dir: Directory) {
    && Places(root, dir)
    && (forall p :: p in dir ==> dir[p] in mem)
    && (forall p, i :: p in dir && 0 <= i < 512 ==> EntryOk(mem[dir[p]][i], p, i, dir))
  }

  ghost predicate HasEntry(t: Table) {
    exists i :: 0 <= i < 512 && Present(t[i])
  }

  /** No table below the root is empty. */
  ghost predicate Pruned(mem: Memory, dir: Directory)
    requires forall p :: p in dir ==> dir[p] in mem
  {
    forall p :: p in dir && p.level < 4 ==> HasEntry(mem[dir[p]])
  }

  lemma TreeAt(root: nat, mem: Memory, dir: Directory, place: Place)
    requires Tree(root, mem, dir) && place in dir
    ensures 1 <= place.level <= 4 && dir[place] in mem
    ensures forall i :: 0 <= i < 512 ==> EntryOk(mem[dir[place]][i], place, i, dir)
    ensures place.level < 4 ==> place.Parent() in dir
  {}

  /** Entries for tables allow everything, so the leaf alone decides what an address may be used for. */
  lemma TablesAllowAll(root: nat, mem: Memory, dir: Directory, place: Place, i: nat)
    requires Tree(root, mem, dir) && place in dir && i < 512
    ensures dir[place] in mem
    ensures var e := mem[dir[place]][i];
      Present(e) && !IsLeaf(place.level, e) ==> e % 8 == 7 && e / 0x8000_0000_0000_0000 == 0
  {
    hide Present, Large, Addr;
    assert EntryOk(mem[dir[place]][i], place, i, dir);
    Fields(mem[dir[place]][i]);
    hide Places;
    FrameAndSeven(Addr(mem[dir[place]][i]));
  }

  lemma FrameAndSeven(f: nat)
    requires FrameOk(f)
    ensures (f + 7) % 8 == 7 && (f + 7) / 0x8000_0000_0000_0000 == 0
  {
    assert f == 0x1000 * (f / 0x1000);
    DivModUnique(f + 7, 8, 512 * (f / 0x1000), 7);
    DivModUnique(f + 7, TWO_63, 0, f + 7);
  }

  // ----- Walks in a tree -----

  /** A walk from the root passes through the table of every place on its path. */
  lemma {:induction false} Reach(root: nat, mem: Memory, dir: Directory, v: nat, level: nat)
    requires Tree(root, mem, dir)
    requires 1 <= level <= 4 && Place(level, Slot(v, level + 1)) in dir
    ensures Walk(mem, root, 4, v) == Walk(mem, dir[Place(level, Slot(v, level + 1))], level, v)
    decreases 4 - level
  {
    hide Slot, Present, Large, Addr;
    SlotStep(v, 4);
    if level < 4 {
      var here := Place(level, Slot(v, level + 1));
      SlotStep(v, level + 1);
      Reach(root, mem, dir, v, level + 1);
      var up := here.Parent();
      var i := Slot(v, level + 1) % 512;
      assert up.Child(i) == here;
      assert EntryOk(mem[dir[up]][i], up, i, dir);
    }
  }

  /** ... and the tables down to where a page was found are all there. */
  lemma {:induction false} PathOf(root: nat, mem: Memory, dir: Directory, v: nat, from: nat, to: nat)
    requires Tree(root, mem, dir)
    requires 1 <= to <= from <= 4 && Place(from, Slot(v, from + 1)) in dir
    requires Walk(mem, dir[Place(from, Slot(v, from + 1))], from, v).Page?
    requires Walk(mem, dir[Place(from, Slot(v, from + 1))], from, v).level <= to
    ensures Place(to, Slot(v, to + 1)) in dir
    decreases from
  {
    hide Slot, Present, Large, Addr;
    if to < from {
      var here := Place(from, Slot(v, from + 1));
      var i := Slot(v, from) % 512;
      SlotStep(v, from);
      assert EntryOk(mem[dir[here]][i], here, i, dir);
      assert here.Child(i) == Place(from - 1, Slot(v, from));
      PathOf(root, mem, dir, v, from - 1, to);
    }
  }

  /** All addresses of a page share its leaf. */
  lemma {:induction false} SamePage(mem: Memory, table: nat, level: nat, v: nat, w: nat)
    requires 1 <= level <= 4
    requires Walk(mem, table, level, v).Page?
    requires Slot(w, Walk(mem, table, level, v).level) == Slot(v, Walk(mem, table, level, v).level)
    requires Slot(w, level + 1) == Slot(v, level + 1)
    ensures Walk(mem, table, level, w) == Walk(mem, table, level, v)
    ensures 1 <= Walk(mem, table, level, v).level <= level
    decreases level
  {
    hide Slot, Present, Large, Addr;
    var e := mem[table][Slot(v, level) % 512];
    WalkLevel(mem, table, level, v);
    SlotsAgreeAbove(v, w, Walk(mem, table, level, v).level, level);
    if !IsLeaf(level, e) {
      SamePage(mem, Addr(e), level - 1, v, w);
    }
  }

  lemma {:induction false} WalkLevel(mem: Memory, table: nat, level: nat, v: nat)
    requires 1 <= level <= 4
    requires Walk(mem, table, level, v).Page?
    ensures 1 <= Walk(mem, table, level, v).level <= level
    ensures Walk(mem, table, level, v).level <= 3
    ensures Walk(mem, table, level, v).level > 1 ==> Large(Walk(mem, table, level, v).entry)
    decreases level
  {
    hide Slot, Present, Large, Addr;
    var e := mem[table][Slot(v, level) % 512];
    if !IsLeaf(level, e) { WalkLevel(mem, Addr(e), level - 1, v); }
  }

  lemma {:induction false} SlotsAgreeAbove(v: nat, w: nat, low: nat, high: nat)
    requires 1 <= low <= high <= 5
    requires Slot(v, low) == Slot(w, low)
    ensures Slot(v, high) == Slot(w, high)
    decreases high - low
  {
    if low < high {
      SlotStep(v, low);
      SlotStep(w, low);
      SlotsAgreeAbove(v, w, low + 1, high);
    }
  }

  /** Where one page ends, the next one begins. */
  lemma NextPageStart(mem: Memory, root: nat, p: nat, level: nat)
    requires Walk(mem, root, 4, p).Page? && Walk(mem, root, 4, p).level == level && 1 <= level <= 3
    requires p % Span(level) == 0 && p + Span(level) < TWO_48
    requires Walk(mem, root, 4, p + Span(level)).Page?
    ensures (p + Span(level)) % Span(Walk(mem, root, 4, p + Span(level)).level) == 0
  {
    hide Slot, Present, Large, Addr, Walk, Span;
    var q := p + Span(level);
    var level' := Walk(mem, root, 4, q).level;
    WalkLevel(mem, root, 4, q);
    SlotStep(p, 4);
    SlotStep(q, 4);
    SlotStep(q - 1, 4);
    BlockEnd(p, level);
    SamePage(mem, root, 4, p, q - 1);
    if q % Span(level') != 0 {
      BlockInside(q, level');
      SamePage(mem, root, 4, q, q - 1);
    }
  }

  lemma BlockEnd(p: nat, level: nat)
    requires 1 <= level <= 3 && p % Span(level) == 0 && p + Span(level) < TWO_48
    ensures Slot(p + Span(level) - 1, level) == Slot(p, level) && Slot(p + Span(level), level) == Slot(p, level) + 1
  {
    var k := p / Span(level);
    if level == 1 {
      assert p == 0x1000 * k;
    } else if level == 2 {
      assert p == 0x20_0000 * k;
    } else {
      assert p == 0x4000_0000 * k;
    }
  }

  lemma BlockInside(q: nat, level: nat)
    requires 1 <= level <= 3 && 0 < q < TWO_48 && q % Span(level) != 0
    ensures Slot(q - 1, level) == Slot(q, level)
  {}

  // ----- One entry changes -----

  /** `after` agrees with `before` on every table of the directory, except perhaps at one entry. */
  ghost predicate DiffersAt(before: Memory, after: Memory, dir: Directory, place: Place, i: nat)
    requires forall p :: p in dir ==> dir[p] in before
  {
    forall p :: p in dir ==>
      dir[p] in after && forall j :: 0 <= j < 512 && !(p == place && j == i) ==> after[dir[p]][j] == before[dir[p]][j]
  }

  /** A walk that does not pass through the changed entry is unchanged. */
  lemma {:induction false} Frame(root: nat, before: Memory, after: Memory, dir: Directory, place: Place, i: nat, v: nat, level: nat)
    requires Tree(root, before, dir)
    requires place in dir && 0 <= i < 512 && DiffersAt(before, after, dir, place, i)
    requires 1 <= level <= 4 && Place(level, Slot(v, level + 1)) in dir
    requires Slot(v, place.level) != place.slot * 512 + i
    ensures Walk(after, dir[Place(level, Slot(v, level + 1))], level, v)
         == Walk(before, dir[Place(level, Slot(v, level + 1))], level, v)
    decreases level
  {
    hide Slot, Present, Large, Addr;
    var here := Place(level, Slot(v, level + 1));
    var j := Slot(v, level) % 512;
    SlotStep(v, level);
    assert !(here == place && j == i);
    assert after[dir[here]][j] == before[dir[here]][j];
    assert EntryOk(before[dir[here]][j], here, j, dir);
    assert here.Child(j) == Place(level - 1, Slot(v, level));
    if Present(before[dir[here]][j]) && !IsLeaf(level, before[dir[here]][j]) {
      Frame(root, before, after, dir, place, i, v, level - 1);
    }
  }

  function SetEntry(mem: Memory, table: nat, i: nat, e: Word): Memory
    requires table in mem && i < 512
  {
    mem[table := mem[table][i := e]]
  }

  lemma SetEntryDiffers(root: nat, mem: Memory, dir: Directory, place: Place, i: nat, e: Word)
    requires Tree(root, mem, dir) && place in dir && i < 512
    ensures DiffersAt(mem, SetEntry(mem, dir[place], i, e), dir, place, i)
  {}

  lemma FrameAll(root: nat, mem: Memory, dir: Directory, place: Place, i: nat, e: Word)
    requires Tree(root, mem, dir) && place in dir && i < 512
    ensures forall v: nat :: Slot(v, place.level) != place.slot * 512 + i ==>
      Walk(SetEntry(mem, dir[place], i, e), root, 4, v) == Walk(mem, root, 4, v)
  {
    SetEntryDiffers(root, mem, dir, place, i, e);
    forall v: nat | Slot(v, place.level) != place.slot * 512 + i
      ensures Walk(SetEntry(mem, dir[place], i, e), root, 4, v) == Walk(mem, root, 4, v)
    {
      SlotStep(v, 4);
      Frame(root, mem, SetEntry(mem, dir[place], i, e), dir, place, i, v, 4);
    }
  }

  /** The region below entry slot `s` of level `level`. */
  ghost predicate Under(p: Place, level: nat, s: nat)
    decreases level - p.level
  {
    if p.level >= level then false
    else if p.level + 1 == level then p.slot == s
    else Under(p.Parent(), level, s)
  }

  ghost function Drop(dir: Directory, level: nat, s: nat): Directory {
    map p | p in dir && !Under(p, level, s) :: dir[p]
  }

  lemma DropPlaces(root: nat, dir: Directory, level: nat, s: nat)
    requires Places(root, dir) && 1 <= level <= 4
    ensures Places(root, Drop(dir, level, s))
  {
    var dir' := Drop(dir, level, s);
    forall p | p in dir' && p.level < 4 ensures p.Parent() in dir' {
      assert p.Parent() in dir;
      assert Under(p.Parent(), level, s) ==> Under(p, level, s);
    }
  }

  lemma PutLeafTree(root: nat, mem: Memory, dir: Directory, place: Place, i: nat, e: Word)
    requires Tree(root, mem, dir) && place in dir && i < 512
    requires Present(e) && IsLeaf(place.level, e)
    ensures Tree(root, SetEntry(mem, dir[place], i, e), Drop(dir, place.level, place.slot * 512 + i))
  {
    hide Slot, Present, Large, Addr, EntryOk, Under;
    var s := place.slot * 512 + i;
    var mem', dir' := SetEntry(mem, dir[place], i, e), Drop(dir, place.level, s);
    DropPlaces(root, dir, place.level, s);
    forall p | p in dir' ensures dir'[p] in mem' {}
    forall p, j | p in dir' && 0 <= j < 512 ensures EntryOk(mem'[dir'[p]][j], p, j, dir') {
      PutLeafEntry(root, mem, dir, place, i, e, p, j);
    }
  }

  lemma PutLeafEntry(root: nat, mem: Memory, dir: Directory, place: Place, i: nat, e: Word, p: Place, j: nat)
    requires Tree(root, mem, dir) && place in dir && i < 512 && j < 512
    requires Present(e) && IsLeaf(place.level, e)
    requires p in dir && !Under(p, place.level, place.slot * 512 + i)
    ensures EntryOk(SetEntry(mem, dir[place], i, e)[dir[p]][j], p, j, Drop(dir, place.level, place.slot * 512 + i))
  {
    hide Slot, Present, Large, Addr;
    assert EntryOk(mem[dir[p]][j], p, j, dir);
    var c := p.Child(j);
    if p == place && j == i {
      assert c.level + 1 == place.level && c.slot == place.slot * 512 + i;
    } else {
      assert SetEntry(mem, dir[place], i, e)[dir[p]][j] == mem[dir[p]][j];
      assert c.Parent() == p;
      assert Under(c, place.level, place.slot * 512 + i) ==> p == place && j == i;
    }
  }

  /** Storing a leaf gives its whole region to that leaf and cuts off whatever tables were below. */
  lemma PutLeaf(root: nat, mem: Memory, dir: Directory, place: Place, i: nat, e: Word)
    requires Tree(root, mem, dir) && place in dir && i < 512
    requires Present(e) && IsLeaf(place.level, e)
    ensures Tree(root, SetEntry(mem, dir[place], i, e), Drop(dir, place.level, place.slot * 512 + i))
    ensures forall v: nat :: Walk(SetEntry(mem, dir[place], i, e), root, 4, v) ==
              (if Slot(v, place.level) == place.slot * 512 + i then Page(place.level, e) else Walk(mem, root, 4, v))
  {
    hide Slot, Present, Large, Addr, Walk;
    var dir' := Drop(dir, place.level, place.slot * 512 + i);
    PutLeafTree(root, mem, dir, place, i, e);
    assert place in dir' && dir'[place] == dir[place];
    LeafWalks(root, SetEntry(mem, dir[place], i, e), dir', place, i, e);
    FrameAll(root, mem, dir, place, i, e);
  }

  lemma LeafWalks(root: nat, mem: Memory, dir: Directory, place: Place, i: nat, e: Word)
    requires Tree(root, mem, dir) && place in dir && i < 512
    requires mem[dir[place]][i] == e && (Present(e) ==> IsLeaf(place.level, e))
    ensures forall v: nat :: Slot(v, place.level) == place.slot * 512 + i ==>
      Walk(mem, root, 4, v) == if Present(e) then Page(place.level, e) else Hole
  {
    hide Slot, Present, Large, Addr;
    forall v: nat | Slot(v, place.level) == place.slot * 512 + i
      ensures Walk(mem, root, 4, v) == if Present(e) then Page(place.level, e) else Hole
    {
      SlotStep(v, place.level);
      Reach(root, mem, dir, v, place.level);
    }
  }

  /** Clearing an entry without a table below unmaps exactly its region. */
  lemma ClearEntry(root: nat, mem: Memory, dir: Directory, place: Place, i: nat)
    requires Tree(root, mem, dir) && place in dir && i < 512
    requires place.Child(i) !in dir
    ensures Tree(root, SetEntry(mem, dir[place], i, 0), dir)
    ensures forall v: nat :: Walk(SetEntry(mem, dir[place], i, 0), root, 4, v) ==
              (if Slot(v, place.level) == place.slot * 512 + i then Hole else Walk(mem, root, 4, v))
  {
    hide Slot, Present, Large, Addr;
    ZeroAbsent();
    var mem' := SetEntry(mem, dir[place], i, 0);
    forall p, j | p in dir && 0 <= j < 512 ensures EntryOk(mem'[dir[p]][j], p, j, dir) {
      assert EntryOk(mem[dir[p]][j], p, j, dir);
    }
    LeafWalks(root, mem', dir, place, i, 0);
    FrameAll(root, mem, dir, place, i, 0);
  }

  ghost predicate CanLink(root: nat, mem: Memory, dir: Directory, place: Place, i: nat, f: nat, e: Word) {
    && Tree(root, mem, dir) && place in dir && i < 512 && place.level > 1
    && !Present(mem[dir[place]][i])
    && f in mem && f !in dir.Values && (forall j :: 0 <= j < 512 ==> mem[f][j] == 0)
    && Present(e) && !Large(e) && Addr(e) == f && e == f + 7
  }

  lemma LinkPlaces(root: nat, mem: Memory, dir: Directory, place: Place, i: nat, f: nat, e: Word)
    requires CanLink(root, mem, dir, place, i, f, e)
    ensures place.Child(i) !in dir && Places(root, dir[place.Child(i) := f])
  {
    hide Slot, Present, Large, Addr;
    var c := place.Child(i);
    assert EntryOk(mem[dir[place]][i], place, i, dir);
    assert c.Parent() == place;
    assert forall p :: p in dir ==> dir[p] in dir.Values;
  }

  lemma LinkEntry(root: nat, mem: Memory, dir: Directory, place: Place, i: nat, f: nat, e: Word, p: Place, j: nat)
    requires CanLink(root, mem, dir, place, i, f, e)
    requires p in dir[place.Child(i) := f] && j < 512
    ensures EntryOk(SetEntry(mem, dir[place], i, e)[dir[place.Child(i) := f][p]][j], p, j, dir[place.Child(i) := f])
  {
    hide Slot, Present, Large, Addr;
    var c := place.Child(i);
    assert dir[place] in dir.Values;
    LinkPlaces(root, mem, dir, place, i, f, e);
    assert p.Child(j).Parent() == p && c.Parent() == place;
    if p == c {
      ZeroAbsent();
    } else {
      assert EntryOk(mem[dir[p]][j], p, j, dir);
      assert p.Child(j) == c ==> p == place && j == i;
    }
  }

  /** Linking an all-zero frame as a new table changes no walk. */
  lemma LinkTable(root: nat, mem: Memory, dir: Directory, place: Place, i: nat, f: nat, e: Word)
    requires CanLink(root, mem, dir, place, i, f, e)
    ensures place.Child(i) !in dir
    ensures Tree(root, SetEntry(mem, dir[place], i, e), dir[place.Child(i) := f])
    ensures forall v: nat :: Walk(SetEntry(mem, dir[place], i, e), root, 4, v) == Walk(mem, root, 4, v)
  {
    hide Slot, Present, Large, Addr;
    var mem', dir' := SetEntry(mem, dir[place], i, e), dir[place.Child(i) := f];
    LinkPlaces(root, mem, dir, place, i, f, e);
    forall p, j | p in dir' && 0 <= j < 512 ensures EntryOk(mem'[dir'[p]][j], p, j, dir') {
      LinkEntry(root, mem, dir, place, i, f, e, p, j);
    }
    forall p | p in dir' ensures dir'[p] in mem' {}
    FrameAll(root, mem, dir, place, i, e);
    forall v: nat ensures Walk(mem', root, 4, v) == Walk(mem, root, 4, v) {
      if Slot(v, place.level) == place.slot * 512 + i {
        LinkWalk(root, mem, dir, place, i, f, e, v);
      }
    }
  }

  lemma LinkWalk(root: nat, mem: Memory, dir: Directory, place: Place, i: nat, f: nat, e: Word, v: nat)
    requires CanLink(root, mem, dir, place, i, f, e)
    requires Tree(root, SetEntry(mem, dir[place], i, e), dir[place.Child(i) := f])
    requires Slot(v, place.level) == place.slot * 512 + i
    ensures Walk(SetEntry(mem, dir[place], i, e), root, 4, v) == Walk(mem, root, 4, v)
  {
    hide Slot, Present, Large, Addr, EntryOk, Places;
    TreeAt(root, mem, dir, place);
    var mem' := SetEntry(mem, dir[place], i, e);
    SlotStep(v, place.level);
    assert Walk(mem, root, 4, v) == Hole by { Reach(root, mem, dir, v, place.level); }
    assert mem'[f] == mem[f] by { assert dir[place] in dir.Values; }
    assert Walk(mem', f, place.level - 1, v) == Hole by {
      ZeroAbsent();
      assert mem'[f][Slot(v, place.level - 1) % 512] == 0;
    }
    Reach(root, mem', dir[place.Child(i) := f], v, place.level - 1);
  }

  ghost predicate CanUnlink(root: nat, mem: Memory, dir: Directory, place: Place) {
    Tree(root, mem, dir) && place in dir && place.level < 4 && !HasEntry(mem[dir[place]])
  }

  lemma UnlinkPlaces(root: nat, mem: Memory, dir: Directory, place: Place)
    requires CanUnlink(root, mem, dir, place)
    ensures Places(root, dir - {place})
  {
    hide Slot, Present, Large, Addr;
    forall i | 0 <= i < 512 ensures place.Child(i) !in dir {
      assert EntryOk(mem[dir[place]][i], place, i, dir);
    }
    assert forall p :: p in dir && p.Parent() == place ==> p == place.Child(p.slot % 512);
  }

  lemma UnlinkTree(root: nat, mem: Memory, dir: Directory, place: Place)
    requires CanUnlink(root, mem, dir, place)
    ensures Tree(root, SetEntry(mem, dir[place.Parent()], place.slot % 512, 0), dir - {place})
  {
    hide Slot, Present, Large, Addr;
    var up, i, dir' := place.Parent(), place.slot % 512, dir - {place};
    var mem' := SetEntry(mem, dir[up], i, 0);
    UnlinkPlaces(root, mem, dir, place);
    ZeroAbsent();
    forall p, j | p in dir' && 0 <= j < 512 ensures EntryOk(mem'[dir'[p]][j], p, j, dir') {
      assert EntryOk(mem[dir[p]][j], p, j, dir);
      assert p.Child(j) == place ==> p == up && j == i;
      assert up.Child(i) == place;
    }
    forall p | p in dir' ensures dir'[p] in mem' {}
  }

  /** Unlinking an empty table changes no walk. */
  lemma UnlinkTable(root: nat, mem: Memory, dir: Directory, place: Place)
    requires CanUnlink(root, mem, dir, place)
    ensures place.Parent() in dir
    ensures Tree(root, SetEntry(mem, dir[place.Parent()], place.slot % 512, 0), dir - {place})
    ensures forall v: nat ::
      Walk(SetEntry(mem, dir[place.Parent()], place.slot % 512, 0), root, 4, v) == Walk(mem, root, 4, v)
  {
    hide Slot, Present, Large, Addr, EntryOk;
    TreeAt(root, mem, dir, place);
    var up, i := place.Parent(), place.slot % 512;
    var mem' := SetEntry(mem, dir[up], i, 0);
    UnlinkTree(root, mem, dir, place);
    ZeroAbsent();
    FrameAll(root, mem, dir, up, i, 0);
    LeafWalks(root, mem', dir - {place}, up, i, 0);
    EmptyWalks(root, mem, dir, place);
  }

  lemma EmptyWalks(root: nat, mem: Memory, dir: Directory, place: Place)
    requires CanUnlink(root, mem, dir, place)
    ensures forall v: nat :: Slot(v, place.level + 1) == place.slot ==> Walk(mem, root, 4, v) == Hole
  {
    hide Slot, Present, Large, Addr, EntryOk;
    forall v: nat | Slot(v, place.level + 1) == place.slot ensures Walk(mem, root, 4, v) == Hole {
      Reach(root, mem, dir, v, place.level);
      assert !Present(mem[dir[place]][Slot(v, place.level) % 512]);
    }
  }

  // ----- Pruned trees are canonical -----

  /** The place's region lies within the address space. */
  ghost predicate InSpace(place: Place) {
    1 <= place.level <= 4 && place.slot < TWO_48 / Span(place.level + 1)
  }

  /** The first address of a region. */
  function Start(s: nat, level: nat): nat { s * Span(level) }

  lemma SlotOfStart(place: Place, i: nat)
    requires InSpace(place) && i < 512
    ensures Slot(Start(place.slot * 512 + i, place.level), place.level) == place.slot * 512 + i
  {
    var s := place.slot * 512 + i;
    if place.level == 1 {
      StartInSlot(s, 0x1000, 0x10_0000_0000);
    } else if place.level == 2 {
      StartInSlot(s, 0x20_0000, 0x800_0000);
    } else if place.level == 3 {
      StartInSlot(s, 0x4000_0000, 0x4_0000);
    } else {
      StartInSlot(s, 0x80_0000_0000, 512);
    }
  }

  lemma StartInSlot(s: nat, span: nat, count: nat)
    requires span > 0 && s < count
    ensures s * span < count * span && s * span / span == s
  {
    assert (count - s) * span >= span by { MulAtLeast(span, count - s); }
    DivModUnique(s * span, span, s, 0);
  }

  lemma PlacesInSpace(root: nat, dir: Directory, place: Place)
    requires Places(root, dir) && place in dir
    ensures InSpace(place)
    decreases 4 - place.level
  {
    if place.level < 4 { PlacesInSpace(root, dir, place.Parent()); }
  }

  /** Below every table of a pruned tree there is a mapped page. */
  lemma {:induction false} PageBelow(root: nat, mem: Memory, dir: Directory, place: Place) returns (v: nat)
    requires Tree(root, mem, dir) && Pruned(mem, dir) && place in dir && place.level < 4
    ensures Slot(v, place.level + 1) == place.slot
    ensures Walk(mem, root, 4, v).Page? && Walk(mem, root, 4, v).level <= place.level
    decreases place.level
  {
    hide Slot, Present, Large, Addr, InSpace, Start, Walk, Places;
    TreeAt(root, mem, dir, place);
    PlacesInSpace(root, dir, place);
    assert HasEntry(mem[dir[place]]);
    hide Pruned;
    var i :| 0 <= i < 512 && Present(mem[dir[place]][i]);
    var e := mem[dir[place]][i];
    if IsLeaf(place.level, e) {
      SlotOfStart(place, i);
      v := Start(place.slot * 512 + i, place.level);
      LeafWalks(root, mem, dir, place, i, e);
    } else {
      v := PageBelow(root, mem, dir, place.Child(i));
    }
    SlotStep(v, place.level);
  }

  /** In a pruned tree a region without pages has no table. */
  lemma NoTableInHole(root: nat, mem: Memory, dir: Directory, place: Place)
    requires Tree(root, mem, dir) && Pruned(mem, dir) && place.level < 4
    requires forall v: nat :: Slot(v, place.level + 1) == place.slot ==> Walk(mem, root, 4, v) == Hole
    ensures place !in dir
  {
    if place in dir {
      var v := PageBelow(root, mem, dir, place);
    }
  }

  /** Two pruned trees with the same walks have tables at the same places: the walks decide how many tables there are. */
  lemma Canonical(root: nat, mem: Memory, dir: Directory, root': nat, mem': Memory, dir': Directory)
    requires Tree(root, mem, dir) && Pruned(mem, dir)
    requires Tree(root', mem', dir') && Pruned(mem', dir')
    requires forall v: nat :: Walk(mem, root, 4, v) == Walk(mem', root', 4, v)
    ensures dir.Keys == dir'.Keys
  {
    forall p ensures p in dir <==> p in dir' {
      if p in dir { TableForced(root, mem, dir, root', mem', dir', p); }
      if p in dir' { TableForced(root', mem', dir', root, mem, dir, p); }
    }
  }

  lemma TableForced(root: nat, mem: Memory, dir: Directory, root': nat, mem': Memory, dir': Directory, p: Place)
    requires Tree(root, mem, dir) && Pruned(mem, dir) && Tree(root', mem', dir') && p in dir
    requires forall v: nat :: Walk(mem, root, 4, v) == Walk(mem', root', 4, v)
    ensures p in dir'
  {
    if p.level < 4 {
      var v := PageBelow(root, mem, dir, p);
      SlotStep(v, 4);
      assert Walk(mem', root', 4, v) == Walk(mem, root, 4, v);
      WalkLevel(mem', root', 4, v);
      PathOf(root', mem', dir', v, 4, p.level);
    }
  }
}
