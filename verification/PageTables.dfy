/** xtkernel/arch/x86_64/memory.c: building, walking and pruning the four-level page tables. */
module PageTables {
  import opened Bits
  import opened Results
  import opened PageEntries
  import opened PageTree
  import opened PageMapping

  predicate Zeroed(t: Table) {
    forall i :: 0 <= i < 512 ==> t[i] == 0
  }

  /** No table below the root is empty, except perhaps the one at `hole`. */
  ghost predicate PrunedExcept(mem: Memory, dir: Directory, hole: Place)
    requires forall p :: p in dir ==> dir[p] in mem
  {
    forall p :: p in dir && p.level < 4 && p != hole ==> HasEntry(mem[dir[p]])
  }

  lemma UnderNeedsChild(root: nat, dir: Directory, level: nat, s: nat, p: Place)
    requires Places(root, dir) && p in dir && 1 < level <= 4 && Under(p, level, s)
    ensures Place(level - 1, s) in dir
    decreases level - p.level
  {
    if p.level + 1 < level { UnderNeedsChild(root, dir, level, s, p.Parent()); }
  }

  lemma NothingToDrop(root: nat, dir: Directory, level: nat, s: nat)
    requires Places(root, dir) && 1 <= level <= 4 && (level > 1 ==> Place(level - 1, s) !in dir)
    ensures Drop(dir, level, s) == dir
  {
    forall p | p in dir ensures !Under(p, level, s) {
      if level > 1 && Under(p, level, s) { UnderNeedsChild(root, dir, level, s, p); }
    }
  }

  /** Free pages are zeroed and are no tables. */
  ghost predicate PoolOk(free: set<nat>, mem: Memory, dir: Directory) {
    forall f :: f in free ==> FrameOk(f) && f !in dir.Values && f in mem && Zeroed(mem[f])
  }

  /** Two neighbouring pages are free, from f on. */
  predicate IsPair(free: set<nat>, f: nat) {
    f in free && f + 0x1000 in free
  }

  /** No request of the two pages that a table takes can be met. */
  ghost predicate NoRoom(free: set<nat>) {
    forall f :: f in free ==> !IsPair(free, f)
  }

  class AddressSpace {
    const root: nat
    var mem: Memory
    var free: set<nat>
    ghost var dir: Directory

    ghost predicate Valid()
      reads this
    {
      Tree(root, mem, dir) && PoolOk(free, mem, dir)
    }

    ghost predicate IsPruned()
      requires Valid()
      reads this
    {
      Pruned(mem, dir)
    }

    /** What the hardware finds for an address. */
    ghost function Lookup(v: nat): Leaf
      reads this
    {
      Walk(mem, root, 4, v)
    }

    /** What stays the same while tables are built: a table takes two free pages. */
    ghost function BuildingBalance(): nat
      reads this
    {
      |free| + 2 * |dir|
    }

    /** What stays the same while tables are pruned: a table gives back one free page. */
    ghost function PruningBalance(): nat
      reads this
    {
      |free| + |dir|
    }

    /** A zeroed root page and a pool of zeroed frames. */
    constructor (root: nat, pool: set<nat>)
      requires root !in pool && forall f :: f in pool ==> FrameOk(f)
      ensures Valid() && IsPruned() && this.root == root && free == pool
      ensures forall v: nat :: Lookup(v) == Hole
    {
      var zero: Table := seq(512, _ => 0);
      this.root := root;
      mem := map f | f in pool + {root} :: zero;
      free := pool;
      dir := map[Place(4, 0) := root];
      new;
      ZeroAbsent();
      assert dir.Values == {root} by { assert forall p :: p in dir ==> dir[p] == root; assert dir[Place(4, 0)] == root; }
    }

    /** xtAllocatePages(NULL, 0x1000): it takes two neighbouring pages (PageRanges.OnePageBecomesTwo) and returns the
        first; which pair is left open. */
    method TakeFrame() returns (r: XTResult, f: nat)
      requires Valid()
      modifies this`free
      ensures r == XT_OUT_OF_MEMORY <==> NoRoom(old(free))
      ensures r == XT_SUCCESS || r == XT_OUT_OF_MEMORY
      ensures r == XT_SUCCESS ==> IsPair(old(free), f) && free == old(free) - {f, f + 0x1000}
      ensures r == XT_OUT_OF_MEMORY ==> free == old(free)
    {
      if !exists f :: f in free && IsPair(free, f) {
        return XT_OUT_OF_MEMORY, 0;
      }
      f :| f in free && IsPair(free, f);
      free := free - {f, f + 0x1000};
      return XT_SUCCESS, f;
    }

    /** xtGetPhysicalAddress */
    method GetPhysicalAddress(va: nat) returns (r: XTResult, out: nat)
      requires Valid() && va < TWO_64
      ensures r == XT_SUCCESS <==> Lookup(va).Page?
      ensures r == XT_SUCCESS ==> out == Physical(Lookup(va), va)
      ensures r != XT_SUCCESS ==> r == XT_NOT_FOUND
    {
      hide Slot, Present, Large, Addr, And, Or, Shr, EntryOk, Places;
      out := 0;
      var i4, i3 := And(Shr(va, 39), 0x1ff), And(Shr(va, 30), 0x1ff);
      var i2, i1 := And(Shr(va, 21), 0x1ff), And(Shr(va, 12), 0x1ff);
      IndexFields(va);
      RootTable(root, dir, va);
      var pdpte := mem[root][i4];
      PathEntry(root, mem, dir, va, 4);
      if !Present(pdpte) { return XT_NOT_FOUND, out; }
      var pdpt := Addr(pdpte);
      PathEntry(root, mem, dir, va, 3);
      var pdpe := mem[pdpt][i3];
      if !Present(pdpe) { return XT_NOT_FOUND, out; }
      if Large(pdpe) {
        return XT_SUCCESS, Or(Addr(pdpe), And(va, 0x4000_0000 - 1));
      }
      var pdp := Addr(pdpe);
      PathEntry(root, mem, dir, va, 2);
      var pde := mem[pdp][i2];
      if !Present(pde) { return XT_NOT_FOUND, out; }
      if Large(pde) {
        return XT_SUCCESS, Or(Addr(pde), And(va, 0x20_0000 - 1));
      }
      var pd := Addr(pde);
      var pte := mem[pd][i1];
      if !Present(pte) { return XT_NOT_FOUND, out; }
      return XT_SUCCESS, Or(Addr(pte), And(va, 0x1000 - 1));
    }

    /** xtGetOrMakePageTable, on the path to v. A large leaf in the slot is excluded: see PageEntries.DemotionIsUnseen. */
    method GetOrMakePageTable(table: nat, index: nat, ghost v: nat, ghost level: nat) returns (r: XTResult, out: nat)
      requires Valid() && 2 <= level <= 4
      requires Place(level, Slot(v, level + 1)) in dir && dir[Place(level, Slot(v, level + 1))] == table
      requires index == Slot(v, level) % 512
      requires Present(mem[table][index]) ==> !Large(mem[table][index])
      modifies this
      ensures Valid()
      ensures forall w: nat :: Lookup(w) == old(Lookup(w))
      ensures r == XT_SUCCESS || r == XT_OUT_OF_MEMORY
      ensures r == XT_OUT_OF_MEMORY ==> mem == old(mem) && dir == old(dir) && free == old(free) && NoRoom(free)
      ensures r == XT_SUCCESS ==> dir.Keys == old(dir).Keys + {Place(level - 1, Slot(v, level))}
      ensures r == XT_SUCCESS ==> dir[Place(level - 1, Slot(v, level))] == out
      ensures BuildingBalance() == old(BuildingBalance())
      ensures old(PrunedExcept(mem, dir, Place(level, Slot(v, level + 1)))) && r == XT_SUCCESS
          ==> PrunedExcept(mem, dir, Place(level - 1, Slot(v, level)))
    {
      hide Slot, Present, Large, Addr, Walk, EntryOk, Places;
      ghost var place, child := Place(level, Slot(v, level + 1)), Place(level - 1, Slot(v, level));
      SlotStep(v, level);
      TreeAt(root, mem, dir, place);
      assert place.Child(index) == child;
      var e := mem[table][index];
      EntryFacts(root, mem, dir, place, index);
      if !Present(e) || Large(e) {
        var newPage;
        r, newPage := TakeFrame();
        if r != XT_SUCCESS {
          return r, 0;
        }
        hide Tree;
        PairTaken(old(free), newPage);
        InstallTable(table, index, newPage, place);
        return XT_SUCCESS, newPage;
      }
      assert Present(e) ==> HasEntry(mem[table]);
      return XT_SUCCESS, Addr(e);
    }

    /** The assignment of lines 61 and 62: a frame from the pool becomes the table of an empty slot. */
    method InstallTable(table: nat, index: nat, newPage: nat, ghost place: Place)
      requires Valid() && place in dir && place.level > 1 && dir[place] == table && index < 512
      requires !Present(mem[table][index])
      requires FrameOk(newPage) && newPage in mem && Zeroed(mem[newPage]) && newPage !in dir.Values && newPage !in free
      modifies this`mem, this`dir
      ensures Valid() && place.Child(index) !in old(dir) && dir == old(dir)[place.Child(index) := newPage]
      ensures forall w: nat :: Lookup(w) == old(Lookup(w))
      ensures dir.Values == old(dir.Values) + {newPage}
      ensures old(PrunedExcept(mem, dir, place)) ==> PrunedExcept(mem, dir, place.Child(index))
    {
      hide Slot, Present, Large, Addr, Walk, EntryOk, DirWord;
      var e := mem[table][index];
      EntryFacts(root, mem, dir, place, index);
      DirWordFields(newPage);
      var word := DirWord(newPage, e);
      DirWordIsWord(newPage, e);
      LinkTable(root, mem, dir, place, index, newPage, word);
      ghost var before, beforeDir := mem, dir;
      mem := SetEntry(mem, table, index, word);
      dir := dir[place.Child(index) := newPage];
      ValuesOfNew(beforeDir, place.Child(index), newPage);
      assert table in beforeDir.Values;
      LinkKeepsEntries(before, beforeDir, mem, dir, place, index, place.Child(index), word);
    }

    /** `entries[index] = word` for a leaf. */
    method StoreLeaf(table: nat, index: nat, word: Word, ghost place: Place)
      requires Valid() && place in dir && dir[place] == table && index < 512
      requires Present(word) && IsLeaf(place.level, word)
      modifies this`mem, this`dir
      ensures Valid() && dir == Drop(old(dir), place.level, place.slot * 512 + index)
      ensures forall w: nat :: Lookup(w) ==
                (if Slot(w, place.level) == place.slot * 512 + index then Page(place.level, word) else old(Lookup(w)))
      ensures old(PrunedExcept(mem, dir, place)) ==> IsPruned()
    {
      hide Slot, Present, Large, Addr, Walk, EntryOk, Places;
      TreeAt(root, mem, dir, place);
      PutLeaf(root, mem, dir, place, index, word);
      ghost var before, beforeDir := mem, dir;
      mem := SetEntry(mem, table, index, word);
      dir := Drop(dir, place.level, place.slot * 512 + index);
      forall p | p in dir && p.level < 4 && PrunedExcept(before, beforeDir, place) ensures HasEntry(mem[dir[p]]) {
        KeepsEntry(before, table, index, word, dir[p]);
      }
    }

    /** The same on the path to v. */
    method StorePage(table: nat, index: nat, word: Word, ghost v: nat, ghost size: nat)
      requires Valid() && 1 <= size <= 3 && Place(size, Slot(v, size + 1)) in dir
      requires dir[Place(size, Slot(v, size + 1))] == table && index == Slot(v, size) % 512
      requires Present(word) && (size > 1 ==> Large(word))
      modifies this`mem, this`dir
      ensures Valid()
      ensures forall w: nat :: Lookup(w) == if Slot(w, size) == Slot(v, size) then Page(size, word) else old(Lookup(w))
      ensures old(PrunedExcept(mem, dir, Place(size, Slot(v, size + 1)))) ==> IsPruned()
      ensures size == 1 || Place(size - 1, Slot(v, size)) !in old(dir) ==> BuildingBalance() == old(BuildingBalance())
    {
      hide Slot, Present, Large, Addr, Walk, EntryOk, Places, Tree, Drop;
      SlotStep(v, size);
      Storing(root, mem, dir, v, size);
      StoreLeaf(table, index, word, Place(size, Slot(v, size + 1)));
    }

    /** One turn of the loop of xtSetPages, lines 137 to 192: one page of the chosen size. */
    method MapPage(va64: nat, pa64: nat, pageSize: nat, flags: nat, ghost size: nat) returns (r: XTResult)
      requires Valid() && va64 < TWO_64 && FrameOk(pa64) && LeafFlags(flags)
      requires 1 <= size <= 3 && pageSize == Span(size)
      requires Lookup(va64).Page? ==> Lookup(va64).level <= size
      modifies this
      ensures Valid() && (r == XT_SUCCESS || r == XT_OUT_OF_MEMORY)
      ensures r == XT_OUT_OF_MEMORY ==> NoRoom(free) && forall w: nat :: Lookup(w) == old(Lookup(w))
      ensures LeafWord(pa64, flags, size > 1) < TWO_64
      ensures r == XT_SUCCESS ==> MapsPage(va64, size, LeafWord(pa64, flags, size > 1))
      ensures r == XT_SUCCESS && old(IsPruned()) ==> IsPruned()
      ensures size == 1 || Place(size - 1, Slot(va64, size)) !in old(dir) ==> BuildingBalance() == old(BuildingBalance())
    {
      hide Slot, Present, Large, Addr, And, Or, Shr, LeafWord, LeafFlags, Span, PrunedExcept;
      hide Valid, Lookup, IsPruned, BuildingBalance;
      var i4, i3 := And(Shr(va64, 39), 0x1ff), And(Shr(va64, 30), 0x1ff);
      var i2, i1 := And(Shr(va64, 21), 0x1ff), And(Shr(va64, 12), 0x1ff);
      IndexFields(va64);
      LeafWordFields(pa64, flags, size > 1);
      SizeTest(size);
      var word := LeafWord(pa64, flags, pageSize != 0x1000);
      var pdpt, pd, pt;
      RootOnPath(va64);
      NoLargeOnPath(va64, 4, size);
      r, pdpt := GetOrMakePageTable(root, i4, va64, 4);
      if r != XT_SUCCESS { return; }
      if pageSize == 0x4000_0000 {
        StorePage(pdpt, i3, word, va64, size);
        return;
      }
      NoLargeOnPath(va64, 3, size);
      r, pd := GetOrMakePageTable(pdpt, i3, va64, 3);
      if r != XT_SUCCESS { return; }
      if pageSize == 0x20_0000 {
        StorePage(pd, i2, word, va64, size);
        return;
      }
      NoLargeOnPath(va64, 2, size);
      r, pt := GetOrMakePageTable(pd, i2, va64, 2);
      if r != XT_SUCCESS { return; }
      StorePage(pt, i1, word, va64, size);
    }

    lemma RootOnPath(v: nat)
      requires Valid()
      ensures Slot(v, 5) == 0 && Place(4, Slot(v, 5)) in dir && dir[Place(4, Slot(v, 5))] == root
      ensures IsPruned() ==> PrunedExcept(mem, dir, Place(4, Slot(v, 5)))
    {
      RootOf(root, mem, dir, v);
    }

    lemma NoLargeOnPath(v: nat, level: nat, bound: nat)
      requires Valid() && 1 <= bound < level <= 4 && Place(level, Slot(v, level + 1)) in dir
      requires Lookup(v).Page? ==> Lookup(v).level <= bound
      ensures var t := dir[Place(level, Slot(v, level + 1))];
        t in mem && (Present(mem[t][Slot(v, level) % 512]) ==> !Large(mem[t][Slot(v, level) % 512]))
    {
      NoLargeAbove(root, mem, dir, v, level, bound);
    }

    /** Exactly the addresses in v's block of the given size changed, to this leaf. */
    twostate predicate MapsPage(v: nat, size: nat, word: Word)
      reads this
    {
      forall w: nat :: Lookup(w) == if Slot(w, size) == Slot(v, size) then Page(size, word) else old(Lookup(w))
    }

    /** No large page already there would have to be split: each one the range touches is replaced as a whole. */
    ghost predicate NoCut(base: nat, pa: nat, size: nat)
      reads this
    {
      forall v: nat :: InRange(v, base, size) && Lookup(v).Page? && Lookup(v).level > 1
        ==> Fits(Lookup(v).level, v, base, pa, size)
    }

    /** No address of the range is mapped. */
    ghost predicate Unmapped(base: nat, size: nat)
      reads this
    {
      forall v: nat :: InRange(v, base, size) ==> Lookup(v) == Hole
    }

    /** xtSetPages: a map update, whatever mix of page sizes is used. */
    method SetPages(va: nat, pa: nat, length: nat, attributes: nat) returns (r: XTResult, ghost done: nat)
      requires Valid() && va < TWO_64 && GoodRange(va % TWO_48, pa, length)
      requires NoCut(va % TWO_48, pa, length)
      modifies this
      ensures Valid() && LeafFlags(BuildFlags(attributes)) && (r == XT_SUCCESS || r == XT_OUT_OF_MEMORY)
      ensures done <= length && (r == XT_SUCCESS ==> done == length) && (r == XT_OUT_OF_MEMORY ==> NoRoom(free))
      ensures forall v: nat ::
        Lookup(v) == Target(old(Lookup(v)), v, va % TWO_48, pa, length, BuildFlags(attributes), done)
      ensures forall v: nat :: InRange(v, va % TWO_48, done) ==> Grants(Lookup(v), v, va % TWO_48, pa, length, attributes)
      ensures r == XT_SUCCESS && old(IsPruned()) ==> IsPruned()
      ensures old(IsPruned() && Unmapped(va % TWO_48, length)) ==> BuildingBalance() == old(BuildingBalance())
    {
      hide Valid, Lookup, IsPruned, BuildingBalance, Mapped, BuildFlags, LeafFlags, Slot, Fits, AtBoundary, LeafWord, Span;
      hide PageLevel, Wrap, Grants;
      BuildFlagsBits(attributes);
      var va64, pa64, size := va, pa, length;
      var flags := BuildFlags(attributes);
      ghost var base, p := va % TWO_48, va % TWO_48;
      done := 0;
      if size > 0 { FirstBoundary(base, pa, length); }
      WrapSmall(va);
      while size != 0
        invariant p == base + done && done <= length && size == length - done && pa64 == pa + done
        invariant va64 == Wrap(va + done)
        invariant size > 0 ==> AtBoundary(p, base, pa, length)
        invariant Valid()
        invariant forall v: nat :: Lookup(v) == Target(old(Lookup(v)), v, base, pa, length, flags, done)
        invariant old(IsPruned()) ==> IsPruned()
        invariant old(IsPruned() && Unmapped(va % TWO_48, length)) ==> BuildingBalance() == old(BuildingBalance())
      {
        ghost var level := PageLevel(p, base, pa, length);
        TestAt(va64, p, base, pa, length);
        WrappedSum(va, done);
        var pageSize;
        if va64 % 0x4000_0000 == 0 && pa64 % 0x4000_0000 == 0 && size >= 0x4000_0000 {
          pageSize := 0x4000_0000;
        } else if va64 % 0x20_0000 == 0 && pa64 % 0x20_0000 == 0 && size >= 0x20_0000 {
          pageSize := 0x20_0000;
        } else {
          pageSize := 0x1000;
        }
        SlotOfLow(va64, level);
        StepMapped(p, p, base, pa, length, flags);
        NoLargerPage(va64, p, base, pa, length);
        if old(IsPruned() && Unmapped(va % TWO_48, length)) {
          NoTableAhead(p, base, pa, length);
        }
        label Before:
        r := MapPage(va64, pa64, pageSize, flags, level);
        if r != XT_SUCCESS {
          forall v: nat | InRange(v, base, done) { TargetGrants(old(Lookup(v)), v, base, pa, length, attributes, done); }
          return;
        }
        forall v: nat
          ensures Lookup(v) == Target(old(Lookup(v)), v, base, pa, length, flags, done + pageSize)
        {
          StepMapped(v, p, base, pa, length, flags);
        }
        if p + pageSize < base + length { NextBoundary(p, base, pa, length); }
        WrapTwice(va, done, pageSize);
        va64 := Wrap(va64 + pageSize);
        pa64 := pa64 + pageSize;
        size := size - pageSize;
        p, done := p + pageSize, done + pageSize;
      }
      forall v: nat | InRange(v, base, done) { TargetGrants(old(Lookup(v)), v, base, pa, length, attributes, done); }
      r := XT_SUCCESS;
    }

    /** The page found ahead is not larger than the one about to be stored. */
    lemma NoLargerPage(va64: nat, p: nat, base: nat, pa: nat, size: nat)
      requires GoodRange(base, pa, size) && base <= p < base + size && va64 % TWO_48 == p
      requires Lookup(va64).Page? && Lookup(va64).level > 1 ==> Fits(Lookup(va64).level, va64, base, pa, size)
      ensures Lookup(va64).Page? ==> Lookup(va64).level <= PageLevel(p, base, pa, size)
    {
      hide Slot, Fits, PageLevel;
      if Lookup(va64).Page? {
        WalkLevel(mem, root, 4, va64);
        FitsOfLow(Lookup(va64).level, va64, base, pa, size);
        FitsMeansLevel(Lookup(va64).level, p, base, pa, size);
      }
    }

    lemma NoTableAhead(p: nat, base: nat, pa: nat, size: nat)
      requires Valid() && IsPruned() && GoodRange(base, pa, size) && base <= p < base + size
      requires AtBoundary(p, base, pa, size)
      requires forall v: nat :: p <= v % TWO_48 < base + size ==> Lookup(v) == Hole
      ensures var level := PageLevel(p, base, pa, size); level == 1 || Place(level - 1, Slot(p, level)) !in dir
    {
      hide Slot, Fits, Block, Tree, Pruned, Walk;
      var level := PageLevel(p, base, pa, size);
      TestIsPageLevel(p, base, pa, size);
      forall v: nat | Slot(v, level) == Slot(p, level) ensures Walk(mem, root, 4, v) == Hole {
        BlockRange(v, p, level);
        assert Lookup(v) == Hole;
      }
      if level > 1 { NoTableInHole(root, mem, dir, Place(level - 1, Slot(p, level))); }
    }

    /** xtIsTableEmpty */
    method IsTableEmpty(table: nat) returns (empty: bool)
      requires table in mem
      ensures empty <==> !HasEntry(mem[table])
    {
      hide Present;
      var i := 0;
      while i < 512
        invariant 0 <= i <= 512
        invariant forall j :: 0 <= j < i ==> !Present(mem[table][j])
      {
        if Present(mem[table][i]) { return false; }
        i := i + 1;
      }
      return true;
    }

    /** `entries[index] = 0` where no table hangs, on the path to v. */
    method ClearLeaf(table: nat, index: nat, ghost v: nat, ghost level: nat)
      requires Valid() && 1 <= level <= 4 && OnPath(mem, dir, v, level, table) && index == Slot(v, level) % 512
      requires Present(mem[table][index]) ==> IsLeaf(level, mem[table][index])
      modifies this`mem
      ensures Valid() && mem.Keys == old(mem.Keys)
      ensures forall w: nat :: Lookup(w) == if Slot(w, level) == Slot(v, level) then Hole else old(Lookup(w))
      ensures old(IsPruned()) ==> PrunedExcept(mem, dir, Place(level, Slot(v, level + 1)))
    {
      hide Slot, Present, Large, Addr, Walk, EntryOk, Places;
      ghost var place := Place(level, Slot(v, level + 1));
      SlotStep(v, level);
      TreeAt(root, mem, dir, place);
      EntryFacts(root, mem, dir, place, index);
      ClearEntry(root, mem, dir, place, index);
      ClearKeepsOthers(root, mem, dir, place, index);
      mem := SetEntry(mem, table, index, 0);
    }

    /** xtFreePages on an empty table, and the entry that pointed to it cleared. */
    method FreeTable(table: nat, parent: nat, index: nat, ghost v: nat, ghost level: nat)
      requires Valid() && 1 <= level <= 3 && OnPath(mem, dir, v, level, table) && OnPath(mem, dir, v, level + 1, parent)
      requires index == Slot(v, level + 1) % 512 && !HasEntry(mem[table])
      modifies this
      ensures Valid() && dir == old(dir) - {Place(level, Slot(v, level + 1))} && mem.Keys == old(mem.Keys)
      ensures OnPath(mem, dir, v, level + 1, parent)
      ensures forall w: nat :: Lookup(w) == old(Lookup(w))
      ensures PruningBalance() == old(PruningBalance())
      ensures old(PrunedExcept(mem, dir, Place(level, Slot(v, level + 1))))
          ==> PrunedExcept(mem, dir, Place(level + 1, Slot(v, level + 2)))
    {
      hide Slot, Present, Large, Addr, Walk, EntryOk, Places, Tree, PoolOk, PrunedExcept, HasEntry, Zeroed;
      ghost var place := Place(level, Slot(v, level + 1));
      SlotStep(v, level + 1);
      assert place.Parent() == Place(level + 1, Slot(v, level + 2));
      TableFreed(root, mem, dir, free, place);
      free := free + {table};
      mem := SetEntry(mem, parent, index, 0);
      dir := dir - {place};
    }

    /** The table on the path to v at the given level. */
    ghost predicate On(v: nat, level: nat, table: nat)
      reads this
    {
      OnPath(mem, dir, v, level, table)
    }

    /** Lines 267 to 270 and their repetitions: a table that became empty is freed and unlinked. */
    method PruneTable(table: nat, parent: nat, index: nat, ghost v: nat, ghost level: nat)
      requires Valid() && 1 <= level <= 3 && On(v, level, table) && On(v, level + 1, parent)
      requires index == Slot(v, level + 1) % 512
      modifies this
      ensures Valid() && PruningBalance() == old(PruningBalance())
      ensures forall l, t :: level < l && old(On(v, l, t)) ==> On(v, l, t)
      ensures forall w: nat :: Lookup(w) == old(Lookup(w))
      ensures old(PrunedExcept(mem, dir, Place(level, Slot(v, level + 1))))
          ==> PrunedExcept(mem, dir, Place(level + 1, Slot(v, level + 2)))
    {
      hide Slot, Present, Tree, Walk;
      var empty := IsTableEmpty(table);
      if empty {
        FreeTable(table, parent, index, v, level);
      }
    }

    /** What the entry at one level of the path says. */
    lemma EntryOnPath(v: nat, level: nat, table: nat)
      requires Valid() && 1 <= level <= 4 && On(v, level, table)
      ensures table in mem
      ensures var e := mem[table][Slot(v, level) % 512];
        && (!Present(e) ==> Lookup(v) == Hole)
        && (Present(e) && IsLeaf(level, e) ==> Lookup(v) == Page(level, e))
        && (Present(e) && !IsLeaf(level, e) ==> level > 1 && On(v, level - 1, Addr(e)))
    {
      hide Slot, Present, Large, Addr, EntryOk, Places;
      Reach(root, mem, dir, v, level);
      if level > 1 { PathEntry(root, mem, dir, v, level); }
    }

    lemma RootIsOn(v: nat)
      requires Valid()
      ensures On(v, 4, root)
    {
      RootTable(root, dir, v);
    }

    /** Nothing is mapped in the level-sized region of v. */
    ghost predicate Bare(v: nat, level: nat)
      reads this
    {
      forall w: nat :: Slot(w, level) == Slot(v, level) ==> Lookup(w) == Hole
    }

    /** The stride over a hole in pruned tables: what is mapped around it decides. */
    ghost function Skip(v: nat): nat
      reads this
    {
      if Bare(v, 4) then 0 else if Bare(v, 3) then Span(3) else if Bare(v, 2) then Span(2) else Span(1)
    }

    lemma SkipIs(v: nat)
      requires Valid() && IsPruned() && Lookup(v) == Hole
      ensures Stride(AbsentAt(mem, root, 4, v)) == Skip(v)
      ensures AbsentAt(mem, root, 4, v) == 4 <==> Bare(v, 4)
    {
      hide Slot, Walk, Tree, Pruned, AbsentAt;
      AbsentBare(root, mem, dir, v, 4);
      AbsentBare(root, mem, dir, v, 3);
      AbsentBare(root, mem, dir, v, 2);
      AbsentRange(mem, root, 4, v);
    }

    /** One turn of the loop of xtUnsetPages, lines 224 to 284. Over an absent entry the stride is the span of that
        entry, counted from the address as it is, except that over an absent root entry it is 0: the loop then stays
        where it is for ever. In pruned tables this is so exactly where nothing is mapped in the 512 GiB around. */
    method RemovePage(va64: nat) returns (pageSize: nat)
      requires Valid() && va64 < TWO_64
      modifies this
      ensures Valid() && PruningBalance() == old(PruningBalance())
      ensures old(Lookup(va64)).Page? ==> pageSize == Span(old(Lookup(va64)).level)
      ensures old(Lookup(va64)).Page? ==> forall w: nat ::
        Lookup(w) == if Slot(w, old(Lookup(va64)).level) == Slot(va64, old(Lookup(va64)).level) then Hole else old(Lookup(w))
      ensures old(Lookup(va64)) == Hole ==> pageSize == Stride(AbsentAt(old(mem), root, 4, va64))
      ensures old(Lookup(va64)) == Hole ==> forall w: nat :: Lookup(w) == old(Lookup(w))
      ensures old(Lookup(va64)) == Hole && AbsentAt(old(mem), root, 4, va64) == 4
          ==> pageSize == 0 && mem == old(mem) && dir == old(dir) && free == old(free)
      ensures old(Lookup(va64)) == Hole && old(IsPruned()) ==> pageSize == old(Skip(va64)) && (pageSize == 0 <==> old(Bare(va64, 4)))
      ensures old(IsPruned()) ==> IsPruned()
    {
      hide Slot, Present, Large, Addr, And, Or, Shr, PrunedExcept, Valid, Lookup, IsPruned, PruningBalance, On, AbsentAt, Skip, Bare;
      if Lookup(va64) == Hole && IsPruned() { SkipIs(va64); }
      var i4, i3 := And(Shr(va64, 39), 0x1ff), And(Shr(va64, 30), 0x1ff);
      var i2, i1 := And(Shr(va64, 21), 0x1ff), And(Shr(va64, 12), 0x1ff);
      IndexFields(va64);
      RootIsOn(va64);
      EntryOnPath(va64, 4, root);
      AbsentStep(mem, root, 4, va64);
      if !Present(mem[root][i4]) {
        return 0x4000_0000 * 512 % TWO_32;
      }
      var pdpt := Addr(mem[root][i4]);
      EntryOnPath(va64, 3, pdpt);
      AbsentStep(mem, pdpt, 3, va64);
      if !Present(mem[pdpt][i3]) {
        return 0x4000_0000;
      }
      if Large(mem[pdpt][i3]) {
        ClearOnPath(pdpt, i3, va64, 3);
        pageSize := 0x4000_0000;
      } else {
        var pd := Addr(mem[pdpt][i3]);
        EntryOnPath(va64, 2, pd);
        AbsentStep(mem, pd, 2, va64);
        if !Present(mem[pd][i2]) {
          return 0x20_0000;
        }
        if Large(mem[pd][i2]) {
          ClearOnPath(pd, i2, va64, 2);
          pageSize := 0x20_0000;
        } else {
          var pt := Addr(mem[pd][i2]);
          EntryOnPath(va64, 1, pt);
          AbsentStep(mem, pt, 1, va64);
          SamePageAs(va64);
          ClearOnPath(pt, i1, va64, 1);
          pageSize := 0x1000;
          PruneTable(pt, pd, i2, va64, 1);
        }
        PruneTable(pd, pdpt, i3, va64, 2);
      }
      PruneTable(pdpt, root, i4, va64, 3);
      PrunedAtRoot(va64);
    }

    lemma SamePageAs(v: nat)
      requires Valid()
      ensures forall w: nat :: Slot(w, 1) == Slot(v, 1) ==> Lookup(w) == Lookup(v)
    {
      hide Slot, Walk, Tree;
      forall w: nat | Slot(w, 1) == Slot(v, 1) ensures Walk(mem, root, 4, w) == Walk(mem, root, 4, v) {
        SameSmallPage(mem, root, 4, v, w);
      }
    }

    lemma PrunedAtRoot(v: nat)
      requires Valid()
      ensures PrunedExcept(mem, dir, Place(4, Slot(v, 5))) ==> IsPruned()
    {}

    method ClearOnPath(table: nat, index: nat, ghost v: nat, ghost level: nat)
      requires Valid() && 1 <= level <= 4 && On(v, level, table) && index == Slot(v, level) % 512
      requires table in mem && (Present(mem[table][index]) ==> IsLeaf(level, mem[table][index]))
      modifies this`mem
      ensures Valid() && PruningBalance() == old(PruningBalance())
      ensures forall l, t :: old(On(v, l, t)) ==> On(v, l, t)
      ensures forall w: nat :: Lookup(w) == if Slot(w, level) == Slot(v, level) then Hole else old(Lookup(w))
      ensures old(IsPruned()) ==> PrunedExcept(mem, dir, Place(level, Slot(v, level + 1)))
    {
      hide Slot, Present, Large, Tree, Walk, Lookup, IsPruned, Pruned;
      ClearLeaf(table, index, v, level);
    }

    /** The range is made of whole pages and guarded holes. */
    ghost predicate Clearable(base: nat, size: nat)
      reads this
    {
      && (size > 0 ==> base % 0x1000 == 0)
      && forall v: nat :: InRange(v, base, size) ==> WholePage(Lookup(v), v, base, size) || Guarded(mem, root, v, base, size)
    }

    lemma FirstStep(base: nat, size: nat)
      requires Clearable(base, size) && size > 0 && base + size <= TWO_48
      ensures AtStep(Lookup(base), base)
    {
      hide WholePage, Guards, Walk;
      PositionInRange(base, base, size);
      if Lookup(base).Page? { FirstPage(Lookup(base), base, size); } else { SmallSpan(); }
    }

    lemma ClearableAt(p: nat, base: nat, size: nat)
      requires Clearable(base, size) && base <= p < base + size <= TWO_48
      ensures CanGo(mem, root, p, base, size)
    {
      hide Walk, Guarded, WholePage;
      PositionInRange(p, base, size);
    }

    /** A turn that starts where a page or a guarded small hole does removes what lies within its stride. */
    method RemoveStep(va64: nat, ghost p: nat, ghost level: nat) returns (pageSize: nat)
      requires Valid() && va64 < TWO_64 && p == va64 % TWO_48 && AtStep(Lookup(va64), p)
      requires level == StepLevel(Lookup(va64)) && 1 <= level <= 3
      requires Lookup(va64) == Hole ==> AbsentAt(mem, root, 4, va64) == 1
      modifies this
      ensures Valid() && PruningBalance() == old(PruningBalance()) && pageSize == Span(level)
      ensures Cleared(old(mem), mem, root, p, pageSize)
      ensures old(IsPruned()) ==> IsPruned()
    {
      hide Valid, IsPruned, PruningBalance, Slot, Walk, Span, AbsentAt, Skip, Bare;
      pageSize := RemovePage(va64);
      forall v: nat ensures Lookup(v) == if InRange(v, p, pageSize) then Hole else old(Lookup(v)) {
        BlockRange(v, p, level);
        SlotOfLow(va64, level);
        if old(Lookup(va64)) == Hole && Slot(v, 1) == Slot(va64, 1) { SameSmallHole(old(mem), root, va64, v); }
      }
    }

    /** xtUnsetPages removes exactly the range and keeps the tables pruned: ranges may have holes, if they are guarded. */
    method UnsetPages(va: nat, length: nat) returns (r: XTResult)
      requires Valid() && va < TWO_64 && length % 0x1000 == 0 && va % TWO_48 + length <= TWO_48
      requires Clearable(va % TWO_48, length)
      modifies this
      ensures Valid() && r == XT_SUCCESS && PruningBalance() == old(PruningBalance())
      ensures forall v: nat :: Lookup(v) == if InRange(v, va % TWO_48, length) then Hole else old(Lookup(v))
      ensures old(IsPruned()) ==> IsPruned()
    {
      hide Tree, IsPruned, PruningBalance, Walk, Span, AtStep, Wrap, AbsentAt, Guarded, WholePage, Clearable;
      ghost var mem0 := mem;
      var va64, size := va, length;
      ghost var base, p, done := va % TWO_48, va % TWO_48, 0;
      if size > 0 { FirstStep(base, length); }
      forall q: nat | base <= q < base + length ensures CanGo(mem0, root, q, base, length) { ClearableAt(q, base, length); }
      WrapSmall(va);
      while size != 0
        invariant p == base + done && 0 <= done <= length && size == length - done
        invariant va64 == Wrap(va + done)
        invariant Valid() && PruningBalance() == old(PruningBalance())
        invariant Cleared(mem0, mem, root, base, done)
        invariant size > 0 ==> AtStep(old(Lookup(p)), p)
        invariant old(IsPruned()) ==> IsPruned()
      {
        WrappedSum(va, done);
        ghost var level := StepLevel(old(Lookup(p)));
        assert CanGo(mem0, root, p, base, length);
        NextTurn(root, mem0, mem, dir, va64, base, length, done);
        ghost var before := mem;
        var pageSize := RemoveStep(va64, p, level);
        ClearedMore(mem0, before, mem, root, base, done, pageSize);
        if p + pageSize < base + length {
          StepAhead(mem0, root, p, level);
          assert AtStep(old(Lookup(p + pageSize)), p + pageSize);
        }
        WrapTwice(va, done, pageSize);
        va64 := Wrap(va64 + pageSize);
        size := Left(size, pageSize);
        p, done := p + pageSize, done + pageSize;
      }
      return XT_SUCCESS;
    }

    /** The turns of xtUnsetPages(0x1000, 0x20_0000) where the first page is alone in its 2 MiB: its table is pruned, the
        stride over the hole behind it starts at 0x2000, and the page at 0x20_0000 survives, although it lies in the range. */
    method SkippedPage() returns (va64: nat, size: nat)
      requires Valid() && IsPruned() && Lookup(0x1000).Page? && Lookup(0x1000).level == 1 && Lookup(0x20_0000).Page?
      requires forall v: nat :: Slot(v, 2) == 0 && Slot(v, 1) != 1 ==> Lookup(v) == Hole
      modifies this
      ensures InRange(0x20_0000, 0x1000, 0x20_0000) && size == 0
      ensures Valid() && Lookup(0x20_0000) == old(Lookup(0x20_0000))
    {
      FirstSlots();
      assert InRange(0x20_0000, 0x1000, 0x20_0000);
      hide Valid, IsPruned, Lookup, PruningBalance, Slot, AbsentAt, Bare, Skip, InRange;
      va64, size := 0x1000, 0x20_0000;
      var pageSize := RemovePage(va64);
      va64, size := va64 + pageSize, Left(size, pageSize);
      SkipAhead();
      pageSize := RemovePage(va64);
      va64, size := va64 + pageSize, Left(size, pageSize);
    }

    lemma SkipAhead()
      requires Lookup(0x20_0000).Page? && forall v: nat :: Slot(v, 2) == 0 ==> Lookup(v) == Hole
      ensures Lookup(0x2000) == Hole && Skip(0x2000) == 0x20_0000
    {
      FirstSlots();
      hide Lookup, Slot;
    }

    /** After a successful mapping, the walk of the i-th address of the range gives the i-th physical address. */
    method SetThenWalk(va: nat, pa: nat, length: nat, attributes: nat, i: nat) returns (r: XTResult, out: nat)
      requires Valid() && va < TWO_64 && GoodRange(va % TWO_48, pa, length) && i < length
      requires NoCut(va % TWO_48, pa, length)
      modifies this
      ensures Valid() && (r == XT_SUCCESS || (r == XT_OUT_OF_MEMORY && NoRoom(free)))
      ensures r == XT_SUCCESS ==> out == pa + i
    {
      hide Walk, Tree, Mapped, BuildFlags, Fits, LeafFlags;
      ghost var done;
      out := 0;
      r, done := SetPages(va, pa, length, attributes);
      if r == XT_SUCCESS {
        WrappedSum(va, i);
        var v := Wrap(va + i);
        MappedTranslates(v, va % TWO_48, pa, length, BuildFlags(attributes));
        MappedIsWhole(v, va % TWO_48, pa, length, BuildFlags(attributes));
        assert Lookup(v) == Mapped(v, va % TWO_48, pa, length, BuildFlags(attributes));
        r, out := GetPhysicalAddress(v);
      }
    }

    /** Mapping an unmapped range and unmapping it again restores every walk and the places of all tables, but each
        table built in between costs a page: the free pages are restored only if the mapping needs no new table. */
    method SetThenUnset(va: nat, pa: nat, length: nat, attributes: nat) returns (r: XTResult, ghost built: set<Place>)
      requires Valid() && IsPruned() && va < TWO_64 && GoodRange(va % TWO_48, pa, length)
      requires Unmapped(va % TWO_48, length)
      modifies this
      ensures Valid() && (r == XT_SUCCESS || r == XT_OUT_OF_MEMORY)
      ensures r == XT_SUCCESS ==>
        && (forall v: nat :: Lookup(v) == old(Lookup(v))) && IsPruned() && dir.Keys == old(dir).Keys
        && (forall p :: p in built <==> Needed(p, va % TWO_48, pa, length) && p !in old(dir))
        && |free| == |old(free)| - |built|
      ensures r == XT_SUCCESS ==> (|free| == |old(free)| <==> TablesThere(old(dir), va % TWO_48, pa, length))
    {
      hide Slot, Walk, Span, Mapped, Fits, Present, Large, Addr, PageLevel, BuildFlags, LeafFlags, Needed, WholePage;
      ghost var mem0, dir0, free0 := mem, dir, free;
      ghost var done;
      built := {};
      r, done := SetPages(va, pa, length, attributes);
      if r != XT_SUCCESS { return; }
      ghost var mem1, dir1, free1 := mem, dir, free;
      forall v: nat
        ensures Walk(mem1, root, 4, v) == Target(Walk(mem0, root, 4, v), v, va % TWO_48, pa, length, BuildFlags(attributes), length)
        ensures InRange(v, va % TWO_48, length) ==> Walk(mem0, root, 4, v) == Hole
      {
        assert Lookup(v) == Walk(mem1, root, 4, v) && old(Lookup(v)) == Walk(mem0, root, 4, v);
      }
      TablesBuilt(root, mem0, dir0, mem1, dir1, va % TWO_48, pa, length, BuildFlags(attributes));
      built := dir1.Keys - dir0.Keys;
      CountBuilt(dir0, dir1);
      forall v: nat | InRange(v, va % TWO_48, length)
        ensures WholePage(Lookup(v), v, va % TWO_48, length)
      {
        MappedIsWhole(v, va % TWO_48, pa, length, BuildFlags(attributes));
      }
      r := UnsetPages(va, length);
      forall v: nat ensures Walk(mem0, root, 4, v) == Walk(mem, root, 4, v) {
        assert Lookup(v) == old(Lookup(v));
      }
      Canonical(root, mem0, dir0, root, mem, dir);
      SameSize(dir0, dir);
      NothingBuilt(dir0, built, va % TWO_48, pa, length);
    }
  }

  /** The mapping of a range walks through the table at p: the table lies above the page of some address of it. */
  ghost predicate Needed(p: Place, base: nat, pa: nat, size: nat) {
    exists v: nat :: InRange(v, base, size) && OnWay(p, v, PageLevel(v, base, pa, size))
  }

  predicate OnWay(p: Place, v: nat, level: nat) {
    level <= p.level <= 3 && p.slot == Slot(v, p.level + 1)
  }

  /** No table has to be built for the range. */
  ghost predicate TablesThere(dir: Directory, base: nat, pa: nat, size: nat) {
    forall p :: Needed(p, base, pa, size) ==> p in dir
  }

  /** A single page needs three tables, so mapping and unmapping it in an empty space costs three pages. */
  lemma OnePageNeedsThree(base: nat, pa: nat, p: Place)
    requires GoodRange(base, pa, 0x1000)
    ensures Needed(p, base, pa, 0x1000)
       <==> p in {Place(1, Slot(base, 2)), Place(2, Slot(base, 3)), Place(3, Slot(base, 4))}
  {
    hide Slot;
    assert forall v: nat :: PageLevel(v, base, pa, 0x1000) == 1;
    forall v: nat | InRange(v, base, 0x1000) ensures 1 <= p.level <= 3 ==> Slot(v, p.level + 1) == Slot(base, p.level + 1) {
      BlockRange(v, base, 1);
      SlotsAgree(v, base, p.level + 1);
    }
    assert InRange(base, base, 0x1000);
    assert PageLevel(base, base, pa, 0x1000) == 1;
    if 1 <= p.level <= 3 && p.slot == Slot(base, p.level + 1) {
      assert OnWay(p, base, PageLevel(base, base, pa, 0x1000));
    }
  }

  lemma SlotsAgree(v: nat, w: nat, level: nat)
    requires Slot(v, 1) == Slot(w, 1)
    ensures 1 <= level <= 4 ==> Slot(v, level) == Slot(w, level)
  {
    hide Slot;
    if 1 <= level <= 4 { SlotsAgreeAbove(v, w, 1, level); }
  }

  /** Mapping an unmapped range builds exactly the tables it needs that were not there. */
  lemma TablesBuilt(root: nat, mem: Memory, dir: Directory, mem': Memory, dir': Directory,
                    base: nat, pa: nat, size: nat, flags: nat)
    requires Tree(root, mem, dir) && Pruned(mem, dir) && Tree(root, mem', dir') && Pruned(mem', dir')
    requires GoodRange(base, pa, size) && LeafFlags(flags)
    requires forall v: nat :: InRange(v, base, size) ==> Walk(mem, root, 4, v) == Hole
    requires forall v: nat :: Walk(mem', root, 4, v) == Target(Walk(mem, root, 4, v), v, base, pa, size, flags, size)
    ensures forall p :: p in dir' <==> p in dir || Needed(p, base, pa, size)
  {
    hide Slot, Walk, Mapped, Fits, Present, Large, Addr, PageLevel, LeafFlags, Tree, Pruned, Needed;
    forall p ensures p in dir' <==> p in dir || Needed(p, base, pa, size) {
      if p in dir { TableStays(root, mem, dir, mem', dir', base, size, p); }
      if Needed(p, base, pa, size) { TableNeeded(root, mem', dir', base, pa, size, flags, p); }
      if p in dir' && p !in dir { TableNew(root, mem, dir, mem', dir', base, pa, size, flags, p); }
    }
  }

  lemma TableStays(root: nat, mem: Memory, dir: Directory, mem': Memory, dir': Directory, base: nat, size: nat, p: Place)
    requires Tree(root, mem, dir) && Pruned(mem, dir) && Tree(root, mem', dir') && p in dir
    requires forall v: nat :: InRange(v, base, size) ==> Walk(mem, root, 4, v) == Hole
    requires forall v: nat :: !InRange(v, base, size) ==> Walk(mem', root, 4, v) == Walk(mem, root, 4, v)
    ensures p in dir'
  {
    hide Slot, Walk, Present, Large, Addr, Pruned;
    if p.level < 4 {
      var v := PageBelow(root, mem, dir, p);
      assert !InRange(v, base, size);
      TableAbove(root, mem', dir', v, p);
    }
  }

  /** Above a mapped page lie the tables of its path. */
  lemma TableAbove(root: nat, mem: Memory, dir: Directory, v: nat, p: Place)
    requires Tree(root, mem, dir) && Walk(mem, root, 4, v).Page?
    requires Walk(mem, root, 4, v).level <= p.level <= 4 && p.slot == Slot(v, p.level + 1)
    ensures p in dir
  {
    hide Slot;
    SlotStep(v, 4);
    WalkLevel(mem, root, 4, v);
    PathOf(root, mem, dir, v, 4, p.level);
  }

  lemma TableNeeded(root: nat, mem: Memory, dir: Directory, base: nat, pa: nat, size: nat, flags: nat, p: Place)
    requires Tree(root, mem, dir) && GoodRange(base, pa, size) && LeafFlags(flags) && Needed(p, base, pa, size)
    requires forall v: nat :: InRange(v, base, size) ==> Walk(mem, root, 4, v) == Mapped(v, base, pa, size, flags)
    ensures p in dir
  {
    hide Slot, Walk, Fits, Present, Large, Addr, LeafFlags, Tree, LeafWord, Block;
    var v: nat :| InRange(v, base, size) && OnWay(p, v, PageLevel(v, base, pa, size));
    FrameOfBlock(v, base, pa, size);
    TableAbove(root, mem, dir, v, p);
  }

  lemma TableNew(root: nat, mem: Memory, dir: Directory, mem': Memory, dir': Directory,
                 base: nat, pa: nat, size: nat, flags: nat, p: Place)
    requires Tree(root, mem, dir) && Tree(root, mem', dir') && Pruned(mem', dir') && p in dir' && p !in dir
    requires GoodRange(base, pa, size) && LeafFlags(flags)
    requires forall v: nat :: Walk(mem', root, 4, v) == Target(Walk(mem, root, 4, v), v, base, pa, size, flags, size)
    ensures Needed(p, base, pa, size)
  {
    hide Slot, Walk, Fits, Present, Large, Addr, LeafFlags, Pruned, LeafWord, Block;
    var v := PageBelow(root, mem', dir', p);
    if InRange(v, base, size) {
      FrameOfBlock(v, base, pa, size);
      assert OnWay(p, v, PageLevel(v, base, pa, size));
    } else {
      TableAbove(root, mem, dir, v, p);
    }
  }

  lemma CountBuilt(dir: Directory, dir': Directory)
    requires dir.Keys <= dir'.Keys
    ensures |dir'| == |dir| + |dir'.Keys - dir.Keys|
  {
    SizeOfKeys(dir);
    SizeOfKeys(dir');
    assert dir'.Keys == dir.Keys + (dir'.Keys - dir.Keys);
  }

  /** A zeroed table that is unlinked joins the pool. */
  lemma PoolGrows(root: nat, mem: Memory, dir: Directory, free: set<nat>, place: Place, i: nat)
    requires Tree(root, mem, dir) && PoolOk(free, mem, dir) && place in dir && place.level < 4 && i < 512
    requires Zeroed(mem[dir[place]]) && FrameOk(dir[place]) && place.Parent() in dir && dir[place.Parent()] != dir[place]
    ensures PoolOk(free + {dir[place]}, SetEntry(mem, dir[place.Parent()], i, 0), dir - {place})
    ensures |free + {dir[place]}| == |free| + 1
  {
    hide EntryOk, Zeroed, FrameOk;
    assert dir[place] in dir.Values && dir[place.Parent()] in dir.Values;
    ValuesWithout(dir, place);
  }

  ghost predicate Unlinked(root: nat, mem: Memory, dir: Directory, free: set<nat>, place: Place,
                           mem': Memory, dir': Directory, free': set<nat>) {
    && Tree(root, mem, dir) && place in dir && Tree(root, mem', dir') && PoolOk(free', mem', dir')
    && |free'| + |dir'| == |free| + |dir|
    && (forall v: nat :: Walk(mem', root, 4, v) == Walk(mem, root, 4, v))
    && (PrunedExcept(mem, dir, place) ==> PrunedExcept(mem', dir', place.Parent()))
  }

  /** Freeing an empty table and clearing the entry that pointed to it. */
  lemma TableFreed(root: nat, mem: Memory, dir: Directory, free: set<nat>, place: Place)
    requires Tree(root, mem, dir) && PoolOk(free, mem, dir) && place in dir && place.level < 4
    requires dir[place] in mem && !HasEntry(mem[dir[place]])
    ensures place.Parent() in dir && dir[place.Parent()] in mem
    ensures Unlinked(root, mem, dir, free, place, SetEntry(mem, dir[place.Parent()], place.slot % 512, 0),
                     dir - {place}, free + {dir[place]})
  {
    hide Present, Large, Addr, Walk, EntryOk, Places, PoolOk, FrameOk;
    var i := place.slot % 512;
    ParentFrame(root, mem, dir, place);
    UnlinkTable(root, mem, dir, place);
    EmptyIsZero(root, mem, dir, place);
    PoolGrows(root, mem, dir, free, place, i);
    CountRemoved(dir, place);
    var mem', dir' := SetEntry(mem, dir[place.Parent()], i, 0), dir - {place};
    forall p | p in dir' && p.level < 4 && p != place.Parent() && PrunedExcept(mem, dir, place) ensures HasEntry(mem'[dir'[p]]) {
      assert HasEntry(mem[dir[p]]) && dir[p] != dir[place.Parent()];
    }
  }

  lemma CountRemoved(dir: Directory, place: Place)
    requires place in dir
    ensures |dir - {place}| == |dir| - 1
  {
    SizeOfKeys(dir);
    SizeOfKeys(dir - {place});
    assert (dir - {place}).Keys == dir.Keys - {place};
  }

  lemma NothingBuilt(dir: Directory, built: set<Place>, base: nat, pa: nat, size: nat)
    requires forall p :: p in built <==> Needed(p, base, pa, size) && p !in dir
    ensures |built| == 0 <==> TablesThere(dir, base, pa, size)
  {
    hide Needed;
    if |built| == 0 { assert built == {}; }
    if TablesThere(dir, base, pa, size) { assert built == {}; }
  }

  lemma SizeOfKeys(dir: Directory)
    ensures |dir| == |dir.Keys|
  {}

  lemma SameSize(dir: Directory, dir': Directory)
    requires dir.Keys == dir'.Keys
    ensures |dir| == |dir'|
  {
    SizeOfKeys(dir);
    SizeOfKeys(dir');
  }

  lemma PairTaken(free: set<nat>, f: nat)
    requires IsPair(free, f)
    ensures |free - {f, f + 0x1000}| == |free| - 2
  {
    assert free - {f, f + 0x1000} == (free - {f}) - {f + 0x1000};
  }

  function ChosenSize(va64: nat, pa64: nat, size: nat): nat {
    if va64 % 0x4000_0000 == 0 && pa64 % 0x4000_0000 == 0 && size >= 0x4000_0000 then 0x4000_0000
    else if va64 % 0x20_0000 == 0 && pa64 % 0x20_0000 == 0 && size >= 0x20_0000 then 0x20_0000
    else 0x1000
  }

  /** The source's tests on the running 64-bit address decide the page level at the loop position. */
  lemma TestAt(va64: nat, p: nat, base: nat, pa: nat, size: nat)
    requires GoodRange(base, pa, size) && base <= p < base + size && AtBoundary(p, base, pa, size)
    ensures var level := PageLevel(p, base, pa, size);
      && 1 <= level <= 3 && p % Span(level) == 0 && p + Span(level) <= base + size && Span(level) % 0x1000 == 0
    ensures va64 % TWO_48 == p
        ==> Span(PageLevel(p, base, pa, size)) == ChosenSize(va64, pa + (p - base), base + size - p)
  {
    hide Slot, Block, Fits;
    TestIsPageLevel(p, base, pa, size);
    LowBits(va64);
  }

  lemma LowBits(v: nat)
    ensures v % TWO_48 % 0x4000_0000 == v % 0x4000_0000 && v % TWO_48 % 0x20_0000 == v % 0x20_0000
  {
    RemainderOfLow(v, 0x4000_0000, 0x4_0000);
    RemainderOfLow(v, 0x20_0000, 0x800_0000);
  }

  /** The level of the first absent entry on the way to v, where there is one. */
  ghost function AbsentAt(mem: Memory, table: nat, level: nat, v: nat): nat
    requires 1 <= level <= 4
    decreases level
  {
    if table !in mem then level
    else
      var e := mem[table][Slot(v, level) % 512];
      if !Present(e) || IsLeaf(level, e) then level else AbsentAt(mem, Addr(e), level - 1, v)
  }

  lemma AbsentRange(mem: Memory, table: nat, level: nat, v: nat)
    requires 1 <= level <= 4
    ensures 1 <= AbsentAt(mem, table, level, v) <= level
    decreases level
  {}

  /** A table that is there is found from the one above it. */
  lemma AbsentUp(root: nat, mem: Memory, dir: Directory, v: nat, level: nat)
    requires Tree(root, mem, dir) && 1 <= level < 4 && Place(level, Slot(v, level + 1)) in dir
    ensures Place(level + 1, Slot(v, level + 2)) in dir
    ensures AbsentAt(mem, dir[Place(level + 1, Slot(v, level + 2))], level + 1, v)
         == AbsentAt(mem, dir[Place(level, Slot(v, level + 1))], level, v)
  {
    var here := Place(level, Slot(v, level + 1));
    SlotStep(v, level + 1);
    var up, i := here.Parent(), Slot(v, level + 1) % 512;
    TreeAt(root, mem, dir, here);
    TreeAt(root, mem, dir, up);
    hide Slot, Present, Large, Addr, AbsentAt, Tree;
    assert up.Child(i) == here;
    assert EntryOk(mem[dir[up]][i], up, i, dir);
    AbsentStep(mem, dir[up], level + 1, v);
  }

  lemma {:induction false} AbsentReach(root: nat, mem: Memory, dir: Directory, v: nat, level: nat)
    requires Tree(root, mem, dir) && 1 <= level <= 4 && Place(level, Slot(v, level + 1)) in dir
    ensures AbsentAt(mem, root, 4, v) == AbsentAt(mem, dir[Place(level, Slot(v, level + 1))], level, v)
    decreases 4 - level
  {
    hide Slot, AbsentAt, Tree;
    if level < 4 {
      AbsentUp(root, mem, dir, v, level);
      AbsentReach(root, mem, dir, v, level + 1);
    } else {
      RootTable(root, dir, v) by { TreePlaces(root, mem, dir); }
    }
  }

  lemma {:induction false} AbsentPath(root: nat, mem: Memory, dir: Directory, v: nat, from: nat, to: nat)
    requires Tree(root, mem, dir) && 1 <= to <= from <= 4 && Place(from, Slot(v, from + 1)) in dir
    requires AbsentAt(mem, dir[Place(from, Slot(v, from + 1))], from, v) <= to
    ensures Place(to, Slot(v, to + 1)) in dir
    decreases from
  {
    hide Slot, Present, Large, Addr, AbsentAt, Places;
    if to < from {
      var here, i := Place(from, Slot(v, from + 1)), Slot(v, from) % 512;
      SlotStep(v, from);
      TreeAt(root, mem, dir, here);
      assert EntryOk(mem[dir[here]][i], here, i, dir);
      assert here.Child(i) == Place(from - 1, Slot(v, from));
      AbsentStep(mem, dir[here], from, v);
      AbsentPath(root, mem, dir, v, from - 1, to);
    }
  }

  /** The absent entry lies at or below a level exactly if the table of that level is there. */
  lemma AbsentBelow(root: nat, mem: Memory, dir: Directory, v: nat, level: nat)
    requires Tree(root, mem, dir) && 1 <= level <= 3
    ensures AbsentAt(mem, root, 4, v) <= level <==> Place(level, Slot(v, level + 1)) in dir
  {
    hide Slot, AbsentAt, Tree;
    RootTable(root, dir, v) by { TreePlaces(root, mem, dir); }
    if Place(level, Slot(v, level + 1)) in dir {
      AbsentReach(root, mem, dir, v, level);
      AbsentRange(mem, dir[Place(level, Slot(v, level + 1))], level, v);
    }
    if AbsentAt(mem, root, 4, v) <= level { AbsentPath(root, mem, dir, v, 4, level); }
  }

  lemma TreePlaces(root: nat, mem: Memory, dir: Directory)
    requires Tree(root, mem, dir)
    ensures Places(root, dir)
  {}

  /** In a pruned tree the absent entry of a hole lies at or above a level exactly if its region of that level is bare. */
  lemma AbsentBare(root: nat, mem: Memory, dir: Directory, v: nat, level: nat)
    requires Tree(root, mem, dir) && Pruned(mem, dir) && Walk(mem, root, 4, v) == Hole && 2 <= level <= 4
    ensures AbsentAt(mem, root, 4, v) >= level
       <==> forall w: nat :: Slot(w, level) == Slot(v, level) ==> Walk(mem, root, 4, w) == Hole
  {
    hide Slot, Walk, Tree, Pruned, AbsentAt;
    AbsentBelow(root, mem, dir, v, level - 1);
    var place := Place(level - 1, Slot(v, level));
    if place in dir {
      var w := PageBelow(root, mem, dir, place);
    } else {
      forall w: nat | Slot(w, level) == Slot(v, level) ensures Walk(mem, root, 4, w) == Hole {
        if Walk(mem, root, 4, w).Page? {
          WalkLevel(mem, root, 4, w);
          if Walk(mem, root, 4, w).level < level {
            TableAbove(root, mem, dir, w, place);
          } else {
            SlotsAgreeAbove(w, v, level, Walk(mem, root, 4, w).level);
            SlotStep(v, 4);
            SlotStep(w, 4);
            SamePage(mem, root, 4, w, v);
          }
        }
      }
    }
  }

  /** Addresses in the same 4 KiB walk alike. */
  lemma {:induction false} SameSmallPage(mem: Memory, table: nat, level: nat, v: nat, w: nat)
    requires 1 <= level <= 4 && Slot(w, 1) == Slot(v, 1)
    ensures Walk(mem, table, level, w) == Walk(mem, table, level, v)
    decreases level
  {
    hide Slot, Present, Large, Addr;
    SlotsAgreeAbove(v, w, 1, level);
    if table in mem && level > 1 { SameSmallPage(mem, Addr(mem[table][Slot(v, level) % 512]), level - 1, v, w); }
  }

  lemma AbsentStep(mem: Memory, table: nat, level: nat, v: nat)
    requires 1 <= level <= 4 && table in mem
    ensures var e := mem[table][Slot(v, level) % 512];
      AbsentAt(mem, table, level, v)
        == if !Present(e) || IsLeaf(level, e) then level else AbsentAt(mem, Addr(e), level - 1, v)
  {}

  /** The stride over an absent entry; `PAGE_1GB * 512` does not fit 32 bits. */
  function Stride(level: nat): nat {
    if level == 4 then 0x4000_0000 * 512 % TWO_32 else Span(level)
  }

  ghost predicate WholePage(leaf: Leaf, v: nat, base: nat, size: nat) {
    && leaf.Page? && 1 <= leaf.level <= 3
    && base <= Block(v, leaf.level) && Block(v, leaf.level) + Span(leaf.level) <= base + size
  }

  ghost predicate AtPageStart(leaf: Leaf, p: nat) {
    leaf.Page? && p % Span(leaf.level) == 0
  }

  /** The level of the stride from a page, or over a guarded hole. */
  function StepLevel(leaf: Leaf): nat {
    if leaf.Page? then leaf.level else 1
  }

  ghost predicate AtStep(leaf: Leaf, p: nat) {
    p % Span(StepLevel(leaf)) == 0
  }

  lemma StepFits(leaf: Leaf, p: nat, base: nat, size: nat)
    requires base <= p < base + size <= TWO_48 && base % 0x1000 == 0 && size % 0x1000 == 0
    requires leaf == Hole || WholePage(leaf, p, base, size)
    requires AtStep(leaf, p)
    ensures WholePage(leaf, p, base, size) ==> leaf.Page?
    ensures 1 <= StepLevel(leaf) <= 3 && p + Span(StepLevel(leaf)) <= base + size
  {
    hide Block, Slot;
    if leaf.Page? { PageAtStart(leaf, p, base, size); }
  }

  /** Holes that are stepped over page by page: a small page outside the range keeps the table there. */
  ghost predicate Guarded(mem: Memory, root: nat, v: nat, base: nat, size: nat) {
    Walk(mem, root, 4, v) == Hole && exists w: nat :: Guards(mem, root, w, v, base, size)
  }

  ghost predicate Guards(mem: Memory, root: nat, w: nat, v: nat, base: nat, size: nat) {
    !InRange(w, base, size) && Slot(w, 2) == Slot(v, 2) && Walk(mem, root, 4, w).Page? && Walk(mem, root, 4, w).level == 1
  }

  ghost predicate CanGo(mem: Memory, root: nat, p: nat, base: nat, size: nat) {
    base % 0x1000 == 0 && (WholePage(Walk(mem, root, 4, p), p, base, size) || Guarded(mem, root, p, base, size))
  }

  /** The first `done` bytes from `base` on are cleared and nothing else has changed. */
  ghost predicate Cleared(before: Memory, now: Memory, root: nat, base: nat, done: nat) {
    forall v: nat :: Walk(now, root, 4, v) == if InRange(v, base, done) then Hole else Walk(before, root, 4, v)
  }

  lemma ClearedMore(before: Memory, mid: Memory, now: Memory, root: nat, base: nat, done: nat, n: nat)
    requires Cleared(before, mid, root, base, done) && Cleared(mid, now, root, base + done, n)
    ensures Cleared(before, now, root, base, done + n)
  {
    hide Walk;
  }

  /** What the next turn meets: a page that ends inside the range, or a guarded hole. */
  lemma NextTurn(root: nat, mem0: Memory, mem: Memory, dir: Directory, va64: nat, base: nat, size: nat, done: nat)
    requires Tree(root, mem, dir) && CanGo(mem0, root, base + done, base, size) && Cleared(mem0, mem, root, base, done)
    requires base + done < base + size <= TWO_48 && size % 0x1000 == 0 && va64 % TWO_48 == base + done
    requires AtStep(Walk(mem0, root, 4, base + done), base + done)
    ensures Walk(mem, root, 4, va64) == Walk(mem0, root, 4, base + done)
    ensures var level := StepLevel(Walk(mem, root, 4, va64)); 1 <= level <= 3 && done + Span(level) <= size
    ensures Walk(mem, root, 4, va64) == Hole ==> AbsentAt(mem, root, 4, va64) == 1
  {
    var p := base + done;
    PositionInRange(p, base, size);
    assert !InRange(p, base, done);
    hide Walk, Slot, Span, WholePage, AtStep, AbsentAt, Tree;
    StepFits(Walk(mem0, root, 4, p), p, base, size);
    SameLow(mem, root, va64, p);
    if Walk(mem0, root, 4, p) == Hole {
      assert Guarded(mem0, root, p, base, size);
      var w: nat :| Guards(mem0, root, w, p, base, size);
      SlotOfLow(va64, 2);
      SlotOfLow(p, 2);
      UnderGuard(root, mem, dir, va64, w);
    }
  }

  lemma UnderGuard(root: nat, mem: Memory, dir: Directory, v: nat, w: nat)
    requires Tree(root, mem, dir) && Slot(w, 2) == Slot(v, 2)
    requires Walk(mem, root, 4, w).Page? && Walk(mem, root, 4, w).level == 1
    ensures AbsentAt(mem, root, 4, v) == 1
  {
    hide Slot, Walk, Tree, AbsentAt;
    TableAbove(root, mem, dir, w, Place(1, Slot(v, 2)));
    AbsentBelow(root, mem, dir, v, 1);
    AbsentRange(mem, root, 4, v);
  }

  lemma SameSmallHole(mem: Memory, root: nat, p: nat, v: nat)
    requires Walk(mem, root, 4, p) == Hole && Slot(v, 1) == Slot(p, 1)
    ensures Walk(mem, root, 4, v) == Hole
  {
    SameSmallPage(mem, root, 4, p, v);
  }

  /** Where a page or a small hole ends, the next page begins or there is a hole. */
  lemma StepAhead(mem: Memory, root: nat, p: nat, level: nat)
    requires level == StepLevel(Walk(mem, root, 4, p)) && 1 <= level <= 3
    requires AtStep(Walk(mem, root, 4, p), p) && p + Span(level) < TWO_48
    ensures AtStep(Walk(mem, root, 4, p + Span(level)), p + Span(level))
  {
    hide Walk, Slot, Block, Present, Large, Addr;
    SpansArePages(level, p);
    var q := p + Span(level);
    hide Span;
    if Walk(mem, root, 4, q).Page? {
      if Walk(mem, root, 4, p).Page? { NextPageStart(mem, root, p, level); } else { PageAfterHole(mem, root, p, q); }
    } else {
      assert Span(1) == 0x1000 by { SmallSpan(); }
    }
  }

  /** What is left of the size after a turn. */
  function Left(size: nat, pageSize: nat): nat {
    if size >= pageSize then size - pageSize else 0
  }

  lemma FirstSlots()
    ensures Slot(0x1000, 1) == 1 && Slot(0x2000, 1) == 2 && Slot(0x20_0000, 1) == 512
    ensures Slot(0x1000, 2) == Slot(0x2000, 2) == 0 && Slot(0x20_0000, 2) == 1
    ensures Slot(0x20_0000, 3) == Slot(0x2000, 3) == 0 && Slot(0x20_0000, 4) == Slot(0x2000, 4) == 0
    ensures forall v: nat :: Slot(v, 1) == 1 ==> Slot(v, 2) == 0
  {}

  lemma SmallSpan()
    ensures Span(1) == 0x1000
  {}

  lemma PageAfterHole(mem: Memory, root: nat, p: nat, q: nat)
    requires Walk(mem, root, 4, p) == Hole && p % 0x1000 == 0 && q == p + 0x1000 < TWO_48
    requires Walk(mem, root, 4, q).Page?
    ensures q % Span(Walk(mem, root, 4, q).level) == 0
  {
    BlockEnd(p, 1);
    hide Slot, Present, Large, Addr, Walk, Span;
    var level := Walk(mem, root, 4, q).level;
    WalkLevel(mem, root, 4, q);
    SlotStep(q, 4);
    SlotStep(q - 1, 4);
    SameSmallPage(mem, root, 4, p, q - 1);
    if q % Span(level) != 0 {
      BlockInside(q, level);
      SamePage(mem, root, 4, q, q - 1);
    }
  }

  lemma WrapSmall(va: nat)
    requires va < TWO_64
    ensures Wrap(va) == va
  {}

  lemma PositionInRange(p: nat, base: nat, size: nat)
    requires base <= p < base + size <= TWO_48
    ensures p % TWO_48 == p && InRange(p, base, size)
  {}

  lemma FirstPage(leaf: Leaf, base: nat, size: nat)
    requires size > 0 && base + size <= TWO_48 && WholePage(leaf, base, base, size)
    ensures AtPageStart(leaf, base)
  {
    hide Slot, Block;
    BlockAround(base, leaf.level);
  }

  lemma PageAtStart(leaf: Leaf, p: nat, base: nat, size: nat)
    requires base <= p < base + size <= TWO_48 && WholePage(leaf, p, base, size) && AtPageStart(leaf, p)
    ensures leaf.Page? && 1 <= leaf.level <= 3 && p % Span(leaf.level) == 0 && p + Span(leaf.level) <= base + size
  {
    hide Slot, Block;
    BlockOfAligned(p, leaf.level);
  }

  lemma SameLow(mem: Memory, root: nat, v: nat, w: nat)
    requires v % TWO_48 == w % TWO_48
    ensures Walk(mem, root, 4, v) == Walk(mem, root, 4, w)
  {
    SameLowFrom(mem, root, 4, v, w);
  }

  lemma {:induction false} SameLowFrom(mem: Memory, table: nat, level: nat, v: nat, w: nat)
    requires v % TWO_48 == w % TWO_48 && 1 <= level <= 4
    ensures Walk(mem, table, level, v) == Walk(mem, table, level, w)
    decreases level
  {
    hide Present, Large, Addr;
    if table in mem && level > 1 { SameLowFrom(mem, Addr(mem[table][Slot(v, level) % 512]), level - 1, v, w); }
  }

  lemma MappedIsWhole(v: nat, base: nat, pa: nat, size: nat, flags: nat)
    requires GoodRange(base, pa, size) && InRange(v, base, size) && LeafFlags(flags)
    ensures WholePage(Mapped(v, base, pa, size, flags), v, base, size)
  {
    hide Slot, Block, LeafWord, LeafFlags, Fits;
    FrameOfBlock(v, base, pa, size);
  }

  lemma RootOf(root: nat, mem: Memory, dir: Directory, v: nat)
    requires Tree(root, mem, dir)
    ensures Slot(v, 5) == 0 && Place(4, Slot(v, 5)) in dir && dir[Place(4, Slot(v, 5))] == root
    ensures Pruned(mem, dir) ==> PrunedExcept(mem, dir, Place(4, 0))
  {
    RootTable(root, dir, v);
  }

  lemma SizeTest(size: nat)
    requires 1 <= size <= 3
    ensures Span(size) == 0x4000_0000 <==> size == 3
    ensures Span(size) == 0x20_0000 <==> size == 2
    ensures Span(size) != 0x1000 <==> size > 1
  {}

  /** A leaf stored where no table hangs drops nothing from the directory. */
  lemma Storing(root: nat, mem: Memory, dir: Directory, v: nat, size: nat)
    requires Tree(root, mem, dir) && 1 <= size <= 3
    ensures size == 1 || Place(size - 1, Slot(v, size)) !in dir ==> Drop(dir, size, Slot(v, size)) == dir
  {
    if size == 1 || Place(size - 1, Slot(v, size)) !in dir { NothingToDrop(root, dir, size, Slot(v, size)); }
  }

  lemma RootTable(root: nat, dir: Directory, v: nat)
    requires Places(root, dir)
    ensures Slot(v, 5) == 0 && Place(4, Slot(v, 5)) in dir && dir[Place(4, Slot(v, 5))] == root
  {
    SlotStep(v, 4);
  }

  ghost predicate OnPath(mem: Memory, dir: Directory, v: nat, level: nat, table: nat) {
    Place(level, Slot(v, level + 1)) in dir && dir[Place(level, Slot(v, level + 1))] == table && table in mem
  }

  /** One step of the path to v: a present directory entry leads to the next table of the path. */
  lemma PathEntry(root: nat, mem: Memory, dir: Directory, v: nat, level: nat)
    requires Tree(root, mem, dir) && 2 <= level <= 4 && Place(level, Slot(v, level + 1)) in dir
    ensures dir[Place(level, Slot(v, level + 1))] in mem
    ensures var e := mem[dir[Place(level, Slot(v, level + 1))]][Slot(v, level) % 512];
      Present(e) && !IsLeaf(level, e) ==> OnPath(mem, dir, v, level - 1, Addr(e))
  {
    hide Slot, Present, Large, Addr;
    var place := Place(level, Slot(v, level + 1));
    SlotStep(v, level);
    assert place.Child(Slot(v, level) % 512) == Place(level - 1, Slot(v, level));
    assert EntryOk(mem[dir[place]][Slot(v, level) % 512], place, Slot(v, level) % 512, dir);
  }

  /** Where the walk ends at or below `bound`, the path has no large leaf above it. */
  lemma NoLargeAbove(root: nat, mem: Memory, dir: Directory, v: nat, level: nat, bound: nat)
    requires Tree(root, mem, dir) && 1 <= bound < level <= 4 && Place(level, Slot(v, level + 1)) in dir
    requires Walk(mem, root, 4, v).Page? ==> Walk(mem, root, 4, v).level <= bound
    ensures var e := mem[dir[Place(level, Slot(v, level + 1))]][Slot(v, level) % 512]; Present(e) ==> !Large(e)
  {
    hide Slot, Present, Large, Addr;
    var place := Place(level, Slot(v, level + 1));
    Reach(root, mem, dir, v, level);
    assert EntryOk(mem[dir[place]][Slot(v, level) % 512], place, Slot(v, level) % 512, dir);
  }

  lemma ClearKeepsOthers(root: nat, mem: Memory, dir: Directory, place: Place, i: nat)
    requires Tree(root, mem, dir) && place in dir && i < 512
    ensures Pruned(mem, dir) ==> PrunedExcept(SetEntry(mem, dir[place], i, 0), dir, place)
  {
    hide Present, EntryOk;
    var mem' := SetEntry(mem, dir[place], i, 0);
    if Pruned(mem, dir) {
      forall p | p in dir && p.level < 4 && p != place ensures HasEntry(mem'[dir[p]]) {
        assert HasEntry(mem[dir[p]]) && dir[p] != dir[place];
      }
    }
  }

  lemma ValuesWithout(dir: Directory, place: Place)
    requires place in dir && forall p, q :: p in dir && q in dir && dir[p] == dir[q] ==> p == q
    ensures (dir - {place}).Values == dir.Values - {dir[place]}
  {
    var dir' := dir - {place};
    forall f | f in dir.Values && f != dir[place] ensures f in dir'.Values {
      var p :| p in dir && dir[p] == f;
      assert dir'[p] == f;
    }
  }

  lemma ParentFrame(root: nat, mem: Memory, dir: Directory, place: Place)
    requires Tree(root, mem, dir) && place in dir && place.level < 4
    ensures place.Parent() in dir && dir[place.Parent()] != dir[place] && FrameOk(dir[place])
    ensures forall p, q :: p in dir && q in dir && dir[p] == dir[q] ==> p == q
  {
    hide Present, Large, Addr;
    var up := place.Parent();
    assert EntryOk(mem[dir[up]][place.slot % 512], up, place.slot % 512, dir);
    assert up.Child(place.slot % 512) == place;
    Fields(mem[dir[up]][place.slot % 512]);
  }

  lemma EmptyIsZero(root: nat, mem: Memory, dir: Directory, place: Place)
    requires Tree(root, mem, dir) && place in dir && !HasEntry(mem[dir[place]])
    ensures Zeroed(mem[dir[place]])
  {
    hide Present;
    forall i | 0 <= i < 512 ensures mem[dir[place]][i] == 0 {
      assert EntryOk(mem[dir[place]][i], place, i, dir);
    }
  }

  lemma EntryFacts(root: nat, mem: Memory, dir: Directory, place: Place, i: nat)
    requires Tree(root, mem, dir) && place in dir && i < 512
    ensures !Present(mem[dir[place]][i]) ==> mem[dir[place]][i] == 0 && place.Child(i) !in dir
    ensures Present(mem[dir[place]][i]) && place.level > 1 && !Large(mem[dir[place]][i])
        ==> place.Child(i) in dir && dir[place.Child(i)] == Addr(mem[dir[place]][i])
    ensures Present(mem[dir[place]][i]) && IsLeaf(place.level, mem[dir[place]][i]) ==> place.Child(i) !in dir
  {
    hide Present, Large, Addr;
    assert EntryOk(mem[dir[place]][i], place, i, dir);
  }

  lemma ValuesOfNew(dir: Directory, p: Place, f: nat)
    requires p !in dir
    ensures dir[p := f].Values == dir.Values + {f}
  {
    var dir' := dir[p := f];
    forall x | x in dir.Values + {f} ensures x in dir'.Values {
      if x == f {
        assert dir'[p] == f;
      } else {
        var q :| q in dir && dir[q] == x;
        assert dir'[q] == x;
      }
    }
  }

  lemma LinkKeepsEntries(before: Memory, dir: Directory, after: Memory, dir': Directory,
                         place: Place, i: nat, child: Place, e: Word)
    requires forall p :: p in dir ==> dir[p] in before
    requires place in dir && i < 512 && after == SetEntry(before, dir[place], i, e) && Present(e)
    requires child !in dir && child in dir' && dir' == dir[child := dir'[child]] && dir'[child] in after
    ensures PrunedExcept(before, dir, place) ==> PrunedExcept(after, dir', child)
  {
    hide Present;
    if PrunedExcept(before, dir, place) {
      forall p | p in dir' && p.level < 4 && p != child ensures HasEntry(after[dir'[p]]) {
        KeepsEntry(before, dir[place], i, e, dir[p]);
        assert p != place ==> HasEntry(before[dir[p]]);
      }
    }
  }

  lemma KeepsEntry(before: Memory, table: nat, i: nat, e: Word, t: nat)
    requires table in before && t in before && i < 512 && Present(e)
    requires t == table || HasEntry(before[t])
    ensures HasEntry(SetEntry(before, table, i, e)[t])
  {
    hide Present;
    var after := SetEntry(before, table, i, e);
    if t == table {
      assert Present(after[t][i]);
    } else {
      var j :| 0 <= j < 512 && Present(before[t][j]);
      assert Present(after[t][j]);
    }
  }
}
