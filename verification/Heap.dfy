/** The in-heap path of xtHeapAlloc and xtHeapFree (xtkernel/memory.c): blocks laid over one byte region. */
module Heap {
  import opened Bits
  import opened Results

  const HEAP_HEADER_SIZE: nat := 32
  const MIN_BLOCK_SIZE: nat := 48
  const NULL: nat := 0

  /** XTHeapEntry, as stored at a block's address. */
  datatype Header = Header(size: nat, used: bool, next: nat, prev: nat)

  /** A block as the heap is meant to see it. */
  datatype Cell = Cell(addr: nat, size: nat, used: bool) {
    function End(): nat { addr + size }
  }

  // ----- The block list -----

  ghost predicate CellOk(c: Cell) {
    c.addr % 16 == 0 && c.size % 16 == 0 && c.size >= MIN_BLOCK_SIZE
  }

  /** The blocks cover the region from `start` for `total` bytes, one after the other. */
  ghost predicate Tiled(cells: seq<Cell>, start: nat, total: nat) {
    && |cells| > 0 && cells[0].addr == start && cells[|cells| - 1].End() == start + total
    && (forall i :: 0 <= i < |cells| ==> CellOk(cells[i]))
    && (forall i :: 0 <= i < |cells| - 1 ==> cells[i].End() == cells[i + 1].addr)
  }

  /** No two neighbours are both free. */
  ghost predicate Coalesced(cells: seq<Cell>) {
    forall i :: 0 <= i < |cells| - 1 ==> cells[i].used || cells[i + 1].used
  }

  ghost function Live(cells: seq<Cell>): set<Cell> {
    set c | c in cells && c.used
  }

  lemma {:induction false} Ordered(cells: seq<Cell>, start: nat, total: nat, i: nat, j: nat)
    requires Tiled(cells, start, total) && i < j < |cells|
    ensures cells[i].End() <= cells[j].addr
    decreases j
  {
    if i + 1 < j { Ordered(cells, start, total, i, j - 1); }
    assert cells[j - 1].End() == cells[j].addr;
  }

  /** Two live blocks never overlap, and all lie inside the region. */
  lemma LiveApart(cells: seq<Cell>, start: nat, total: nat, a: Cell, b: Cell)
    requires Tiled(cells, start, total) && a in Live(cells) && b in Live(cells)
    ensures start <= a.addr && a.End() <= start + total && a.addr % 16 == 0
    ensures a == b || a.End() <= b.addr || b.End() <= a.addr
  {
    var i :| 0 <= i < |cells| && cells[i] == a;
    var j :| 0 <= j < |cells| && cells[j] == b;
    if i < j { Ordered(cells, start, total, i, j); }
    if j < i { Ordered(cells, start, total, j, i); }
    if i > 0 { Ordered(cells, start, total, 0, i); }
    if i < |cells| - 1 { Ordered(cells, start, total, i, |cells| - 1); }
  }

  /** When nothing is live, the heap is one free block of the original size. */
  lemma EmptyHeapIsWhole(cells: seq<Cell>, start: nat, total: nat)
    requires Tiled(cells, start, total) && Coalesced(cells) && Live(cells) == {}
    ensures cells == [Cell(start, total, false)]
  {
    assert |cells| > 1 ==> cells[0].used || cells[1].used;
    forall i | 0 <= i < |cells| ensures !cells[i].used {
      assert cells[i] in Live(cells) <==> cells[i].used;
    }
  }

  /** The live blocks decide the block list: between them lies one free block for each gap. */
  lemma {:induction false} BlocksUnique(a: seq<Cell>, b: seq<Cell>, start: nat, total: nat)
    requires Tiled(a, start, total) && Coalesced(a) && Tiled(b, start, total) && Coalesced(b) && Live(a) == Live(b)
    ensures a == b
    decreases |a|
  {
    hide Live;
    FirstBlock(a, b, start, total);
    FirstBlock(b, a, start, total);
    LastBlock(a, start, total);
    LastBlock(b, start, total);
    if |a| > 1 {
      RestLive(a, start, total);
      RestLive(b, start, total);
      RestTiled(a, start, total);
      RestTiled(b, start, total);
      BlocksUnique(a[1..], b[1..], a[0].End(), start + total - a[0].End());
      assert a == [a[0]] + a[1..] && b == [b[0]] + b[1..];
    }
  }

  lemma FirstBlock(a: seq<Cell>, b: seq<Cell>, start: nat, total: nat)
    requires Tiled(a, start, total) && Coalesced(a) && Tiled(b, start, total) && Live(a) == Live(b)
    ensures a[0].used ==> b[0] == a[0]
    ensures !a[0].used && !b[0].used ==> a[0].size >= b[0].size
  {
    if a[0].used {
      assert a[0] in Live(a);
      var j :| 0 <= j < |b| && b[j] == a[0];
      if j > 0 { Ordered(b, start, total, 0, j); }
    } else if !b[0].used && a[0].size < b[0].size {
      if |b| > 1 { Ordered(b, start, total, 0, |b| - 1); }
      assert a[0].used || a[1].used;
      assert a[1] in Live(a);
      var j :| 0 <= j < |b| && b[j] == a[1];
      if j > 0 { Ordered(b, start, total, 0, j); }
    }
  }

  lemma LastBlock(cells: seq<Cell>, start: nat, total: nat)
    requires Tiled(cells, start, total)
    ensures |cells| == 1 <==> cells[0].End() == start + total
    ensures cells[0].End() <= start + total
  {
    if |cells| > 1 { Ordered(cells, start, total, 0, |cells| - 1); }
  }

  lemma RestLive(cells: seq<Cell>, start: nat, total: nat)
    requires Tiled(cells, start, total)
    ensures Live(cells[1..]) == Live(cells) - {cells[0]}
  {
    forall c ensures c in Live(cells[1..]) <==> c in Live(cells) && c != cells[0] {
      if c in Live(cells[1..]) {
        var i :| 0 <= i < |cells[1..]| && cells[1..][i] == c;
        assert cells[i + 1] == c;
        Ordered(cells, start, total, 0, i + 1);
      }
      if c in Live(cells) && c != cells[0] {
        var i :| 0 <= i < |cells| && cells[i] == c;
        assert cells[1..][i - 1] == c;
      }
    }
  }

  lemma RestTiled(cells: seq<Cell>, start: nat, total: nat)
    requires Tiled(cells, start, total) && Coalesced(cells) && |cells| > 1
    ensures cells[0].End() <= start + total
    ensures Tiled(cells[1..], cells[0].End(), start + total - cells[0].End()) && Coalesced(cells[1..])
  {
    var rest := cells[1..];
    LastBlock(cells, start, total);
    assert forall i :: 0 <= i < |rest| ==> rest[i] == cells[i + 1];
  }

  ghost function Sizes(cells: seq<Cell>): nat {
    if cells == [] then 0 else cells[0].size + Sizes(cells[1..])
  }

  /** Free and live bytes, headers included, always add up to the region. */
  lemma {:induction false} SizesConserved(cells: seq<Cell>, start: nat, total: nat)
    requires Tiled(cells, start, total)
    ensures Sizes(cells) == total
    decreases |cells|
  {
    if |cells| > 1 {
      var rest := cells[1..];
      assert forall i :: 0 <= i < |rest| ==> rest[i] == cells[i + 1];
      assert cells[0].End() == cells[1].addr;
      if cells[1].addr > start + total {
        Ordered(cells, start, total, 1, |cells| - 1);
      }
      SizesConserved(rest, cells[1].addr, start + total - cells[1].addr);
    } else {
      assert cells[1..] == [];
    }
  }

  // ----- Splitting and merging -----

  function Split(cells: seq<Cell>, i: nat, needed: nat): seq<Cell>
    requires i < |cells| && needed <= cells[i].size
  {
    cells[..i] + [Cell(cells[i].addr, needed, true), Cell(cells[i].addr + needed, cells[i].size - needed, false)]
      + cells[i + 1..]
  }

  function SetUsed(cells: seq<Cell>, i: nat, used: bool): seq<Cell>
    requires i < |cells|
  {
    cells[i := cells[i].(used := used)]
  }

  function Merge(cells: seq<Cell>, i: nat): seq<Cell>
    requires i + 1 < |cells|
  {
    cells[..i] + [Cell(cells[i].addr, cells[i].size + cells[i + 1].size, false)] + cells[i + 2..]
  }

  lemma SplitIndex(cells: seq<Cell>, i: nat, needed: nat)
    requires i < |cells| && needed <= cells[i].size
    ensures var after := Split(cells, i, needed);
      && |after| == |cells| + 1
      && after[i] == Cell(cells[i].addr, needed, true)
      && after[i + 1] == Cell(cells[i].addr + needed, cells[i].size - needed, false)
      && (forall j :: 0 <= j < i ==> after[j] == cells[j])
      && (forall j :: i + 2 <= j < |after| ==> after[j] == cells[j - 1])
  {}

  lemma MergeIndex(cells: seq<Cell>, i: nat)
    requires i + 1 < |cells|
    ensures var after := Merge(cells, i);
      && |after| == |cells| - 1
      && after[i] == Cell(cells[i].addr, cells[i].size + cells[i + 1].size, false)
      && (forall j :: 0 <= j < i ==> after[j] == cells[j])
      && (forall j :: i < j < |after| ==> after[j] == cells[j + 1])
  {}

  lemma SplitTiled(cells: seq<Cell>, start: nat, total: nat, i: nat, needed: nat)
    requires Tiled(cells, start, total) && i < |cells|
    requires needed >= MIN_BLOCK_SIZE && needed % 16 == 0 && cells[i].size >= needed + MIN_BLOCK_SIZE
    ensures Tiled(Split(cells, i, needed), start, total)
  {
    hide Split;
    SplitIndex(cells, i, needed);
    var after := Split(cells, i, needed);
    assert CellOk(cells[i]) && CellOk(after[i]) && CellOk(after[i + 1]);
    hide CellOk;
    assert after[i + 1].End() == cells[i].End();
    forall j | 0 <= j < |after| - 1 ensures after[j].End() == after[j + 1].addr {
      SplitJoins(cells, start, total, i, needed, j);
    }
  }

  lemma SplitJoins(cells: seq<Cell>, start: nat, total: nat, i: nat, needed: nat, j: nat)
    requires Tiled(cells, start, total) && i < |cells| && needed <= cells[i].size && j < |cells|
    requires |Split(cells, i, needed)| == |cells| + 1
    ensures Split(cells, i, needed)[j].End() == Split(cells, i, needed)[j + 1].addr
  {
    hide Split;
    SplitIndex(cells, i, needed);
    if j < i {
      assert cells[j].End() == cells[j + 1].addr;
    } else if j > i {
      assert cells[j - 1].End() == cells[j].addr;
    }
  }

  lemma SplitCoalesced(cells: seq<Cell>, i: nat, needed: nat)
    requires Coalesced(cells) && i < |cells| && !cells[i].used && needed <= cells[i].size
    ensures Coalesced(Split(cells, i, needed))
    ensures Live(Split(cells, i, needed)) == Live(cells) + {Cell(cells[i].addr, needed, true)}
  {
    hide Split, Live;
    SplitIndex(cells, i, needed);
    assert i + 1 < |cells| ==> cells[i].used || cells[i + 1].used;
    LiveBySlots(cells, Split(cells, i, needed), i);
  }

  lemma LiveBySlots(cells: seq<Cell>, after: seq<Cell>, i: nat)
    requires i < |cells| && !cells[i].used && |after| == |cells| + 1 && after[i].used && !after[i + 1].used
    requires forall j :: 0 <= j < i ==> after[j] == cells[j]
    requires forall j :: i + 2 <= j < |after| ==> after[j] == cells[j - 1]
    ensures Live(after) == Live(cells) + {after[i]}
  {
    forall c | c in Live(cells) ensures c in Live(after) {
      var j :| 0 <= j < |cells| && cells[j] == c;
      assert c == if j < i then after[j] else after[j + 1];
    }
    forall c | c in Live(after) ensures c in Live(cells) + {after[i]} {
      var j :| 0 <= j < |after| && after[j] == c;
      assert j != i ==> c == if j < i then cells[j] else cells[j - 1];
    }
  }

  lemma SetUsedTiled(cells: seq<Cell>, start: nat, total: nat, i: nat, used: bool)
    requires Tiled(cells, start, total) && i < |cells|
    ensures Tiled(SetUsed(cells, i, used), start, total)
    ensures used && Coalesced(cells) ==> Coalesced(SetUsed(cells, i, used))
  {}

  lemma SetUsedLive(cells: seq<Cell>, start: nat, total: nat, i: nat)
    requires Tiled(cells, start, total) && i < |cells|
    ensures cells[i].used ==> Live(SetUsed(cells, i, false)) == Live(cells) - {cells[i]}
    ensures !cells[i].used ==> Live(SetUsed(cells, i, true)) == Live(cells) + {cells[i].(used := true)}
  {
    var freed, taken := SetUsed(cells, i, false), SetUsed(cells, i, true);
    forall c | c in Live(cells) && c != cells[i] ensures c in Live(freed) && c in Live(taken) {
      var j :| 0 <= j < |cells| && cells[j] == c;
      assert freed[j] == c && taken[j] == c;
    }
    forall c | c in Live(freed) ensures c in Live(cells) && c != cells[i] {
      var j :| 0 <= j < |freed| && freed[j] == c;
      assert j != i && cells[j] == c;
      if j < i { Ordered(cells, start, total, j, i); } else { Ordered(cells, start, total, i, j); }
    }
    forall c | c in Live(taken) && c != taken[i] ensures c in Live(cells) {
      var j :| 0 <= j < |taken| && taken[j] == c;
      assert cells[j] == c;
    }
    assert taken[i] in taken;
  }

  lemma MergeTiled(cells: seq<Cell>, start: nat, total: nat, i: nat)
    requires Tiled(cells, start, total) && i + 1 < |cells|
    ensures Tiled(Merge(cells, i), start, total)
  {
    hide Merge;
    MergeIndex(cells, i);
    var after := Merge(cells, i);
    assert CellOk(cells[i]) && CellOk(cells[i + 1]) && CellOk(after[i]);
    hide CellOk;
    assert cells[i].End() == cells[i + 1].addr && after[i].End() == cells[i + 1].End();
    forall j | 0 <= j < |after| - 1 ensures after[j].End() == after[j + 1].addr {
      MergeJoins(cells, start, total, i, j);
    }
  }

  lemma MergeJoins(cells: seq<Cell>, start: nat, total: nat, i: nat, j: nat)
    requires Tiled(cells, start, total) && i + 1 < |cells| && j + 1 < |Merge(cells, i)|
    ensures Merge(cells, i)[j].End() == Merge(cells, i)[j + 1].addr
  {
    hide Merge;
    MergeIndex(cells, i);
    assert cells[i].End() == cells[i + 1].addr;
    if j < i {
      assert cells[j].End() == cells[j + 1].addr;
    } else {
      assert cells[j + 1].End() == cells[j + 2].addr;
    }
  }

  lemma MergeLive(cells: seq<Cell>, i: nat)
    requires i + 1 < |cells| && !cells[i].used && !cells[i + 1].used
    ensures Live(Merge(cells, i)) == Live(cells)
  {
    hide Merge;
    MergeIndex(cells, i);
    var after := Merge(cells, i);
    forall c | c in Live(cells) ensures c in Live(after) {
      var j :| 0 <= j < |cells| && cells[j] == c;
      assert c == if j < i then after[j] else after[j - 1];
    }
    forall c | c in Live(after) ensures c in Live(cells) {
      var j :| 0 <= j < |after| && after[j] == c;
      assert c == if j < i then cells[j] else cells[j + 1];
    }
  }

  // ----- Headers in memory -----

  function AddrOrNull(cells: seq<Cell>, i: int): nat {
    if 0 <= i < |cells| then cells[i].addr else NULL
  }

  /** The header stored for block i says exactly what the block list says. */
  ghost predicate HeaderOk(mem: map<nat, Header>, cells: seq<Cell>, i: nat)
    requires i < |cells|
  {
    cells[i].addr in mem &&
    mem[cells[i].addr] == Header(cells[i].size, cells[i].used, AddrOrNull(cells, i + 1), AddrOrNull(cells, i - 1))
  }

  ghost predicate Mirrors(mem: map<nat, Header>, cells: seq<Cell>) {
    forall i :: 0 <= i < |cells| ==> HeaderOk(mem, cells, i)
  }

  ghost predicate DistinctAddrs(cells: seq<Cell>) {
    forall i, j :: 0 <= i < j < |cells| ==> cells[i].addr != cells[j].addr
  }

  lemma TiledDistinct(cells: seq<Cell>, start: nat, total: nat)
    requires Tiled(cells, start, total)
    ensures DistinctAddrs(cells)
  {
    forall i, j | 0 <= i < j < |cells| ensures cells[i].addr != cells[j].addr { Ordered(cells, start, total, i, j); }
  }

  lemma SetUsedMirrors(mem: map<nat, Header>, cells: seq<Cell>, i: nat, used: bool)
    requires Mirrors(mem, cells) && DistinctAddrs(cells) && i < |cells|
    ensures cells[i].addr in mem
    ensures Mirrors(mem[cells[i].addr := mem[cells[i].addr].(used := used)], SetUsed(cells, i, used))
  {
    var cells' := SetUsed(cells, i, used);
    assert HeaderOk(mem, cells, i);
    var mem' := mem[cells[i].addr := mem[cells[i].addr].(used := used)];
    forall j | 0 <= j < |cells'| ensures HeaderOk(mem', cells', j) {
      assert HeaderOk(mem, cells, j);
    }
  }

  /** `prev->size += block->size; prev->next = block->next; if (block->next) block->next->prev = prev;` */
  function MergeMem(mem: map<nat, Header>, a: nat, b: nat): map<nat, Header>
    requires a in mem && b in mem && (mem[b].next != NULL ==> mem[b].next in mem)
  {
    var next := mem[b].next;
    var m := mem[a := mem[a].(size := mem[a].size + mem[b].size, next := next)];
    if next != NULL then m[next := m[next].(prev := a)] else m
  }

  lemma MergeMirrors(mem: map<nat, Header>, cells: seq<Cell>, i: nat)
    requires Mirrors(mem, cells) && DistinctAddrs(cells) && i + 1 < |cells| && !cells[i].used && !cells[i + 1].used
    requires forall j :: 0 <= j < |cells| ==> cells[j].addr != NULL
    ensures var b := cells[i + 1].addr;
      cells[i].addr in mem && b in mem && (mem[b].next != NULL ==> mem[b].next in mem)
    ensures Mirrors(MergeMem(mem, cells[i].addr, cells[i + 1].addr), Merge(cells, i))
  {
    hide Merge;
    MergeIndex(cells, i);
    var after := Merge(cells, i);
    assert HeaderOk(mem, cells, i) && HeaderOk(mem, cells, i + 1);
    assert i + 2 < |cells| ==> HeaderOk(mem, cells, i + 2);
    var mem' := MergeMem(mem, cells[i].addr, cells[i + 1].addr);
    forall j | 0 <= j < |after| ensures HeaderOk(mem', after, j) {
      assert HeaderOk(mem, cells, if j <= i then j else j + 1);
    }
  }

  /** The stores of lines 100 to 113. */
  function SplitMem(mem: map<nat, Header>, a: nat, needed: nat): map<nat, Header>
    requires a in mem && mem[a].size >= needed && (mem[a].next != NULL ==> mem[a].next in mem)
  {
    var b := a + needed;
    var h := mem[a];
    var m := mem[b := Header(h.size - needed, false, h.next, a)];
    var m2 := if h.next != NULL then m[h.next := m[h.next].(prev := b)] else m;
    m2[a := h.(size := needed, next := b)]
  }

  lemma SplitMirrors(mem: map<nat, Header>, cells: seq<Cell>, start: nat, total: nat, i: nat, needed: nat)
    requires Mirrors(mem, cells) && Tiled(cells, start, total) && i < |cells| && !cells[i].used && start > 0
    requires 0 < needed < cells[i].size
    ensures var a := cells[i].addr; a in mem && mem[a].size >= needed && (mem[a].next != NULL ==> mem[a].next in mem)
    ensures var m := SplitMem(mem, cells[i].addr, needed);
      cells[i].addr in m && Mirrors(m[cells[i].addr := m[cells[i].addr].(used := true)], Split(cells, i, needed))
  {
    hide Split;
    SplitIndex(cells, i, needed);
    var after := Split(cells, i, needed);
    TiledDistinct(cells, start, total);
    NewAddressFresh(cells, start, total, i, cells[i].addr + needed);
    assert HeaderOk(mem, cells, i);
    assert i + 1 < |cells| ==> HeaderOk(mem, cells, i + 1);
    var m := SplitMem(mem, cells[i].addr, needed);
    var m' := m[cells[i].addr := m[cells[i].addr].(used := true)];
    forall j | 0 <= j < |after| ensures HeaderOk(m', after, j) {
      SplitHeader(mem, cells, i, needed, j);
    }
  }

  lemma SplitHeader(mem: map<nat, Header>, cells: seq<Cell>, i: nat, needed: nat, j: nat)
    requires Mirrors(mem, cells) && DistinctAddrs(cells) && i < |cells| && 0 < needed < cells[i].size && j <= |cells|
    requires forall k :: 0 <= k < |cells| ==> cells[k].addr != cells[i].addr + needed && cells[k].addr > 0
    requires var a := cells[i].addr; a in mem && mem[a].size >= needed && (mem[a].next != NULL ==> mem[a].next in mem)
    requires |Split(cells, i, needed)| == |cells| + 1
    ensures var m := SplitMem(mem, cells[i].addr, needed);
      cells[i].addr in m && HeaderOk(m[cells[i].addr := m[cells[i].addr].(used := true)], Split(cells, i, needed), j)
  {
    hide Split;
    SplitIndex(cells, i, needed);
    assert HeaderOk(mem, cells, i);
    assert i + 1 < |cells| ==> HeaderOk(mem, cells, i + 1);
    assert j <= i ==> HeaderOk(mem, cells, j);
    assert j > i + 1 ==> HeaderOk(mem, cells, j - 1);
  }

  lemma NewAddressFresh(cells: seq<Cell>, start: nat, total: nat, i: nat, b: nat)
    requires Tiled(cells, start, total) && i < |cells| && cells[i].addr < b < cells[i].End()
    ensures forall j :: 0 <= j < |cells| ==> cells[j].addr != b && cells[j].addr >= start
  {
    forall j | 0 <= j < |cells| ensures cells[j].addr != b && cells[j].addr >= start {
      if j < i { Ordered(cells, start, total, j, i); }
      if i < j { Ordered(cells, start, total, i, j); }
      if 0 < j { Ordered(cells, start, total, 0, j); }
    }
  }

  // ----- Requested sizes -----

  /** `(size + 15) & ~15` in 64 bits. */
  function AlignUp(size: nat): nat {
    And((size + 15) % TWO_64, TWO_64 - 16)
  }

  /** The block size a request asks for; the additions are 64-bit. */
  function NeededSize(size: nat): nat {
    var needed := (AlignUp(size) + HEAP_HEADER_SIZE) % TWO_64;
    if needed < MIN_BLOCK_SIZE then MIN_BLOCK_SIZE else needed
  }

  lemma AlignUpIs(size: nat)
    ensures AlignUp(size) == (size + 15) % TWO_64 / 16 * 16
  {
    var x := (size + 15) % TWO_64;
    assert Pow2(4) == 16 && Pow2(60) == TWO_64 / 16 by { Powers(); Pow2Add(51, 9); }
    hide And, Shr, Low, Pow2;
    AndHigh(x, TWO_64 / 16 - 1, 4);
    DivideBy(x, 4, 16);
    AndLow(x / 16, 60);
    assert Low(x / 16, 60) == x / 16 by { Unique(0, x / 16, 60); }
  }

  lemma NeededSizeOk(size: nat)
    ensures NeededSize(size) % 16 == 0 && NeededSize(size) >= MIN_BLOCK_SIZE
  {
    hide And, AlignUp;
    AlignUpIs(size);
  }

  /** A request up to 2^64 - 48 bytes asks for itself rounded up to a multiple of 16 and 32 bytes more, at least 48; any
      larger one for 48. */
  function BlockFor(size: nat): nat {
    if size <= 16 || size > 0xffff_ffff_ffff_ffd0 then 48 else (size + 15) / 16 * 16 + 32
  }

  lemma NeededSizeIs(size: nat)
    requires size < TWO_64
    ensures NeededSize(size) == BlockFor(size)
  {
    hide And, AlignUp;
    AlignUpIs(size);
    if size + 15 < TWO_64 { RoundedUp(size); } else { assert (size + 15) % TWO_64 / 16 == 0; }
  }

  lemma RoundedUp(size: nat)
    requires size + 15 < TWO_64
    ensures var a := (size + 15) / 16 * 16;
      && (size == 0 <==> a == 0) && (size <= 16 <==> a <= 16)
      && a % 16 == 0 && (size <= 0xffff_ffff_ffff_ffd0 <==> a <= 0xffff_ffff_ffff_ffd0) && a <= 0xffff_ffff_ffff_fff0
  {}

  /** The block is large enough for the request exactly when the additions do not wrap around. */
  lemma LargeEnough(size: nat)
    requires size < TWO_64
    ensures NeededSize(size) - HEAP_HEADER_SIZE >= size <==> size <= TWO_64 - 48
  {
    hide And, AlignUp;
    AlignUpIs(size);
  }

  /** A request of 2^64 - 1 bytes is answered with a block for 16. */
  lemma WrappedRequest()
    ensures NeededSize(TWO_64 - 1) == MIN_BLOCK_SIZE
  {
    hide And, AlignUp;
    AlignUpIs(TWO_64 - 1);
  }

  /** Block i is the first free one of at least `needed` bytes. */
  ghost predicate FirstFit(cells: seq<Cell>, i: nat, needed: nat) {
    && i < |cells| && !cells[i].used && cells[i].size >= needed
    && NoFit(cells, i, needed)
  }

  ghost predicate NoFit(cells: seq<Cell>, n: nat, needed: nat)
    requires n <= |cells|
  {
    forall j :: 0 <= j < n ==> cells[j].used || cells[j].size < needed
  }

  /** Block i, the first free one that is large enough, is handed out: exactly n bytes of it if 48 or more are left, which
      are free from then on, and else as a whole. All other blocks stay. */
  ghost predicate Served(before: seq<Cell>, after: seq<Cell>, i: nat, n: nat) {
    && i < |before| && !before[i].used && before[i].size >= n
    && (forall j :: 0 <= j < i ==> before[j].used || before[j].size < n)
    && if before[i].size < n + 48 then after == before[i := Cell(before[i].addr, before[i].size, true)]
       else
         && |after| == |before| + 1
         && after[i] == Cell(before[i].addr, n, true)
         && after[i + 1] == Cell(before[i].addr + n, before[i].size - n, false)
         && (forall j :: 0 <= j < i ==> after[j] == before[j])
         && (forall j :: i < j < |before| ==> after[j + 1] == before[j])
  }

  lemma TakenServes(cells: seq<Cell>, i: nat, n: nat)
    requires FirstFit(cells, i, n)
    ensures Served(cells, Taken(cells, i, n), i, n)
  {
    if cells[i].size >= n + MIN_BLOCK_SIZE { SplitIndex(cells, i, n); }
  }

  /** The heap after the first fit has been taken, split when the rest can hold a block. */
  function Taken(cells: seq<Cell>, i: nat, needed: nat): seq<Cell>
    requires i < |cells| && needed <= cells[i].size
  {
    if cells[i].size >= needed + MIN_BLOCK_SIZE then Split(cells, i, needed) else SetUsed(cells, i, true)
  }

  /** The heap after block i has been freed: joined with a free left neighbour, then with a free right one. */
  function Released(cells: seq<Cell>, i: nat): seq<Cell>
    requires i < |cells|
  {
    JoinRight(JoinLeft(SetUsed(cells, i, false), i), LeftIndex(cells, i))
  }

  function LeftIndex(cells: seq<Cell>, i: nat): nat
    requires i < |cells|
  {
    if i > 0 && !cells[i - 1].used then i - 1 else i
  }

  function JoinLeft(cells: seq<Cell>, i: nat): (r: seq<Cell>)
    requires i < |cells|
    ensures |r| > LeftIndex(cells, i)
  {
    if i > 0 && !cells[i - 1].used then Merge(cells, i - 1) else cells
  }

  function JoinRight(cells: seq<Cell>, i: nat): seq<Cell>
    requires i < |cells|
  {
    if i + 1 < |cells| && !cells[i + 1].used then Merge(cells, i) else cells
  }

  /** Freeing keeps the tiling, leaves no two free neighbours and takes exactly this block from the live ones. */
  lemma ReleasedOk(cells: seq<Cell>, start: nat, total: nat, i: nat)
    requires Tiled(cells, start, total) && Coalesced(cells) && i < |cells| && cells[i].used
    ensures Tiled(Released(cells, i), start, total) && Coalesced(Released(cells, i))
    ensures Live(Released(cells, i)) == Live(cells) - {cells[i]}
  {
    hide Merge, Live;
    var freed := SetUsed(cells, i, false);
    SetUsedTiled(cells, start, total, i, false);
    SetUsedLive(cells, start, total, i);
    if i > 0 { MergeIndex(freed, i - 1); MergeTiled(freed, start, total, i - 1); }
    if i > 0 && !cells[i - 1].used { MergeLive(freed, i - 1); }
    var left, k := JoinLeft(freed, i), LeftIndex(cells, i);
    NeighboursUsed(cells, i);
    JoinRightOk(left, start, total, k);
  }

  /** Only the pairs around k can be two free neighbours. */
  ghost predicate CoalescedBut(cells: seq<Cell>, k: nat) {
    && k < |cells| && !cells[k].used && (k > 0 ==> cells[k - 1].used)
    && (forall j :: 0 <= j < |cells| - 1 && j != k ==> cells[j].used || cells[j + 1].used)
  }

  lemma NeighboursUsed(cells: seq<Cell>, i: nat)
    requires Coalesced(cells) && i < |cells| && cells[i].used
    ensures CoalescedBut(JoinLeft(SetUsed(cells, i, false), i), LeftIndex(cells, i))
  {
    hide Merge;
    var freed := SetUsed(cells, i, false);
    if i > 0 && !cells[i - 1].used {
      MergeIndex(freed, i - 1);
      assert i > 1 ==> cells[i - 2].used;
      var after := Merge(freed, i - 1);
      forall j | 0 <= j < |after| - 1 && j != i - 1 ensures after[j].used || after[j + 1].used {
        assert j < i - 1 ==> cells[j].used || cells[j + 1].used;
        assert j > i - 1 ==> cells[j + 1].used || cells[j + 2].used;
      }
    }
  }

  lemma JoinRightOk(cells: seq<Cell>, start: nat, total: nat, k: nat)
    requires Tiled(cells, start, total) && CoalescedBut(cells, k)
    ensures Tiled(JoinRight(cells, k), start, total) && Coalesced(JoinRight(cells, k))
    ensures Live(JoinRight(cells, k)) == Live(cells)
  {
    hide Merge, Live;
    if k + 1 < |cells| && !cells[k + 1].used {
      MergeIndex(cells, k);
      MergeTiled(cells, start, total, k);
      MergeLive(cells, k);
      assert k + 2 < |cells| ==> cells[k + 1].used || cells[k + 2].used;
      var after := Merge(cells, k);
      forall j | 0 <= j < |after| - 1 ensures after[j].used || after[j + 1].used {
        assert j < k - 1 ==> cells[j].used || cells[j + 1].used;
        assert j > k ==> cells[j + 1].used || cells[j + 2].used;
      }
    }
  }

  class HeapRegion {
    const start: nat
    const total: nat
    var mem: map<nat, Header>
    ghost var cells: seq<Cell>

    ghost predicate Valid()
      reads this
    {
      && start > 0 && start + total <= TWO_64
      && Tiled(cells, start, total) && Coalesced(cells) && Mirrors(mem, cells)
    }

    /** xtHeapSetupBlock: one free block. */
    constructor (memory: nat, size: nat)
      requires memory > 0 && memory % 16 == 0 && size % 16 == 0 && size >= MIN_BLOCK_SIZE && memory + size <= TWO_64
      ensures Valid() && start == memory && total == size && cells == [Cell(memory, size, false)]
    {
      start, total := memory, size;
      mem := map[memory := Header(size, false, NULL, NULL)];
      cells := [Cell(memory, size, false)];
    }

    /** xtHeapAlloc, the search of the heap: it takes the first fit and fails only if there is none. */
    method Alloc(size: nat) returns (r: XTResult, out: nat, ghost i: nat, ghost got: Cell)
      requires Valid() && size < TWO_64
      modifies this
      ensures Valid() && (r == XT_SUCCESS || r == XT_OUT_OF_MEMORY)
      ensures r == XT_OUT_OF_MEMORY ==>
        cells == old(cells) && mem == old(mem) && forall j :: 0 <= j < |cells| ==> cells[j].used || cells[j].size < BlockFor(size)
      ensures r == XT_SUCCESS ==> Served(old(cells), cells, i, BlockFor(size)) && got == cells[i] && out == got.addr + 32
      ensures r == XT_SUCCESS ==> out % 16 == 0 && BlockFor(size) <= got.size < BlockFor(size) + 48
      ensures r == XT_SUCCESS ==> got !in Live(old(cells)) && Live(cells) == Live(old(cells)) + {got}
    {
      hide Tiled, Mirrors, Live, NeededSize, Split, SetUsed, Coalesced, SplitMem, BlockFor, Served;
      var needed := NeededSize(size);
      NeededSizeOk(size);
      NeededSizeIs(size);
      HeadOf(mem, cells, start, total);
      i, got := 0, Cell(0, 0, false);
      var current := start;
      while current != NULL
        invariant 0 <= i <= |cells| && current == AddrOrNull(cells, i)
        invariant NoFit(cells, i, needed)
        invariant mem == old(mem) && cells == old(cells)
        decreases |cells| - i
      {
        BlockAt(mem, cells, start, total, i);
        if !mem[current].used && mem[current].size >= needed {
          TakeAt(cells, start, total, i, needed);
          TakenServes(cells, i, needed);
          got := TakenCell(cells, i, needed);
          if mem[current].size >= needed + MIN_BLOCK_SIZE {
            SplitMirrors(mem, cells, start, total, i, needed);
            mem := SplitMem(mem, current, needed);
          } else {
            SetUsedMirrors(mem, cells, i, true);
          }
          mem := mem[current := mem[current].(used := true)];
          cells := Taken(cells, i, needed);
          return XT_SUCCESS, current + HEAP_HEADER_SIZE, i, got;
        }
        current := mem[current].next;
        i := i + 1;
      }
      BlockAt(mem, cells, start, total, i);
      return XT_OUT_OF_MEMORY, 0, i, got;
    }

    /** xtHeapFree of a pointer handed out earlier: live blocks are freed and coalesced, free ones refused. */
    method Free(ptr: nat, ghost i: nat) returns (r: XTResult)
      requires Valid() && i < |cells| && (ptr == NULL || ptr == cells[i].addr + HEAP_HEADER_SIZE)
      modifies this
      ensures Valid()
      ensures r == XT_SUCCESS <==> ptr != NULL && old(cells)[i].used
      ensures r == XT_SUCCESS ==> cells == Released(old(cells), i) && Live(cells) == Live(old(cells)) - {old(cells)[i]}
      ensures r != XT_SUCCESS ==> r == XT_INVALID_PARAMETER && cells == old(cells) && mem == old(mem)
    {
      hide Tiled, Mirrors, Live, Merge, Coalesced;
      if ptr == NULL { return XT_INVALID_PARAMETER; }
      var block := ptr - HEAP_HEADER_SIZE;
      BlockAt(mem, cells, start, total, i);
      if !mem[block].used { return XT_INVALID_PARAMETER; }
      ReleasedOk(cells, start, total, i);
      ghost var k := i;
      ghost var after := SetUsed(cells, i, false);
      SetUsedTiled(cells, start, total, i, false);
      SetUsedMirrors(mem, cells, i, false);
      mem := mem[block := mem[block].(used := false)];
      BlockAt(mem, after, start, total, i);
      if i > 0 { BlockAt(mem, after, start, total, i - 1); }
      if mem[block].prev != NULL && !mem[mem[block].prev].used {
        var prev := mem[block].prev;
        MergeMirrors(mem, after, i - 1);
        MergeTiled(after, start, total, i - 1);
        mem := MergeMem(mem, prev, block);
        after, k := Merge(after, i - 1), i - 1;
        MergeIndex(SetUsed(cells, i, false), i - 1);
        block := prev;
      }
      BlockAt(mem, after, start, total, k);
      if k + 1 < |after| { BlockAt(mem, after, start, total, k + 1); }
      if mem[block].next != NULL && !mem[mem[block].next].used {
        MergeMirrors(mem, after, k);
        mem := MergeMem(mem, block, mem[block].next);
        after := Merge(after, k);
      }
      cells := after;
      return XT_SUCCESS;
    }
  }

  /** The live block that taking block i makes. */
  ghost function TakenCell(cells: seq<Cell>, i: nat, needed: nat): Cell
    requires i < |cells|
  {
    Cell(cells[i].addr, if cells[i].size >= needed + MIN_BLOCK_SIZE then needed else cells[i].size, true)
  }

  lemma HeadOf(mem: map<nat, Header>, cells: seq<Cell>, start: nat, total: nat)
    requires Tiled(cells, start, total)
    ensures AddrOrNull(cells, 0) == start && |cells| > 0
  {}

  /** What the header of block i says, and that its links lead to the neighbouring blocks. */
  lemma BlockAt(mem: map<nat, Header>, cells: seq<Cell>, start: nat, total: nat, i: nat)
    requires Tiled(cells, start, total) && Mirrors(mem, cells) && start > 0 && i <= |cells|
    ensures i < |cells| <==> AddrOrNull(cells, i) != NULL
    ensures i < |cells| ==> HeaderOk(mem, cells, i)
    ensures DistinctAddrs(cells) && forall j :: 0 <= j < |cells| ==> cells[j].addr != NULL
  {
    TiledDistinct(cells, start, total);
    assert i < |cells| ==> HeaderOk(mem, cells, i);
    forall j | 0 <= j < |cells| ensures cells[j].addr >= start {
      if 0 < j { Ordered(cells, start, total, 0, j); }
    }
  }

  lemma TakeAt(cells: seq<Cell>, start: nat, total: nat, i: nat, needed: nat)
    requires Tiled(cells, start, total) && Coalesced(cells) && i < |cells| && !cells[i].used
    requires MIN_BLOCK_SIZE <= needed <= cells[i].size && needed % 16 == 0
    ensures Tiled(Taken(cells, i, needed), start, total) && Coalesced(Taken(cells, i, needed))
    ensures var got := TakenCell(cells, i, needed);
      && got.addr % 16 == 0 && got.size >= needed
      && got !in Live(cells) && Live(Taken(cells, i, needed)) == Live(cells) + {got}
      && i < |Taken(cells, i, needed)| && Taken(cells, i, needed)[i] == got && got.size < needed + 48
  {
    var got := TakenCell(cells, i, needed);
    TiledDistinct(cells, start, total);
    assert got !in Live(cells);
    assert cells[i].addr % 16 == 0;
    hide Split, Live, Tiled, Coalesced;
    if cells[i].size >= needed + MIN_BLOCK_SIZE {
      SplitTiled(cells, start, total, i, needed);
      SplitCoalesced(cells, i, needed);
    } else {
      SetUsedTiled(cells, start, total, i, true);
      SetUsedLive(cells, start, total, i);
    }
  }

  ghost function IndexOf(cells: seq<Cell>, c: Cell): (i: nat)
    requires c in cells
    ensures i < |cells| && cells[i] == c
  {
    var i: nat :| i < |cells| && cells[i] == c;
    i
  }

  /** Freeing the listed blocks one after the other. */
  ghost function ReleaseAll(cells: seq<Cell>, order: seq<Cell>): seq<Cell>
    decreases |order|
  {
    if order == [] then cells
    else if order[0] in cells then ReleaseAll(Released(cells, IndexOf(cells, order[0])), order[1..])
    else ReleaseAll(cells, order[1..])
  }

  /** Freeing all live blocks, in whatever order, leaves one free block of the original size. */
  lemma {:induction false} FreeAllInAnyOrder(cells: seq<Cell>, start: nat, total: nat, order: seq<Cell>)
    requires Tiled(cells, start, total) && Coalesced(cells)
    requires forall c :: c in order <==> c in Live(cells)
    requires forall i, j :: 0 <= i < j < |order| ==> order[i] != order[j]
    ensures ReleaseAll(cells, order) == [Cell(start, total, false)]
    decreases |order|
  {
    hide Tiled, Coalesced, Released;
    if order == [] {
      assert Live(cells) == {};
      EmptyHeapIsWhole(cells, start, total);
    } else {
      var c, rest := order[0], order[1..];
      assert c in Live(cells);
      var i := IndexOf(cells, c);
      ReleasedOk(cells, start, total, i);
      forall d ensures d in rest <==> d in Live(Released(cells, i)) {
        assert d in order <==> d == c || d in rest;
      }
      FreeAllInAnyOrder(Released(cells, i), start, total, rest);
    }
  }
}
