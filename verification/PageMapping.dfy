/** The flat map xtSetPages is meant to install, and the arithmetic of its page-size choice. */
module PageMapping {
  import opened Bits
  import opened PageEntries
  import opened PageTree

  /** A page-aligned range of the 48-bit space and page-aligned physical memory for it. */
  predicate GoodRange(base: nat, pa: nat, size: nat) {
    && base % 0x1000 == 0 && pa % 0x1000 == 0 && size % 0x1000 == 0
    && base + size <= TWO_48 && pa + size <= TWO_52
  }

  predicate InRange(v: nat, base: nat, size: nat) {
    base <= v % TWO_48 < base + size
  }

  /** The first address of the level-sized block around v. */
  function Block(v: nat, level: nat): nat {
    Slot(v, level) * Span(level)
  }

  /** The block around v lies in the range and its physical memory is aligned like it. */
  predicate Fits(level: nat, v: nat, base: nat, pa: nat, size: nat) {
    && base <= Block(v, level) && Block(v, level) + Span(level) <= base + size
    && (pa + (Block(v, level) - base)) % Span(level) == 0
  }

  /** The largest page that fits around v. */
  function PageLevel(v: nat, base: nat, pa: nat, size: nat): nat {
    if Fits(3, v, base, pa, size) then 3 else if Fits(2, v, base, pa, size) then 2 else 1
  }

  /** The leaf that mapping [base, base + size) to [pa, pa + size) should leave for v. */
  function Mapped(v: nat, base: nat, pa: nat, size: nat, flags: nat): Leaf
    requires GoodRange(base, pa, size) && InRange(v, base, size) && LeafFlags(flags)
  {
    var level := PageLevel(v, base, pa, size);
    FrameOfBlock(v, base, pa, size);
    LeafWordFields(pa + (Block(v, level) - base), flags, level > 1);
    Page(level, LeafWord(pa + (Block(v, level) - base), flags, level > 1))
  }

  /** The same, when only the first `done` bytes have been mapped and the address had the leaf `before`. */
  function Target(before: Leaf, v: nat, base: nat, pa: nat, size: nat, flags: nat, done: nat): Leaf
    requires GoodRange(base, pa, size) && done <= size && LeafFlags(flags)
  {
    if InRange(v, base, done) then Mapped(v, base, pa, size, flags) else before
  }

  lemma BlockAround(v: nat, level: nat)
    requires 1 <= level <= 3
    ensures Block(v, level) <= v % TWO_48 < Block(v, level) + Span(level)
    ensures Block(v, level) % Span(level) == 0 && Block(v, level) % 0x1000 == 0
    ensures Block(v, level) + Span(level) <= TWO_48
    ensures v % TWO_48 - Block(v, level) == v % Span(level)
  {
    var m, k := (if level == 1 then 0x10_0000_0000 else if level == 2 then 0x800_0000 else 0x4_0000),
                (if level == 1 then 1 else if level == 2 then 512 else 0x4_0000);
    assert Span(level) * m == TWO_48 && Span(level) == 0x1000 * k;
    BlockArithmetic(v, Span(level), m, k);
  }

  lemma BlockArithmetic(v: nat, span: nat, m: nat, k: nat)
    requires span > 0 && span == 0x1000 * k && span * m == TWO_48
    ensures var b := v % TWO_48 / span * span;
      && b <= v % TWO_48 < b + span && b % span == 0 && b % 0x1000 == 0
      && b + span <= TWO_48 && v % TWO_48 - b == v % span
  {
    var x := v % TWO_48;
    var d := x / span;
    assert x == span * d + x % span;
    MultipleOf(d, span, k);
    RemainderOfLow(v, span, m);
    MulLess(span, d, m);
    MulMono(span, d + 1, m);
  }

  lemma MultipleOf(d: nat, span: nat, k: nat)
    requires span > 0 && span == 0x1000 * k
    ensures d * span == span * d && d * span % span == 0 && d * span % 0x1000 == 0
  {
    MulTriple(k, d);
    DivModUnique(d * span, span, d, 0);
    DivModUnique(d * span, 0x1000, k * d, 0);
  }

  lemma RemainderOfLow(v: nat, span: nat, m: nat)
    requires span > 0 && span * m == TWO_48
    ensures v % TWO_48 % span == v % span
  {
    var x, q := v % TWO_48, v / TWO_48;
    MulSum(span, m, q, x / span);
    DivModUnique(v, span, m * q + x / span, x % span);
  }

  lemma MulLess(s: nat, a: nat, b: nat)
    requires s * a < s * b
    ensures a < b
  {
    if a >= b { MulMono(s, b, a); }
  }

  lemma MulTriple(k: nat, d: nat)
    ensures d * (0x1000 * k) == 0x1000 * (k * d)
  {}

  lemma MulSum(span: nat, m: nat, q: nat, d: nat)
    ensures span * (m * q + d) == (span * m) * q + span * d
  {}

  lemma MulMono(s: nat, a: nat, b: nat)
    requires a <= b
    ensures s * a <= s * b
  {}

  lemma SpansArePages(level: nat, p: nat)
    requires p % Span(level) == 0 && level <= 3
    ensures p % 0x1000 == 0 && (p + Span(level)) % 0x1000 == 0
  {
    if level == 2 { MultiplesArePages(p, 0x20_0000, 512); } else if level == 3 { MultiplesArePages(p, 0x4000_0000, 0x4_0000); }
  }

  lemma MultiplesArePages(p: nat, span: nat, m: nat)
    requires span == 0x1000 * m > 0 && p % span == 0
    ensures p % 0x1000 == 0 && (p + span) % 0x1000 == 0
  {
    var k := p / span;
    assert p == span * k == 0x1000 * (m * k);
    DivModUnique(p, 0x1000, m * k, 0);
    DivModUnique(p + span, 0x1000, m * k + m, 0);
  }

  lemma AlignedSum(pa: nat, b: nat, base: nat)
    requires pa % 0x1000 == 0 && b % 0x1000 == 0 && base % 0x1000 == 0 && base <= b
    ensures (pa + (b - base)) % 0x1000 == 0
  {
    assert pa + (b - base) == 0x1000 * (pa / 0x1000 + b / 0x1000 - base / 0x1000);
  }

  lemma FrameOfBlock(v: nat, base: nat, pa: nat, size: nat)
    requires GoodRange(base, pa, size) && InRange(v, base, size)
    ensures base <= Block(v, PageLevel(v, base, pa, size))
    ensures Block(v, PageLevel(v, base, pa, size)) + Span(PageLevel(v, base, pa, size)) <= base + size
    ensures FrameOk(pa + (Block(v, PageLevel(v, base, pa, size)) - base))
  {
    hide Slot, Block;
    var level := PageLevel(v, base, pa, size);
    if level == 1 { SmallBlockInside(v, base, size); }
    BlockAround(v, level);
    AlignedSum(pa, Block(v, level), base);
  }

  lemma SmallBlockInside(v: nat, base: nat, size: nat)
    requires base % 0x1000 == 0 && size % 0x1000 == 0 && InRange(v, base, size)
    ensures base <= Block(v, 1) && Block(v, 1) + Span(1) <= base + size
  {
    hide Slot, Block;
    assert Block(v, 1) <= v % TWO_48 < Block(v, 1) + 0x1000 && Block(v, 1) % 0x1000 == 0 by { BlockAround(v, 1); }
  }

  /** Every byte of the range is translated to its own physical byte, whatever page sizes were chosen. */
  lemma MappedTranslates(v: nat, base: nat, pa: nat, size: nat, flags: nat)
    requires GoodRange(base, pa, size) && InRange(v, base, size) && LeafFlags(flags)
    ensures Physical(Mapped(v, base, pa, size, flags), v) == pa + (v % TWO_48 - base)
    ensures FlagsOf(Mapped(v, base, pa, size, flags).entry)
         == flags + if Mapped(v, base, pa, size, flags).level > 1 then P_PS else 0
  {
    hide And, Or, Slot, LeafWord, Addr, Present, Large, Block, LeafFlags;
    var level := PageLevel(v, base, pa, size);
    var frame := pa + (Block(v, level) - base);
    FrameOfBlock(v, base, pa, size);
    LeafWordFields(frame, flags, level > 1);
    BlockAround(v, level);
    BlockAround(v, 1);
    assert frame % Span(level) == 0;
    OffsetJoins(frame, v, level);
  }

  /** The block of `span` bytes around v lies in the range, and its physical memory is aligned to it. */
  predicate SpanFits(v: nat, span: nat, base: nat, pa: nat, size: nat)
    requires span > 0
  {
    var start := v % 0x1_0000_0000_0000 / span * span;
    base <= start && start + span <= base + size && (pa + (start - base)) % span == 0
  }

  /** A leaf of the largest page that fits around v, whose bits 1, 2 and 63 are the bits 11, 9 and 12 (inverted) of the
      attributes. */
  predicate Grants(leaf: Leaf, v: nat, base: nat, pa: nat, size: nat, attr: nat) {
    && leaf.Page?
    && leaf.level == (if SpanFits(v, 0x4000_0000, base, pa, size) then 3
                      else if SpanFits(v, 0x20_0000, base, pa, size) then 2 else 1)
    && leaf.entry % 2 == 1 && leaf.entry / 2 % 2 == attr / 0x800 % 2 && leaf.entry / 4 % 2 == attr / 0x200 % 2
    && leaf.entry / 0x8000_0000_0000_0000 == 1 - attr / 0x1000 % 2
  }

  lemma MappedGrants(v: nat, base: nat, pa: nat, size: nat, attr: nat)
    requires GoodRange(base, pa, size) && InRange(v, base, size) && LeafFlags(BuildFlags(attr))
    ensures Grants(Mapped(v, base, pa, size, BuildFlags(attr)), v, base, pa, size, attr)
  {
    LevelIs(v, base, pa, size);
    hide LeafWord, LeafFlags, BuildFlags, SpanFits, Fits, Slot, Span;
    BuildFlagsBits(attr);
    FrameOfBlock(v, base, pa, size);
    FlagDigits(attr);
    hide Block, PageLevel;
    LeafWordBits(pa + (Block(v, PageLevel(v, base, pa, size)) - base), BuildFlags(attr), PageLevel(v, base, pa, size) > 1);
  }

  lemma TargetGrants(before: Leaf, v: nat, base: nat, pa: nat, size: nat, attr: nat, done: nat)
    requires GoodRange(base, pa, size) && InRange(v, base, done) && done <= size && LeafFlags(BuildFlags(attr))
    ensures Grants(Target(before, v, base, pa, size, BuildFlags(attr), done), v, base, pa, size, attr)
  {
    hide Mapped, Grants, LeafFlags, BuildFlags;
    MappedGrants(v, base, pa, size, attr);
  }

  lemma LevelIs(v: nat, base: nat, pa: nat, size: nat)
    ensures PageLevel(v, base, pa, size) == if SpanFits(v, 0x4000_0000, base, pa, size) then 3
                                            else if SpanFits(v, 0x20_0000, base, pa, size) then 2 else 1
  {}

  lemma FlagDigits(attr: nat)
    ensures var f := 1 + 2 * (attr / 0x800 % 2) + 4 * (attr / 0x200 % 2) + 0x8000_0000_0000_0000 * (1 - attr / 0x1000 % 2);
      && f / 2 % 2 == attr / 0x800 % 2 && f / 4 % 2 == attr / 0x200 % 2
      && f / 0x8000_0000_0000_0000 == 1 - attr / 0x1000 % 2
  {
    LowBitsOf(0, 1 + 2 * (attr / 0x800 % 2) + 4 * (attr / 0x200 % 2), 1 - attr / 0x1000 % 2, 0);
  }

  lemma OffsetJoins(frame: nat, v: nat, level: nat)
    requires 1 <= level <= 3 && frame % Span(level) == 0
    ensures Or(frame, And(v, Span(level) - 1)) == frame + v % Span(level)
  {
    hide And, Or, Shr, Low;
    Powers39();
    hide Pow2;
    var k := if level == 1 then 12 else if level == 2 then 21 else 30;
    AndLow(v, k);
    DivideBy(v, k, Span(level));
    var h := frame / Span(level);
    assert frame == Span(level) * h;
    OrJoin(h, v % Span(level), k);
  }

  // ----- The loop position -----

  /** Progress never stops strictly inside a block that fits. */
  predicate AtBoundary(p: nat, base: nat, pa: nat, size: nat) {
    && p % 0x1000 == 0
    && (Fits(2, p, base, pa, size) ==> p % Span(2) == 0)
    && (Fits(3, p, base, pa, size) ==> p % Span(3) == 0)
  }

  lemma BlockOfAligned(p: nat, level: nat)
    requires 1 <= level <= 3 && p < TWO_48
    ensures p % Span(level) == 0 <==> Block(p, level) == p
  {
    BlockAround(p, level);
    assert p % TWO_48 == p;
  }

  lemma FirstBoundary(base: nat, pa: nat, size: nat)
    requires GoodRange(base, pa, size) && size > 0
    ensures AtBoundary(base, base, pa, size)
  {
    hide Slot, Block;
    BlockAround(base, 2);
    BlockAround(base, 3);
    BlockOfAligned(base, 2);
    BlockOfAligned(base, 3);
  }

  /** The source's size test picks the largest page that fits. */
  lemma TestIsPageLevel(p: nat, base: nat, pa: nat, size: nat)
    requires GoodRange(base, pa, size) && base <= p < base + size && AtBoundary(p, base, pa, size)
    ensures Fits(3, p, base, pa, size) <==>
              p % 0x4000_0000 == 0 && (pa + (p - base)) % 0x4000_0000 == 0 && base + size - p >= 0x4000_0000
    ensures Fits(2, p, base, pa, size) <==>
              p % 0x20_0000 == 0 && (pa + (p - base)) % 0x20_0000 == 0 && base + size - p >= 0x20_0000
    ensures var level := PageLevel(p, base, pa, size);
      p % Span(level) == 0 && Block(p, level) == p && p + Span(level) <= base + size
  {
    hide Slot, Block;
    BlockOfAligned(p, 1);
    BlockOfAligned(p, 2);
    BlockOfAligned(p, 3);
  }

  lemma NextBoundary(p: nat, base: nat, pa: nat, size: nat)
    requires GoodRange(base, pa, size) && base <= p < base + size && AtBoundary(p, base, pa, size)
    requires p + Span(PageLevel(p, base, pa, size)) < base + size
    ensures AtBoundary(p + Span(PageLevel(p, base, pa, size)), base, pa, size)
  {
    hide Slot, Block, Fits;
    var level := PageLevel(p, base, pa, size);
    var q := p + Span(level);
    TestIsPageLevel(p, base, pa, size);
    SpansArePages(level, p);
    hide Span;
    NextInBlock(p, q, level, 2, base, pa, size);
    NextInBlock(p, q, level, 3, base, pa, size);
  }

  lemma NextInBlock(p: nat, q: nat, level: nat, outer: nat, base: nat, pa: nat, size: nat)
    requires 1 <= level <= 3 && 2 <= outer <= 3 && p % Span(level) == 0 && q == p + Span(level) < TWO_48
    requires level < outer ==> !Fits(outer, p, base, pa, size)
    ensures Fits(outer, q, base, pa, size) ==> q % Span(outer) == 0
  {
    hide Slot, Block;
    if level < outer {
      if q % Span(outer) != 0 { SameBlock(p, q, level, outer); }
    } else {
      CoarserIsAligned(p, q, level, outer);
    }
  }

  lemma CoarserIsAligned(p: nat, q: nat, level: nat, outer: nat)
    requires 2 <= outer <= level <= 3 && p % Span(level) == 0 && q == p + Span(level)
    ensures q % Span(outer) == 0
  {
    var k := p / Span(level);
    if level == 2 {
      assert q == 0x20_0000 * (k + 1);
    } else if outer == 3 {
      assert q == 0x4000_0000 * (k + 1);
    } else {
      assert q == 0x20_0000 * (512 * (k + 1));
    }
  }

  lemma SameBlock(p: nat, q: nat, level: nat, outer: nat)
    requires 1 <= level < outer <= 3 && p % Span(level) == 0 && q == p + Span(level) < TWO_48
    requires q % Span(outer) != 0
    ensures Block(q, outer) == Block(p, outer)
  {
    assert p % TWO_48 == p && q % TWO_48 == q;
    if outer == 2 {
      assert p / 0x20_0000 == q / 0x20_0000;
    } else {
      assert p / 0x4000_0000 == q / 0x4000_0000;
    }
  }

  /** Addresses in one block are all given the same page. */
  lemma SamePageLevel(v: nat, p: nat, base: nat, pa: nat, size: nat)
    requires Slot(v, PageLevel(p, base, pa, size)) == Slot(p, PageLevel(p, base, pa, size))
    ensures PageLevel(v, base, pa, size) == PageLevel(p, base, pa, size)
    ensures Block(v, PageLevel(p, base, pa, size)) == Block(p, PageLevel(p, base, pa, size))
  {
    hide Slot;
    var level := PageLevel(p, base, pa, size);
    SlotsAgreeAbove(v, p, level, 3);
    if level <= 2 { SlotsAgreeAbove(v, p, level, 2); }
  }

  /** A block's addresses are those from its start up to its span. */
  lemma BlockRange(v: nat, p: nat, level: nat)
    requires 1 <= level <= 3 && p < TWO_48 && p % Span(level) == 0
    ensures Slot(v, level) == Slot(p, level) <==> p <= v % TWO_48 < p + Span(level)
  {
    assert p % TWO_48 == p;
    var x := v % TWO_48;
    if level == 1 {
      assert x / 0x1000 == p / 0x1000 <==> p <= x < p + 0x1000;
    } else if level == 2 {
      assert x / 0x20_0000 == p / 0x20_0000 <==> p <= x < p + 0x20_0000;
    } else {
      assert x / 0x4000_0000 == p / 0x4000_0000 <==> p <= x < p + 0x4000_0000;
    }
  }

  /** The page mapped at position p is what every address of its block should get. */
  lemma StepMapped(v: nat, p: nat, base: nat, pa: nat, size: nat, flags: nat)
    requires GoodRange(base, pa, size) && base <= p < base + size && AtBoundary(p, base, pa, size) && LeafFlags(flags)
    ensures Slot(v, PageLevel(p, base, pa, size)) == Slot(p, PageLevel(p, base, pa, size))
       <==> p <= v % TWO_48 < p + Span(PageLevel(p, base, pa, size))
    ensures FrameOk(pa + (p - base))
    ensures Slot(v, PageLevel(p, base, pa, size)) == Slot(p, PageLevel(p, base, pa, size)) ==>
              InRange(v, base, size) && Mapped(v, base, pa, size, flags).Page?
              && Mapped(v, base, pa, size, flags).level == PageLevel(p, base, pa, size)
              && Mapped(v, base, pa, size, flags).entry
                 == LeafWord(pa + (p - base), flags, PageLevel(p, base, pa, size) > 1)
  {
    hide Slot, Block, Fits, LeafWord, LeafFlags;
    TestIsPageLevel(p, base, pa, size);
    hide AtBoundary;
    var level := PageLevel(p, base, pa, size);
    BlockRange(v, p, level);
    if Slot(v, level) == Slot(p, level) { SamePageLevel(v, p, base, pa, size); }
  }

  lemma SlotOfLow(v: nat, level: nat)
    ensures Slot(v, level) == Slot(v % TWO_48, level)
  {
    hide Span;
    assert v % TWO_48 % TWO_48 == v % TWO_48;
  }

  /** Unsigned 64-bit addition wraps around. */
  function Wrap(x: nat): nat { x % TWO_64 }

  lemma WrappedSum(va: nat, d: nat)
    requires va % TWO_48 + d < TWO_48
    ensures Wrap(va + d) % TWO_48 == va % TWO_48 + d && Wrap(va + d) < TWO_64
  {
    var q := va / TWO_48;
    assert va + d == TWO_48 * q + (va % TWO_48 + d);
    var t := (va + d) / TWO_64;
    assert (va + d) % TWO_64 == TWO_48 * (q - 0x1_0000 * t) + (va % TWO_48 + d);
  }

  lemma WrapTwice(va: nat, d: nat, b: nat)
    ensures Wrap(Wrap(va + d) + b) == Wrap(va + (d + b))
  {
    var q := (va + d) / TWO_64;
    assert va + (d + b) == TWO_64 * q + ((va + d) % TWO_64 + b);
  }

  lemma FitsMeansLevel(level: nat, p: nat, base: nat, pa: nat, size: nat)
    requires 1 <= level <= 3 && (level > 1 ==> Fits(level, p, base, pa, size))
    ensures level <= PageLevel(p, base, pa, size)
  {}

  lemma FitsOfLow(level: nat, v: nat, base: nat, pa: nat, size: nat)
    ensures Fits(level, v, base, pa, size) == Fits(level, v % TWO_48, base, pa, size)
  {
    hide Slot;
    SlotOfLow(v, level);
  }
}
