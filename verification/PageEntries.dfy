/** Page-table entry words of xtkernel/arch/x86_64/memory.c: fields, and the words the kernel builds. */
module PageEntries {
  import opened Bits

  type Word = w: nat | w < TWO_64

  const P_PRESENT: nat := 1
  const P_RW: nat := 2
  const P_US: nat := 4
  const P_PS: nat := 128
  const P_NX: nat := TWO_63
  const ADDR_MASK: nat := 0x000f_ffff_ffff_f000
  const PTE_FLAGS_MASK: nat := 0x7fff_ffff_ffff_ffff
  const DIRECTORY_FLAGS: nat := 0x07

  const XT_MEM_USER: nat := 0x0200
  const XT_MEM_WRITE: nat := 0x0800
  const XT_MEM_EXEC: nat := 0x1000

  /** A frame address an entry can hold. */
  predicate FrameOk(f: nat) {
    f % 0x1000 == 0 && f < TWO_52
  }

  /** The address mask selects bits 12 to 51. */
  lemma AddressField(e: nat)
    ensures And(e, ADDR_MASK) == e / 0x1000 % 0x100_0000_0000 * 0x1000
  {
    hide And, Or, Shr, Low;
    Powers();
    hide Pow2;
    AndHigh(e, 0xff_ffff_ffff, 12);
    DivideBy(e, 12, 0x1000);
    AndLow(e / 0x1000, 40);
    DivideBy(e / 0x1000, 40, 0x100_0000_0000);
  }

  lemma BitOne(e: nat)
    ensures And(e, 1) == e % 2
  {
    hide *;
    Powers();
    AndLow(e, 1);
    DivideBy(e, 1, 2);
  }

  lemma BitSeven(e: nat)
    ensures And(e, 128) == 128 * (e / 128 % 2)
  {
    hide *;
    Powers();
    AndHigh(e, 1, 7);
    DivideBy(e, 7, 128);
    BitOne(e / 128);
  }

  predicate Present(e: Word) {
    And(e, P_PRESENT) != 0
  }

  predicate Large(e: Word) {
    And(e, P_PS) != 0
  }

  function Addr(e: Word): nat {
    And(e, ADDR_MASK)
  }

  lemma ZeroAbsent()
    ensures !Present(0)
  {}

  /** The three fields of an entry as arithmetic. */
  lemma Fields(e: Word)
    ensures Present(e) <==> e % 2 == 1
    ensures Large(e) <==> e / 128 % 2 == 1
    ensures Addr(e) == e / 0x1000 % 0x100_0000_0000 * 0x1000 && FrameOk(Addr(e))
  {
    hide And;
    BitOne(e);
    BitSeven(e);
    AddressField(e);
  }

  /** What is left of a word beside its address field. */
  function FlagsOf(e: Word): int {
    e - Addr(e)
  }

  function BuildFlags(attr: nat): nat {
    var f0 := 1;
    var f1 := if And(attr, XT_MEM_USER) != 0 then Or(f0, P_US) else f0;
    var f2 := if And(attr, XT_MEM_WRITE) != 0 then Or(f1, P_RW) else f1;
    if And(attr, XT_MEM_EXEC) == 0 then Or(f2, P_NX) else f2
  }

  predicate LeafFlags(flags: nat) {
    exists low, nx :: flags == low + TWO_63 * nx && 0 <= low < 8 && low % 2 == 1 && 0 <= nx <= 1
  }

  /** Bit 0 is set, bit 1 is bit 11 of the attributes, bit 2 is their bit 9, bit 63 is the inverse of their bit 12. */
  lemma BuildFlagsBits(attr: nat)
    ensures LeafFlags(BuildFlags(attr))
    ensures BuildFlags(attr) == 1 + 2 * (attr / 0x800 % 2) + 4 * (attr / 0x200 % 2)
                                + 0x8000_0000_0000_0000 * (1 - attr / 0x1000 % 2)
  {
    AttributeBits(attr);
    OrSmall();
    var low := 1 + 2 * (attr / 0x800 % 2) + 4 * (attr / 0x200 % 2);
    AddNoExec(low);
    hide And, Or;
    assert BuildFlags(attr) == low + TWO_63 * (1 - attr / 0x1000 % 2);
  }

  lemma OrSmall()
    ensures Or(1, 4) == 5 && Or(1, 2) == 3 && Or(5, 2) == 7
  {
    OrHalf(1, 4);
    OrHalf(1, 2);
    OrHalf(5, 2);
    OrHalf(2, 1);
  }

  lemma AddNoExec(low: nat)
    requires low < 8
    ensures Or(low, P_NX) == low + TWO_63
  {
    Powers();
    assert Pow2(63) == 0x1000 * Pow2(51) by { Pow2Add(51, 12); }
    hide Or, Pow2;
    OrCommutes(low, P_NX);
    OrJoin(1, low, 63);
  }

  lemma AttributeBits(attr: nat)
    ensures And(attr, XT_MEM_USER) != 0 <==> attr / 0x200 % 2 == 1
    ensures And(attr, XT_MEM_WRITE) != 0 <==> attr / 0x800 % 2 == 1
    ensures And(attr, XT_MEM_EXEC) != 0 <==> attr / 0x1000 % 2 == 1
  {
    Powers();
    hide And, Shr, Low, Pow2;
    BitOf(attr, 9, 0x200);
    BitOf(attr, 11, 0x800);
    BitOf(attr, 12, 0x1000);
  }

  lemma BitOf(x: nat, k: nat, p: nat)
    requires p == Pow2(k)
    ensures And(x, p) == p * (x / p % 2)
  {
    hide And, Shr, Low, Pow2;
    AndHigh(x, 1, k);
    DivideBy(x, k, p);
    BitOne(x / p);
  }

  /** The word of a leaf: `(pa & ADDR_MASK) | flags`, with the size bit in directory levels. */
  function LeafWord(pa: nat, flags: nat, large: bool): nat {
    var w := Or(And(pa, ADDR_MASK), flags);
    if large then Or(w, P_PS) else w
  }

  lemma LeafWordValue(pa: nat, low: nat, nx: nat, large: bool)
    requires FrameOk(pa) && low < 8 && nx <= 1
    ensures LeafWord(pa, low + TWO_63 * nx, large) == pa + low + TWO_63 * nx + if large then P_PS else 0
  {
    hide And, Or;
    AddressField(pa);
    OrFlags(pa, low, nx);
    if large { OrSizeBit(pa + low + TWO_63 * nx, low); }
  }

  /** A leaf word carries exactly the frame and the flags it was built from. */
  lemma LeafWordFields(pa: nat, flags: nat, large: bool)
    requires FrameOk(pa) && LeafFlags(flags)
    ensures LeafWord(pa, flags, large) < TWO_64
    ensures Present(LeafWord(pa, flags, large)) && Addr(LeafWord(pa, flags, large)) == pa
    ensures Large(LeafWord(pa, flags, large)) == large
    ensures FlagsOf(LeafWord(pa, flags, large)) == flags + if large then P_PS else 0
  {
    hide LeafWord, Present, Large, Addr;
    var low, nx :| flags == low + TWO_63 * nx && 0 <= low < 8 && low % 2 == 1 && 0 <= nx <= 1;
    LeafWordValue(pa, low, nx, large);
    LeafWordDecode(pa, low, nx, large);
  }

  lemma LeafWordDecode(pa: nat, low: nat, nx: nat, large: bool)
    requires FrameOk(pa) && low < 8 && low % 2 == 1 && nx <= 1
    ensures var w := pa + low + TWO_63 * nx + if large then P_PS else 0;
      w < TWO_64 && Present(w) && Addr(w) == pa && Large(w) == large
  {
    hide And, Present, Large, Addr;
    Digits(pa / 0x1000, low, nx, if large then 1 else 0);
    Fields(pa + low + TWO_63 * nx + if large then P_PS else 0);
  }

  lemma Digits(j: nat, low: nat, nx: nat, ps: nat)
    requires j < 0x100_0000_0000 && low < 8 && low % 2 == 1 && nx <= 1 && ps <= 1
    ensures var w := 0x1000 * j + low + TWO_63 * nx + 128 * ps;
      w < TWO_64 && w % 2 == 1 && w / 128 % 2 == ps && w / 0x1000 % 0x100_0000_0000 == j
  {
    var w := 0x1000 * j + low + TWO_63 * nx + 128 * ps;
    if nx == 0 {
      assert w / 0x1000 == j;
      assert w / 128 == 32 * j + ps;
    } else {
      assert w / 0x1000 == j + 0x8_0000_0000_0000;
      assert w / 128 == 32 * (j + 0x8_0000_0000_0000) + ps;
    }
  }

  /** The permissions a leaf word was built with, read back as bits 0, 1, 2 and 63. */
  lemma LeafWordBits(pa: nat, flags: nat, large: bool)
    requires FrameOk(pa) && LeafFlags(flags)
    ensures var w := LeafWord(pa, flags, large);
      && w % 2 == 1 && w / 2 % 2 == flags / 2 % 2 && w / 4 % 2 == flags / 4 % 2
      && w / 0x8000_0000_0000_0000 == flags / 0x8000_0000_0000_0000
  {
    hide LeafWord;
    var low, nx :| flags == low + TWO_63 * nx && 0 <= low < 8 && low % 2 == 1 && 0 <= nx <= 1;
    LeafWordValue(pa, low, nx, large);
    LowBitsOf(pa / 0x1000, low, nx, if large then 1 else 0);
    LowBitsOf(0, low, nx, 0);
  }

  lemma LowBitsOf(j: nat, low: nat, nx: nat, ps: nat)
    requires j < 0x100_0000_0000 && low < 8 && nx <= 1 && ps <= 1
    ensures var w := 0x1000 * j + low + TWO_63 * nx + 128 * ps;
      w % 2 == low % 2 && w / 2 % 2 == low / 2 % 2 && w / 4 % 2 == low / 4 % 2 && w / TWO_63 == nx
  {
    var w := 0x1000 * j + low + TWO_63 * nx + 128 * ps;
    var h := 512 * j + 0x1000_0000_0000_0000 * nx + 16 * ps;
    assert w == 8 * h + low;
    DivModUnique(w, 2, 4 * h + low / 2, low % 2);
    DivModUnique(w, 4, 2 * h + low / 4, low % 4);
    DivModUnique(w / 2, 2, 2 * h + low / 4, low / 2 % 2);
    DivModUnique(w / 4, 2, h, low / 4);
    DivModUnique(w, TWO_63, nx, w - TWO_63 * nx);
  }

  lemma OrFlags(pa: nat, low: nat, nx: nat)
    requires FrameOk(pa) && low < 8 && nx <= 1
    ensures Or(pa, low + TWO_63 * nx) == pa + low + TWO_63 * nx
  {
    hide And, Or, Shr, Low;
    Powers();
    hide Pow2;
    var j, top := pa / 0x1000, 0x8_0000_0000_0000 * nx;
    var y := low + TWO_63 * nx;
    Unique(j, 0, 12);
    Unique(top, low, 12);
    OrCommutes(j, top);
    OrJoin(nx, j, 51);
    OrSplit(pa, y, 12);
    AndZero(low);
  }

  lemma OrSizeBit(w: nat, low: nat)
    requires w % 0x1000 == low < 8
    ensures Or(w, P_PS) == w + P_PS
  {
    hide And, Or, Shr, Low;
    Powers();
    hide Pow2;
    Unique(w / 0x1000, low, 12);
    Unique(0, P_PS, 12);
    OrCommutes(low, P_PS);
    OrJoin(1, low, 7);
    OrSplit(w, P_PS, 12);
    AndZero(w / 0x1000);
  }

  /** The word xtGetOrMakePageTable stores over an old word `e` for a new table at `f`. */
  function DirWord(f: nat, e: Word): nat {
    Or(Or(f, And(e, PTE_FLAGS_MASK)), DIRECTORY_FLAGS)
  }

  lemma DirWordFields(f: nat)
    requires FrameOk(f)
    ensures DirWord(f, 0) == f + 7
    ensures Present(DirWord(f, 0)) && !Large(DirWord(f, 0)) && Addr(DirWord(f, 0)) == f
  {
    hide And, Or, Present, Large, Addr;
    AndZero(PTE_FLAGS_MASK);
    AndZero(f);
    Powers();
    hide Pow2;
    OrJoin(f / 0x1000, 7, 12);
    LeafWordDecode(f, 7, 0, false);
  }

  predicate Bit7(x: nat) { Shr(x, 7) % 2 == 1 }

  lemma Bit7Is(x: nat)
    ensures Bit7(x) <==> x / 128 % 2 == 1
  {
    assert Pow2(7) == 128 by { Powers(); }
    hide Shr, Low, Pow2;
    DivideBy(x, 7, 128);
  }

  lemma Bit7Of(x: nat, y: nat)
    ensures Bit7(Or(x, y)) <==> Bit7(x) || Bit7(y)
    ensures Bit7(And(x, y)) <==> Bit7(x) && Bit7(y)
  {
    hide Or, And, Shr;
    ShrOr(x, y, 7);
    OrHalf(Shr(x, 7), Shr(y, 7));
    AndHalf(Shr(x, 7), Shr(y, 7));
  }

  lemma DirWordIsWord(f: nat, e: Word)
    requires FrameOk(f)
    ensures DirWord(f, e) < TWO_64 / 2
  {
    assert Pow2(63) == TWO_63 by { Powers(); Pow2Add(51, 12); }
    hide Or, And, Low, Pow2;
    AndLow(e, 63);
    DivideBy(e, 63, TWO_63);
    LowStaysLow(f, And(e, PTE_FLAGS_MASK), 63);
    LowStaysLow(Or(f, And(e, PTE_FLAGS_MASK)), DIRECTORY_FLAGS, 63);
  }

  /** A table put in place of a large leaf is never seen: the mask keeps the size bit of the old entry, so the new
      entry reads as a leaf again, and as a table exactly when the old one did. */
  lemma DemotionIsUnseen(f: nat, e: Word)
    requires FrameOk(f)
    ensures DirWord(f, e) < 0x8000_0000_0000_0000
    ensures Large(DirWord(f, e)) <==> Large(e)
  {
    DirWordIsWord(f, e);
    hide Or, And, Large, Bit7;
    Fields(e);
    Fields(DirWord(f, e));
    Bit7Is(e);
    Bit7Is(DirWord(f, e));
    Bit7Is(f);
    Bit7Is(PTE_FLAGS_MASK);
    Bit7Is(DIRECTORY_FLAGS);
    Bit7Of(e, PTE_FLAGS_MASK);
    Bit7Of(f, And(e, PTE_FLAGS_MASK));
    Bit7Of(Or(f, And(e, PTE_FLAGS_MASK)), DIRECTORY_FLAGS);
    assert f / 128 % 2 == 0;
  }
}
