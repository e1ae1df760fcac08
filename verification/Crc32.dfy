/** The CRC-32 of GPT headers and partition arrays, from xtkernel/gpt.c. */
module Crc32 {

  const POLYNOMIAL: bv32 := 0xedb8_8320
  const ONES: bv32 := 0xffff_ffff

  // ----- The register, bit by bit -----

  /** The bit-serial register: the message bit and the bit that is shifted out decide whether the polynomial goes in. */
  function FeedBit(c: bv32, bit: bool): bv32 {
    if (c & 1 == 1) != bit then (c >> 1) ^ POLYNOMIAL else c >> 1
  }

  function Bit(b: bv8, k: nat): bool
    requires k < 8
  {
    (b >> k) & 1 == 1
  }

  /** Bits k and up of a byte, lowest first. */
  function FeedByte(c: bv32, b: bv8, k: nat): bv32
    requires k <= 8
    decreases 8 - k
  {
    if k == 8 then c else FeedByte(FeedBit(c, Bit(b, k)), b, k + 1)
  }

  /** The register after a stream of bits. */
  function Serial(c: bv32, bits: seq<bool>): bv32
    decreases |bits|
  {
    if bits == [] then c else FeedBit(Serial(c, bits[..|bits| - 1]), bits[|bits| - 1])
  }

  function ByteBits(b: bv8): (s: seq<bool>)
    ensures |s| == 8
  {
    seq(8, k requires 0 <= k < 8 => Bit(b, k))
  }

  /** A message as it is sent: byte after byte, lowest bit first. */
  function BitsOf(message: seq<bv8>): (bits: seq<bool>)
    ensures |bits| == 8 * |message|
    decreases |message|
  {
    if message == [] then []
    else BitsOf(message[..|message| - 1]) + ByteBits(message[|message| - 1])
  }

  /** CRC-32: all ones in the register before the first bit, inverted after the last. */
  function Crc(message: seq<bv8>): bv32 {
    Xor(Serial(ONES, BitsOf(message)), ONES)
  }

  // ----- The table -----

  /** One turn of the inner loop of create_crc32_table. */
  function Step(c: bv32): bv32 {
    if c & 1 == 1 then POLYNOMIAL ^ (c >> 1) else c >> 1
  }

  function Steps(c: bv32, k: nat): bv32 {
    if k == 0 then c else Step(Steps(c, k - 1))
  }

  lemma {:induction false} StepsAdd(c: bv32, j: nat, k: nat)
    ensures Steps(c, j + k) == Steps(Steps(c, j), k)
    decreases k
  {
    if k > 0 { StepsAdd(c, j, k - 1); }
  }

  // The operators by name, to keep their bits out of the proofs below.

  function Xor(x: bv32, y: bv32): bv32 { x ^ y }

  function Half(x: bv32): bv32 { x >> 1 }

  predicate Odd(x: bv32) { x & 1 == 1 }

  lemma StepIs(x: bv32)
    ensures Step(x) == if Odd(x) then Xor(POLYNOMIAL, Half(x)) else Half(x)
  {}

  lemma HalfXor(x: bv32, y: bv32)
    ensures Half(Xor(x, y)) == Xor(Half(x), Half(y))
  {}

  lemma OddXor(x: bv32, y: bv32)
    ensures Odd(Xor(x, y)) <==> Odd(x) != Odd(y)
  {}

  lemma XorIs(x: bv32, y: bv32)
    ensures Xor(x, y) == x ^ y
  {}

  lemma CancelBits(p: bv32, x: bv32, y: bv32, a: bv32, b: bv32)
    requires a == p ^ x && b == p ^ y
    ensures a ^ b == x ^ y
  {}

  lemma MoveBits(p: bv32, x: bv32, y: bv32, a: bv32, b: bv32, c: bv32)
    requires a == p ^ x && b == p ^ y && c == x ^ y
    ensures a ^ y == p ^ c && x ^ b == p ^ c
  {}

  lemma XorMoves(p: bv32, x: bv32, y: bv32)
    ensures Xor(Xor(p, x), Xor(p, y)) == Xor(x, y)
    ensures Xor(Xor(p, x), y) == Xor(p, Xor(x, y)) == Xor(x, Xor(p, y))
  {
    hide *;
    var a, b, c := Xor(p, x), Xor(p, y), Xor(x, y);
    XorIs(p, x);
    XorIs(p, y);
    XorIs(x, y);
    CancelBits(p, x, y, a, b);
    MoveBits(p, x, y, a, b, c);
    XorIs(a, b);
    XorIs(a, y);
    XorIs(p, c);
    XorIs(x, b);
  }

  lemma StepLinear(x: bv32, y: bv32)
    ensures Step(Xor(x, y)) == Xor(Step(x), Step(y))
  {
    hide *;
    StepIs(x);
    StepIs(y);
    StepIs(Xor(x, y));
    HalfXor(x, y);
    OddXor(x, y);
    XorMoves(POLYNOMIAL, Half(x), Half(y));
  }

  lemma {:induction false} StepsLinear(x: bv32, y: bv32, k: nat)
    ensures Steps(Xor(x, y), k) == Xor(Steps(x, k), Steps(y, k))
    decreases k
  {
    hide Step, Xor;
    if k > 0 {
      StepsLinear(x, y, k - 1);
      StepLinear(Steps(x, k - 1), Steps(y, k - 1));
    }
  }

  function Low8(x: bv32): bv32 { x & 0xff }

  function High(x: bv32): bv32 { x & 0xffff_ff00 }

  function Shift8(x: bv32): bv32 { x >> 8 }

  lemma Parts(x: bv32)
    ensures Xor(Low8(x), High(x)) == x && High(x) & 0xff == 0 && High(x) >> 8 == Shift8(x)
  {}

  /** As long as the bits shifted out are zero, stepping is shifting. */
  lemma StepsShift(x: bv32)
    ensures Steps(High(x), 8) == Shift8(x)
  {
    var h := High(x);
    Parts(x);
    HighEven(h);
    hide *;
    Even4(h);
    Even4(h >> 4);
    StepsAdd(h, 4, 4);
  }

  lemma HighEven(h: bv32)
    requires h & 0xff == 0
    ensures h & 0xf == 0 && (h >> 4) & 0xf == 0 && (h >> 4) >> 4 == h >> 8
  {}

  lemma Even4(h: bv32)
    requires h & 0xf == 0
    ensures Steps(h, 4) == h >> 4
  {
    EvenBits(h);
    hide Step, Half, Odd;
    StepIs(h);
    StepIs(Half(h));
    StepIs(Half(Half(h)));
    StepIs(Half(Half(Half(h))));
    assert Steps(h, 1) == Step(Steps(h, 0));
    assert Steps(h, 2) == Step(Steps(h, 1));
    assert Steps(h, 3) == Step(Steps(h, 2));
    assert Steps(h, 4) == Step(Steps(h, 3));
  }

  lemma EvenBits(h: bv32)
    requires h & 0xf == 0
    ensures !Odd(h) && !Odd(Half(h)) && !Odd(Half(Half(h))) && !Odd(Half(Half(Half(h))))
    ensures Half(Half(Half(Half(h)))) == h >> 4
  {}

  /** Looking up the low byte and shifting the rest is eight steps at once. */
  lemma TableStep(x: bv32)
    ensures Steps(x, 8) == Xor(Steps(Low8(x), 8), Shift8(x))
  {
    hide *;
    Parts(x);
    StepsLinear(Low8(x), High(x), 8);
    StepsShift(x);
  }

  lemma FedBit(c: bv32, b: bv32)
    ensures Xor(FeedBit(c, Odd(b)), Half(b)) == Step(Xor(c, b))
  {
    hide *;
    StepIs(Xor(c, b));
    HalfXor(c, b);
    OddXor(c, b);
    FeedBitIs(c, Odd(b));
    XorMoves(POLYNOMIAL, Half(c), Half(b));
  }

  lemma FeedBitIs(c: bv32, bit: bool)
    ensures FeedBit(c, bit) == if Odd(c) != bit then Xor(POLYNOMIAL, Half(c)) else Half(c)
  {}

  /** The bits of a byte from k up. */
  function Rest(b: bv8, k: nat): bv32
    requires k <= 8
  {
    (b as bv32) >> k
  }

  lemma RestBit(b: bv8, k: nat)
    requires k < 8
    ensures Odd(Rest(b, k)) == Bit(b, k) && Half(Rest(b, k)) == Rest(b, k + 1)
  {
    if k == 0 {} else if k == 1 {} else if k == 2 {} else if k == 3 {}
    else if k == 4 {} else if k == 5 {} else if k == 6 {} else {}
  }

  lemma RestEnds(c: bv32, b: bv8)
    ensures Rest(b, 0) == b as bv32 && Xor(c, Rest(b, 8)) == c
  {}

  /** Xoring a byte into the register and stepping is feeding its bits one by one. */
  lemma {:induction false} ByteAtOnce(c: bv32, b: bv8, k: nat)
    requires k <= 8
    ensures FeedByte(c, b, k) == Steps(Xor(c, Rest(b, k)), 8 - k)
    decreases 8 - k
  {
    hide Xor, Rest, Bit, FeedBit, Step;
    if k == 8 {
      RestEnds(c, b);
    } else {
      RestBit(b, k);
      FedBit(c, Rest(b, k));
      ByteAtOnce(FeedBit(c, Bit(b, k)), b, k + 1);
      StepsAdd(Xor(c, Rest(b, k)), 1, 7 - k);
      assert Steps(Xor(c, Rest(b, k)), 1) == Step(Steps(Xor(c, Rest(b, k)), 0));
    }
  }

  /** The table-driven turn of calculate_crc32: crc_table[(c ^ b) & 0xFF] ^ (c >> 8). */
  function Next(c: bv32, b: bv8): bv32 {
    Xor(Steps(Low8(Xor(c, b as bv32)), 8), Shift8(c))
  }

  lemma ShiftedOut(c: bv32, b: bv8)
    ensures Shift8(Xor(c, b as bv32)) == Shift8(c)
  {}

  /** ... is the bit-serial register fed with the byte. */
  lemma NextIsSerial(c: bv32, b: bv8)
    ensures Next(c, b) == FeedByte(c, b, 0)
  {
    hide Steps, Xor, Rest, Low8, Shift8, FeedByte;
    RestEnds(c, b);
    ShiftedOut(c, b);
    ByteAtOnce(c, b, 0);
    TableStep(Xor(c, Rest(b, 0)));
  }

  lemma {:induction false} SerialByte(c: bv32, bits: seq<bool>, b: bv8, k: nat)
    requires k <= 8
    ensures FeedByte(Serial(c, bits + ByteBits(b)[..k]), b, k) == FeedByte(Serial(c, bits), b, 0)
    decreases k
  {
    hide FeedBit, Bit;
    if k == 0 {
      assert bits + ByteBits(b)[..0] == bits;
    } else {
      var now := bits + ByteBits(b)[..k];
      assert now[..|now| - 1] == bits + ByteBits(b)[..k - 1] && now[|now| - 1] == ByteBits(b)[k - 1];
      SerialByte(c, bits, b, k - 1);
    }
  }

  /** The table-driven register over a whole message. */
  lemma NextByte(c: bv32, message: seq<bv8>, b: bv8)
    ensures Next(Serial(c, BitsOf(message)), b) == Serial(c, BitsOf(message + [b]))
  {
    hide Next, Serial, FeedByte;
    assert (message + [b])[..|message|] == message;
    assert ByteBits(b)[..8] == ByteBits(b);
    NextIsSerial(Serial(c, BitsOf(message)), b);
    SerialByte(c, BitsOf(message), b, 8);
    NothingLeft(Serial(c, BitsOf(message + [b])), b);
  }

  lemma NothingLeft(c: bv32, b: bv8)
    ensures FeedByte(c, b, 8) == c
  {}

  // ----- What the checksum detects -----

  lemma XorZero(x: bv32, y: bv32)
    ensures Xor(x, y) == 0 <==> x == y
  {
    hide Xor;
    XorIs(x, y);
    EqualBits(x, y);
  }

  lemma EqualBits(x: bv32, y: bv32)
    ensures x ^ y == 0 <==> x == y
  {}

  lemma StepZero(x: bv32)
    ensures Step(x) == 0 <==> x == 0
  {}

  /** 2^31 shifted right k times. */
  function Bound(k: nat): bv32 {
    if k == 0 then 0x8000_0000 else Half(Bound(k - 1))
  }

  lemma Bound31()
    ensures Bound(31) == 1
  {
    assert Bound(4) == 0x800_0000;
    assert Bound(8) == 0x80_0000;
    assert Bound(12) == 0x8_0000;
    assert Bound(16) == 0x8000;
    assert Bound(20) == 0x800;
    assert Bound(24) == 0x80;
    assert Bound(28) == 8;
  }

  lemma {:induction false} BoundFalls(k: nat, v: bv32)
    requires Below(v, Bound(k))
    ensures Below(v, 0x8000_0000)
    decreases k
  {
    if k > 0 {
      hide Below;
      BelowHalf(v, Bound(k - 1));
      BoundFalls(k - 1, v);
    }
  }

  lemma BelowHalf(v: bv32, bound: bv32)
    requires Below(v, Half(bound))
    ensures Below(v, bound)
  {}

  function Flip(e: bool): bv32 { if e then 1 else 0 }

  predicate Below(x: bv32, y: bv32) { x < y }

  lemma BoundNext(k: nat)
    requires k > 0
    ensures Bound(k) == Half(Bound(k - 1))
  {}

  /** A small difference can only come from a difference of one more bit, by a plain shift. */
  lemma StepBack(d: bv32, e: bool, k: nat)
    requires Below(Step(Xor(d, Flip(e))), Bound(k))
    ensures Half(d) == Step(Xor(d, Flip(e))) && Odd(d) == e
    ensures k > 0 ==> Below(d, Bound(k - 1))
  {
    hide *;
    var v := Step(Xor(d, Flip(e)));
    BoundFalls(k, v);
    SmallStep(d, e);
    if k > 0 {
      BoundNext(k);
      HalfBelow(d, Bound(k - 1));
    }
  }

  lemma SmallStep(d: bv32, e: bool)
    requires Below(Step(Xor(d, Flip(e))), 0x8000_0000)
    ensures Half(d) == Step(Xor(d, Flip(e))) && Odd(d) == e
  {}

  lemma HalfBelow(d: bv32, bound: bv32)
    requires Below(Half(d), Half(bound))
    ensures Below(d, bound)
  {}

  /** How far two registers are apart after m bits. */
  function Difference(c: bv32, x: seq<bool>, y: seq<bool>, m: nat): bv32
    requires m <= |x| && m <= |y|
  {
    Xor(Serial(c, x[..m]), Serial(c, y[..m]))
  }

  lemma FeedDifference(r: bv32, s: bv32, a: bool, b: bool)
    ensures Xor(FeedBit(r, a), FeedBit(s, b)) == Step(Xor(Xor(r, s), Flip(a != b)))
  {
    hide *;
    var d := Xor(r, s);
    FeedBitIs(r, a);
    FeedBitIs(s, b);
    HalfXor(r, s);
    OddXor(r, s);
    XorMoves(POLYNOMIAL, Half(r), Half(s));
    StepIs(Xor(d, Flip(a != b)));
    FlipLow(d, a != b);
  }

  lemma FlipLow(d: bv32, e: bool)
    ensures Half(Xor(d, Flip(e))) == Half(d) && Odd(Xor(d, Flip(e))) == (Odd(d) != e)
    ensures !e ==> Xor(d, Flip(e)) == d
  {}

  lemma NextDifference(c: bv32, x: seq<bool>, y: seq<bool>, m: nat)
    requires m < |x| && m < |y|
    ensures Difference(c, x, y, m + 1) == Step(Xor(Difference(c, x, y, m), Flip(x[m] != y[m])))
  {
    hide FeedBit, Xor, Step;
    assert x[..m + 1][..m] == x[..m] && y[..m + 1][..m] == y[..m];
    FeedDifference(Serial(c, x[..m]), Serial(c, y[..m]), x[m], y[m]);
  }

  lemma {:induction false} Backwards(c: bv32, x: seq<bool>, y: seq<bool>, m: nat)
    requires |x| == |y| <= 32 && m <= |x| && Serial(c, x) == Serial(c, y)
    ensures 32 > |x| - m ==> Below(Difference(c, x, y, m), Bound(31 - (|x| - m)))
    ensures m < |x| ==> Half(Difference(c, x, y, m)) == Difference(c, x, y, m + 1)
    ensures m < |x| ==> Odd(Difference(c, x, y, m)) == (x[m] != y[m])
    decreases |x| - m
  {
    if m == |x| {
      hide Bound, Xor;
      assert x[..m] == x && y[..m] == y;
      XorZero(Serial(c, x), Serial(c, y));
      Bound31();
    } else {
      hide *;
      Backwards(c, x, y, m + 1);
      NextDifference(c, x, y, m);
      StepBack(Difference(c, x, y, m), x[m] != y[m], 31 - (|x| - (m + 1)));
    }
  }

  /** Up to 32 bits can be told from the register they lead to. */
  lemma {:induction false} BitsMatch(c: bv32, x: seq<bool>, y: seq<bool>, m: nat)
    requires |x| == |y| <= 32 && m <= |x| && Serial(c, x) == Serial(c, y)
    ensures Difference(c, x, y, m) == 0 && x[..m] == y[..m]
    decreases m
  {
    if m == 0 {
      XorZero(c, c);
    } else {
      BitsMatch(c, x, y, m - 1);
      Backwards(c, x, y, m - 1);
      assert Half(0) == 0 && !Odd(0);
      assert x[..m] == x[..m - 1] + [x[m - 1]] && y[..m] == y[..m - 1] + [y[m - 1]];
    }
  }

  lemma {:induction false} SerialConcat(c: bv32, x: seq<bool>, y: seq<bool>)
    ensures Serial(c, x + y) == Serial(Serial(c, x), y)
    decreases |y|
  {
    hide FeedBit;
    if y == [] {
      assert x + y == x;
    } else {
      assert (x + y)[..|x + y| - 1] == x + y[..|y| - 1];
      SerialConcat(c, x, y[..|y| - 1]);
    }
  }

  /** The same bits lead different registers to different registers. */
  lemma {:induction false} SerialInjective(c: bv32, d: bv32, bits: seq<bool>)
    requires Serial(c, bits) == Serial(d, bits)
    ensures c == d
    decreases |bits|
  {
    if bits != [] {
      hide FeedBit, Step, Xor;
      var r, s, bit := Serial(c, bits[..|bits| - 1]), Serial(d, bits[..|bits| - 1]), bits[|bits| - 1];
      FeedDifference(r, s, bit, bit);
      XorZero(FeedBit(r, bit), FeedBit(s, bit));
      FlipLow(Xor(r, s), false);
      StepZero(Xor(r, s));
      XorZero(r, s);
      SerialInjective(c, d, bits[..|bits| - 1]);
    }
  }

  lemma {:induction false} BitAt(message: seq<bv8>, i: nat, k: nat)
    requires i < |message| && k < 8
    ensures BitsOf(message)[8 * i + k] == Bit(message[i], k)
    decreases |message|
  {
    hide Bit;
    if i < |message| - 1 { BitAt(message[..|message| - 1], i, k); }
  }

  lemma SameByte(a: bv8, b: bv8)
    requires forall k :: 0 <= k < 8 ==> Bit(a, k) == Bit(b, k)
    ensures a == b
  {
    assert Bit(a, 0) == Bit(b, 0) && Bit(a, 1) == Bit(b, 1) && Bit(a, 2) == Bit(b, 2) && Bit(a, 3) == Bit(b, 3);
    assert Bit(a, 4) == Bit(b, 4) && Bit(a, 5) == Bit(b, 5) && Bit(a, 6) == Bit(b, 6) && Bit(a, 7) == Bit(b, 7);
  }

  lemma SameMessage(a: seq<bv8>, b: seq<bv8>)
    requires BitsOf(a) == BitsOf(b)
    ensures a == b
  {
    hide Bit, BitsOf;
    assert |a| == |b|;
    forall i | 0 <= i < |a| ensures a[i] == b[i] {
      forall k | 0 <= k < 8 ensures Bit(a[i], k) == Bit(b[i], k) {
        BitAt(a, i, k);
        BitAt(b, i, k);
      }
      SameByte(a[i], b[i]);
    }
  }

  lemma BurstBits(c: bv32, x: seq<bool>, y: seq<bool>, from: nat, to: nat)
    requires |x| == |y| && from <= to <= |x| && to - from <= 32 && x[..from] == y[..from] && x[to..] == y[to..]
    requires Serial(c, x) == Serial(c, y)
    ensures x == y
  {
    hide *;
    var before, after, u, v := x[..from], x[to..], x[from..to], y[from..to];
    assert x == before + (u + after) && y == before + (v + after);
    SerialConcat(c, before, u + after);
    SerialConcat(c, before, v + after);
    var r := Serial(c, before);
    SerialConcat(r, u, after);
    SerialConcat(r, v, after);
    SerialInjective(Serial(r, u), Serial(r, v), after);
    BitsMatch(r, u, v, to - from);
    assert u[..to - from] == u && v[..to - from] == v;
  }

  lemma Inverted(x: bv32, y: bv32)
    requires Xor(x, ONES) == Xor(y, ONES)
    ensures x == y
  {}

  /** Error bursts: messages of one length whose bits differ only within 32 consecutive places never share a CRC. */
  lemma BurstsAreDetected(a: seq<bv8>, b: seq<bv8>, from: nat, to: nat)
    requires |a| == |b| && a != b && from <= to <= 8 * |a| && to - from <= 32
    requires BitsOf(a)[..from] == BitsOf(b)[..from] && BitsOf(a)[to..] == BitsOf(b)[to..]
    ensures Crc(a) != Crc(b)
  {
    hide Serial, BitsOf, Xor, ONES;
    if Crc(a) == Crc(b) {
      Inverted(Serial(ONES, BitsOf(a)), Serial(ONES, BitsOf(b)));
      BurstBits(ONES, BitsOf(a), BitsOf(b), from, to);
      SameMessage(a, b);
      assert false;
    }
  }

  /** In particular, messages that differ in exactly one byte never do. */
  lemma OneByteIsDetected(a: seq<bv8>, i: nat, v: bv8)
    requires i < |a| && a[i] != v
    ensures Crc(a) != Crc(a[i := v])
  {
    var b := a[i := v];
    hide *;
    BitsBefore(a, b, i);
    BitsAfter(a, b, i);
    assert a[i] != b[i];
    BurstsAreDetected(a, b, 8 * i, 8 * i + 8);
  }

  lemma BitsBefore(a: seq<bv8>, b: seq<bv8>, i: nat)
    requires |a| == |b| && i <= |a| && a[..i] == b[..i]
    ensures BitsOf(a)[..8 * i] == BitsOf(b)[..8 * i]
  {
    hide BitsOf, Bit;
    forall j | 0 <= j < 8 * i ensures BitsOf(a)[j] == BitsOf(b)[j] {
      BitAt(a, j / 8, j % 8);
      BitAt(b, j / 8, j % 8);
      assert a[j / 8] == a[..i][j / 8] == b[..i][j / 8];
    }
  }

  lemma BitsAfter(a: seq<bv8>, b: seq<bv8>, i: nat)
    requires |a| == |b| && i < |a| && a[i + 1..] == b[i + 1..]
    ensures BitsOf(a)[8 * i + 8..] == BitsOf(b)[8 * i + 8..]
  {
    hide BitsOf, Bit;
    forall j | 8 * i + 8 <= j < 8 * |a| ensures BitsOf(a)[j] == BitsOf(b)[j] {
      BitAt(a, j / 8, j % 8);
      BitAt(b, j / 8, j % 8);
      assert a[j / 8] == a[i + 1..][j / 8 - i - 1] == b[i + 1..][j / 8 - i - 1];
    }
  }

  // ----- The code -----

  class Calculator {
    /** crc_table and made_crc_table */
    var table: array<bv32>
    var made: bool

    ghost predicate Valid()
      reads this, table
    {
      table.Length == 256 && (made ==> forall n :: 0 <= n < 256 ==> table[n] == Steps(n as bv32, 8))
    }

    constructor ()
      ensures Valid() && !made && fresh(table)
    {
      table := new bv32[256];
      made := false;
    }

    /** create_crc32_table */
    method CreateTable()
      requires Valid()
      modifies table
      ensures table.Length == 256 && forall n :: 0 <= n < 256 ==> table[n] == Steps(n as bv32, 8)
    {
      hide Xor, Half, Odd, Step, Steps;
      var n := 0;
      while n < 256
        invariant 0 <= n <= 256 && table.Length == 256
        invariant forall j :: 0 <= j < n ==> table[j] == Steps(j as bv32, 8)
      {
        var c := n as bv32;
        NoSteps(c);
        var k := 0;
        while k < 8
          invariant 0 <= k <= 8 && c == Steps(n as bv32, k)
          invariant forall j :: 0 <= j < n ==> table[j] == Steps(j as bv32, 8)
        {
          StepIs(c);
          StepsNext(n as bv32, k);
          if Odd(c) {
            c := Xor(POLYNOMIAL, Half(c));
          } else {
            c := Half(c);
          }
          k := k + 1;
        }
        table[n] := c;
        n := n + 1;
      }
    }

    /** calculate_crc32: the CRC of the first len bytes, of none if len is negative. */
    method Calculate(buf: array<bv8>, len: int) returns (r: bv32)
      requires Valid() && len <= buf.Length
      modifies this, table
      ensures Valid() && table == old(table)
      ensures r == Crc(if len < 0 then [] else old(buf[..len]))
    {
      hide Xor, Low8, Shift8, Steps, Serial, BitsOf;
      if !made {
        CreateTable();
        made := true;
      }
      var c := ONES;
      EmptySerial(c);
      var n := 0;
      while n < len
        invariant 0 <= n <= if len < 0 then 0 else len
        invariant Valid() && made && table == old(table) && buf[..] == old(buf[..])
        invariant c == Serial(ONES, BitsOf(buf[..n]))
      {
        NextByte(ONES, buf[..n], buf[n]);
        assert buf[..n + 1] == buf[..n] + [buf[n]];
        LowIndex(Xor(c, buf[n] as bv32));
        c := Xor(table[Low8(Xor(c, buf[n] as bv32)) as int], Shift8(c));
        n := n + 1;
      }
      r := Xor(c, ONES);
    }
  }

  lemma NoSteps(c: bv32)
    ensures Steps(c, 0) == c
  {}

  lemma StepsNext(c: bv32, k: nat)
    ensures Steps(c, k + 1) == Step(Steps(c, k))
  {}

  lemma LowIndex(x: bv32)
    ensures Low8(x) as int < 256 && (Low8(x) as int) as bv32 == Low8(x)
  {
    LowBits(x);
    hide Low8;
    IndexIs(Low8(x));
  }

  lemma LowBits(x: bv32)
    ensures Low8(x) <= 0xff
  {}

  lemma IndexIs(y: bv32)
    requires y <= 0xff
    ensures y as int < 256
    ensures (y as int) as bv32 == y
  {}

  lemma EmptySerial(c: bv32)
    ensures Serial(c, BitsOf([])) == c
  {}

  // ----- The published check value -----

  /** The digits "1" to "9" in ASCII. */
  const DIGITS: seq<bv8> := [0x31, 0x32, 0x33, 0x34, 0x35, 0x36, 0x37, 0x38, 0x39]

  lemma OneMore(message: seq<bv8>, n: nat, c: bv32, d: bv32)
    requires n < |message| && Serial(ONES, BitsOf(message[..n])) == c && FeedByte(c, message[n], 0) == d
    ensures Serial(ONES, BitsOf(message[..n + 1])) == d
  {
    hide Serial, FeedByte;
    assert message[..n + 1] == message[..n] + [message[n]];
    NextByte(ONES, message[..n], message[n]);
    NextIsSerial(c, message[n]);
  }

  lemma Digit1()
    ensures FeedByte(0xffff_ffff, 0x31, 0) == 0x7c23_1048
  {}

  lemma Digit2()
    ensures FeedByte(0x7c23_1048, 0x32, 0) == 0xb0ac_bb32
  {}

  lemma Digit3()
    ensures FeedByte(0xb0ac_bb32, 0x33, 0) == 0x77b7_9c2d
  {}

  lemma Digit4()
    ensures FeedByte(0x77b7_9c2d, 0x34, 0) == 0x641c_1f5c
  {}

  lemma Digit5()
    ensures FeedByte(0x641c_1f5c, 0x35, 0) == 0x340a_c5e3
  {}

  lemma Digit6()
    ensures FeedByte(0x340a_c5e3, 0x36, 0) == 0xf68d_2c9e
  {}

  lemma Digit7()
    ensures FeedByte(0xf68d_2c9e, 0x37, 0) == 0xaffc_9660
  {}

  lemma Digit8()
    ensures FeedByte(0xaffc_9660, 0x38, 0) == 0x651f_2550
  {}

  lemma Digit9()
    ensures FeedByte(0x651f_2550, 0x39, 0) == 0x340b_c6d9
  {}

  /** The check value of CRC-32. */
  lemma CheckValue()
    ensures Crc(DIGITS) == 0xcbf4_3926
  {
    Digits();
    EmptySerial(ONES);
    AllOnes();
    Digit1();
    Digit2();
    Digit3();
    Digit4();
    Digit5();
    Digit6();
    Digit7();
    Digit8();
    Digit9();
    hide Serial, FeedByte, BitsOf, Xor, DIGITS, ONES;
    OneMore(DIGITS, 0, 0xffff_ffff, 0x7c23_1048);
    OneMore(DIGITS, 1, 0x7c23_1048, 0xb0ac_bb32);
    OneMore(DIGITS, 2, 0xb0ac_bb32, 0x77b7_9c2d);
    OneMore(DIGITS, 3, 0x77b7_9c2d, 0x641c_1f5c);
    OneMore(DIGITS, 4, 0x641c_1f5c, 0x340a_c5e3);
    OneMore(DIGITS, 5, 0x340a_c5e3, 0xf68d_2c9e);
    OneMore(DIGITS, 6, 0xf68d_2c9e, 0xaffc_9660);
    OneMore(DIGITS, 7, 0xaffc_9660, 0x651f_2550);
    OneMore(DIGITS, 8, 0x651f_2550, 0x340b_c6d9);
    Inverse();
  }

  lemma AllOnes()
    ensures ONES == 0xffff_ffff && |DIGITS| == 9
  {}

  lemma Inverse()
    ensures Xor(0x340b_c6d9, ONES) == 0xcbf4_3926
  {}

  lemma Digits()
    ensures DIGITS[0] == 0x31 && DIGITS[1] == 0x32 && DIGITS[2] == 0x33 && DIGITS[3] == 0x34 && DIGITS[4] == 0x35
    ensures DIGITS[5] == 0x36 && DIGITS[6] == 0x37 && DIGITS[7] == 0x38 && DIGITS[8] == 0x39
    ensures DIGITS[..0] == [] && DIGITS[..9] == DIGITS
  {}
}
