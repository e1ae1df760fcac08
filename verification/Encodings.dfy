/** Conversion between UTF-8 and UTF-16 strings: xtkernel/encodings.c. */
module Encodings {
  import opened Bits
  import opened Bytes
  import opened Results

  type Unit = u: nat | u < 0x1_0000

  // ----- One character -----

  /** The length that a first byte announces; 0 for a byte that announces none. */
  function Width(b: Byte): nat {
    if b < 0x80 then 1 else if b / 32 == 6 then 2 else if b / 16 == 14 then 3 else if b / 8 == 30 then 4 else 0
  }

  /** The character in front: the payload bits of its bytes, whatever the other bits of the later bytes are. */
  function Decode(s: seq<Byte>): nat
    requires s != [] && 0 < Width(s[0]) <= |s|
  {
    var w, b0: int := Width(s[0]), s[0];
    if w == 1 then b0
    else if w == 2 then b0 % 32 * 64 + Payload(s[1])
    else if w == 3 then (b0 % 16 * 64 + Payload(s[1])) * 64 + Payload(s[2])
    else ((b0 % 8 * 64 + Payload(s[1])) * 64 + Payload(s[2])) * 64 + Payload(s[3])
  }

  function Payload(b: Byte): (p: nat)
    ensures p < 64
  {
    b as int % 64
  }

  /** Section 3 of RFC 3629. The first byte of four is cut to eight bits, which matters only above 0x1fffff. */
  function Encode(cp: nat): (s: seq<Byte>)
    ensures |s| == if cp <= 0x7f then 1 else if cp <= 0x7ff then 2 else if cp <= 0xffff then 3 else 4
  {
    if cp <= 0x7f then [cp]
    else if cp <= 0x7ff then [0xc0 + cp / 64, 0x80 + cp % 64]
    else if cp <= 0xffff then [0xe0 + cp / 4096, 0x80 + cp / 64 % 64, 0x80 + cp % 64]
    else [Or(cp / 0x4_0000, 0xf0) % 256, 0x80 + cp / 4096 % 64, 0x80 + cp / 64 % 64, 0x80 + cp % 64]
  }

  /** Section 2.1 of RFC 2781. */
  function Units(cp: nat): (u: seq<Unit>)
    requires cp < 0x20_0000
    ensures |u| == if cp <= 0xffff then 1 else 2
  {
    if cp <= 0xffff then [cp] else [(cp - 0x1_0000) / 1024 + 0xd800, cp % 1024 + 0xdc00]
  }

  predicate High(u: Unit) { 0xd800 <= u <= 0xdbff }

  predicate Low10(u: Unit) { 0xdc00 <= u <= 0xdfff }

  /** `0x10000 + ((high - 0xD800) << 10) | (low - 0xDC00)`: the sum comes before the `|`, and a unit below 0xDC00
      wraps in 32 bits. */
  function Pair(high: Unit, low: Unit): nat
    requires High(high)
  {
    Or(0x1_0000 + (high - 0xd800) * 1024, (low - 0xdc00) % TWO_32)
  }

  lemma DecodeBound(s: seq<Byte>)
    requires s != [] && 0 < Width(s[0]) <= |s|
    ensures Decode(s) < 0x20_0000
  {}

  // ----- Whole strings -----

  /** Strings in which no character is cut off by the end: the code steps over the NUL of any other. */
  predicate Whole8(s: seq<Byte>)
    decreases |s|
  {
    s == [] || (if Width(s[0]) == 0 then Whole8(s[1..]) else Width(s[0]) <= |s| && Whole8(s[Width(s[0])..]))
  }

  /** xtUTF8toUTF16: bytes that start no character are skipped. */
  function ToUtf16(s: seq<Byte>): (u: seq<Unit>)
    requires Whole8(s)
    decreases |s|
  {
    if s == [] then []
    else if Width(s[0]) == 0 then ToUtf16(s[1..])
    else
      DecodeBound(s);
      Units(Decode(s)) + ToUtf16(s[Width(s[0])..])
  }

  predicate Whole16(u: seq<Unit>)
    decreases |u|
  {
    u == [] || (if High(u[0]) then 2 <= |u| && Whole16(u[2..]) else Whole16(u[1..]))
  }

  /** xtUTF16toUTF8 */
  function ToUtf8(u: seq<Unit>): (s: seq<Byte>)
    requires Whole16(u)
    decreases |u|
  {
    if u == [] then []
    else if High(u[0]) then Encode(Pair(u[0], u[1])) + ToUtf8(u[2..])
    else Encode(u[0]) + ToUtf8(u[1..])
  }

  // ----- Well-formed strings -----

  predicate Tail(b: Byte) { 0x80 <= b <= 0xbf }

  /** A character in front that section 4 of RFC 3629 admits: shortest form, no surrogate, at most 0x10ffff. */
  predicate WellFormedChar(s: seq<Byte>)
    requires s != []
  {
    var w := Width(s[0]);
    && 0 < w <= |s| && (forall i :: 1 <= i < w ==> Tail(s[i]))
    && (w == 2 ==> s[0] >= 0xc2)
    && (s[0] == 0xe0 ==> s[1] >= 0xa0) && (s[0] == 0xed ==> s[1] <= 0x9f)
    && (s[0] == 0xf0 ==> s[1] >= 0x90) && (s[0] == 0xf4 ==> s[1] <= 0x8f) && (w == 4 ==> s[0] <= 0xf4)
  }

  predicate WellFormed8(s: seq<Byte>)
    decreases |s|
  {
    s == [] || (WellFormedChar(s) && WellFormed8(s[Width(s[0])..]))
  }

  /** Section 2.2 of RFC 2781: surrogates come in pairs. */
  predicate WellFormed16(u: seq<Unit>)
    decreases |u|
  {
    u == [] ||
    (if High(u[0]) then 2 <= |u| && Low10(u[1]) && WellFormed16(u[2..]) else !Low10(u[0]) && WellFormed16(u[1..]))
  }

  predicate Scalar(cp: nat) { cp < 0x11_0000 && !(0xd800 <= cp <= 0xdfff) }

  lemma LeadOfFour(cp: nat)
    requires cp < 0x20_0000
    ensures Or(cp / 0x4_0000, 0xf0) == 0xf0 + cp / 0x4_0000
  {
    assert Pow2(3) == 8;
    hide Or, Pow2;
    OrJoin(30, cp / 0x4_0000, 3);
    OrCommutes(cp / 0x4_0000, 0xf0);
  }

  lemma Digits(cp: nat)
    ensures cp == (cp / 4096 * 64 + cp / 64 % 64) * 64 + cp % 64 == cp / 64 * 64 + cp % 64
    ensures cp / 4096 == cp / 0x4_0000 * 64 + cp / 4096 % 64
  {
    DivModUnique(cp, 4096, cp / 64 / 64, cp / 64 % 64 * 64 + cp % 64);
    DivModUnique(cp, 0x4_0000, cp / 4096 / 64, cp / 4096 % 64 * 4096 + cp % 4096);
  }

  lemma DigitsOf(a: nat, b: nat, c: nat)
    requires b < 64 && c < 64
    ensures var cp := (a * 64 + b) * 64 + c; cp / 4096 == a && cp / 64 % 64 == b && cp % 64 == c && cp / 64 == a * 64 + b
  {}

  lemma TailIs(b: Byte)
    requires Tail(b)
    ensures b == 0x80 + Payload(b)
  {}

  lemma LeadIs(b: Byte)
    ensures Width(b) == 2 ==> b == 0xc0 + b as int % 32
    ensures Width(b) == 3 ==> b == 0xe0 + b as int % 16
    ensures Width(b) == 4 ==> b == 0xf0 + b as int % 8
  {}

  /** A well-formed character is the encoding of the scalar value it decodes to. */
  lemma DecodeThenEncode(s: seq<Byte>)
    requires s != [] && WellFormedChar(s)
    ensures Scalar(Decode(s)) && Encode(Decode(s)) == s[..Width(s[0])]
  {
    var w, b0: int := Width(s[0]), s[0];
    LeadIs(s[0]);
    if w == 2 {
      TailIs(s[1]);
    } else if w == 3 {
      TailIs(s[1]);
      TailIs(s[2]);
      hide Payload;
      DigitsOf(b0 % 16, Payload(s[1]), Payload(s[2]));
    } else if w == 4 {
      FourBytes(s);
    }
  }

  lemma FourBytes(s: seq<Byte>)
    requires 4 <= |s| && Width(s[0]) == 4 && WellFormedChar(s)
    ensures Scalar(Decode(s)) && Encode(Decode(s)) == s[..4]
  {
    var a, b, c, d := s[0] as int % 8, Payload(s[1]), Payload(s[2]), Payload(s[3]);
    LeadIs(s[0]);
    TailIs(s[1]);
    TailIs(s[2]);
    TailIs(s[3]);
    hide Payload, Or;
    DecodeBound(s);
    LeadOfFour(Decode(s));
    DigitsOf(a * 64 + b, c, d);
    DigitsOf(0, a, b);
    assert Decode(s) / 0x4_0000 == a;
  }

  lemma LeadOf(a: nat)
    ensures a < 0x80 ==> Width(a) == 1
    ensures a < 32 ==> Width(0xc0 + a) == 2 && (0xc0 + a) % 32 == a
    ensures a < 16 ==> Width(0xe0 + a) == 3 && (0xe0 + a) % 16 == a
    ensures a < 8 ==> Width(0xf0 + a) == 4 && (0xf0 + a) % 8 == a
  {}

  lemma TailOf(p: nat)
    requires p < 64
    ensures Payload(0x80 + p) == p && Tail(0x80 + p)
  {}

  lemma EncodeThenDecode(cp: nat, rest: seq<Byte>)
    requires cp < 0x20_0000
    ensures var s := Encode(cp) + rest;
      Width(s[0]) == |Encode(cp)| && Decode(s) == cp && s[Width(s[0])..] == rest
  {
    hide Or, Width, Payload;
    var s := Encode(cp) + rest;
    TailOf(cp % 64);
    TailOf(cp / 64 % 64);
    TailOf(cp / 4096 % 64);
    Digits(cp);
    if cp <= 0x7f {
      LeadOf(cp);
    } else if cp <= 0x7ff {
      LeadOf(cp / 64);
    } else if cp <= 0xffff {
      LeadOf(cp / 4096);
    } else {
      LeadOfFour(cp);
      LeadOf(cp / 0x4_0000);
    }
  }

  lemma EncodedIsWellFormed(cp: nat, rest: seq<Byte>)
    requires Scalar(cp)
    ensures WellFormedChar(Encode(cp) + rest)
  {
    hide Or;
    EncodeThenDecode(cp, rest);
    LeadOfFour(cp);
    hide Decode, Width;
    if cp <= 0x7f {
    } else if cp <= 0x7ff {
      LeadOf(cp / 64);
    } else if cp <= 0xffff {
      LeadOf(cp / 4096);
    } else {
      LeadOf(cp / 0x4_0000);
    }
  }

  /** The first difference decides. */
  ghost predicate Less(a: seq<Byte>, b: seq<Byte>) {
    exists i :: LessAt(a, b, i)
  }

  predicate LessAt(a: seq<Byte>, b: seq<Byte>, i: nat) {
    i < |a| && i < |b| && a[i] < b[i] && forall k :: 0 <= k < i ==> a[k] == b[k]
  }

  /** UTF-8 strings sort as the characters do (section 1 of RFC 3629). */
  lemma OrderKept(c: nat, d: nat)
    requires c < d < 0x20_0000
    ensures Less(Encode(c), Encode(d))
  {
    LeadOfFour(c);
    LeadOfFour(d);
    QuotientsGrow(c, d);
    hide Or;
    var n := |Encode(c)|;
    if n < |Encode(d)| || n == 1 {
      assert LessAt(Encode(c), Encode(d), 0);
    } else if n == 2 {
      assert LessAt(Encode(c), Encode(d), if c / 64 < d / 64 then 0 else 1);
    } else if n == 3 {
      LessThree(c, d);
    } else {
      LessFour(c, d);
    }
  }

  lemma LessThree(c: nat, d: nat)
    requires c < d && |Encode(c)| == |Encode(d)| == 3
    ensures Less(Encode(c), Encode(d))
  {
    QuotientsGrow(c, d);
    hide Or;
    if c / 4096 < d / 4096 {
      assert LessAt(Encode(c), Encode(d), 0);
    } else if c / 64 < d / 64 {
      assert LessAt(Encode(c), Encode(d), 1);
    } else {
      assert LessAt(Encode(c), Encode(d), 2);
    }
  }

  lemma LessFour(c: nat, d: nat)
    requires c < d < 0x20_0000 && |Encode(c)| == |Encode(d)| == 4
    ensures Less(Encode(c), Encode(d))
  {
    hide Less, InOrder, Encode;
    FourOf(c);
    FourOf(d);
    DigitsInOrder(c, d);
    LessDigits(c / 0x4_0000, c / 4096 % 64, c / 64 % 64, c % 64, d / 0x4_0000, d / 4096 % 64, d / 64 % 64, d % 64);
  }

  lemma FourOf(cp: nat)
    requires 0xffff < cp < 0x20_0000
    ensures Encode(cp) == [0xf0 + cp / 0x4_0000, 0x80 + cp / 4096 % 64, 0x80 + cp / 64 % 64, 0x80 + cp % 64]
  {
    LeadOfFour(cp);
    hide Or;
  }

  predicate InOrder(c3: nat, c2: nat, c1: nat, c0: nat, d3: nat, d2: nat, d1: nat, d0: nat) {
    c3 < d3 || (c3 == d3 && (c2 < d2 || (c2 == d2 && (c1 < d1 || (c1 == d1 && c0 < d0)))))
  }

  lemma DigitsInOrder(c: nat, d: nat)
    requires c < d
    ensures InOrder(c / 0x4_0000, c / 4096 % 64, c / 64 % 64, c % 64, d / 0x4_0000, d / 4096 % 64, d / 64 % 64, d % 64)
  {
    QuotientsGrow(c, d);
  }

  lemma LessDigits(c3: nat, c2: nat, c1: nat, c0: nat, d3: nat, d2: nat, d1: nat, d0: nat)
    requires InOrder(c3, c2, c1, c0, d3, d2, d1, d0) && c3 < 8 && d3 < 8
    requires c2 < 64 && c1 < 64 && c0 < 64 && d2 < 64 && d1 < 64 && d0 < 64
    ensures Less([0xf0 + c3, 0x80 + c2, 0x80 + c1, 0x80 + c0], [0xf0 + d3, 0x80 + d2, 0x80 + d1, 0x80 + d0])
  {
    assert LessAt([0xf0 + c3, 0x80 + c2, 0x80 + c1, 0x80 + c0], [0xf0 + d3, 0x80 + d2, 0x80 + d1, 0x80 + d0],
                  if c3 < d3 then 0 else if c2 < d2 then 1 else if c1 < d1 then 2 else 3);
  }

  lemma QuotientsGrow(c: nat, d: nat)
    requires c < d
    ensures c / 64 <= d / 64 && c / 4096 <= d / 4096 && c / 0x4_0000 <= d / 0x4_0000
    ensures c / 64 == c / 4096 * 64 + c / 64 % 64 && d / 64 == d / 4096 * 64 + d / 64 % 64
    ensures c / 4096 == c / 0x4_0000 * 64 + c / 4096 % 64 && d / 4096 == d / 0x4_0000 * 64 + d / 4096 % 64
    ensures c == c / 64 * 64 + c % 64 && d == d / 64 * 64 + d % 64
  {
    Digits(c);
    Digits(d);
    DivModUnique(c / 64, 64, c / 4096, c / 64 % 64);
    DivModUnique(d / 64, 64, d / 4096, d / 64 % 64);
  }

  lemma PairOfUnits(high: Unit, low: Unit)
    requires High(high) && Low10(low)
    ensures Pair(high, low) == 0x1_0000 + (high - 0xd800) * 1024 + (low - 0xdc00)
    ensures 0xffff < Pair(high, low) < 0x11_0000 && Units(Pair(high, low)) == [high, low]
  {
    assert Pow2(10) == 1024 by { Powers(); Pow2Add(9, 1); }
    hide Or, Pow2;
    OrJoin(64 + (high - 0xd800), low - 0xdc00, 10);
  }

  lemma UnitsOfScalar(cp: nat)
    requires Scalar(cp)
    ensures cp <= 0xffff ==> Units(cp) == [cp] && !High(cp)
    ensures cp > 0xffff ==> High(Units(cp)[0]) && Low10(Units(cp)[1]) && Pair(Units(cp)[0], Units(cp)[1]) == cp
  {
    hide Or;
    if cp > 0xffff { PairOfUnits(Units(cp)[0], Units(cp)[1]); }
  }

  /** UTF-8 to UTF-16 and back is the identity on well-formed strings. */
  lemma {:induction false} RoundTrip8(s: seq<Byte>)
    requires WellFormed8(s)
    ensures Whole8(s) && WellFormed16(ToUtf16(s)) && Whole16(ToUtf16(s)) && ToUtf8(ToUtf16(s)) == s
    decreases |s|
  {
    if s != [] {
      hide Encode, Units, Pair, Decode, WellFormedChar;
      var cp, w := Decode(s), Width(s[0]);
      DecodeThenEncode(s);
      RoundTrip8(s[w..]);
      UnitsOfScalar(cp);
      DecodeBound(s);
      var u := Units(cp) + ToUtf16(s[w..]);
      assert u[|Units(cp)|..] == ToUtf16(s[w..]);
      assert s == s[..w] + s[w..];
    }
  }

  /** UTF-16 to UTF-8 and back is the identity on well-formed strings. */
  lemma {:induction false} RoundTrip16(u: seq<Unit>)
    requires WellFormed16(u)
    ensures Whole16(u) && WellFormed8(ToUtf8(u)) && Whole8(ToUtf8(u)) && ToUtf16(ToUtf8(u)) == u
    decreases |u|
  {
    if u != [] {
      hide Encode, Units, Pair, Decode, WellFormedChar;
      var n := if High(u[0]) then 2 else 1;
      if n == 2 { PairOfUnits(u[0], u[1]); }
      var cp := if n == 2 then Pair(u[0], u[1]) else u[0];
      RoundTrip16(u[n..]);
      EncodeThenDecode(cp, ToUtf8(u[n..]));
      EncodedIsWellFormed(cp, ToUtf8(u[n..]));
      UnitsOfScalar(cp);
      assert u == u[..n] + u[n..];
    }
  }

  /** No NUL appears, so the converted strings can be converted back. */
  lemma {:induction false} NoNul8(s: seq<Byte>)
    requires WellFormed8(s) && (forall i :: 0 <= i < |s| ==> s[i] != 0) && Whole8(s)
    ensures forall i :: 0 <= i < |ToUtf16(s)| ==> ToUtf16(s)[i] != 0
    decreases |s|
  {
    if s != [] {
      hide Units, Decode, WellFormedChar, Encode;
      var w := Width(s[0]);
      DecodeThenEncode(s);
      NoNul8(s[w..]);
      EncodeZero();
      assert Encode(Decode(s))[0] == s[0];
      UnitsOfNonzero(Decode(s));
    }
  }

  lemma EncodeZero()
    ensures Encode(0) == [0]
  {}

  lemma UnitsOfNonzero(cp: nat)
    requires Scalar(cp) && cp != 0
    ensures forall i :: 0 <= i < |Units(cp)| ==> Units(cp)[i] != 0
  {}

  lemma {:induction false} NoNul16(u: seq<Unit>)
    requires WellFormed16(u) && (forall i :: 0 <= i < |u| ==> u[i] != 0) && Whole16(u)
    ensures forall i :: 0 <= i < |ToUtf8(u)| ==> ToUtf8(u)[i] != 0
    decreases |u|
  {
    if u != [] {
      hide Pair;
      var n := if High(u[0]) then 2 else 1;
      if n == 2 { PairOfUnits(u[0], u[1]); }
      var cp := if n == 2 then Pair(u[0], u[1]) else u[0];
      NoNul16(u[n..]);
      LeadOfFour(cp);
      hide Or;
    }
  }

  // ----- The bits behind the arithmetic -----

  lemma TopBits(b: nat, k: nat, j: nat, m: nat, mask: nat)
    requires m == Pow2(j) - 1 && mask == Pow2(k) * m && Shr(b, k) <= m
    ensures And(b, mask) == Pow2(k) * Shr(b, k)
  {
    hide *;
    var h := Shr(b, k);
    AndHigh(b, m, k);
    AndLow(h, j);
    MulZero(Pow2(j), h);
    Unique(0, h, j);
  }

  lemma MulZero(p: nat, h: nat)
    ensures p * 0 + h == h
  {}

  lemma TopMasks(b: Byte)
    ensures And(b, 0x80) == 128 * (b as int / 128) && And(b, 0xe0) == 32 * (b as int / 32)
    ensures And(b, 0xf0) == 16 * (b as int / 16) && And(b, 0xf8) == 8 * (b as int / 8)
  {
    assert Pow2(1) == 2 && Pow2(4) == 16 && Pow2(5) == 32 && Pow2(7) == 128 by { Powers(); }
    assert Pow2(3) == 8;
    hide And, Shr, Low, Pow2;
    DivideBy(b, 7, 128);
    TopBits(b, 7, 1, 1, 0x80);
    DivideBy(b, 5, 32);
    TopBits(b, 5, 3, 7, 0xe0);
    DivideBy(b, 4, 16);
    TopBits(b, 4, 4, 15, 0xf0);
    DivideBy(b, 3, 8);
    TopBits(b, 3, 5, 31, 0xf8);
  }

  lemma BottomBits(b: nat, k: nat, p: nat)
    requires p == Pow2(k)
    ensures And(b, p - 1) == b % p && Shr(b, k) == b / p
  {
    hide *;
    AndLow(b, k);
    DivideBy(b, k, p);
  }

  lemma BottomMasks(b: Byte)
    ensures And(b, 0x1f) == b as int % 32 && And(b, 0x0f) == b as int % 16 && And(b, 0x07) == b as int % 8
    ensures And(b, 0x3f) == Payload(b)
  {
    assert Pow2(4) == 16 && Pow2(5) == 32 && Pow2(6) == 64 by { Powers(); }
    assert Pow2(3) == 8;
    hide And, Shr, Low, Pow2;
    BottomBits(b, 5, 32);
    BottomBits(b, 4, 16);
    BottomBits(b, 3, 8);
    BottomBits(b, 6, 64);
  }

  /** The tests on a first byte, and the payloads. */
  lemma Masks(b: Byte)
    ensures And(b, 0x80) == 0 <==> Width(b) == 1
    ensures And(b, 0xe0) == 0xc0 <==> Width(b) == 2
    ensures And(b, 0xf0) == 0xe0 <==> Width(b) == 3
    ensures And(b, 0xf8) == 0xf0 <==> Width(b) == 4
    ensures And(b, 0x1f) == b as int % 32 && And(b, 0x0f) == b as int % 16 && And(b, 0x07) == b as int % 8
    ensures And(b, 0x3f) == Payload(b)
  {
    hide And, Payload;
    BottomMasks(b);
    TopMasks(b);
  }

  /** `(a << 6) | b` and its longer forms */
  lemma Join2(a: nat, b: nat)
    requires b < 64
    ensures Or(a * 64, b) == a * 64 + b
  {
    assert Pow2(6) == 64 by { Powers(); }
    hide Or, Pow2;
    OrJoin(a, b, 6);
  }

  lemma Join3(a: nat, b: nat, c: nat)
    requires b < 64 && c < 64
    ensures Or(Or(a * 4096, b * 64), c) == (a * 64 + b) * 64 + c
  {
    assert Pow2(12) == 4096 by { Powers(); }
    hide Or, Pow2;
    OrJoin(a, b * 64, 12);
    Join2(a * 64 + b, c);
  }

  lemma Join4(a: nat, b: nat, c: nat, d: nat)
    requires b < 64 && c < 64 && d < 64
    ensures Or(Or(Or(a * 0x4_0000, b * 4096), c * 64), d) == ((a * 64 + b) * 64 + c) * 64 + d
  {
    assert Pow2(18) == 0x4_0000 by { Powers(); Pow2Add(12, 6); }
    hide Or, Pow2;
    OrJoin(a, b * 4096, 18);
    assert Or(a * 0x4_0000, b * 4096) == (a * 64 + b) * 4096;
    Join3(a * 64 + b, c, d);
  }

  /** The bytes that the code stores for a character. */
  lemma StoredBits(cp: nat)
    ensures And(cp, 0x3f) == cp % 64 && And(Shr(cp, 6), 0x3f) == cp / 64 % 64 && And(Shr(cp, 12), 0x3f) == cp / 4096 % 64
    ensures Shr(cp, 6) == cp / 64 && Shr(cp, 12) == cp / 4096 && Shr(cp, 18) == cp / 0x4_0000
    ensures Shr(cp, 10) == cp / 1024 && And(cp, 0x3ff) == cp % 1024
  {
    assert Pow2(6) == 64 && Pow2(10) == 1024 && Pow2(12) == 4096 && Pow2(18) == 0x4_0000 by {
      Powers();
      Pow2Add(9, 1);
      Pow2Add(12, 6);
    }
    hide And, Shr, Low, Pow2;
    BottomBits(cp, 6, 64);
    BottomBits(cp, 12, 4096);
    BottomBits(cp, 18, 0x4_0000);
    BottomBits(cp, 10, 1024);
    BottomBits(cp / 64, 6, 64);
    BottomBits(cp / 4096, 6, 64);
  }

  lemma Marked(x: nat, k: nat)
    requires 4 <= k <= 6 && x < Pow2(k)
    ensures k == 6 ==> Or(x, 0x80) == 0x80 + x
    ensures k == 5 ==> Or(x, 0xc0) == 0xc0 + x
    ensures k == 4 ==> Or(x, 0xe0) == 0xe0 + x
  {
    assert Pow2(4) == 16 && Pow2(5) == 32 && Pow2(6) == 64 by { Powers(); }
    hide Or, Pow2;
    var h := if k == 6 then 2 else if k == 5 then 6 else 14;
    OrCommutes(x, Pow2(k) * h);
    OrJoin(h, x, k);
  }

  // ----- The code -----

  /** The branches on the first byte at p; a width of 0 is a byte to skip. */
  method DecodeAt(utf8: CString, p: nat) returns (cp: nat, width: nat)
    requires p < |utf8| && Width(utf8[p]) <= |utf8| - p
    ensures width == Width(utf8[p]) && (width > 0 ==> cp == Decode(utf8[p..]))
  {
    hide And, Or, Width;
    Masks(utf8[p]);
    var b0: int := utf8[p];
    cp := 0;
    if And(b0, 0x80) == 0 {
      cp, width := b0, 1;
    } else if And(b0, 0xe0) == 0xc0 {
      Masks(utf8[p + 1]);
      cp, width := Or(And(b0, 0x1f) * 64, And(utf8[p + 1], 0x3f)), 2;
      Join2(b0 % 32, Payload(utf8[p + 1]));
    } else if And(b0, 0xf0) == 0xe0 {
      Masks(utf8[p + 1]);
      Masks(utf8[p + 2]);
      cp, width := Or(Or(And(b0, 0x0f) * 4096, And(utf8[p + 1], 0x3f) * 64), And(utf8[p + 2], 0x3f)), 3;
      Join3(b0 % 16, Payload(utf8[p + 1]), Payload(utf8[p + 2]));
    } else if And(b0, 0xf8) == 0xf0 {
      Masks(utf8[p + 1]);
      Masks(utf8[p + 2]);
      Masks(utf8[p + 3]);
      cp := Or(Or(Or(And(b0, 0x07) * 0x4_0000, And(utf8[p + 1], 0x3f) * 4096), And(utf8[p + 2], 0x3f) * 64),
               And(utf8[p + 3], 0x3f));
      width := 4;
      Join4(b0 % 8, Payload(utf8[p + 1]), Payload(utf8[p + 2]), Payload(utf8[p + 3]));
    } else {
      width := 0;
      OnlyWidths(utf8[p]);
    }
  }

  lemma OnlyWidths(b: Byte)
    ensures Width(b) <= 4
  {}

  /** xtUTF8toUTF16, into a buffer with room for the result and its NUL. */
  method Utf8ToUtf16(utf8: CString, utf16: array<Unit>) returns (r: XTResult)
    requires Whole8(utf8) && |ToUtf16(utf8)| < utf16.Length
    modifies utf16
    ensures r == XT_SUCCESS
    ensures utf16[..] == ToUtf16(utf8) + [0] + old(utf16[|ToUtf16(utf8)| + 1..])
  {
    hide Decode, Width, Units, And, Shr, Whole8, ToUtf16;
    var p, out := 0, 0;
    ghost var all := ToUtf16(utf8);
    assert utf8[0..] == utf8;
    while p < |utf8|
      invariant 0 <= p <= |utf8| && Whole8(utf8[p..]) && out <= |all|
      invariant utf16[..out] + ToUtf16(utf8[p..]) == all
      invariant forall j :: out <= j < utf16.Length ==> utf16[j] == old(utf16[j])
    {
      FirstChar(utf8, p);
      var cp, width := DecodeAt(utf8, p);
      if width == 0 {
        p := p + 1;
        continue;
      }
      p := p + width;
      UnitsAre(cp);
      if cp <= 0xffff {
        utf16[out] := cp;
        out := out + 1;
      } else {
        cp := cp - 0x1_0000;
        StoredBits(cp);
        utf16[out] := Shr(cp, 10) + 0xd800;
        utf16[out + 1] := And(cp, 0x3ff) + 0xdc00;
        out := out + 2;
      }
    }
    assert utf8[p..] == [];
    NothingLeft8();
    utf16[out] := 0;
    r := XT_SUCCESS;
  }

  lemma NothingLeft8()
    ensures Whole8([]) && ToUtf16([]) == []
  {}

  lemma UnitsAre(cp: nat)
    requires cp < 0x20_0000
    ensures cp <= 0xffff ==> Units(cp) == [cp]
    ensures cp > 0xffff ==> Units(cp) == [(cp - 0x1_0000) / 1024 + 0xd800, (cp - 0x1_0000) % 1024 + 0xdc00]
  {}

  lemma FirstChar(utf8: CString, p: nat)
    requires p < |utf8| && Whole8(utf8[p..])
    ensures var w := Width(utf8[p]);
      && p + w <= |utf8|
      && if w == 0 then Whole8(utf8[p + 1..]) && ToUtf16(utf8[p..]) == ToUtf16(utf8[p + 1..])
         else && Decode(utf8[p..]) < 0x20_0000 && Whole8(utf8[p + w..])
              && ToUtf16(utf8[p..]) == Units(Decode(utf8[p..])) + ToUtf16(utf8[p + w..])
  {
    var s, w := utf8[p..], Width(utf8[p]);
    hide Decode, Width, Units;
    if w == 0 {
      assert s[1..] == utf8[p + 1..];
    } else {
      DecodeBound(s);
      assert s[w..] == utf8[p + w..];
    }
  }

  /** A UTF-16 string without its NUL. */
  type UnitString = u: seq<Unit> | forall i :: 0 <= i < |u| ==> u[i] != 0

  /** The bytes of one character, stored from `at` on. */
  method Store(cp: nat, utf8: array<Byte>, at: nat) returns (next: nat)
    requires at + |Encode(cp)| <= utf8.Length
    modifies utf8
    ensures next == at + |Encode(cp)|
    ensures utf8[..] == Splice(old(utf8[..]), at, Encode(cp))
  {
    hide And, Or, Shr, Splice;
    StoredBits(cp);
    EncodeBits(cp);
    if cp <= 0x7f {
      Write(utf8, at, [cp]);
    } else if cp <= 0x7ff {
      Write(utf8, at, [Or(Shr(cp, 6), 0xc0), Or(And(cp, 0x3f), 0x80)]);
    } else if cp <= 0xffff {
      Write(utf8, at, [Or(Shr(cp, 12), 0xe0), Or(And(Shr(cp, 6), 0x3f), 0x80), Or(And(cp, 0x3f), 0x80)]);
    } else {
      Write(utf8, at, [Or(Shr(cp, 18), 0xf0) % 256, Or(And(Shr(cp, 12), 0x3f), 0x80),
                       Or(And(Shr(cp, 6), 0x3f), 0x80), Or(And(cp, 0x3f), 0x80)]);
    }
    next := at + (if cp <= 0x7f then 1 else if cp <= 0x7ff then 2 else if cp <= 0xffff then 3 else 4);
  }

  lemma EncodeBits(cp: nat)
    ensures Or(cp % 64, 0x80) == 0x80 + cp % 64 && Or(cp / 64 % 64, 0x80) == 0x80 + cp / 64 % 64
    ensures Or(cp / 4096 % 64, 0x80) == 0x80 + cp / 4096 % 64
    ensures cp <= 0x7ff ==> Or(cp / 64, 0xc0) == 0xc0 + cp / 64
    ensures cp <= 0xffff ==> Or(cp / 4096, 0xe0) == 0xe0 + cp / 4096
  {
    assert Pow2(4) == 16 && Pow2(5) == 32 && Pow2(6) == 64 by { Powers(); }
    hide Or, Pow2;
    Marked(cp % 64, 6);
    Marked(cp / 64 % 64, 6);
    Marked(cp / 4096 % 64, 6);
    if cp <= 0x7ff { Marked(cp / 64, 5); }
    if cp <= 0xffff { Marked(cp / 4096, 4); }
  }

  /** xtUTF16toUTF8, into a buffer with room for the result and its NUL. */
  method Utf16ToUtf8(utf16: UnitString, utf8: array<Byte>) returns (r: XTResult)
    requires Whole16(utf16) && |ToUtf8(utf16)| < utf8.Length
    modifies utf8
    ensures r == XT_SUCCESS
    ensures utf8[..] == ToUtf8(utf16) + [0] + old(utf8[|ToUtf8(utf16)| + 1..])
  {
    hide Encode, Pair, Whole16, ToUtf8, Splice;
    var i, outPos := 0, 0;
    ghost var all := ToUtf8(utf16);
    assert utf16[0..] == utf16;
    while i < |utf16|
      invariant 0 <= i <= |utf16| && Whole16(utf16[i..]) && 0 <= outPos <= |all| < utf8.Length
      invariant utf8[..outPos] + ToUtf8(utf16[i..]) == all
      invariant forall j :: outPos <= j < utf8.Length ==> utf8[j] == old(utf8[j])
    {
      FirstUnit(utf16, i);
      var cp: nat, high := 0, utf16[i];
      if high >= 0xd800 && high <= 0xdbff {
        i := i + 1;
        cp := Pair(high, utf16[i]);
      } else {
        cp := high;
      }
      ghost var before, from := utf8[..], outPos;
      outPos := Store(cp, utf8, outPos);
      SpliceAtEnd(before, from, Encode(cp));
      i := i + 1;
    }
    assert utf16[i..] == [];
    NothingLeft16();
    utf8[outPos] := 0;
    r := XT_SUCCESS;
  }

  lemma SpliceAtEnd(s: seq<Byte>, at: nat, bytes: seq<Byte>)
    requires at + |bytes| <= |s|
    ensures Splice(s, at, bytes)[..at + |bytes|] == s[..at] + bytes
    ensures forall j :: at + |bytes| <= j < |s| ==> Splice(s, at, bytes)[j] == s[j]
  {}

  lemma NothingLeft16()
    ensures Whole16([]) && ToUtf8([]) == []
  {}

  lemma FirstUnit(utf16: UnitString, i: nat)
    requires i < |utf16| && Whole16(utf16[i..])
    ensures if High(utf16[i]) then
              && i + 2 <= |utf16| && Whole16(utf16[i + 2..])
              && ToUtf8(utf16[i..]) == Encode(Pair(utf16[i], utf16[i + 1])) + ToUtf8(utf16[i + 2..])
            else Whole16(utf16[i + 1..]) && ToUtf8(utf16[i..]) == Encode(utf16[i]) + ToUtf8(utf16[i + 1..])
  {
    var u := utf16[i..];
    hide Encode, Pair;
    if High(u[0]) { assert u[2..] == utf16[i + 2..]; } else { assert u[1..] == utf16[i + 1..]; }
  }
}
