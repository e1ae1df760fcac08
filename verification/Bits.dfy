/** Bitwise operators of the C sources on unbounded naturals, and the arithmetic they stand for. */
module Bits {

  const TWO_32: nat := 0x1_0000_0000
  const TWO_48: nat := 0x1_0000_0000_0000
  const TWO_52: nat := 0x10_0000_0000_0000
  const TWO_63: nat := 0x8000_0000_0000_0000
  const TWO_64: nat := 0x1_0000_0000_0000_0000

  function Pow2(k: nat): (p: nat)
    ensures p > 0
  {
    if k == 0 then 1 else 2 * Pow2(k - 1)
  }

  /** x >> k */
  function Shr(x: nat, k: nat): nat {
    if k == 0 then x else Shr(x / 2, k - 1)
  }

  /** The k low bits of x. */
  function Low(x: nat, k: nat): nat {
    if k == 0 then 0 else 2 * Low(x / 2, k - 1) + x % 2
  }

  /** x & y */
  function And(x: nat, y: nat): nat {
    if x == 0 || y == 0 then 0
    else 2 * And(x / 2, y / 2) + (if x % 2 == 1 && y % 2 == 1 then 1 else 0)
  }

  /** x | y */
  function Or(x: nat, y: nat): nat {
    if x == 0 then y
    else if y == 0 then x
    else 2 * Or(x / 2, y / 2) + (if x % 2 == 1 || y % 2 == 1 then 1 else 0)
  }

  /** x ^ y */
  function Xor(x: nat, y: nat): nat {
    if x == 0 then y
    else if y == 0 then x
    else 2 * Xor(x / 2, y / 2) + (if x % 2 != y % 2 then 1 else 0)
  }

  lemma Mul2(p: int, a: int)
    ensures 2 * (p * a) == (2 * p) * a
  {}

  /** Division with remainder by a power of two. */
  lemma {:induction false} Divide(x: nat, k: nat)
    ensures x == Pow2(k) * Shr(x, k) + Low(x, k)
    ensures Low(x, k) < Pow2(k)
    decreases k
  {
    if k > 0 {
      Divide(x / 2, k - 1);
      Mul2(Pow2(k - 1), Shr(x, k));
    }
  }

  /** ... which has one answer only. */
  lemma {:induction false} Unique(h: nat, l: nat, k: nat)
    requires l < Pow2(k)
    ensures Shr(Pow2(k) * h + l, k) == h && Low(Pow2(k) * h + l, k) == l
    decreases k
  {
    if k > 0 {
      Mul2(Pow2(k - 1), h);
      Unique(h, l / 2, k - 1);
      var x := Pow2(k) * h + l;
      assert x / 2 == Pow2(k - 1) * h + l / 2;
    }
  }

  lemma Unfold(x: nat, k: nat)
    requires k > 0
    ensures Pow2(k) == 2 * Pow2(k - 1) && Shr(x, k) == Shr(x / 2, k - 1)
    ensures Low(x, k) / 2 == Low(x / 2, k - 1) && Low(x, k) % 2 == x % 2
  {}

  lemma Recombine(whole: int, half: int, p: int, high: int, lowHalf: int, low: int)
    requires half == p * high + lowHalf && whole - 2 * half == low - 2 * lowHalf
    ensures whole == (2 * p) * high + low
  {
    Mul2(p, high);
  }

  lemma AndHalf(x: nat, y: nat)
    ensures And(x, y) == 2 * And(x / 2, y / 2) + (if x % 2 == 1 && y % 2 == 1 then 1 else 0)
  {}

  lemma OrHalf(x: nat, y: nat)
    ensures Or(x, y) == 2 * Or(x / 2, y / 2) + (if x % 2 == 1 || y % 2 == 1 then 1 else 0)
  {}

  lemma XorHalf(x: nat, y: nat)
    ensures Xor(x, y) == 2 * Xor(x / 2, y / 2) + (if x % 2 != y % 2 then 1 else 0)
  {}

  /** The operators work separately on the bits below k and on those from k up. */
  lemma {:induction false} AndSplit(x: nat, y: nat, k: nat)
    ensures And(x, y) == Pow2(k) * And(Shr(x, k), Shr(y, k)) + And(Low(x, k), Low(y, k))
    decreases k
  {
    if k > 0 {
      hide *;
      Unfold(x, k);
      Unfold(y, k);
      AndSplit(x / 2, y / 2, k - 1);
      AndHalf(x, y);
      AndHalf(Low(x, k), Low(y, k));
      Recombine(And(x, y), And(x / 2, y / 2), Pow2(k - 1), And(Shr(x, k), Shr(y, k)),
                And(Low(x, k) / 2, Low(y, k) / 2), And(Low(x, k), Low(y, k)));
    }
  }

  lemma {:induction false} OrSplit(x: nat, y: nat, k: nat)
    ensures Or(x, y) == Pow2(k) * Or(Shr(x, k), Shr(y, k)) + Or(Low(x, k), Low(y, k))
    decreases k
  {
    if k > 0 {
      hide *;
      Unfold(x, k);
      Unfold(y, k);
      OrSplit(x / 2, y / 2, k - 1);
      OrHalf(x, y);
      OrHalf(Low(x, k), Low(y, k));
      Recombine(Or(x, y), Or(x / 2, y / 2), Pow2(k - 1), Or(Shr(x, k), Shr(y, k)),
                Or(Low(x, k) / 2, Low(y, k) / 2), Or(Low(x, k), Low(y, k)));
    }
  }

  lemma {:induction false} XorSplit(x: nat, y: nat, k: nat)
    ensures Xor(x, y) == Pow2(k) * Xor(Shr(x, k), Shr(y, k)) + Xor(Low(x, k), Low(y, k))
    decreases k
  {
    if k > 0 {
      hide *;
      Unfold(x, k);
      Unfold(y, k);
      XorSplit(x / 2, y / 2, k - 1);
      XorHalf(x, y);
      XorHalf(Low(x, k), Low(y, k));
      Recombine(Xor(x, y), Xor(x / 2, y / 2), Pow2(k - 1), Xor(Shr(x, k), Shr(y, k)),
                Xor(Low(x, k) / 2, Low(y, k) / 2), Xor(Low(x, k), Low(y, k)));
    }
  }

  /** x & (2^k - 1) keeps the low k bits. */
  lemma {:induction false} AndLow(x: nat, k: nat)
    ensures And(x, Pow2(k) - 1) == Low(x, k)
    decreases k
  {
    if k > 0 {
      hide And;
      AndLow(x / 2, k - 1);
      AndHalf(x, Pow2(k) - 1);
    }

  }

  lemma AndZero(x: nat)
    ensures And(x, 0) == 0 && And(0, x) == 0 && Or(x, 0) == x && Or(0, x) == x && Xor(x, 0) == x && Xor(0, x) == x
  {}

  /** A mask that starts at bit k reads the bits from k up. */
  lemma AndHigh(x: nat, m: nat, k: nat)
    ensures And(x, Pow2(k) * m) == Pow2(k) * And(Shr(x, k), m)
  {
    hide *;
    Unique(m, 0, k);
    AndSplit(x, Pow2(k) * m, k);
    AndZero(Low(x, k));
  }

  /** Joining high bits with low bits that do not meet them is addition. */
  lemma OrJoin(h: nat, l: nat, k: nat)
    requires l < Pow2(k)
    ensures Or(Pow2(k) * h, l) == Pow2(k) * h + l
  {
    hide *;
    Unique(h, 0, k);
    Unique(0, l, k);
    OrSplit(Pow2(k) * h, l, k);
    AndZero(h);
    AndZero(l);
  }

  /** The low bits of an `|` or `&` of low bits stay low, so shifting distributes over both. */
  lemma {:induction false} LowStaysLow(x: nat, y: nat, k: nat)
    requires x < Pow2(k) && y < Pow2(k)
    ensures Or(x, y) < Pow2(k) && And(x, y) < Pow2(k)
    decreases k
  {
    if k > 0 {
      LowStaysLow(x / 2, y / 2, k - 1);
      OrHalf(x, y);
      AndHalf(x, y);
    }
  }

  lemma ShrOr(x: nat, y: nat, k: nat)
    ensures Shr(Or(x, y), k) == Or(Shr(x, k), Shr(y, k)) && Shr(And(x, y), k) == And(Shr(x, k), Shr(y, k))
  {
    hide *;
    Divide(x, k);
    Divide(y, k);
    LowStaysLow(Low(x, k), Low(y, k), k);
    OrSplit(x, y, k);
    AndSplit(x, y, k);
    Unique(Or(Shr(x, k), Shr(y, k)), Or(Low(x, k), Low(y, k)), k);
    Unique(And(Shr(x, k), Shr(y, k)), And(Low(x, k), Low(y, k)), k);
  }

  lemma {:induction false} OrCommutes(x: nat, y: nat)
    ensures Or(x, y) == Or(y, x)
    decreases x
  {
    if x > 0 && y > 0 { OrCommutes(x / 2, y / 2); }
  }

  lemma {:induction false} Pow2Add(a: nat, b: nat)
    ensures Pow2(a + b) == Pow2(a) * Pow2(b)
    decreases b
  {
    if b > 0 {
      hide *;
      Unfold(0, a + b);
      Unfold(0, b);
      Pow2Add(a, b - 1);
      Mul2(Pow2(b - 1), Pow2(a));
    } else {
      assert Pow2(0) == 1;
    }
  }

  /** The same shift as a division, for a literal power. */
  lemma DivideBy(x: nat, k: nat, p: nat)
    requires p == Pow2(k)
    ensures Shr(x, k) == x / p && Low(x, k) == x % p
  {
    hide *;
    Divide(x, k);
    DivModUnique(x, p, Shr(x, k), Low(x, k));
  }

  lemma MulAtLeast(d: nat, k: nat)
    requires k > 0
    ensures d * k >= d
  {}

  lemma DivModUnique(x: nat, d: nat, q: nat, r: nat)
    requires d > 0 && r < d && x == d * q + r
    ensures x / d == q && x % d == r
  {
    var a, b := x / d, x % d;
    assert d * a + b == d * q + r;
    if a > q {
      assert d * a == d * q + d * (a - q);
      MulAtLeast(d, a - q);
    } else if a < q {
      assert d * q == d * a + d * (q - a);
      MulAtLeast(d, q - a);
    }
  }

  lemma WrapIndex(v: nat, span: nat, m: nat)
    requires span > 0 && span * (512 * m) > 0
    ensures v % (span * (512 * m)) / span % 512 == v / span % 512
  {
    var whole := span * (512 * m);
    var q, r := v / whole, v % whole;
    var d := r / span;
    MulShuffle(span, m, q, d);
    DivModUnique(v, span, 512 * (m * q) + d, r % span);
    DivModUnique(v / span, 512, m * q + d / 512, d % 512);
  }

  lemma MulShuffle(span: nat, m: nat, q: nat, d: nat)
    ensures span * (512 * m) * q + span * d == span * (512 * (m * q) + d)
  {}

  lemma Powers()
    ensures Pow2(1) == 2 && Pow2(4) == 16 && Pow2(5) == 32 && Pow2(6) == 64 && Pow2(7) == 128 && Pow2(9) == 512
    ensures Pow2(11) == 2048 && Pow2(12) == 4096 && Pow2(21) == 0x20_0000 && Pow2(30) == 0x4000_0000
    ensures Pow2(40) == 0x100_0000_0000 && Pow2(51) == 0x8_0000_0000_0000
  {
    assert Pow2(4) == 16;
    assert Pow2(8) == 16 * Pow2(4);
    assert Pow2(12) == 16 * Pow2(8);
    assert Pow2(16) == 16 * Pow2(12);
    assert Pow2(20) == 16 * Pow2(16);
    assert Pow2(24) == 16 * Pow2(20);
    assert Pow2(28) == 16 * Pow2(24);
    assert Pow2(32) == 16 * Pow2(28);
    assert Pow2(36) == 16 * Pow2(32);
    assert Pow2(40) == 16 * Pow2(36);
    assert Pow2(44) == 16 * Pow2(40);
    assert Pow2(48) == 16 * Pow2(44);
    assert Pow2(51) == 8 * Pow2(48);
  }
}
