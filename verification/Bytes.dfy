/** Byte strings and the little-endian words in them. */
module Bytes {
  import opened Bits

  type Byte = b: nat | b < 256

  /** A C string without its NUL. */
  type CString = s: seq<Byte> | forall i :: 0 <= i < |s| ==> s[i] != 0

  /** Overwriting part of a byte string. */
  function Splice(s: seq<Byte>, at: nat, bytes: seq<Byte>): (t: seq<Byte>)
    requires at + |bytes| <= |s|
    ensures |t| == |s|
    ensures forall j :: 0 <= j < |s| ==> t[j] == if at <= j < at + |bytes| then bytes[j - at] else s[j]
  {
    s[..at] + bytes + s[at + |bytes|..]
  }

  function Le32(w: nat): (b: seq<Byte>)
    ensures |b| == 4
  {
    [w % 256, w / 256 % 256, w / 0x1_0000 % 256, w / 0x100_0000 % 256]
  }

  function Word32(s: seq<Byte>, at: nat): nat
    requires at + 4 <= |s|
  {
    s[at] as int + 256 * (s[at + 1] as int) + 0x1_0000 * (s[at + 2] as int) + 0x100_0000 * (s[at + 3] as int)
  }

  lemma WordRoundTrip(s: seq<Byte>, at: nat, w: nat)
    requires at + 4 <= |s| && w < TWO_32
    ensures Word32(Splice(s, at, Le32(w)), at) == w
  {
    hide Splice;
    Digits256(w);
  }

  lemma Digits256(w: nat)
    requires w < TWO_32
    ensures w % 256 + 256 * (w / 256 % 256) + 0x1_0000 * (w / 0x1_0000 % 256) + 0x100_0000 * (w / 0x100_0000 % 256) == w
  {}

  lemma WordElsewhere(s: seq<Byte>, at: nat, bytes: seq<Byte>, p: nat)
    requires at + |bytes| <= |s| && p + 4 <= |s| && (p + 4 <= at || at + |bytes| <= p)
    ensures Word32(Splice(s, at, bytes), p) == Word32(s, p)
  {
    hide Splice;
  }

  lemma Word32Bound(s: seq<Byte>, at: nat)
    requires at + 4 <= |s|
    ensures Word32(s, at) < TWO_32
  {}

  lemma SameHalves(base: nat, low: nat, high: nat, low': nat, high': nat)
    requires base == 256 || base == TWO_32
    requires low < base && low' < base && low + base * high == low' + base * high'
    ensures low == low' && high == high'
  {
    if base == 256 {} else {}
  }

  /** A word is its four bytes and nothing else. */
  lemma Word32Bytes(s: seq<Byte>, t: seq<Byte>, at: nat)
    requires at + 4 <= |s| && at + 4 <= |t|
    ensures Word32(s, at) == Word32(t, at) <==> s[at..at + 4] == t[at..at + 4]
  {
    var x, y := s[at..at + 4], t[at..at + 4];
    assert s[at] == x[0] && s[at + 1] == x[1] && s[at + 2] == x[2] && s[at + 3] == x[3];
    assert t[at] == y[0] && t[at + 1] == y[1] && t[at + 2] == y[2] && t[at + 3] == y[3];
    if Word32(s, at) == Word32(t, at) {
      var x1, x2, x3: int := x[1], x[2], x[3];
      var y1, y2, y3: int := y[1], y[2], y[3];
      SameHalves(256, x[0], x1 + 256 * (x2 + 256 * x3), y[0], y1 + 256 * (y2 + 256 * y3));
      SameHalves(256, x1, x2 + 256 * x3, y1, y2 + 256 * y3);
      SameHalves(256, x2, x3, y2, y3);
    }
  }

  function Word64(s: seq<Byte>, at: nat): nat
    requires at + 8 <= |s|
  {
    Word32(s, at) + TWO_32 * Word32(s, at + 4)
  }

  function Le64(w: nat): (b: seq<Byte>)
    ensures |b| == 8
  {
    Le32(w % TWO_32) + Le32(w / TWO_32)
  }

  lemma Halves(s: seq<Byte>, at: nat)
    requires at + 8 <= |s|
    ensures s[at..at + 8][..4] == s[at..at + 4] && s[at..at + 8][4..] == s[at + 4..at + 8]
  {}

  lemma Word64Bytes(s: seq<Byte>, t: seq<Byte>, at: nat)
    requires at + 8 <= |s| && at + 8 <= |t|
    ensures Word64(s, at) == Word64(t, at) <==> s[at..at + 8] == t[at..at + 8]
    ensures Word64(s, at) < TWO_64
  {
    hide Word32;
    Word32Bytes(s, t, at);
    Word32Bytes(s, t, at + 4);
    Word32Bound(s, at);
    Word32Bound(t, at);
    Word32Bound(s, at + 4);
    if Word64(s, at) == Word64(t, at) {
      SameHalves(TWO_32, Word32(s, at), Word32(s, at + 4), Word32(t, at), Word32(t, at + 4));
    }
    var x, y := s[at..at + 8], t[at..at + 8];
    assert x == x[..4] + x[4..] && y == y[..4] + y[4..];
    Halves(s, at);
    Halves(t, at);
  }

  lemma Word64RoundTrip(s: seq<Byte>, at: nat, w: nat)
    requires at + 8 <= |s| && w < TWO_64
    ensures Word64(Splice(s, at, Le64(w)), at) == w
  {
    hide Word32, Le32, Splice;
    var t := Splice(s, at, Le64(w));
    WordRoundTrip(s, at, w % TWO_32);
    WordRoundTrip(s, at + 4, w / TWO_32);
    Word32Bytes(t, Splice(s, at, Le32(w % TWO_32)), at);
    Word32Bytes(t, Splice(s, at + 4, Le32(w / TWO_32)), at + 4);
  }

  lemma Word64Elsewhere(s: seq<Byte>, at: nat, bytes: seq<Byte>, p: nat)
    requires at + |bytes| <= |s| && p + 8 <= |s| && (p + 8 <= at || at + |bytes| <= p)
    ensures Word64(Splice(s, at, bytes), p) == Word64(s, p)
  {
    hide Word32, Splice;
    WordElsewhere(s, at, bytes, p);
    WordElsewhere(s, at, bytes, p + 4);
  }

  /** Copying bytes into a buffer, one by one. */
  method Write(buffer: array<Byte>, at: nat, bytes: seq<Byte>)
    requires at + |bytes| <= buffer.Length
    modifies buffer
    ensures buffer[..] == Splice(old(buffer[..]), at, bytes)
  {
    hide Splice;
    var i := 0;
    while i < |bytes|
      invariant 0 <= i <= |bytes|
      invariant forall j :: 0 <= j < buffer.Length ==> buffer[j] == if at <= j < at + i then bytes[j - at] else old(buffer[j])
    {
      buffer[at + i] := bytes[i];
      i := i + 1;
    }
  }
}
