/** The block in which a new process finds its arguments and environment: xtPassArgs of xtkernel/linker.c. */
module Arguments {
  import opened Bits
  import opened Bytes
  import opened Results

  datatype Environment = NoEnvironment | Environment(strings: seq<CString>)

  const HEADER: nat := 32
  const PAGE: nat := 0x1000
  const USER_MASK: nat := 0x7fff_ffff_ffff

  // ----- Sizes and places -----

  /** The bytes that the first n strings take, NULs included. */
  function Start(strings: seq<CString>, n: nat): nat
    requires n <= |strings|
  {
    if n == 0 then 0 else Start(strings, n - 1) + |strings[n - 1]| + 1
  }

  function Total(strings: seq<CString>): nat { Start(strings, |strings|) }

  lemma {:induction false} StartGrows(strings: seq<CString>, i: nat, j: nat)
    requires i < j <= |strings|
    ensures Start(strings, i) + |strings[i]| + 1 <= Start(strings, j)
    decreases j
  {
    if i + 1 < j { StartGrows(strings, i, j - 1); }
  }

  lemma Room(strings: seq<CString>, i: nat)
    requires i < |strings|
    ensures Start(strings, i) + |strings[i]| + 1 == Start(strings, i + 1) <= Total(strings)
  {
    StartGrows(strings, i, |strings|);
  }

  /** (total_size + (1 << PAGE_SHIFT) - 1) & ~((1 << PAGE_SHIFT) - 1) */
  function RoundUp(size: nat): nat {
    And(size + PAGE - 1, TWO_64 - PAGE)
  }

  /** The base address picked from a random word. */
  function VaBase(random: nat): nat {
    var va := And(And(random, USER_MASK), TWO_64 - PAGE);
    if va < 0x1000 then 0x1000 else va
  }

  lemma PageMask(x: nat)
    requires x < TWO_64
    ensures And(x, TWO_64 - PAGE) == x / PAGE * PAGE
  {
    assert Pow2(12) == PAGE && Pow2(52) == TWO_52 by { Powers(); Pow2Add(51, 1); }
    hide And, Shr, Low, Pow2;
    AndHigh(x, TWO_52 - 1, 12);
    DivideBy(x, 12, PAGE);
    AndLow(x / PAGE, 52);
    Unique(0, x / PAGE, 52);
  }

  /** The block takes whole pages, and just enough of them. */
  lemma RoundUpIs(size: nat)
    requires size + PAGE <= TWO_64
    ensures RoundUp(size) % PAGE == 0 && size <= RoundUp(size) < size + PAGE
  {
    hide And;
    PageMask(size + PAGE - 1);
  }

  /** The base is a page of the lower half, never page zero. */
  lemma VaBaseIs(random: nat)
    requires random < TWO_64
    ensures VaBase(random) % PAGE == 0 && 0x1000 <= VaBase(random) < 0x8000_0000_0000
  {
    hide And;
    var va := And(random, USER_MASK);
    UserAddress(random);
    PageMask(va);
    assert va / PAGE * PAGE <= va;
  }

  lemma UserAddress(random: nat)
    ensures And(random, USER_MASK) < 0x8000_0000_0000
  {
    assert Pow2(47) == 0x8000_0000_0000 by { Powers(); Pow2Add(40, 7); }
    hide And, Low, Pow2;
    AndLow(random, 47);
    Divide(random, 47);
  }

  /** Where xtPassArgs puts things, counted from the start of the block. */
  datatype Layout = Layout(argv: nat, envp: nat, argStrings: nat, envStrings: nat, end: nat)

  function Strings(env: Environment): seq<CString> {
    if env == NoEnvironment then [] else env.strings
  }

  function LayoutOf(args: seq<CString>, env: Environment): Layout {
    var argv := HEADER;
    var envp := argv + (|args| + 1) * 8;
    var argStrings := envp + (|Strings(env)| + 1) * 8;
    var envStrings := argStrings + Total(args);
    Layout(argv, envp, argStrings, envStrings, envStrings + Total(Strings(env)))
  }

  // ----- What the process finds -----

  /** The string at a position, up to its NUL. */
  function ReadString(s: seq<Byte>, at: nat): seq<Byte>
    decreases |s| - at
  {
    if at >= |s| || s[at] == 0 then [] else [s[at]] + ReadString(s, at + 1)
  }

  /** The strings that a NULL-terminated array of pointers leads to; the block is mapped at va. */
  function ReadVector(s: seq<Byte>, va: nat, at: nat): seq<seq<Byte>>
    decreases |s| - at
  {
    if at + 8 > |s| || Word64(s, at) < va then []
    else [ReadString(s, Word64(s, at) - va)] + ReadVector(s, va, at + 8)
  }

  /** The pointer at `at` leads to a copy of str, NUL included, at `pos`. */
  ghost predicate Holds(s: seq<Byte>, va: nat, at: nat, pos: nat, str: CString) {
    && at + 8 <= |s| && pos + |str| + 1 <= |s|
    && Word64(s, at) == va + pos && s[pos..pos + |str|] == str && s[pos + |str|] == 0
  }

  /** The first n pointers of an array lead to the first n strings, laid end to end. */
  ghost predicate Vector(s: seq<Byte>, va: nat, at: nat, pos: nat, strings: seq<CString>, n: nat)
    requires n <= |strings|
  {
    forall i :: 0 <= i < n ==> Holds(s, va, at + 8 * i, pos + Start(strings, i), strings[i])
  }

  ghost predicate Null(s: seq<Byte>, at: nat) {
    at + 8 <= |s| && Word64(s, at) == 0
  }

  /** The finished block. */
  ghost predicate Block(s: seq<Byte>, va: nat, args: seq<CString>, env: Environment, imageBase: nat) {
    var l := LayoutOf(args, env);
    && 32 <= l.end <= |s|
    && Word64(s, 0) == |args| && Word64(s, 8) == va + l.argv && Word64(s, 24) == imageBase
    && Word64(s, 16) == (if Strings(env) == [] then 0 else va + l.envp)
    && Vector(s, va, l.argv, l.argStrings, args, |args|) && Null(s, l.argv + 8 * |args|)
    && Vector(s, va, l.envp, l.envStrings, Strings(env), |Strings(env)|)
    && (env.Environment? ==> Null(s, l.envp + 8 * |env.strings|))
  }

  lemma {:induction false} ReadStringIs(s: seq<Byte>, at: nat, str: CString)
    requires at + |str| < |s| && s[at..at + |str|] == str && s[at + |str|] == 0
    ensures ReadString(s, at) == str
    decreases |str|
  {
    if str != [] {
      assert s[at] == s[at..at + |str|][0];
      assert s[at + 1..at + |str|] == s[at..at + |str|][1..];
      assert forall i :: 0 <= i < |str[1..]| ==> str[1..][i] == str[i + 1];
      ReadStringIs(s, at + 1, str[1..]);
    }
  }

  lemma {:induction false} ReadVectorIs(s: seq<Byte>, va: nat, at: nat, pos: nat, strings: seq<CString>, i: nat)
    requires i <= |strings| && va > 0
    requires Vector(s, va, at, pos, strings, |strings|) && Null(s, at + 8 * |strings|)
    ensures ReadVector(s, va, at + 8 * i) == strings[i..]
    decreases |strings| - i
  {
    hide Word64, ReadString, Start;
    if i < |strings| {
      assert Holds(s, va, at + 8 * i, pos + Start(strings, i), strings[i]);
      ReadStringIs(s, pos + Start(strings, i), strings[i]);
      ReadVectorIs(s, va, at, pos, strings, i + 1);
      assert strings[i..] == [strings[i]] + strings[i + 1..];
    } else {
      assert strings[i..] == [];
    }
  }

  /** The process reads back the arguments and the environment it was started with. */
  lemma RoundTrip(s: seq<Byte>, va: nat, args: seq<CString>, env: Environment, imageBase: nat)
    requires Block(s, va, args, env, imageBase) && va > 0
    ensures Word64(s, 8) >= va && ReadVector(s, va, Word64(s, 8) - va) == args
    ensures Word64(s, 16) == 0 <==> Strings(env) == []
    ensures Word64(s, 16) != 0 ==> Word64(s, 16) >= va && ReadVector(s, va, Word64(s, 16) - va) == Strings(env)
  {
    hide Word64, ReadVector, Vector, Null;
    var l := LayoutOf(args, env);
    ReadVectorIs(s, va, l.argv, l.argStrings, args, 0);
    if Strings(env) != [] { ReadVectorIs(s, va, l.envp, l.envStrings, Strings(env), 0); }
  }

  /** Strings laid end to end from `from`: each ends before the next begins, and the last by `to`. */
  ghost predicate Laid(strings: seq<CString>, from: nat, to: nat) {
    && (forall i, j :: 0 <= i < j < |strings| ==>
          from + Start(strings, i) + |strings[i]| + 1 <= from + Start(strings, j))
    && forall i :: 0 <= i < |strings| ==> from + Start(strings, i) + |strings[i]| + 1 <= to
  }

  lemma LaidOut(strings: seq<CString>, from: nat)
    ensures Laid(strings, from, from + Total(strings))
  {
    forall i, j | 0 <= i < j <= |strings| ensures Start(strings, i) + |strings[i]| + 1 <= Start(strings, j) {
      StartGrows(strings, i, j);
    }
    forall i | 0 <= i < |strings| ensures Start(strings, i) + |strings[i]| + 1 <= Total(strings) { Room(strings, i); }
  }

  /** Header, arrays and strings lie one after the other, and no two strings overlap. */
  lemma Apart(args: seq<CString>, env: Environment)
    ensures var l := LayoutOf(args, env);
      && l.argv == 32 && l.argv + 8 * (|args| + 1) == l.envp && l.envp + 8 * (|Strings(env)| + 1) == l.argStrings
      && Laid(args, l.argStrings, l.envStrings) && Laid(Strings(env), l.envStrings, l.end)
  {
    LaidOut(args, LayoutOf(args, env).argStrings);
    LaidOut(Strings(env), LayoutOf(args, env).envStrings);
  }

  // ----- Writes and what they leave alone -----

  /** s and t agree outside two stretches. */
  ghost predicate SameOutside(s: seq<Byte>, t: seq<Byte>, a: nat, b: nat, c: nat, d: nat) {
    |s| == |t| && forall j :: 0 <= j < |s| && !(a <= j < b) && !(c <= j < d) ==> s[j] == t[j]
  }

  lemma HoldsKept(s: seq<Byte>, va: nat, p: nat, pos: nat, str: CString, at: nat, bytes: seq<Byte>)
    requires Holds(s, va, p, pos, str) && at + |bytes| <= |s|
    requires p + 8 <= at || at + |bytes| <= p
    requires pos + |str| + 1 <= at || at + |bytes| <= pos
    ensures Holds(Splice(s, at, bytes), va, p, pos, str)
  {
    hide Word64, Splice;
    Word64Elsewhere(s, at, bytes, p);
    var t := Splice(s, at, bytes);
    assert t[pos..pos + |str|] == s[pos..pos + |str|];
  }

  lemma VectorKept(s: seq<Byte>, va: nat, p: nat, pos: nat, strings: seq<CString>, n: nat, at: nat, bytes: seq<Byte>)
    requires n <= |strings| && Vector(s, va, p, pos, strings, n) && at + |bytes| <= |s|
    requires p + 8 * n <= at || at + |bytes| <= p
    requires pos + Start(strings, n) <= at || at + |bytes| <= pos
    ensures Vector(Splice(s, at, bytes), va, p, pos, strings, n)
  {
    hide Holds, Splice, Start;
    forall i | 0 <= i < n ensures Holds(Splice(s, at, bytes), va, p + 8 * i, pos + Start(strings, i), strings[i]) {
      StartGrows(strings, i, n);
      HoldsKept(s, va, p + 8 * i, pos + Start(strings, i), strings[i], at, bytes);
    }
  }

  /** One turn of a copying loop: the string, then the pointer to it. */
  lemma VectorStep(s: seq<Byte>, va: nat, p: nat, pos: nat, strings: seq<CString>, n: nat)
    requires n < |strings| && Vector(s, va, p, pos, strings, n) && va + |s| < TWO_64
    requires p + 8 * |strings| <= pos && pos + Total(strings) <= |s|
    ensures pos + Start(strings, n) + |strings[n]| + 1 <= |s|
    ensures var t := Splice(s, pos + Start(strings, n), strings[n] + [0]);
      Vector(Splice(t, p + 8 * n, Le64(va + pos + Start(strings, n))), va, p, pos, strings, n + 1)
  {
    hide Splice, Start, Total, Word64, Le64;
    Room(strings, n);
    var at := pos + Start(strings, n);
    var t := Splice(s, at, strings[n] + [0]);
    var u := Splice(t, p + 8 * n, Le64(va + at));
    VectorKept(s, va, p, pos, strings, n, at, strings[n] + [0]);
    VectorKept(t, va, p, pos, strings, n, p + 8 * n, Le64(va + at));
    Word64RoundTrip(t, p + 8 * n, va + at);
    assert t[at..at + |strings[n]|] == strings[n];
    assert u[at..at + |strings[n]|] == strings[n];
    assert Holds(u, va, p + 8 * n, at, strings[n]);
  }

  lemma StepOutside(s: seq<Byte>, t: seq<Byte>, a: nat, b: nat, c: nat, d: nat, at: nat, bytes: seq<Byte>)
    requires SameOutside(s, t, a, b, c, d) && at + |bytes| <= |s|
    requires (a <= at && at + |bytes| <= b) || (c <= at && at + |bytes| <= d)
    ensures SameOutside(s, Splice(t, at, bytes), a, b, c, d)
  {}

  lemma WordOutside(s: seq<Byte>, t: seq<Byte>, a: nat, b: nat, c: nat, d: nat, at: nat)
    requires SameOutside(s, t, a, b, c, d) && at + 8 <= |s|
    requires (at + 8 <= a || b <= at) && (at + 8 <= c || d <= at)
    ensures Word64(t, at) == Word64(s, at)
  {
    hide Word64;
    assert s[at..at + 8] == t[at..at + 8];
    Word64Bytes(s, t, at);
  }

  predicate Beside(x: nat, y: nat, a: nat, b: nat) { y <= a || b <= x }

  lemma HoldsOutside(s: seq<Byte>, t: seq<Byte>, a: nat, b: nat, c: nat, d: nat, va: nat, p: nat, pos: nat, str: CString)
    requires SameOutside(s, t, a, b, c, d) && Holds(s, va, p, pos, str)
    requires Beside(p, p + 8, a, b) && Beside(p, p + 8, c, d)
    requires Beside(pos, pos + |str| + 1, a, b) && Beside(pos, pos + |str| + 1, c, d)
    ensures Holds(t, va, p, pos, str)
  {
    hide Word64;
    WordOutside(s, t, a, b, c, d, p);
    assert t[pos..pos + |str|] == s[pos..pos + |str|];
  }

  lemma Within(x: nat, y: nat, x': nat, y': nat, a: nat, b: nat, c: nat, d: nat)
    requires Beside(x, y, a, b) && Beside(x, y, c, d) && x <= x' && y' <= y
    ensures Beside(x', y', a, b) && Beside(x', y', c, d)
  {}

  lemma VectorOutside(s: seq<Byte>, t: seq<Byte>, a: nat, b: nat, c: nat, d: nat,
                      va: nat, p: nat, pos: nat, strings: seq<CString>)
    requires SameOutside(s, t, a, b, c, d) && Vector(s, va, p, pos, strings, |strings|)
    requires Beside(p, p + 8 * |strings|, a, b) && Beside(p, p + 8 * |strings|, c, d)
    requires Beside(pos, pos + Total(strings), a, b) && Beside(pos, pos + Total(strings), c, d)
    ensures Vector(t, va, p, pos, strings, |strings|)
  {
    hide Holds, Start, Total, SameOutside, Beside;
    forall i | 0 <= i < |strings| ensures Holds(t, va, p + 8 * i, pos + Start(strings, i), strings[i]) {
      Room(strings, i);
      var size, before, after := Total(strings), Start(strings, i), Start(strings, i + 1);
      Within(p, p + 8 * |strings|, p + 8 * i, p + 8 * i + 8, a, b, c, d);
      Within(pos, pos + size, pos + before, pos + after, a, b, c, d);
      HoldsOutside(s, t, a, b, c, d, va, p + 8 * i, pos + before, strings[i]);
    }
  }

  // ----- The code -----

  /** Counting strings and their bytes. */
  method Measure(strings: seq<CString>) returns (count: nat, size: nat)
    ensures count == |strings| && size == Total(strings)
  {
    count, size := 0, 0;
    while count < |strings|
      invariant 0 <= count <= |strings| && size == Start(strings, count)
    {
      Room(strings, count);
      size := size + |strings[count]| + 1;
      count := count + 1;
    }
  }

  /** A loop that copies strings and stores the pointers to them. */
  method StoreVector(block: array<Byte>, va: nat, p: nat, pos: nat, strings: seq<CString>)
    requires p + 8 * |strings| <= pos && pos + Total(strings) <= block.Length && va + block.Length < TWO_64
    modifies block
    ensures Vector(block[..], va, p, pos, strings, |strings|)
    ensures SameOutside(old(block[..]), block[..], p, p + 8 * |strings|, pos, pos + Total(strings))
  {
    hide Vector, SameOutside, Start, Splice, Le64;
    var i, at := 0, pos;
    NoVector(block[..], va, p, pos, strings, p + 8 * |strings|, pos + Total(strings));
    while i < |strings|
      invariant 0 <= i <= |strings| && at == pos + Start(strings, i)
      invariant Vector(block[..], va, p, pos, strings, i)
      invariant SameOutside(old(block[..]), block[..], p, p + 8 * |strings|, pos, pos + Total(strings))
    {
      Room(strings, i);
      VectorStep(block[..], va, p, pos, strings, i);
      StepOutside(old(block[..]), block[..], p, p + 8 * |strings|, pos, pos + Total(strings), at, strings[i] + [0]);
      Write(block, at, strings[i] + [0]);
      StepOutside(old(block[..]), block[..], p, p + 8 * |strings|, pos, pos + Total(strings), p + 8 * i, Le64(va + at));
      Write(block, p + 8 * i, Le64(va + at));
      at := at + |strings[i]| + 1;
      i := i + 1;
    }
  }

  lemma NoVector(s: seq<Byte>, va: nat, p: nat, pos: nat, strings: seq<CString>, b: nat, d: nat)
    ensures Vector(s, va, p, pos, strings, 0) && Start(strings, 0) == 0 && SameOutside(s, s, p, b, pos, d)
  {}

  /** The four fields of XTUserParameters. */
  method StoreHeader(block: array<Byte>, argc: nat, argv: nat, envp: nat, imageBase: nat)
    requires HEADER <= block.Length && argc < TWO_64 && argv < TWO_64 && envp < TWO_64 && imageBase < TWO_64
    modifies block
    ensures Header(block[..], argc, argv, envp, imageBase)
    ensures SameOutside(old(block[..]), block[..], 0, HEADER, 0, 0)
  {
    hide Splice, Le64;
    HeaderFields(block[..], argc, argv, envp, imageBase);
    Write(block, 0, Le64(argc));
    Write(block, 8, Le64(argv));
    Write(block, 16, Le64(envp));
    Write(block, 24, Le64(imageBase));
  }

  ghost predicate Header(s: seq<Byte>, argc: nat, argv: nat, envp: nat, imageBase: nat) {
    && HEADER <= |s| && Word64(s, 0) == argc && Word64(s, 8) == argv && Word64(s, 16) == envp && Word64(s, 24) == imageBase
  }

  lemma HeaderFields(s: seq<Byte>, argc: nat, argv: nat, envp: nat, imageBase: nat)
    requires HEADER <= |s| && argc < TWO_64 && argv < TWO_64 && envp < TWO_64 && imageBase < TWO_64
    ensures var t := Splice(Splice(Splice(Splice(s, 0, Le64(argc)), 8, Le64(argv)), 16, Le64(envp)), 24, Le64(imageBase));
      Header(t, argc, argv, envp, imageBase) && SameOutside(s, t, 0, HEADER, 0, 0)
  {
    hide Word64, Splice, Le64;
    var s1 := Splice(s, 0, Le64(argc));
    var s2 := Splice(s1, 8, Le64(argv));
    var s3 := Splice(s2, 16, Le64(envp));
    var s4 := Splice(s3, 24, Le64(imageBase));
    Word64RoundTrip(s, 0, argc);
    Word64RoundTrip(s1, 8, argv);
    Word64RoundTrip(s2, 16, envp);
    Word64RoundTrip(s3, 24, imageBase);
    Word64Elsewhere(s1, 8, Le64(argv), 0);
    Word64Elsewhere(s2, 16, Le64(envp), 0);
    Word64Elsewhere(s3, 24, Le64(imageBase), 0);
    Word64Elsewhere(s2, 16, Le64(envp), 8);
    Word64Elsewhere(s3, 24, Le64(imageBase), 8);
    Word64Elsewhere(s3, 24, Le64(imageBase), 16);
  }

  lemma SpliceOutside(s: seq<Byte>, at: nat, w: nat)
    requires at + 8 <= |s|
    ensures SameOutside(s, Splice(s, at, Le64(w)), at, at + 8, at, at + 8)
  {}

  lemma StoredNull(s: seq<Byte>, at: nat)
    requires at + 8 <= |s|
    ensures Null(Splice(s, at, Le64(0)), at)
    ensures SameOutside(s, Splice(s, at, Le64(0)), at, at + 8, at, at + 8)
  {
    Word64RoundTrip(s, at, 0);
    hide *;
    SpliceOutside(s, at, 0);
    NullIs(Splice(s, at, Le64(0)), at);
  }

  lemma NullIs(s: seq<Byte>, at: nat)
    requires at + 8 <= |s| && Word64(s, at) == 0
    ensures Null(s, at)
  {}

  /** What a write to the arrays or strings keeps: the header, and the end of the block. */
  lemma HeaderOutside(s: seq<Byte>, t: seq<Byte>, a: nat, b: nat, c: nat, d: nat,
                      argc: nat, argv: nat, envp: nat, imageBase: nat)
    requires Header(s, argc, argv, envp, imageBase) && SameOutside(s, t, a, b, c, d) && HEADER <= a && HEADER <= c
    ensures Header(t, argc, argv, envp, imageBase)
  {
    assert |s| == |t|;
    hide Word64, SameOutside;
    WordOutside(s, t, a, b, c, d, 0);
    WordOutside(s, t, a, b, c, d, 8);
    WordOutside(s, t, a, b, c, d, 16);
    WordOutside(s, t, a, b, c, d, 24);
  }

  lemma NullOutside(s: seq<Byte>, t: seq<Byte>, a: nat, b: nat, c: nat, d: nat, at: nat)
    requires Null(s, at) && SameOutside(s, t, a, b, c, d) && Beside(at, at + 8, a, b) && Beside(at, at + 8, c, d)
    ensures Null(t, at)
  {
    hide Word64;
    WordOutside(s, t, a, b, c, d, at);
  }

  ghost predicate SameTail(s: seq<Byte>, t: seq<Byte>, end: nat) {
    |s| == |t| && end <= |s| && s[end..] == t[end..]
  }

  lemma TailOutside(s: seq<Byte>, t: seq<Byte>, u: seq<Byte>, a: nat, b: nat, c: nat, d: nat, end: nat)
    requires SameTail(s, t, end) && SameOutside(t, u, a, b, c, d) && b <= end && d <= end
    ensures SameTail(s, u, end)
  {
    assert t[end..] == u[end..];
  }

  /** Step 6 of xtPassArgs: filling the block, and nothing of it past the last string. */
  method Fill(block: array<Byte>, va: nat, args: seq<CString>, env: Environment, imageBase: nat)
    requires LayoutOf(args, env).end <= block.Length && va + block.Length < TWO_64
    requires |args| < TWO_64 && imageBase < TWO_64
    modifies block
    ensures Block(block[..], va, args, env, imageBase)
    ensures block[LayoutOf(args, env).end..] == old(block[LayoutOf(args, env).end..])
  {
    hide Header, Vector, SameOutside, Total, Splice, Le64, Word64, Null, SameTail, Beside;
    var l := LayoutOf(args, env);
    var argc, envc, argvAddress := |args|, |Strings(env)|, va + l.argv;
    var envpAddress := if envc == 0 then 0 else va + l.envp;
    ghost var nulls := l.argv + 8 * argc;
    ghost var s0 := block[..];
    SameTailRefl(s0, l.end);
    StoreHeader(block, argc, argvAddress, envpAddress, imageBase);
    TailOutside(s0, s0, block[..], 0, HEADER, 0, 0, l.end);

    ghost var s1 := block[..];
    StoreVector(block, va, l.argv, l.argStrings, args);
    HeaderOutside(s1, block[..], l.argv, nulls, l.argStrings, l.envStrings, argc, argvAddress, envpAddress, imageBase);
    TailOutside(s0, s1, block[..], l.argv, nulls, l.argStrings, l.envStrings, l.end);

    ghost var s2 := block[..];
    Apart4(l.argv, nulls, l.argStrings, l.envStrings, nulls, nulls + 8, nulls, nulls + 8);
    StoredNull(s2, nulls);
    Write(block, l.argv + 8 * argc, Le64(0));
    HeaderOutside(s2, block[..], nulls, nulls + 8, nulls, nulls + 8, argc, argvAddress, envpAddress, imageBase);
    VectorOutside(s2, block[..], nulls, nulls + 8, nulls, nulls + 8, va, l.argv, l.argStrings, args);
    TailOutside(s0, s2, block[..], nulls, nulls + 8, nulls, nulls + 8, l.end);

    if env.Environment? {
      ghost var envNull := l.envp + 8 * envc;
      ghost var s3 := block[..];
      StoreVector(block, va, l.envp, l.envStrings, env.strings);
      Apart4(l.argv, nulls, l.argStrings, l.envStrings, l.envp, envNull, l.envStrings, l.end);
      Apart4(nulls, nulls + 8, nulls, nulls + 8, l.envp, envNull, l.envStrings, l.end);
      HeaderOutside(s3, block[..], l.envp, envNull, l.envStrings, l.end, argc, argvAddress, envpAddress, imageBase);
      VectorOutside(s3, block[..], l.envp, envNull, l.envStrings, l.end, va, l.argv, l.argStrings, args);
      NullOutside(s3, block[..], l.envp, envNull, l.envStrings, l.end, nulls);
      TailOutside(s0, s3, block[..], l.envp, envNull, l.envStrings, l.end, l.end);

      ghost var s4 := block[..];
      StoredNull(s4, envNull);
      Write(block, l.envp + 8 * envc, Le64(0));
      Apart4(l.argv, nulls, l.argStrings, l.envStrings, envNull, envNull + 8, envNull, envNull + 8);
      Apart4(nulls, nulls + 8, l.envStrings, l.end, envNull, envNull + 8, envNull, envNull + 8);
      Apart4(l.envp, envNull, l.envp, envNull, envNull, envNull + 8, envNull, envNull + 8);
      HeaderOutside(s4, block[..], envNull, envNull + 8, envNull, envNull + 8, argc, argvAddress, envpAddress, imageBase);
      VectorOutside(s4, block[..], envNull, envNull + 8, envNull, envNull + 8, va, l.argv, l.argStrings, args);
      VectorOutside(s4, block[..], envNull, envNull + 8, envNull, envNull + 8, va, l.envp, l.envStrings, env.strings);
      NullOutside(s4, block[..], envNull, envNull + 8, envNull, envNull + 8, nulls);
      TailOutside(s0, s4, block[..], envNull, envNull + 8, envNull, envNull + 8, l.end);
    } else {
      EmptyVector(block[..], va, l.envp, l.envStrings);
    }
    Finished(s0, block[..], va, args, env, imageBase);
  }

  lemma SameTailRefl(s: seq<Byte>, end: nat)
    requires end <= |s|
    ensures SameTail(s, s, end)
  {}

  lemma EmptyVector(s: seq<Byte>, va: nat, p: nat, pos: nat)
    ensures Vector(s, va, p, pos, [], 0)
  {}

  lemma Apart4(x: nat, y: nat, z: nat, w: nat, a: nat, b: nat, c: nat, d: nat)
    requires (y <= a || b <= x) && (y <= c || d <= x) && (w <= a || b <= z) && (w <= c || d <= z)
    ensures Beside(x, y, a, b) && Beside(x, y, c, d) && Beside(z, w, a, b) && Beside(z, w, c, d)
  {}

  lemma Finished(s0: seq<Byte>, s: seq<Byte>, va: nat, args: seq<CString>, env: Environment, imageBase: nat)
    requires var l := LayoutOf(args, env);
      && Header(s, |args|, va + l.argv, if Strings(env) == [] then 0 else va + l.envp, imageBase)
      && Vector(s, va, l.argv, l.argStrings, args, |args|) && Null(s, l.argv + 8 * |args|)
      && Vector(s, va, l.envp, l.envStrings, Strings(env), |Strings(env)|)
      && (env.Environment? ==> Null(s, l.envp + 8 * |env.strings|))
      && SameTail(s0, s, l.end)
    ensures Block(s, va, args, env, imageBase)
    ensures LayoutOf(args, env).end <= |s| == |s0| && s[LayoutOf(args, env).end..] == s0[LayoutOf(args, env).end..]
  {
    hide Vector, Total, Word64, Null;
  }

  /** xtPassArgs; `pages` is what allocating and mapping the pages comes to, `random` the random word. */
  method PassArgs(args: seq<CString>, env: Environment, imageBase: nat, random: nat, pages: XTResult)
    returns (r: XTResult, va: nat, block: array<Byte>)
    requires |args| < 0x7fff_ffff && |Strings(env)| < 0x7fff_ffff && LayoutOf(args, env).end < TWO_63
    requires imageBase < TWO_64 && random < TWO_64
    ensures r == pages
    ensures r == XT_SUCCESS ==>
      && Block(block[..], va, args, env, imageBase)
      && block.Length % 0x1000 == 0 && LayoutOf(args, env).end <= block.Length < LayoutOf(args, env).end + 0x1000
      && va % 0x1000 == 0 && 0x1000 <= va < 0x8000_0000_0000
  {
    hide RoundUp, VaBase, Total, Block;
    var argc, argsTotal := Measure(args);
    var envc, envTotal := Measure(Strings(env));
    var totalSize := RoundUp(HEADER + (argc + 1) * 8 + (envc + 1) * 8 + argsTotal + envTotal);
    RoundUpIs(HEADER + (argc + 1) * 8 + (envc + 1) * 8 + argsTotal + envTotal);
    va := VaBase(random);
    VaBaseIs(random);
    if pages != XT_SUCCESS {
      block := new Byte[0];
      return pages, va, block;
    }
    block := new Byte[totalSize];
    Fill(block, va, args, env, imageBase);
    r := XT_SUCCESS;
  }
}
