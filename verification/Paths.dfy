/** Absolute paths: xtNormalizePath of xtkernel/fs.c. */
module Paths {
  import opened Bytes
  import opened Results

  const SLASH: Byte := 0x2f
  const BACKSLASH: Byte := 0x5c
  const DOT: Byte := 0x2e

  predicate Separator(c: Byte) { c == SLASH || c == BACKSLASH }

  // ----- The components of a path -----

  /** Without its leading separators. */
  function Skip(path: seq<Byte>): (rest: seq<Byte>)
    ensures |rest| <= |path| && (rest != [] ==> !Separator(rest[0]))
  {
    if path != [] && Separator(path[0]) then Skip(path[1..]) else path
  }

  /** The length of the component in front: up to a separator, the end, or 255 characters. */
  function NameLength(path: seq<Byte>, n: nat): (r: nat)
    requires n <= |path| && n <= 255
    ensures n <= r <= |path| && r <= 255 && (forall i :: n <= i < r ==> !Separator(path[i]))
    ensures r == |path| || r == 255 || Separator(path[r])
    decreases 255 - n
  {
    if n == |path| || n == 255 || Separator(path[n]) then n else NameLength(path, n + 1)
  }

  function Parts(path: seq<Byte>): (parts: seq<seq<Byte>>)
    decreases |path|
  {
    var q := Skip(path);
    if q == [] then []
    else
      var n := NameLength(q, 0);
      [q[..n]] + Parts(q[n..])
  }

  // ----- The stack of names they come to -----

  /** Entering a component: "." stays, ".." goes up if it can, a name goes down. */
  function Enter(stack: seq<seq<Byte>>, part: seq<Byte>): seq<seq<Byte>> {
    if part == [DOT] then stack
    else if part == [DOT, DOT] then if stack == [] then [] else stack[..|stack| - 1]
    else stack + [part]
  }

  function Joined(stack: seq<seq<Byte>>): seq<Byte> {
    if stack == [] then [] else [SLASH] + stack[0] + Joined(stack[1..])
  }

  /** The normalized path of a stack. */
  function Render(stack: seq<seq<Byte>>): (path: seq<Byte>) {
    if stack == [] then [SLASH] else Joined(stack)
  }

  datatype Outcome = Stack(names: seq<seq<Byte>>) | TooLong

  /** Entering components one by one, each result with its NUL having to fit into `size` bytes. */
  function Walk(stack: seq<seq<Byte>>, parts: seq<seq<Byte>>, size: nat): Outcome
    decreases |parts|
  {
    if parts == [] then Stack(stack)
    else
      var next := Enter(stack, parts[0]);
      if |next| > |stack| && |Render(next)| >= size then TooLong else Walk(next, parts[1..], size)
  }

  function Normalize(path: seq<Byte>, size: nat): Outcome {
    Walk([], Parts(path), size)
  }

  // ----- Normal paths -----

  predicate IsPart(part: seq<Byte>) {
    1 <= |part| <= 255 && forall i :: 0 <= i < |part| ==> !Separator(part[i])
  }

  /** What can stand on the stack: a component that is not "." or "..". */
  predicate IsName(name: seq<Byte>) {
    IsPart(name) && name != [DOT] && name != [DOT, DOT]
  }

  predicate Names(stack: seq<seq<Byte>>) {
    forall i :: 0 <= i < |stack| ==> IsName(stack[i])
  }

  /** A path from the root, with no backslash, no empty, "." or ".." component and no slash at the end. */
  predicate Normal(path: seq<Byte>) {
    && path != [] && path[0] == 0x2f && (|path| > 1 ==> path[|path| - 1] != 0x2f)
    && (forall i :: 0 <= i < |path| ==> path[i] != 0x5c)
    && (forall i :: 0 < i < |path| ==> path[i - 1] != 0x2f || path[i] != 0x2f)
    && (forall i :: 0 <= i < |Parts(path)| ==> Parts(path)[i] != [0x2e] && Parts(path)[i] != [0x2e, 0x2e])
  }

  lemma {:induction false} PartsAreShort(path: seq<Byte>)
    ensures forall i :: 0 <= i < |Parts(path)| ==> IsPart(Parts(path)[i])
    decreases |path|
  {
    var q := Skip(path);
    if q != [] {
      var n := NameLength(q, 0);
      PartsAreShort(q[n..]);
    }
  }

  lemma EnterKeepsNames(stack: seq<seq<Byte>>, part: seq<Byte>)
    requires Names(stack) && IsPart(part)
    ensures Names(Enter(stack, part))
  {}

  lemma {:induction false} WalkKeepsNames(stack: seq<seq<Byte>>, parts: seq<seq<Byte>>, size: nat)
    requires Names(stack)
    requires forall i :: 0 <= i < |parts| ==> IsPart(parts[i])
    ensures Walk(stack, parts, size).Stack? ==> Names(Walk(stack, parts, size).names)
    decreases |parts|
  {
    hide Names, Enter, Render;
    if parts != [] {
      EnterKeepsNames(stack, parts[0]);
      WalkKeepsNames(Enter(stack, parts[0]), parts[1..], size);
    }
  }

  /** Names are read back as they were joined. */
  lemma {:induction false} PartsOfJoined(stack: seq<seq<Byte>>)
    requires Names(stack)
    ensures Parts(Joined(stack)) == stack
    decreases |stack|
  {
    if stack == [] {
    } else {
      var name, rest := stack[0], Joined(stack[1..]);
      var path := [SLASH] + name + rest;
      assert IsName(name);
      PartsOfJoined(stack[1..]);
      assert path[1..] == name + rest;
      assert Skip(path) == name + rest;
      assert rest != [] ==> rest[0] == SLASH;
      LengthOfName(name, rest, 0);
      assert (name + rest)[..|name|] == name && (name + rest)[|name|..] == rest;
      assert stack == [name] + stack[1..];
    }
  }

  lemma {:induction false} LengthOfName(name: seq<Byte>, rest: seq<Byte>, n: nat)
    requires IsName(name) && n <= |name| && (rest != [] ==> rest[0] == SLASH)
    ensures NameLength(name + rest, n) == |name|
    decreases |name| - n
  {
    var path := name + rest;
    if n < |name| {
      assert path[n] == name[n];
      LengthOfName(name, rest, n + 1);
    } else {
      assert rest != [] ==> path[n] == SLASH;
    }
  }

  lemma PartsOfRender(stack: seq<seq<Byte>>)
    requires Names(stack)
    ensures Parts(Render(stack)) == stack
  {
    PartsOfJoined(stack);
    if stack == [] {
      assert Skip([SLASH][1..]) == [];
    }
  }

  lemma {:induction false} JoinedConcat(x: seq<seq<Byte>>, y: seq<seq<Byte>>)
    ensures Joined(x + y) == Joined(x) + Joined(y)
    decreases |x|
  {
    if x == [] {
      assert x + y == y;
    } else {
      assert (x + y)[1..] == x[1..] + y;
      JoinedConcat(x[1..], y);
    }
  }

  lemma JoinedLast(x: seq<seq<Byte>>, name: seq<Byte>)
    ensures Joined(x + [name]) == Joined(x) + [SLASH] + name
  {
    JoinedConcat(x, [name]);
    assert Joined([name]) == [SLASH] + name + Joined([name][1..]) == [SLASH] + name;
  }

  /** Names that fit are entered as they are. */
  lemma {:induction false} WalkNames(stack: seq<seq<Byte>>, parts: seq<seq<Byte>>, size: nat)
    requires Names(parts) && |Render(stack + parts)| < size
    ensures Walk(stack, parts, size) == Stack(stack + parts)
    decreases |parts|
  {
    if parts == [] {
      assert stack + parts == stack;
    } else {
      assert IsName(parts[0]);
      var next := stack + [parts[0]];
      assert next + parts[1..] == stack + parts;
      JoinedConcat(next, parts[1..]);
      WalkNames(next, parts[1..], size);
    }
  }

  lemma {:induction false} WalkFits(stack: seq<seq<Byte>>, parts: seq<seq<Byte>>, size: nat)
    requires (stack == [] || |Render(stack)| < size) && Walk(stack, parts, size).Stack?
    ensures var names := Walk(stack, parts, size).names; names == [] || |Render(names)| < size
    decreases |parts|
  {
    if parts != [] {
      var next := Enter(stack, parts[0]);
      if |next| <= |stack| && next != stack {
        JoinedLast(next, stack[|stack| - 1]);
        assert next + [stack[|stack| - 1]] == stack;
      }
      WalkFits(next, parts[1..], size);
    }
  }

  /** Normalizing again, with the same buffer size, changes nothing. */
  lemma FixedPoint(path: seq<Byte>, size: nat)
    requires Normalize(path, size).Stack?
    ensures var names := Normalize(path, size).names;
      Names(names) && Normalize(Render(names), size) == Stack(names)
  {
    PartsAreShort(path);
    WalkKeepsNames([], Parts(path), size);
    var names := Normalize(path, size).names;
    PartsOfRender(names);
    if names != [] {
      hide *;
      WalkFits([], Parts(path), size);
      assert [] + names == names;
      WalkNames([], names, size);
    }
  }

  lemma {:induction false} JoinedIsNormal(stack: seq<seq<Byte>>)
    requires Names(stack) && stack != []
    ensures Joined(stack)[0] == SLASH && Joined(stack)[|Joined(stack)| - 1] != SLASH
    ensures forall i :: 0 <= i < |Joined(stack)| ==> Joined(stack)[i] != BACKSLASH
    ensures forall i :: 0 < i < |Joined(stack)| ==> Joined(stack)[i - 1] != SLASH || Joined(stack)[i] != SLASH
    decreases |stack|
  {
    var name, rest := stack[0], Joined(stack[1..]);
    assert IsName(name);
    assert Joined(stack) == [SLASH] + (name + rest);
    if |stack| > 1 { JoinedIsNormal(stack[1..]); }
  }

  /** A successful result is a normal path. */
  lemma ResultIsNormal(path: seq<Byte>, size: nat)
    requires Normalize(path, size).Stack?
    ensures Normal(Render(Normalize(path, size).names))
  {
    var names := Normalize(path, size).names;
    FixedPoint(path, size);
    PartsOfRender(names);
    if names != [] { JoinedIsNormal(names); }
    assert forall i :: 0 <= i < |names| ==> IsName(names[i]);
  }

  // ----- What "." and ".." mean -----

  lemma {:induction false} SkipAppend(path: seq<Byte>, more: seq<Byte>)
    ensures Skip(path + more) == if Skip(path) == [] then Skip(more) else Skip(path) + more
    decreases |path|
  {
    if path == [] {
      assert path + more == more;
    } else if Separator(path[0]) {
      assert (path + more)[1..] == path[1..] + more;
      SkipAppend(path[1..], more);
    }
  }

  lemma {:induction false} LengthAppend(path: seq<Byte>, more: seq<Byte>, n: nat)
    requires n <= |path| && n <= 255 && more != [] && Separator(more[0])
    ensures NameLength(path + more, n) == NameLength(path, n)
    decreases 255 - n
  {
    if n < |path| && n < 255 && !Separator(path[n]) { LengthAppend(path, more, n + 1); }
  }

  lemma {:induction false} LengthWhole(name: seq<Byte>, n: nat)
    requires IsPart(name) && n <= |name|
    ensures NameLength(name, n) == |name|
    decreases |name| - n
  {
    if n < |name| { LengthWhole(name, n + 1); }
  }

  lemma OnePart(name: seq<Byte>)
    requires IsPart(name)
    ensures Parts(name) == [name] && Skip(name) == name
  {
    LengthWhole(name, 0);
    assert name[..|name|] == name && name[|name|..] == [];
  }

  /** A component behind a slash or backslash comes last. */
  lemma {:induction false} PartsAppend(path: seq<Byte>, separator: Byte, name: seq<Byte>)
    requires (separator == 0x2f || separator == 0x5c) && IsPart(name)
    ensures Parts(path + [separator] + name) == Parts(path) + [name]
    decreases |path|
  {
    var more := [separator] + name;
    var q := Skip(path);
    assert path + [separator] + name == path + more;
    SkipAppend(path, more);
    OnePart(name);
    if q == [] {
      assert more[1..] == name;
      assert Skip(more) == name;
      LengthWhole(name, 0);
      assert name[..|name|] == name && name[|name|..] == [];
    } else {
      var n := NameLength(q, 0);
      LengthAppend(q, more, 0);
      assert (q + more)[..n] == q[..n] && (q + more)[n..] == q[n..] + [separator] + name;
      PartsAppend(q[n..], separator, name);
      assert [q[..n]] + (Parts(q[n..]) + [name]) == Parts(path) + [name];
    }
  }

  lemma {:induction false} WalkAppend(stack: seq<seq<Byte>>, parts: seq<seq<Byte>>, part: seq<Byte>, size: nat)
    ensures var before := Walk(stack, parts, size);
      Walk(stack, parts + [part], size) == if before.TooLong? then TooLong else Walk(before.names, [part], size)
    decreases |parts|
  {
    hide Enter, Render;
    if parts == [] {
      assert parts + [part] == [part];
    } else {
      assert (parts + [part])[1..] == parts[1..] + [part] && (parts + [part])[0] == parts[0];
      WalkAppend(Enter(stack, parts[0]), parts[1..], part, size);
    }
  }

  /** The path that is one component longer. */
  lemma NormalizeAppend(path: seq<Byte>, separator: Byte, name: seq<Byte>, size: nat)
    requires (separator == 0x2f || separator == 0x5c) && IsPart(name)
    ensures var before, after := Normalize(path, size), Normalize(path + [separator] + name, size);
      && (before.TooLong? ==> after.TooLong?)
      && (before.Stack? && name == [0x2e] ==> after == before)
      && (before.Stack? && name == [0x2e, 0x2e] ==>
            after == Stack(if before.names == [] then [] else before.names[..|before.names| - 1]))
      && (before.Stack? && name != [0x2e] && name != [0x2e, 0x2e] ==>
            after == if |Render(before.names + [name])| < size then Stack(before.names + [name]) else TooLong)
  {
    PartsAppend(path, separator, name);
    WalkAppend([], Parts(path), name, size);
    hide Parts, Render;
    assert [name][1..] == [];
  }

  /** Going down and up again leads back, if there was room to go down. */
  lemma DownAndUp(path: seq<Byte>, down: Byte, name: seq<Byte>, up: Byte, size: nat)
    requires (down == 0x2f || down == 0x5c) && (up == 0x2f || up == 0x5c) && IsName(name)
    ensures var before, after := Normalize(path, size), Normalize(path + [down] + name + [up] + [0x2e, 0x2e], size);
      after == if before.Stack? && |Render(before.names + [name])| < size then before else TooLong
  {
    hide Normalize, Render;
    NormalizeAppend(path, down, name, size);
    assert IsPart([0x2e, 0x2e]);
    NormalizeAppend(path + [down] + name, up, [0x2e, 0x2e], size);
  }

  // ----- The code -----

  /** The buffer holds a path of `len` characters and its NUL. */
  ghost predicate Holds(s: seq<Byte>, len: nat, path: seq<Byte>) {
    len < |s| && s[..len] == path && s[len] == 0
  }

  ghost predicate SameFrom(s: seq<Byte>, t: seq<Byte>, from: nat) {
    |s| == |t| && forall j :: from <= j < |s| ==> s[j] == t[j]
  }

  /** ".." below the root: cutting at the last slash, or after it when it is the first character. */
  method Up(buffer: array<Byte>, len: nat, ghost stack: seq<seq<Byte>>) returns (newLen: nat)
    requires stack != [] && Names(stack) && Holds(buffer[..], len, Render(stack))
    modifies buffer
    ensures newLen < len && Holds(buffer[..], newLen, Render(stack[..|stack| - 1]))
    ensures SameFrom(old(buffer[..]), buffer[..], len)
  {
    ghost var below, name := stack[..|stack| - 1], stack[|stack| - 1];
    assert stack == below + [name];
    assert IsName(name);
    JoinedLast(below, name);
    ghost var cut := |Joined(below)|;
    assert buffer[..len] == Joined(below) + [SLASH] + name;
    assert buffer[cut] == buffer[..len][cut] == SLASH;
    assert forall j :: cut < j < len ==> buffer[j] == buffer[..len][j] == name[j - cut - 1];
    var pos := len - 1;
    while pos > 0 && buffer[pos] != SLASH
      invariant cut <= pos < len
    {
      pos := pos - 1;
    }
    JoinedStarts(below);
    if pos == 0 {
      buffer[1] := 0;
      newLen := 1;
    } else {
      assert pos == cut;
      buffer[pos] := 0;
      newLen := pos;
    }
  }

  lemma JoinedStarts(stack: seq<seq<Byte>>)
    ensures stack == [] <==> Joined(stack) == []
    ensures stack != [] ==> Joined(stack)[0] == SLASH
  {}

  /** Appending a component, if it fits. */
  method Append(buffer: array<Byte>, len: nat, name: seq<Byte>, buffsize: nat, ghost stack: seq<seq<Byte>>)
    returns (ok: bool, newLen: nat)
    requires Names(stack) && IsName(name) && Holds(buffer[..], len, Render(stack)) && buffsize <= buffer.Length && len == |Render(stack)|
    modifies buffer
    ensures ok <==> |Render(stack + [name])| < buffsize
    ensures ok ==> newLen == |Render(stack + [name])| && Holds(buffer[..], newLen, Render(stack + [name]))
    ensures SameFrom(old(buffer[..]), buffer[..], buffsize)
  {
    JoinedLast(stack, name);
    RootIsShortest(stack);
    newLen := len;
    if newLen > 1 {
      if newLen + 1 >= buffsize { return false, newLen; }
      buffer[newLen] := SLASH;
      newLen := newLen + 1;
    }
    if newLen + |name| >= buffsize { return false, newLen; }
    ghost var front := buffer[..newLen];
    var i := 0;
    while i < |name|
      invariant 0 <= i <= |name| && newLen == |front| + i && buffer[..newLen] == front + name[..i]
      invariant SameFrom(old(buffer[..]), buffer[..], buffsize)
    {
      buffer[newLen] := name[i];
      newLen := newLen + 1;
      i := i + 1;
    }
    buffer[newLen] := 0;
    ok := true;
  }

  /** What a component does to the buffer. */
  method EnterPart(buffer: array<Byte>, len: nat, name: seq<Byte>, buffsize: nat, ghost stack: seq<seq<Byte>>)
    returns (ok: bool, newLen: nat)
    requires Names(stack) && IsPart(name) && Holds(buffer[..], len, Render(stack)) && buffsize <= buffer.Length
    requires stack == [] || len < buffsize
    modifies buffer
    ensures var next := Enter(stack, name);
      && (ok <==> |next| <= |stack| || |Render(next)| < buffsize)
      && (ok ==> newLen == |Render(next)| && Holds(buffer[..], newLen, Render(next)) && (next == [] || newLen < buffsize))
    ensures SameFrom(old(buffer[..]), buffer[..], buffsize)
  {
    hide Render, Names;
    ok, newLen := true, len;
    assert len == |Render(stack)|;
    if name == [DOT] {
    } else if name == [DOT, DOT] {
      RootIsShortest(stack);
      if len > 1 { newLen := Up(buffer, len, stack); }
    } else {
      ok, newLen := Append(buffer, len, name, buffsize, stack);
    }
  }

  /** A slash at the end, other than the root's, is cut off. */
  method StripSlash(buffer: array<Byte>, len: nat, ghost path: seq<Byte>)
    requires path != [] && Holds(buffer[..], len, path)
    modifies buffer
    ensures var stripped := if |path| > 1 && path[|path| - 1] == SLASH then path[..|path| - 1] else path;
      Holds(buffer[..], |stripped|, stripped)
    ensures SameFrom(old(buffer[..]), buffer[..], len)
  {
    assert buffer[len - 1] == buffer[..len][len - 1];
    if len > 1 && buffer[len - 1] == SLASH {
      buffer[len - 1] := 0;
      assert buffer[..len - 1] == path[..len - 1];
    }
  }

  lemma RootIsShortest(stack: seq<seq<Byte>>)
    requires Names(stack)
    ensures |Render(stack)| >= 1 && (|Render(stack)| == 1 <==> stack == [])
  {
    if stack != [] { assert IsName(stack[0]); }
  }

  method SkipSeparators(path: seq<Byte>, start: nat) returns (p: nat)
    requires start <= |path|
    ensures start <= p <= |path| && Skip(path[start..]) == Skip(path[p..]) == path[p..]
  {
    p := start;
    while p < |path| && Separator(path[p])
      invariant start <= p <= |path| && Skip(path[p..]) == Skip(path[start..])
    {
      assert path[p..][1..] == path[p + 1..];
      p := p + 1;
    }
  }

  method TakeName(path: seq<Byte>, from: nat) returns (p: nat)
    requires from < |path| && !Separator(path[from])
    ensures from < p <= |path| && NameLength(path[from..], 0) == p - from
  {
    p := from;
    var compLen := 0;
    while p < |path| && !Separator(path[p]) && compLen < 255
      invariant compLen <= 255 && p == from + compLen <= |path| && (compLen == 0 ==> p == from)
      invariant NameLength(path[from..], compLen) == NameLength(path[from..], 0)
    {
      p := p + 1;
      compLen := compLen + 1;
    }
  }

  /** xtNormalizePath */
  method NormalizePath(path: CString, buffer: array<Byte>, buffsize: nat) returns (r: XTResult)
    requires buffsize <= buffer.Length && (buffsize == 1 ==> 2 <= buffer.Length)
    modifies buffer
    ensures r == XT_INVALID_PARAMETER <==> buffsize == 0 || path == [] || !Separator(path[0])
    ensures r != XT_INVALID_PARAMETER ==>
      r == if Normalize(path, buffsize).Stack? then XT_SUCCESS else XT_OUT_OF_BOUNDARY
    ensures r == XT_SUCCESS ==>
      var result := Render(Normalize(path, buffsize).names);
      Holds(buffer[..], |result|, result) && (|result| < buffsize || (buffsize == 1 && result == [SLASH]))
    ensures r == XT_INVALID_PARAMETER ==> buffer[..] == old(buffer[..])
    ensures SameFrom(old(buffer[..]), buffer[..], if buffsize == 1 then 2 else buffsize)
  {
    hide Render, Names, Walk, Parts, Enter, Joined, Skip, NameLength, IsPart;
    if buffsize == 0 { return XT_INVALID_PARAMETER; }
    if path == [] || (path[0] != SLASH && path[0] != BACKSLASH) { return XT_INVALID_PARAMETER; }
    buffer[0] := SLASH;
    buffer[1] := 0;
    var len := 1;
    ghost var stack: seq<seq<Byte>> := [];
    var p := 0;
    Start(path, buffsize);
    while p < |path|
      invariant 0 <= p <= |path| && Names(stack) && len == |Render(stack)| && Holds(buffer[..], len, Render(stack))
      invariant stack == [] || len < buffsize
      invariant Walk(stack, Parts(path[p..]), buffsize) == Normalize(path, buffsize)
      invariant SameFrom(old(buffer[..]), buffer[..], if buffsize == 1 then 2 else buffsize)
    {
      ghost var start := p;
      p := SkipSeparators(path, p);
      SkipOnly(path[p..], path[start..]);
      if p == |path| { break; }
      var from := p;
      p := TakeName(path, p);
      var name := path[from..p];
      NextPart(path, start, from, p, stack, buffsize);
      var ok;
      ok, len := EnterPart(buffer, len, name, buffsize, stack);
      if !ok { return XT_OUT_OF_BOUNDARY; }
      stack := Enter(stack, name);
    }
    Finish(path, p, stack, buffsize);
    RootIsShortest(stack);
    StripSlash(buffer, len, Render(stack));
    return XT_SUCCESS;
  }

  lemma Start(path: seq<Byte>, size: nat)
    ensures Names([]) && Render([]) == [SLASH] && path[0..] == path
    ensures Walk([], Parts(path), size) == Normalize(path, size)
  {}

  /** One turn of the loop. */
  lemma NextPart(path: seq<Byte>, start: nat, from: nat, p: nat, stack: seq<seq<Byte>>, size: nat)
    requires start <= from < p <= |path| && Skip(path[start..]) == path[from..] && Names(stack)
    requires NameLength(path[from..], 0) == p - from
    ensures var name, next := path[from..p], Enter(stack, path[from..p]);
      && IsPart(name) && Names(next)
      && Walk(stack, Parts(path[start..]), size)
         == if |next| > |stack| && |Render(next)| >= size then TooLong else Walk(next, Parts(path[p..]), size)
  {
    FirstPart(path, start, from, p);
    hide *;
    EnterKeepsNames(stack, path[from..p]);
    WalkStep(stack, path[from..p], Parts(path[p..]), size);
  }

  lemma FirstPart(path: seq<Byte>, start: nat, from: nat, p: nat)
    requires start <= from < p <= |path| && Skip(path[start..]) == path[from..]
    requires NameLength(path[from..], 0) == p - from
    ensures IsPart(path[from..p]) && Parts(path[start..]) == [path[from..p]] + Parts(path[p..])
  {
    var q, name := path[from..], path[from..p];
    assert q[..p - from] == name && q[p - from..] == path[p..];
    assert forall k :: 0 <= k < p - from ==> q[k] == name[k];
  }

  lemma WalkStep(stack: seq<seq<Byte>>, part: seq<Byte>, parts: seq<seq<Byte>>, size: nat)
    ensures var next := Enter(stack, part);
      Walk(stack, [part] + parts, size)
        == if |next| > |stack| && |Render(next)| >= size then TooLong else Walk(next, parts, size)
  {
    hide Render, Enter;
    assert ([part] + parts)[1..] == parts;
  }

  lemma SkipOnly(x: seq<Byte>, y: seq<Byte>)
    requires Skip(x) == Skip(y)
    ensures Parts(x) == Parts(y)
  {}

  lemma Finish(path: seq<Byte>, p: nat, stack: seq<seq<Byte>>, size: nat)
    requires p <= |path| && Names(stack) && Skip(path[p..]) == []
    ensures Walk(stack, Parts(path[p..]), size) == Stack(stack)
    ensures |Render(stack)| > 1 ==> Render(stack)[|Render(stack)| - 1] != SLASH
  {
    if stack != [] { JoinedIsNormal(stack); }
  }
}
