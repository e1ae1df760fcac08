/** The ring buffer of a pipe: xtkernel/pipe.c. */
module Pipe {
  import opened Bits
  import opened Bytes
  import opened Results

  function Min(a: nat, b: nat): nat { if a < b then a else b }

  // ----- The contents of a pipe -----

  /** Appending to the contents. A chunk that fills the ring makes head and tail meet, which means empty. */
  function Appended(contents: seq<Byte>, size: nat, chunk: seq<Byte>): seq<Byte> {
    if |contents| + |chunk| < size then contents + chunk else []
  }

  lemma AppendedIs(contents: seq<Byte>, size: nat, chunk: seq<Byte>)
    ensures Appended(contents, size, chunk) == if |contents| + |chunk| < size then contents + chunk else []
  {}

  datatype Step = Put(data: seq<Byte>) | Take(count: nat)

  /** A pipe with its history: everything accepted, everything delivered, and how often the ring was filled. */
  datatype Stream = Stream(contents: seq<Byte>, written: seq<Byte>, delivered: seq<Byte>, fills: nat)

  /** One chunk of a writer or of a reader. */
  function Next(st: Stream, size: nat, step: Step): Stream
    requires |st.contents| < size
  {
    match step
    case Put(data) =>
      var chunk := data[..Min(|data|, size - |st.contents|)];
      Stream(Appended(st.contents, size, chunk), st.written + chunk, st.delivered,
             st.fills + if |st.contents| + |chunk| < size then 0 else 1)
    case Take(count) =>
      var n := Min(count, |st.contents|);
      Stream(st.contents[n..], st.written, st.delivered + st.contents[..n], st.fills)
  }

  /** What a chunk does to the contents. */
  function After(contents: seq<Byte>, size: nat, step: Step): seq<Byte>
    requires |contents| < size
  {
    Next(Stream(contents, [], [], 0), size, step).contents
  }

  /** Any interleaving of chunks. */
  function Run(size: nat, steps: seq<Step>): (st: Stream)
    requires size > 0
    ensures |st.contents| < size
    decreases |steps|
  {
    if steps == [] then Stream([], [], [], 0)
    else Next(Run(size, steps[..|steps| - 1]), size, steps[|steps| - 1])
  }

  /** Every filling has cost `size` bytes, and without one the ring has kept all bytes in order. */
  ghost predicate Conserved(st: Stream, size: nat) {
    && |st.written| == |st.delivered| + |st.contents| + st.fills * size
    && (st.fills == 0 ==> st.written == st.delivered + st.contents)
  }

  /** Each filling of the ring loses exactly its size in bytes; without one the pipe is a queue. */
  lemma {:induction false} RunConserves(size: nat, steps: seq<Step>)
    requires size > 0
    ensures Conserved(Run(size, steps), size)
    decreases |steps|
  {
    hide Next, Conserved;
    if steps != [] {
      RunConserves(size, steps[..|steps| - 1]);
      NextConserves(Run(size, steps[..|steps| - 1]), size, steps[|steps| - 1]);
    } else {
      NothingYet(size);
    }
  }

  lemma NothingYet(size: nat)
    ensures Conserved(Stream([], [], [], 0), size)
  {}

  lemma NextConserves(st: Stream, size: nat, step: Step)
    requires |st.contents| < size && Conserved(st, size)
    ensures Conserved(Next(st, size, step), size)
  {
    match step
    case Put(data) =>
      OneMore(st.fills, size);
      var chunk := data[..Min(|data|, size - |st.contents|)];
      assert st.delivered + st.contents + chunk == st.delivered + (st.contents + chunk);
    case Take(count) =>
      var n := Min(count, |st.contents|);
      assert st.delivered + st.contents == st.delivered + st.contents[..n] + st.contents[n..];
  }

  lemma OneMore(fills: nat, size: nat)
    ensures (fills + 1) * size == fills * size + size
  {}

  /** The bytes written are the bytes read followed by the bytes buffered exactly if the ring was never filled. */
  lemma FifoUnlessFilled(size: nat, steps: seq<Step>)
    requires size > 0
    ensures var st := Run(size, steps); st.written == st.delivered + st.contents <==> st.fills == 0
  {
    RunConserves(size, steps);
    var st := Run(size, steps);
    Losses(st.fills, size);
    assert st.written == st.delivered + st.contents ==> |st.written| == |st.delivered| + |st.contents|;
  }

  /** For instance, a chunk as long as the ring is lost as a whole. */
  lemma FilledOnce(size: nat, data: seq<Byte>)
    requires |data| == size > 0
    ensures var st := Run(size, [Put(data)]);
      st.fills == 1 && st.written == data && st.delivered == st.contents == [] && st.written != st.delivered + st.contents
  {
    assert [Put(data)][..0] == [];
    assert data[..size] == data;
  }

  lemma Losses(fills: nat, size: nat)
    ensures fills > 0 ==> fills * size >= size
  {}

  /** A whole write with no reader in between, chunk by chunk. */
  function Flooded(contents: seq<Byte>, size: nat, data: seq<Byte>): seq<Byte>
    requires |contents| < size
    decreases |data|
  {
    if data == [] then contents
    else
      var n := Min(|data|, size - |contents|);
      Flooded(Appended(contents, size, data[..n]), size, data[n..])
  }

  /** The last |all| mod size bytes. */
  function Remnant(all: seq<Byte>, size: nat): seq<Byte>
    requires size > 0
  {
    all[|all| - |all| % size..]
  }

  /** ... leaves just these. */
  lemma {:induction false} FloodedIs(contents: seq<Byte>, size: nat, data: seq<Byte>)
    requires |contents| < size
    ensures Flooded(contents, size, data) == Remnant(contents + data, size)
    decreases |data|
  {
    hide Remnant;
    var all := contents + data;
    if |all| < size {
      SmallRemnant(all, size);
      if data == [] {
        assert all == contents;
      } else {
        assert data[..|data|] == data && data[|data|..] == [];
        FloodedNone(all, size);
      }
    } else {
      var n := size - |contents|;
      FloodedIs([], size, data[n..]);
      assert [] + data[n..] == data[n..] == all[size..];
      DropRemnant(all, size);
    }
  }

  lemma FloodedNone(contents: seq<Byte>, size: nat)
    requires |contents| < size
    ensures Flooded(contents, size, []) == contents
  {}

  lemma SmallRemnant(all: seq<Byte>, size: nat)
    requires |all| < size
    ensures Remnant(all, size) == all
  {
    SmallMod(|all|, size);
  }

  lemma DropRemnant(all: seq<Byte>, size: nat)
    requires 0 < size <= |all|
    ensures Remnant(all, size) == Remnant(all[size..], size)
  {
    ModMinus(|all|, size);
    var k := |all| - |all| % size;
    assert all[size..][k - size..] == all[k..];
  }

  lemma SmallMod(x: nat, size: nat)
    requires x < size
    ensures x % size == x
  {}

  lemma ModMinus(x: nat, size: nat)
    requires 0 < size <= x
    ensures (x - size) % size == x % size <= x - size
  {
    var q, r := x / size, x % size;
    MulMinus(size, q);
    DivModUnique(x - size, size, q - 1, r);
  }

  lemma MulMinus(size: nat, q: nat)
    ensures size * (q - 1) == size * q - size
  {}

  // ----- The ring -----

  /** Position x, once around at most. */
  function Wrap(x: nat, size: nat): nat
    requires x < 2 * size
  {
    if x < size then x else x - size
  }

  /** The k-th cell from a position on. */
  function Cell(from: nat, k: nat, size: nat): (c: nat)
    requires from < size && k < size
    ensures c < size
  {
    Wrap(from + k, size)
  }

  lemma WrapIs(x: nat, size: nat)
    requires x < 2 * size
    ensures x % size == Wrap(x, size)
  {
    if x < size { SmallMod(x, size); } else { DivModUnique(x, size, 1, x - size); }
  }

  function RingUsed(size: nat, tail: nat, head: nat): nat
    requires tail < size && head < size
  {
    if head >= tail then head - tail else size - (tail - head)
  }

  /** The bytes from tail to head, around the end if need be. */
  function Ring(buf: seq<Byte>, tail: nat, head: nat): (c: seq<Byte>)
    requires tail < |buf| && head < |buf|
    ensures |c| == RingUsed(|buf|, tail, head)
  {
    if head >= tail then buf[tail..head] else buf[tail..] + buf[..head]
  }

  lemma RingAt(buf: seq<Byte>, tail: nat, head: nat, k: nat)
    requires tail < |buf| && head < |buf| && k < RingUsed(|buf|, tail, head)
    ensures Ring(buf, tail, head)[k] == buf[Cell(tail, k, |buf|)]
  {}

  lemma CellAfter(tail: nat, n: nat, k: nat, size: nat)
    requires tail < size && n + k < size
    ensures Cell(Wrap(tail + n, size), k, size) == Cell(tail, n + k, size)
  {}

  /** Where the k-th of some new bytes goes, no buffered byte lies, and the buffered bytes stay in place. */
  lemma PutRing(buf: seq<Byte>, new': seq<Byte>, tail: nat, head: nat, src: seq<Byte>)
    requires tail < |buf| == |new'| && head < |buf| && RingUsed(|buf|, tail, head) + |src| <= |buf|
    requires forall k :: 0 <= k < |src| ==> new'[Cell(head, k, |buf|)] == src[k]
    requires forall k :: 0 <= k < RingUsed(|buf|, tail, head) ==>
               new'[Cell(tail, k, |buf|)] == buf[Cell(tail, k, |buf|)]
    ensures Ring(new', tail, Wrap(head + |src|, |buf|)) == Appended(Ring(buf, tail, head), |buf|, src)
  {
    var used, head' := RingUsed(|buf|, tail, head), Wrap(head + |src|, |buf|);
    if used + |src| < |buf| {
      assert RingUsed(|buf|, tail, head') == used + |src|;
      var c, all := Ring(new', tail, head'), Ring(buf, tail, head) + src;
      forall k | 0 <= k < used + |src| ensures c[k] == all[k] {
        RingAt(new', tail, head', k);
        if k < used {
          RingAt(buf, tail, head, k);
        } else {
          assert Cell(tail, k, |buf|) == Cell(head, k - used, |buf|);
        }
      }
    }
  }

  lemma TakeRing(buf: seq<Byte>, tail: nat, head: nat, n: nat)
    requires tail < |buf| && head < |buf| && n <= RingUsed(|buf|, tail, head)
    ensures Ring(buf, Wrap(tail + n, |buf|), head) == Ring(buf, tail, head)[n..]
  {
    var tail' := Wrap(tail + n, |buf|);
    var c, d := Ring(buf, tail', head), Ring(buf, tail, head)[n..];
    assert |c| == |d|;
    hide Ring;
    forall k | 0 <= k < |d| ensures c[k] == d[k] {
      RingAt(buf, tail', head, k);
      RingAt(buf, tail, head, n + k);
      CellAfter(tail, n, k, |buf|);
    }
  }

  lemma FrontOfRing(buf: seq<Byte>, tail: nat, head: nat, n: nat)
    requires tail < |buf| && head < |buf| && n <= RingUsed(|buf|, tail, head)
    ensures var first := Min(|buf| - tail, n);
      Ring(buf, tail, head)[..n] == buf[tail..tail + first] + buf[..n - first]
  {
    hide Ring;
    var first := Min(|buf| - tail, n);
    var e, f := Ring(buf, tail, head)[..n], buf[tail..tail + first] + buf[..n - first];
    forall k | 0 <= k < n ensures e[k] == f[k] {
      RingAt(buf, tail, head, k);
    }
  }

  /** What the two copies of pipeWriteToBuffer do. */
  lemma Copied(buf: seq<Byte>, new': seq<Byte>, tail: nat, head: nat, src: seq<Byte>, first: nat)
    requires tail < |buf| && head < |buf| && RingUsed(|buf|, tail, head) + |src| <= |buf|
    requires first == Min(|buf| - head, |src|)
    requires new' == if |src| > first then Splice(Splice(buf, head, src[..first]), 0, src[first..])
                     else Splice(buf, head, src[..first])
    ensures |new'| == |buf|
    ensures forall k :: 0 <= k < |src| ==> new'[Cell(head, k, |buf|)] == src[k]
    ensures forall k :: 0 <= k < RingUsed(|buf|, tail, head) ==>
              new'[Cell(tail, k, |buf|)] == buf[Cell(tail, k, |buf|)]
  {
    hide Splice;
    forall k | 0 <= k < RingUsed(|buf|, tail, head) ensures new'[Cell(tail, k, |buf|)] == buf[Cell(tail, k, |buf|)] {
      var c := Cell(tail, k, |buf|);
      if head >= tail { assert tail <= c < head; } else { assert c >= tail || c < head; }
    }
  }

  // ----- The code -----

  class XTPipe {
    const buffer: array<Byte>
    var head: nat
    var tail: nat
    var writeClosed: bool
    var readClosed: bool

    predicate Valid()
      reads this
    {
      head < buffer.Length && tail < buffer.Length
    }

    /** The buffered bytes, oldest first. */
    ghost function Contents(): (c: seq<Byte>)
      requires Valid()
      reads this, buffer
      ensures |c| < buffer.Length
    {
      Ring(buffer[..], tail, head)
    }

    /** xtCreatePipe */
    constructor (bufferSize: nat)
      ensures Valid() && fresh(buffer) && buffer.Length == (if bufferSize == 0 then 4096 else bufferSize)
      ensures Contents() == [] && !writeClosed && !readClosed
    {
      buffer := new Byte[if bufferSize == 0 then 4096 else bufferSize];
      head, tail := 0, 0;
      writeClosed, readClosed := false, false;
    }

    /** pipeUsed */
    function Used(): (n: nat)
      requires Valid()
      reads this, buffer
      ensures n == |Contents()|
    {
      if head >= tail then head - tail else buffer.Length - (tail - head)
    }

    /** pipeFree: together with the used bytes, the whole buffer; so it is never zero. */
    function Free(): (n: nat)
      requires Valid()
      reads this, buffer
      ensures n + Used() == buffer.Length && n > 0
    {
      buffer.Length - Used()
    }

    /** pipeWriteToBuffer */
    method WriteToBuffer(src: seq<Byte>) returns (count: nat)
      requires Valid()
      modifies this`head, buffer
      ensures Valid() && count == Min(|src|, old(Free()))
      ensures Contents() == Appended(old(Contents()), buffer.Length, src[..count])
      ensures Contents() == if |old(Contents())| + count < buffer.Length then old(Contents()) + src[..count] else []
    {
      hide Ring, RingUsed, Wrap, Appended, Splice;
      AppendedIs(Contents(), buffer.Length, src[..Min(|src|, Free())]);
      ghost var before := buffer[..];
      count := |src|;
      var freeSpace := Free();
      if count > freeSpace { count := freeSpace; }
      var firstPart := buffer.Length - head;
      if firstPart > count { firstPart := count; }
      Write(buffer, head, src[..firstPart]);
      if count > firstPart {
        Write(buffer, 0, src[firstPart..count]);
      }
      Copied(before, buffer[..], tail, head, src[..count], firstPart);
      PutRing(before, buffer[..], tail, head, src[..count]);
      WrapIs(head + count, buffer.Length);
      head := (head + count) % buffer.Length;
    }

    /** pipeReadFromBuffer */
    method ReadFromBuffer(limit: nat) returns (data: seq<Byte>)
      requires Valid()
      modifies this`tail
      ensures Valid() && buffer[..] == old(buffer[..])
      ensures data == old(Contents())[..Min(limit, old(Used()))]
      ensures Contents() == old(Contents())[Min(limit, old(Used()))..]
    {
      hide Ring, Wrap;
      var used := Used();
      if used == 0 { return []; }
      var count := limit;
      if count > used { count := used; }
      var firstPart := buffer.Length - tail;
      if firstPart > count { firstPart := count; }
      data := buffer[tail..tail + firstPart];
      if count > firstPart {
        data := data + buffer[..count - firstPart];
      }
      FrontOfRing(buffer[..], tail, head, count);
      TakeRing(buffer[..], tail, head, count);
      WrapIs(tail + count, buffer.Length);
      tail := (tail + count) % buffer.Length;
    }

    /** One turn of the loop of pipeWriteFile, under the lock. There is always a free byte, so a writer never waits. */
    method WriteTurn(src: seq<Byte>) returns (r: XTResult, wrote: nat)
      requires Valid()
      modifies this`head, buffer
      ensures Valid() && (r == XT_BROKEN_PIPE <==> readClosed || writeClosed) && (r == XT_BROKEN_PIPE || r == XT_SUCCESS)
      ensures r == XT_BROKEN_PIPE ==> wrote == 0 && head == old(head) && buffer[..] == old(buffer[..])
      ensures r == XT_SUCCESS ==>
        && wrote == Min(|src|, buffer.Length - |old(Contents())|) && (src != [] ==> wrote > 0)
        && Contents() == After(old(Contents()), buffer.Length, Put(src))
        && Contents() == if |old(Contents())| + wrote < buffer.Length then old(Contents()) + src[..wrote] else []
    {
      if readClosed || writeClosed { return XT_BROKEN_PIPE, 0; }
      var free := Free();
      var toWrite := if |src| < free then |src| else free;
      wrote := WriteToBuffer(src[..toWrite]);
      assert src[..toWrite][..wrote] == src[..wrote];
      r := XT_SUCCESS;
    }

    /** pipeWriteFile with no other thread in between: the pipe keeps the last bytes only, modulo its size. */
    method WriteFile(data: seq<Byte>) returns (r: XTResult, written: nat)
      requires Valid()
      modifies this`head, buffer
      ensures Valid() && (r == XT_BROKEN_PIPE <==> data != [] && (readClosed || writeClosed))
      ensures r == XT_BROKEN_PIPE || r == XT_SUCCESS
      ensures r == XT_BROKEN_PIPE ==> written == 0 && Contents() == old(Contents())
      ensures r == XT_SUCCESS ==> written == |data|
      ensures r == XT_SUCCESS ==>
        Contents() == Remnant(old(Contents()) + data, buffer.Length)
    {
      hide Flooded, Appended, Remnant;
      written := 0;
      ghost var start := Contents();
      assert data[0..] == data;
      while written < |data|
        invariant Valid() && 0 <= written <= |data|
        invariant written == 0 ==> Contents() == start
        invariant written > 0 ==> !(readClosed || writeClosed)
        invariant Flooded(Contents(), buffer.Length, data[written..]) == Flooded(start, buffer.Length, data)
      {
        var wrote;
        FloodedStep(Contents(), buffer.Length, data[written..]);
        r, wrote := WriteTurn(data[written..]);
        if r == XT_BROKEN_PIPE { return; }
        assert data[written..][wrote..] == data[written + wrote..];
        written := written + wrote;
      }
      assert data[written..] == [];
      FloodedNone(Contents(), buffer.Length);
      FloodedIs(start, buffer.Length, data);
      r := XT_SUCCESS;
    }

    /** One turn of the loop of pipeReadFile, which ends it unless the reader has to wait. At the end of the stream
        and for a reader that does not block, nothing is read. */
    method ReadTurn(limit: nat, nonBlock: bool) returns (turn: Turn, data: seq<Byte>)
      requires Valid() && limit > 0
      modifies this`tail
      ensures Valid() && buffer[..] == old(buffer[..])
      ensures turn == if readClosed then Done(XT_BROKEN_PIPE)
                      else if old(Contents()) != [] || writeClosed then Done(XT_SUCCESS)
                      else if nonBlock then Done(XT_WOULD_BLOCK) else Wait
      ensures data == if readClosed then [] else old(Contents())[..Min(limit, |old(Contents())|)]
      ensures Contents() == if readClosed then old(Contents()) else After(old(Contents()), buffer.Length, Take(limit))
      ensures !readClosed ==> data + Contents() == old(Contents())
    {
      data := [];
      if readClosed { return Done(XT_BROKEN_PIPE), data; }
      var used := Used();
      if used == 0 {
        if writeClosed { return Done(XT_SUCCESS), data; }
        if nonBlock { return Done(XT_WOULD_BLOCK), data; }
        return Wait, data;
      }
      var toRead := if limit < used then limit else used;
      data := ReadFromBuffer(toRead);
      turn := Done(XT_SUCCESS);
    }
  }

  datatype Turn = Done(result: XTResult) | Wait

  lemma FloodedStep(contents: seq<Byte>, size: nat, data: seq<Byte>)
    requires |contents| < size && data != []
    ensures var n := Min(|data|, size - |contents|);
      && |Appended(contents, size, data[..n])| < size && After(contents, size, Put(data)) == Appended(contents, size, data[..n])
      && Flooded(contents, size, data) == Flooded(Appended(contents, size, data[..n]), size, data[n..])
  {}
}
